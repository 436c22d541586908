/**
  The recursive-descent parser of vock/src/fuzz/prog_decode.rs (`P`), with its cursor and depth
  counter, proved to implement the grammar of `SyzText` and to terminate on every text.
 */
module SyzParser {
  import opened Prelude
  import opened SyzLayout
  import opened SyzText

  // ---- the grammar, one production at a time

  lemma ArgTooDeep(s: string, d: nat, unpack: string -> seq<byte>)
    requires d >= MAX_DEPTH
    ensures ParseArg(s, d, unpack) == (Nil, EatWs(s)[TokenLen(EatWs(s))..])
  {
  }

  lemma ArgNested(s: string, d: nat, unpack: string -> seq<byte>)
    requires d < MAX_DEPTH
    ensures ParseArg(s, d, unpack) == ParseInner(EatWs(s), d + 1, unpack)
  {
    hide ParseInner;
  }

  lemma InnerLabel(s: string, d: nat, unpack: string -> seq<byte>)
    requires HasLabel(s)
    ensures var r := ParseArg(AfterBody(s[1..], '>'), d, unpack);
            var slot := LabelSlot(s[1..][..BodyLen(s[1..], '>') - 1]);
            ParseInner(s, d, unpack) == (if slot.Some? then Out(slot.value, r.0) else r.0, r.1)
  {
    hide ParseArg, BodyLen, AfterBody, LabelSlot, ParseList, ParsePtr, ParseWord;
  }

  lemma InnerPtr(s: string, d: nat, unpack: string -> seq<byte>)
    requires Peek(s) == '&'
    ensures ParseInner(s, d, unpack) == ParsePtr(s[1..], d, unpack)
  {
    hide ParseArg, ParsePtr, ParseList, ParseWord;
  }

  /** The target after a pointer's `=`: `nil` stands for none. */
  ghost function PtrTarget(s: string, d: nat, unpack: string -> seq<byte>): (r: (Option<Arg>, string))
  {
    var u := EatWs(s);
    var v := if StartsWith(u, "ANY=") then u[4..] else u;
    if StartsWith(v, "nil") then (None, v[3..])
    else var (inner, rest) := ParseArg(v, d, unpack); (Some(inner), rest)
  }

  lemma PtrSplit(s: string, d: nat, unpack: string -> seq<byte>)
    ensures var (addr, t0) := PtrAddr(s);
            var t := EatWs(t0);
            ParsePtr(s, d, unpack) ==
            if Peek(t) == '=' then (Ptr(addr, PtrTarget(t[1..], d, unpack).0), PtrTarget(t[1..], d, unpack).1)
            else (Ptr(addr, None), t)
  {
    hide ParseArg, PtrAddr, EatWs;
  }

  lemma InnerList(s: string, d: nat, unpack: string -> seq<byte>, close: char)
    requires (Peek(s) == '{' && close == '}') || (Peek(s) == '[' && close == ']')
    ensures var r := ParseList(s[1..], close, d, unpack);
            ParseInner(s, d, unpack) == (if close == '}' then Struct(r.0) else Array(r.0), r.1)
  {
    hide ParseArg, ParsePtr, ParseList, ParseWord;
  }

  lemma InnerUnion(s: string, d: nat, unpack: string -> seq<byte>)
    requires Peek(s) == '@'
    ensures var t := EatWs(s[1..][NameLen(s[1..])..]);
            ParseInner(s, d, unpack) ==
            if Peek(t) == '=' then (Union(ParseArg(t[1..], d, unpack).0), ParseArg(t[1..], d, unpack).1) else (Nil, t)
  {
    hide ParseArg, ParsePtr, ParseList, ParseWord, NameLen, EatWs;
  }

  lemma InnerData(s: string, d: nat, unpack: string -> seq<byte>, quote: char)
    requires Peek(s) == quote && (quote == '"' || quote == '\'')
    ensures var raw := s[1..][..BodyLen(s[1..], quote)];
            ParseInner(s, d, unpack)
            == (Data(if quote == '"' then HexLiteral(raw, unpack) else Unescape(raw)), SkipSize(AfterBody(s[1..], quote)))
  {
    hide ParseArg, ParsePtr, ParseList, ParseWord, BodyLen, AfterBody, HexLiteral, Unescape, SkipSize;
  }

  predicate Special(c: char)
  {
    c == '&' || c == '{' || c == '[' || c == '@' || c == '"' || c == '\''
  }

  lemma InnerWord(s: string, d: nat, unpack: string -> seq<byte>)
    requires !HasLabel(s) && !Special(Peek(s))
    ensures ParseInner(s, d, unpack) == ParseWord(s)
  {
    hide ParseArg, ParsePtr, ParseList, ParseWord, HasLabel;
  }

  /** How the list grammar continues after one argument. */
  lemma ListStep(s0: string, close: char, d: nat, unpack: string -> seq<byte>)
    requires var s := EatWs(s0); s != [] && s[0] != close
    ensures var s := EatWs(s0);
            var (a, r1) := ParseArg(s, d, unpack);
            var t := EatWs(r1);
            var u := if Peek(t) == ',' then t[1..] else if |t| == |s| then t[1..] else t;
            ParseList(s0, close, d, unpack) ==
            if Peek(t) != ',' && Peek(t) == close then ([a], if t == [] then [] else t[1..])
            else ([a] + ParseList(u, close, d, unpack).0, ParseList(u, close, d, unpack).1)
  {
    hide ParseArg, EatWs;
  }

  lemma ListStop(s0: string, close: char, d: nat, unpack: string -> seq<byte>)
    ensures EatWs(s0) == [] ==> ParseList(s0, close, d, unpack) == ([], [])
    ensures EatWs(s0) != [] && EatWs(s0)[0] == close ==> ParseList(s0, close, d, unpack) == ([], EatWs(s0)[1..])
  {
    hide ParseArg, EatWs;
  }

  /** Having read `out`, the parser is left with `text` of a list that reads as `whole`. */
  ghost predicate Reading(whole: (seq<Arg>, string), out: seq<Arg>, text: string, close: char, d: nat,
                          unpack: string -> seq<byte>)
  {
    whole.0 == out + ParseList(text, close, d, unpack).0 && whole.1 == ParseList(text, close, d, unpack).1
  }

  lemma ReadingStarts(text: string, close: char, d: nat, unpack: string -> seq<byte>)
    ensures Reading(ParseList(text, close, d, unpack), [], text, close, d, unpack)
  {
    hide ParseList;
  }

  lemma ReadingStops(whole: (seq<Arg>, string), out: seq<Arg>, text: string, close: char, d: nat,
                     unpack: string -> seq<byte>)
    requires Reading(whole, out, text, close, d, unpack)
    ensures EatWs(text) == [] ==> whole == (out, [])
    ensures EatWs(text) != [] && EatWs(text)[0] == close ==> whole == (out, EatWs(text)[1..])
  {
    hide ParseList, EatWs;
    ListStop(text, close, d, unpack);
    assert out + [] == out;
  }

  /** The text after one round of the list loop, and whether another round follows. */
  ghost function AfterElement(s: string, close: char, d: nat, unpack: string -> seq<byte>): (r: (Arg, bool, string))
    requires s != []
  {
    var (a, r1) := ParseArg(s, d, unpack);
    var t := EatWs(r1);
    if Peek(t) == ',' then (a, true, t[1..])
    else if Peek(t) == close then (a, false, if t == [] then [] else t[1..])
    else (a, true, if |t| == |s| then t[1..] else t)
  }

  lemma ReadingElement(whole: (seq<Arg>, string), out: seq<Arg>, text: string, close: char, d: nat,
                       unpack: string -> seq<byte>)
    requires Reading(whole, out, text, close, d, unpack) && EatWs(text) != [] && EatWs(text)[0] != close
    ensures var (a, more, rest) := AfterElement(EatWs(text), close, d, unpack);
            if more then Reading(whole, out + [a], rest, close, d, unpack) else whole == (out + [a], rest)
  {
    hide ParseList, ParseArg, EatWs;
    ListStep(text, close, d, unpack);
    var (a, more, rest) := AfterElement(EatWs(text), close, d, unpack);
    var fs := ParseList(rest, close, d, unpack).0;
    assert out + ([a] + fs) == (out + [a]) + fs;
  }

  lemma BodyStep(s: string, close: char)
    ensures s == [] || s[0] == close ==> BodyLen(s, close) == 0
    ensures s != [] && s[0] != close ==>
              BodyLen(s, close) == if s[0] == '\\' && |s| > 1 then 2 + BodyLen(s[2..], close) else 1 + BodyLen(s[1..], close)
  {
  }

  lemma TokenStep(s: string)
    ensures TokenLen(s) == if s == [] || IsSep(s[0]) then 0 else 1 + TokenLen(s[1..])
  {
  }

  lemma NameStep(s: string)
    ensures NameLen(s) == if s == [] || s[0] == '=' || IsSep(s[0]) then 0 else 1 + NameLen(s[1..])
  {
  }

  class Parser {
    const s: string
    const unpack: string -> seq<byte>
    var i: nat
    var depth: nat

    constructor (s: string, unpack: string -> seq<byte>)
      ensures this.s == s && this.unpack == unpack && i == 0 && depth == 0
    {
      this.s, this.unpack := s, unpack;
      i, depth := 0, 0;
    }

    /** The text that is left. */
    ghost function Rest(): (r: string)
      reads this
    {
      if i <= |s| then s[i..] else []
    }

    /** The character at the cursor, NUL at the end. */
    function At(): (c: char)
      reads this
      requires i <= |s|
      ensures c == Peek(Rest())
    {
      if i < |s| then s[i] else '\0'
    }

    /** Moving the cursor over `n` characters. */
    lemma Moved(n: nat)
      requires i + n <= |s|
      ensures s[i + n..] == s[i..][n..] && s[i..i + n] == s[i..][..n]
    {
    }

    method SkipWs()
      requires i <= |s|
      modifies this`i
      ensures old(i) <= i <= |s| && Rest() == EatWs(old(Rest()))
    {
      while i < |s| && IsWs(s[i])
        invariant old(i) <= i <= |s| && EatWs(Rest()) == EatWs(old(Rest()))
      {
        Moved(1);
        i := i + 1;
      }
    }

    method Eat(c: char) returns (ok: bool)
      requires i <= |s| && c != '\0'
      modifies this`i
      ensures old(i) <= i <= |s|
      ensures var t := EatWs(old(Rest()));
              ok == (Peek(t) == c) && Rest() == (if ok then t[1..] else t)
    {
      SkipWs();
      if At() == c {
        Moved(1);
        i := i + 1;
        ok := true;
      } else {
        ok := false;
      }
    }

    predicate Looking(p: string)
      reads this
      requires i <= |s|
    {
      p <= s[i..]
    }

    /** Skip to the next separator. */
    method SkipToken()
      requires i <= |s|
      modifies this`i
      ensures i == old(i) + TokenLen(old(Rest())) <= |s|
      ensures Rest() == old(Rest())[TokenLen(old(Rest()))..] && s[old(i)..i] == old(Rest())[..TokenLen(old(Rest()))]
    {
      hide TokenLen, IsSep;
      var start := i;
      while i < |s| && !IsSep(s[i])
        invariant start <= i <= |s| && i + TokenLen(s[i..]) == start + TokenLen(s[start..])
      {
        TokenStep(s[i..]);
        assert s[i..][1..] == s[i + 1..];
        i := i + 1;
      }
      TokenStep(s[i..]);
      assert s[start..][i - start..] == s[i..] && s[start..][..i - start] == s[start..i];
    }

    /** `until`: the body before `close`, with the cursor left after it. */
    method Until(close: char) returns (body: string)
      requires i <= |s|
      modifies this`i
      ensures old(i) <= i <= |s|
      ensures body == old(Rest())[..BodyLen(old(Rest()), close)] && Rest() == AfterBody(old(Rest()), close)
    {
      hide BodyLen;
      var start := i;
      while i < |s| && s[i] != close
        invariant start <= i <= |s| && i + BodyLen(s[i..], close) == start + BodyLen(s[start..], close)
        decreases |s| - i
      {
        BodyStep(s[i..], close);
        assert s[i..][1..] == s[i + 1..];
        if s[i] == '\\' && i + 1 < |s| {
          assert s[i..][2..] == s[i + 2..];
          i := i + 2;
          continue;
        }
        i := i + 1;
      }
      BodyStep(s[i..], close);
      body := s[start..i];
      assert s[start..][..i - start] == body;
      if i < |s| {
        assert s[start..][i - start + 1..] == s[i + 1..];
        i := i + 1;
      }
    }

    method OptSizeSuffix()
      requires i <= |s|
      modifies this`i
      ensures old(i) <= i <= |s| && Rest() == SkipSize(old(Rest()))
    {
      if At() == '/' {
        Moved(1);
        i := i + 1;
        SkipToken();
      }
    }

    method Word() returns (a: Arg)
      requires i <= |s|
      modifies this`i
      ensures old(i) <= i <= |s| && (a, Rest()) == ParseWord(old(Rest()))
    {
      hide TokenArg, EatWs, Trim, TokenLen;
      SkipWs();
      var start := i;
      SkipToken();
      var w := Trim(s[start..i]);
      if w == [] {
        if i < |s| {
          assert s[start..][i - start + 1..] == s[i + 1..];
          i := i + 1;
        }
        a := Nil;
      } else {
        a := TokenArg(w);
      }
    }

    /** `arg`: the depth counter is back where it was; too deep an argument is skipped. */
    method Arg() returns (a: Arg)
      requires i <= |s|
      modifies this`i, this`depth
      ensures old(i) <= i <= |s| && depth == old(depth)
      ensures (a, Rest()) == ParseArg(old(Rest()), depth, unpack)
      decreases |Rest()|, 2, 0
    {
      hide EatWs, ParseInner, ParseArg, TokenLen;
      ghost var text := Rest();
      SkipWs();
      if depth >= MAX_DEPTH {
        ArgTooDeep(text, depth, unpack);
        SkipToken();
        return Nil;
      }
      ArgNested(text, depth, unpack);
      depth := depth + 1;
      a := ArgInner();
      depth := depth - 1;
    }

    method ArgInner() returns (a: Arg)
      requires i <= |s|
      modifies this`i, this`depth
      ensures old(i) <= i <= |s| && depth == old(depth)
      ensures (a, Rest()) == ParseInner(old(Rest()), depth, unpack)
      decreases |Rest()|, 1
    {
      hide EatWs, ParseInner, ParseArg, ParseList, ParsePtr, ParseWord, BodyLen, AfterBody, HexLiteral, Unescape, SkipSize,
           NameLen, LabelSlot, HasLabel;
      var labelled := TryLabel();
      if labelled.Some? {
        return labelled.value;
      }
      ghost var text := Rest();
      if !Special(At()) {
        InnerWord(text, depth, unpack);
        a := Word();
        return;
      }
      var c := At();
      Moved(1);
      i := i + 1;
      match c {
        case '&' =>
          InnerPtr(text, depth, unpack);
          a := Ptr();
        case '{' =>
          InnerList(text, depth, unpack, '}');
          var fs := List('}');
          a := Struct(fs);
        case '[' =>
          InnerList(text, depth, unpack, ']');
          var fs := List(']');
          a := Array(fs);
        case '@' =>
          InnerUnion(text, depth, unpack);
          a := Choice();
        case _ =>
          InnerData(text, depth, unpack, c);
          var raw := Until(c);
          OptSizeSuffix();
          a := Data(if c == '"' then HexLiteral(raw, unpack) else Unescape(raw));
      }
    }

    /** `<rN=>arg`; the cursor is restored if this is no label. */
    method TryLabel() returns (r: Option<Arg>)
      requires i <= |s|
      modifies this`i, this`depth
      ensures old(i) <= i <= |s| && depth == old(depth)
      ensures r.Some? <==> HasLabel(old(Rest()))
      ensures r.None? ==> i == old(i)
      ensures r.Some? ==> (r.value, Rest()) == ParseInner(old(Rest()), depth, unpack)
      decreases |Rest()|, 0
    {
      hide ParseInner, ParseArg, BodyLen, AfterBody, LabelSlot;
      r := None;
      if At() == '<' {
        ghost var text := Rest();
        var save := i;
        Moved(1);
        i := i + 1;
        var lbl := Until('>');
        if lbl != [] && lbl[|lbl| - 1] == '=' {
          var slot := LabelSlot(lbl[..|lbl| - 1]);
          assert lbl[..|lbl| - 1] == text[1..][..|lbl| - 1];
          InnerLabel(text, depth, unpack);
          var inner := Arg();
          return Some(if slot.Some? then Out(slot.value, inner) else inner);
        }
        i := save;
      }
    }

    /** The rest of `@name=arg`, with the cursor after the `@`. */
    method Choice() returns (a: Arg)
      requires i <= |s|
      modifies this`i, this`depth
      ensures old(i) <= i <= |s| && depth == old(depth)
      ensures var t := EatWs(old(Rest())[NameLen(old(Rest()))..]);
              (a, Rest()) == if Peek(t) == '='
                             then (Union(ParseArg(t[1..], depth, unpack).0), ParseArg(t[1..], depth, unpack).1)
                             else (Nil, t)
      decreases |Rest()|, 3
    {
      hide ParseArg, NameLen, EatWs, Peek;
      SkipName();
      var ok := Eat('=');
      if ok {
        var c := Arg();
        a := Union(c);
      } else {
        a := Nil;
      }
    }

    method SkipName()
      requires i <= |s|
      modifies this`i
      ensures old(i) <= i <= |s| && Rest() == old(Rest())[NameLen(old(Rest()))..]
    {
      hide NameLen, IsSep;
      var start := i;
      while i < |s| && s[i] != '=' && !IsSep(s[i])
        invariant start <= i <= |s| && i + NameLen(s[i..]) == start + NameLen(s[start..])
      {
        NameStep(s[i..]);
        assert s[i..][1..] == s[i + 1..];
        i := i + 1;
      }
      NameStep(s[i..]);
      assert s[start..][i - start..] == s[i..];
    }

    /** `ptr`, with the cursor after the `&`. */
    method Ptr() returns (a: Arg)
      requires i <= |s|
      modifies this`i, this`depth
      ensures old(i) <= i <= |s| && depth == old(depth)
      ensures (a, Rest()) == ParsePtr(old(Rest()), depth, unpack)
      decreases |Rest()|, 4
    {
      hide EatWs, ParseArg, ParsePtr, PtrAddr, Peek, PtrTarget;
      PtrSplit(Rest(), depth, unpack);
      var addr := Address();
      var ok := Eat('=');
      if ok {
        var target := Target();
        a := SyzLayout.Ptr(addr, target);
      } else {
        a := SyzLayout.Ptr(addr, None);
      }
    }

    /** What follows the `=` of a pointer. */
    method Target() returns (r: Option<Arg>)
      requires i <= |s|
      modifies this`i, this`depth
      ensures old(i) <= i <= |s| && depth == old(depth)
      ensures (r, Rest()) == PtrTarget(old(Rest()), depth, unpack)
      decreases |Rest()|, 3
    {
      hide EatWs, ParseArg;
      SkipWs();
      if Looking("ANY=") {
        Moved(4);
        i := i + 4;
      }
      if Looking("nil") {
        Moved(3);
        i := i + 3;
        r := None;
      } else {
        var inner := Arg();
        r := Some(inner);
      }
    }

    method Address() returns (addr: u64)
      requires i <= |s|
      modifies this`i
      ensures old(i) <= i <= |s| && (addr, Rest()) == PtrAddr(old(Rest()))
    {
      hide EatWs, BodyLen, AfterBody, ParseInt, BeforeSlash, TrimEnd;
      addr := 0;
      if Looking("AUTO") {
        Moved(4);
        i := i + 4;
        addr := AUTO_ADDR;
      } else {
        var ok := Eat('(');
        if ok {
          var body := Until(')');
          var v := ParseInt(Trim(BeforeSlash(body)));
          var text := if v.Some? then v.value else ENCODING_ADDR_BASE;
          addr := (text - ENCODING_ADDR_BASE) % U64;
        }
      }
    }

    /** `list`: the loop that bails out rather than spin when an argument makes no progress. */
    method List(close: char) returns (out: seq<Arg>)
      requires i <= |s|
      modifies this`i, this`depth
      ensures old(i) <= i && (close != '\0' ==> i <= |s|) && depth == old(depth)
      ensures (out, Rest()) == ParseList(old(Rest()), close, depth, unpack)
      decreases |Rest()|, 3
    {
      hide EatWs, ParseList, Reading, AfterElement;
      out := [];
      ghost var whole := ParseList(Rest(), close, depth, unpack);
      ReadingStarts(Rest(), close, depth, unpack);
      while true
        invariant old(i) <= i <= |s| && depth == old(depth)
        invariant Reading(whole, out, Rest(), close, depth, unpack)
        decreases |Rest()|
      {
        ReadingStops(whole, out, Rest(), close, depth, unpack);
        ghost var text := Rest();
        SkipWs();
        if i >= |s| {
          assert Rest() == [];
          return;
        }
        assert Rest()[0] == s[i];
        if At() == close {
          Moved(1);
          i := i + 1;
          return;
        }
        ReadingElement(whole, out, text, close, depth, unpack);
        var a, more := Element(close);
        out := out + [a];
        if !more {
          return;
        }
      }
    }

    /** One round of the list loop, at a character that is neither the end nor the closing one. */
    method Element(close: char) returns (a: Arg, more: bool)
      requires i < |s| && s[i] != close
      modifies this`i, this`depth
      ensures old(i) < i && depth == old(depth) && (more || close != '\0' ==> i <= |s|)
      ensures (a, more, Rest()) == AfterElement(old(Rest()), close, depth, unpack)
      decreases |Rest()|, 2, 1
    {
      hide EatWs, ParseArg;
      var before := i;
      a := Arg();
      SkipWs();
      more := At() == ',' || At() != close;
      if At() == ',' || At() == close {
        if i < |s| {
          Moved(1);
        }
        i := i + 1;
      } else if i == before {
        Moved(1);
        i := i + 1;
      }
    }
  }
}

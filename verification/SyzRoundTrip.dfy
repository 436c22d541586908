/**
  Printing argument trees in syzkaller's textual form, and the proof that parsing the text gives the
  tree back.
 */
module SyzRoundTrip {
  import opened Prelude
  import opened SyzLayout
  import opened SyzText

  // ---- printing

  function DigitChar(n: nat): (c: char)
    requires n < 16
    ensures Digit(c) == Some(n)
  {
    if n < 10 then ('0' as int + n) as char else ('a' as int + (n - 10)) as char
  }

  lemma Division(v: nat, radix: nat)
    requires (radix == 10 || radix == 16) && v >= radix
    ensures 0 <= v / radix < v && 0 <= v % radix < radix && Scaled(v / radix, radix) + v % radix == v
  {
    if radix == 10 {
      assert 10 * (v / 10) + v % 10 == v;
    } else {
      assert 16 * (v / 16) + v % 16 == v;
    }
  }

  /** Digits without leading zeros. */
  function Digits(v: nat, radix: nat): (s: string)
    requires radix == 10 || radix == 16
    ensures |s| > 0 && forall i :: 0 <= i < |s| ==> IsDigitOf(s[i], radix)
    decreases v
  {
    if v < radix then [DigitChar(v)]
    else
      Division(v, radix);
      Digits(v / radix, radix) + [DigitChar(v % radix)]
  }

  function Hex(v: nat): (s: string)
  {
    "0x" + Digits(v, 16)
  }

  function HexBytes(bs: seq<byte>): (s: string)
  {
    if bs == [] then [] else [DigitChar(bs[0] / 16), DigitChar(bs[0] % 16)] + HexBytes(bs[1..])
  }

  /** One optional part of a resource reference. */
  function Optional(v: nat, mark: char): (s: string)
  {
    if v == 0 then "" else [mark] + Hex(v)
  }

  function PrintAddr(addr: u64): (s: string)
  {
    if addr == AUTO_ADDR then "&AUTO" else "&(" + Hex((addr + ENCODING_ADDR_BASE) % U64) + ")"
  }

  /** The text of a tree; union options all carry the name `name`, which the tree does not record. */
  function Print(a: Arg, name: string): (s: string)
    decreases a, 0
  {
    match a
    case Int(v) => Hex(v)
    case Res(idx, div, add) =>
      "r" + (Digits(idx, 10) + (Optional(div, '/') + Optional(add, '+')))
    case Ptr(addr, None) => PrintAddr(addr) + "=nil"
    case Ptr(addr, Some(t)) => PrintAddr(addr) + ("=" + Print(t, name))
    case Data(bs) => "\"" + (HexBytes(bs) + "\"")
    case Struct(fs) => "{" + (PrintAll(fs, name) + "}")
    case Array(fs) => "[" + (PrintAll(fs, name) + "]")
    case Union(c) => "@" + (name + ("=" + Print(c, name)))
    case Csum => "csum"
    case Out(slot, inner) => "<r" + (Digits(slot, 10) + ("=>" + Print(inner, name)))
    case Nil => "nil"
  }

  /** Fields separated by a comma and a blank. */
  function PrintAll(fs: seq<Arg>, name: string): (s: string)
    decreases fs, 1
  {
    if fs == [] then ""
    else if |fs| == 1 then Print(fs[0], name)
    else Print(fs[0], name) + (", " + PrintAll(fs[1..], name))
  }

  // ---- the trees that can be written

  /** Slots are machine words. */
  ghost predicate Writable(a: Arg)
    decreases a, 0
  {
    match a
    case Res(idx, _, _) => idx < U64
    case Out(slot, inner) => slot < U64 && Writable(inner)
    case Ptr(_, Some(t)) => Writable(t)
    case Struct(fs) => AllWritable(fs)
    case Array(fs) => AllWritable(fs)
    case Union(c) => Writable(c)
    case _ => true
  }

  ghost predicate AllWritable(fs: seq<Arg>)
    decreases fs, 1
  {
    fs == [] || (Writable(fs[0]) && AllWritable(fs[1..]))
  }

  function Max(a: nat, b: nat): nat { if a < b then b else a }

  /** The tree with every nil pointee taken for a missing target. */
  ghost function Norm(a: Arg): (r: Arg)
    decreases a, 0
  {
    match a
    case Ptr(addr, Some(t)) => if t.Nil? then Ptr(addr, None) else Ptr(addr, Some(Norm(t)))
    case Struct(fs) => Struct(NormAll(fs))
    case Array(fs) => Array(NormAll(fs))
    case Union(c) => Union(Norm(c))
    case Out(slot, inner) => Out(slot, Norm(inner))
    case _ => a
  }

  ghost function NormAll(fs: seq<Arg>): (r: seq<Arg>)
    ensures |r| == |fs|
    decreases fs, 1
  {
    if fs == [] then [] else [Norm(fs[0])] + NormAll(fs[1..])
  }

  /** No pointer of the tree points to an explicit nil. */
  ghost predicate NoNilPointee(a: Arg)
    decreases a, 0
  {
    match a
    case Ptr(_, Some(t)) => !t.Nil? && NoNilPointee(t)
    case Struct(fs) => NoNilPointees(fs)
    case Array(fs) => NoNilPointees(fs)
    case Union(c) => NoNilPointee(c)
    case Out(_, inner) => NoNilPointee(inner)
    case _ => true
  }

  ghost predicate NoNilPointees(fs: seq<Arg>)
    decreases fs, 1
  {
    fs == [] || (NoNilPointee(fs[0]) && NoNilPointees(fs[1..]))
  }

  lemma NormOne(fs: seq<Arg>)
    requires |fs| == 1
    ensures NormAll(fs) == [Norm(fs[0])]
  {
    hide Norm;
    assert fs[1..] == [];
  }

  lemma {:induction false} NormIsSame(a: Arg)
    ensures Norm(a) == a <==> NoNilPointee(a)
    decreases a, 0
  {
    match a
    case Ptr(_, Some(t)) => NormIsSame(t);
    case Struct(fs) => NormAllIsSame(fs);
    case Array(fs) => NormAllIsSame(fs);
    case Union(c) => NormIsSame(c);
    case Out(_, inner) => NormIsSame(inner);
    case _ =>
  }

  lemma {:induction false} NormAllIsSame(fs: seq<Arg>)
    ensures NormAll(fs) == fs <==> NoNilPointees(fs)
    decreases fs, 1
  {
    hide Norm, NoNilPointee;
    if fs != [] {
      NormIsSame(fs[0]);
      NormAllIsSame(fs[1..]);
      assert NormAll(fs)[0] == Norm(fs[0]) && NormAll(fs)[1..] == NormAll(fs[1..]);
      assert fs == [fs[0]] + fs[1..];
    }
  }

  /** Nesting, counting the argument itself; `=nil` is not an argument of its own. */
  function Depth(a: Arg): (n: nat)
    ensures n >= 1
    decreases a, 0
  {
    match a
    case Ptr(_, Some(t)) => if t.Nil? then 1 else 1 + Depth(t)
    case Struct(fs) => 1 + DepthAll(fs)
    case Array(fs) => 1 + DepthAll(fs)
    case Union(c) => 1 + Depth(c)
    case Out(_, inner) => 1 + Depth(inner)
    case _ => 1
  }

  function DepthAll(fs: seq<Arg>): (n: nat)
    decreases fs, 1
  {
    if fs == [] then 0 else Max(Depth(fs[0]), DepthAll(fs[1..]))
  }

  /** An option name: no separators in it. */
  ghost predicate IsName(name: string)
  {
    forall i :: 0 <= i < |name| ==> !IsSep(name[i])
  }

  /** What may follow a printed argument. */
  predicate Follows(rest: string)
  {
    rest == [] || rest[0] == ',' || rest[0] == '}' || rest[0] == ']'
  }

  // ---- numbers read back

  lemma {:induction false} ValueOfDigits(v: nat, radix: nat)
    requires radix == 10 || radix == 16
    ensures Value(Digits(v, radix), radix) == v
    decreases v
  {
    var s := Digits(v, radix);
    var n := |s| - 1;
    if v < radix {
      assert s[..n] == [];
    } else {
      ValueOfDigits(v / radix, radix);
      assert s[..n] == Digits(v / radix, radix);
      Division(v, radix);
    }
  }

  /** Token characters: neither separators nor white space. */
  ghost predicate Solid(s: string)
  {
    forall i :: 0 <= i < |s| ==> !IsSep(s[i]) && !IsWs(s[i])
  }

  lemma DigitIsPlain(c: char, radix: nat)
    requires IsDigitOf(c, radix)
    ensures !IsSep(c) && !IsWs(c) && IsAlnum(c) && c != '+' && c != '-' && c != '\\' && c != '"' && c != '>' && c != ')'
    ensures c != '/' && c != 'x' && c != 'r' && c != '$'
  {
  }

  lemma DigitsSolid(v: nat, radix: nat)
    requires radix == 10 || radix == 16
    ensures Solid(Digits(v, radix)) && Digits(v, radix)[0] != '+'
  {
    var s := Digits(v, radix);
    forall i | 0 <= i < |s| ensures !IsSep(s[i]) && !IsWs(s[i]) && s[i] != '+' {
      DigitIsPlain(s[i], radix);
    }
  }

  lemma FromRadixDigits(v: nat, radix: nat)
    requires (radix == 10 || radix == 16) && v < U64
    ensures FromRadix(Digits(v, radix), radix) == Some(v)
  {
    DigitsSolid(v, radix);
    ValueOfDigits(v, radix);
  }

  lemma {:induction false} TrimSolid(s: string)
    requires Solid(s)
    ensures Trim(s) == s
  {
  }

  lemma HexReadBack(v: nat)
    requires v < U64
    ensures ParseInt(Hex(v)) == Some(v) && Solid(Hex(v))
  {
    hide Digits, Value;
    DigitsSolid(v, 16);
    TrimSolid(Hex(v));
    FromRadixDigits(v, 16);
    assert Hex(v)[2..] == Digits(v, 16);
  }

  lemma {:induction false} AlnumRun(a: string, rest: string)
    requires forall i :: 0 <= i < |a| ==> IsAlnum(a[i])
    requires rest == [] || !IsAlnum(rest[0])
    ensures AlnumLen(a + rest) == |a|
  {
    if a == [] {
      assert a + rest == rest;
    } else {
      AlnumRun(a[1..], rest);
      assert (a + rest)[1..] == a[1..] + rest;
    }
  }

  lemma {:induction false} DigitsRun(a: string, rest: string)
    requires forall i :: 0 <= i < |a| ==> IsDigitOf(a[i], 10)
    requires rest == [] || !IsDigitOf(rest[0], 10)
    ensures DigitsLen(a + rest) == |a|
  {
    if a == [] {
      assert a + rest == rest;
    } else {
      DigitsRun(a[1..], rest);
      assert (a + rest)[1..] == a[1..] + rest;
    }
  }

  lemma HexAlnum(v: nat)
    ensures forall i :: 0 <= i < |Hex(v)| ==> IsAlnum(Hex(v)[i])
  {
    hide Digits;
    var s := Digits(v, 16);
    forall i | 0 <= i < |s| ensures IsAlnum(s[i]) {
      DigitIsPlain(s[i], 16);
    }
  }

  lemma PartReadBack(v: nat, mark: char, rest: string)
    requires v < U64 && (rest == [] || (!IsAlnum(rest[0]) && rest[0] != mark))
    ensures Part(Optional(v, mark) + rest, mark) == (v, rest)
  {
    hide Hex, ParseInt;
    if v == 0 {
      assert Optional(v, mark) + rest == rest;
    } else {
      var s := Optional(v, mark) + rest;
      assert s[1..] == Hex(v) + rest;
      HexAlnum(v);
      AlnumRun(Hex(v), rest);
      HexReadBack(v);
      assert (Hex(v) + rest)[..|Hex(v)|] == Hex(v) && (Hex(v) + rest)[|Hex(v)|..] == rest;
    }
  }

  lemma ResReadBack(idx: nat, div: u64, add: u64)
    requires idx < U64
    ensures ParseResRef("r" + (Digits(idx, 10) + (Optional(div, '/') + Optional(add, '+')))) == Some(Res(idx, div, add))
  {
    hide Digits, Hex, FromRadix, Part;
    var tail := Optional(div, '/') + Optional(add, '+');
    var w := "r" + (Digits(idx, 10) + tail);
    assert w[1..] == Digits(idx, 10) + tail;
    DigitsRun(Digits(idx, 10), tail);
    var n := |Digits(idx, 10)|;
    assert w[1..][..n] == Digits(idx, 10) && w[1..][n..] == tail;
    FromRadixDigits(idx, 10);
    PartReadBack(div, '/', Optional(add, '+'));
    PartReadBack(add, '+', []);
    assert Optional(add, '+') + [] == Optional(add, '+');
  }

  // ---- tokens read back

  lemma {:induction false} TokenRun(w: string, rest: string)
    requires Solid(w) && (rest == [] || IsSep(rest[0]))
    ensures TokenLen(w + rest) == |w|
  {
    if w == [] {
      assert w + rest == rest;
    } else {
      TokenRun(w[1..], rest);
      assert (w + rest)[1..] == w[1..] + rest;
    }
  }

  lemma WordReadBack(w: string, rest: string)
    requires Solid(w) && w != [] && (rest == [] || IsSep(rest[0]))
    ensures ParseWord(w + rest) == (TokenArg(w), rest)
  {
    hide TokenArg;
    TokenRun(w, rest);
    TrimSolid(w);
    assert (w + rest)[..|w|] == w && (w + rest)[|w|..] == rest;
  }

  lemma OptionalSolid(v: nat, mark: char)
    requires v < U64 && !IsSep(mark) && !IsWs(mark)
    ensures Solid(Optional(v, mark))
  {
    hide Hex;
    HexReadBack(v);
  }

  // ---- trees read back

  /** The text of an argument starts with one of these, and with `n` only for nil. */
  predicate HeadChar(c: char)
  {
    c == '0' || c == 'r' || c == '&' || c == '"' || c == '{' || c == '[' || c == '@' || c == 'c' || c == '<' || c == 'n'
  }

  lemma PrintHead(a: Arg, name: string)
    ensures Print(a, name) != [] && HeadChar(Print(a, name)[0]) && !IsWs(Print(a, name)[0])
    ensures Print(a, name)[0] == 'n' ==> a.Nil?
  {
    hide Digits, HexBytes, PrintAll;
  }

  lemma {:induction false} BodyRun(a: string, close: char, rest: string)
    requires forall i :: 0 <= i < |a| ==> a[i] != close && a[i] != '\\'
    ensures BodyLen(a + ([close] + rest), close) == |a| && AfterBody(a + ([close] + rest), close) == rest
  {
    if a == [] {
      assert a + ([close] + rest) == [close] + rest;
    } else {
      BodyRun(a[1..], close, rest);
      assert (a + ([close] + rest))[1..] == a[1..] + ([close] + rest);
    }
  }

  lemma {:induction false} HexBytesPlain(bs: seq<byte>)
    ensures |HexBytes(bs)| == 2 * |bs| && forall i :: 0 <= i < |HexBytes(bs)| ==> IsDigitOf(HexBytes(bs)[i], 16)
  {
    if bs != [] {
      HexBytesPlain(bs[1..]);
    }
  }

  lemma {:induction false} HexPairsReadBack(bs: seq<byte>)
    ensures forall i :: 0 <= i < |HexBytes(bs)| ==> IsDigitOf(HexBytes(bs)[i], 16)
    ensures HexPairs(HexBytes(bs)) == bs
  {
    HexBytesPlain(bs);
    if bs != [] {
      HexPairsReadBack(bs[1..]);
      assert HexBytes(bs)[2..] == HexBytes(bs[1..]);
    }
  }

  lemma HexLiteralReadBack(bs: seq<byte>, unpack: string -> seq<byte>)
    ensures HexLiteral(HexBytes(bs), unpack) == bs
  {
    hide HexPairs, Digit;
    HexBytesPlain(bs);
    HexPairsReadBack(bs);
    if bs != [] {
      DigitIsPlain(HexBytes(bs)[0], 16);
    } else {
      assert HexBytes(bs) == [];
    }
  }

  lemma DataReadBack(bs: seq<byte>, rest: string, d: nat, unpack: string -> seq<byte>)
    requires Follows(rest)
    ensures ParseInner("\"" + (HexBytes(bs) + "\"") + rest, d, unpack) == (Data(bs), rest)
  {
    hide HexBytes, HexLiteral, BodyLen, ParseArg, ParseList, ParsePtr, ParseWord;
    var body := HexBytes(bs);
    var s := "\"" + (body + "\"") + rest;
    assert s[1..] == body + (['"'] + rest);
    HexBytesPlain(bs);
    forall i | 0 <= i < |body| ensures body[i] != '"' && body[i] != '\\' {
      DigitIsPlain(body[i], 16);
    }
    BodyRun(body, '"', rest);
    assert s[1..][..|body|] == body;
    HexLiteralReadBack(bs, unpack);
  }

  lemma TokenReadBack(w: string, rest: string, d: nat, unpack: string -> seq<byte>)
    requires Solid(w) && w != [] && Follows(rest) && (w[0] == '0' || w[0] == 'r' || w[0] == 'c' || w[0] == 'n')
    ensures ParseInner(w + rest, d, unpack) == (TokenArg(w), rest)
  {
    hide TokenArg, ParseWord, ParseArg, ParseList, ParsePtr, BodyLen;
    WordReadBack(w, rest);
  }

  lemma LeafReadBack(a: Arg, name: string, rest: string, d: nat, unpack: string -> seq<byte>)
    requires Follows(rest) && Writable(a) && (a.Int? || a.Res? || a.Csum? || a.Nil?)
    ensures ParseInner(Print(a, name) + rest, d, unpack) == (a, rest)
  {
    hide ParseInner, Digits, ParseResRef, ParseInt, Optional;
    match a
    case Int(v) =>
      HexReadBack(v);
      TokenReadBack(Hex(v), rest, d, unpack);
      NotResRef(Hex(v));
    case Res(idx, div, add) =>
      var w := "r" + (Digits(idx, 10) + (Optional(div, '/') + Optional(add, '+')));
      DigitsSolid(idx, 10);
      OptionalSolid(div, '/');
      OptionalSolid(add, '+');
      TokenReadBack(w, rest, d, unpack);
      ResReadBack(idx, div, add);
    case Csum => TokenReadBack("csum", rest, d, unpack);
    case Nil => TokenReadBack("nil", rest, d, unpack);
  }

  lemma NotResRef(w: string)
    requires w != [] && w[0] != 'r'
    ensures ParseResRef(w) == None
  {
  }

  lemma {:induction false} NameRun(name: string, rest: string)
    requires IsName(name)
    ensures NameLen(name + ("=" + rest)) == |name|
  {
    if name == [] {
      assert name + ("=" + rest) == "=" + rest;
    } else {
      NameRun(name[1..], rest);
      assert (name + ("=" + rest))[1..] == name[1..] + ("=" + rest);
    }
  }

  lemma UnionReadBack(inner: string, c: Arg, name: string, rest: string, d: nat, unpack: string -> seq<byte>)
    requires IsName(name) && ParseArg(inner + rest, d, unpack) == (c, rest)
    ensures ParseInner("@" + (name + ("=" + inner)) + rest, d, unpack) == (Union(c), rest)
  {
    hide ParseArg, ParseList, ParsePtr, ParseWord, BodyLen, NameLen;
    var s := "@" + (name + ("=" + inner)) + rest;
    assert s[1..] == name + ("=" + (inner + rest));
    NameRun(name, inner + rest);
    assert s[1..][|name|..] == "=" + (inner + rest);
    assert ("=" + (inner + rest))[1..] == inner + rest;
  }

  lemma OutReadBack(inner: string, t: Arg, slot: nat, rest: string, d: nat, unpack: string -> seq<byte>)
    requires slot < U64 && ParseArg(inner + rest, d, unpack) == (t, rest)
    ensures ParseInner("<r" + (Digits(slot, 10) + ("=>" + inner)) + rest, d, unpack) == (Out(slot, t), rest)
  {
    hide ParseArg, ParseList, ParsePtr, ParseWord, BodyLen, Digits, FromRadix, AfterBody, LabelSlot;
    var s := "<r" + (Digits(slot, 10) + ("=>" + inner)) + rest;
    var mark := "r" + Digits(slot, 10);
    assert s[1..] == mark + "=" + (['>'] + (inner + rest));
    LabelBody(slot, inner + rest);
    assert (mark + "=" + (['>'] + (inner + rest)))[..|mark|] == mark;
  }

  lemma LabelBody(slot: nat, tail: string)
    requires slot < U64
    ensures var mark := "r" + Digits(slot, 10);
            var t := mark + "=" + (['>'] + tail);
            && BodyLen(t, '>') == |mark| + 1 && AfterBody(t, '>') == tail && t[|mark|] == '='
            && LabelSlot(mark) == Some(slot)
  {
    hide BodyLen, Digits, FromRadix;
    var mark := "r" + Digits(slot, 10);
    var body := mark + "=";
    forall i | 0 <= i < |body| ensures body[i] != '>' && body[i] != '\\' {
      if 1 <= i < |mark| {
        DigitIsPlain(Digits(slot, 10)[i - 1], 10);
      }
    }
    BodyRun(body, '>', tail);
    DigitsSolid(slot, 10);
    TrimSolid(mark);
    FromRadixDigits(slot, 10);
    assert mark[1..] == Digits(slot, 10);
  }

  lemma {:induction false} NoSlash(s: string)
    requires forall i :: 0 <= i < |s| ==> s[i] != '/'
    ensures BeforeSlash(s) == s
  {
    if s != [] {
      NoSlash(s[1..]);
    }
  }

  lemma AddrReadBack(addr: u64, rest: string)
    ensures PtrAddr(PrintAddr(addr)[1..] + rest) == (addr, rest)
  {
    hide Hex, ParseInt, BodyLen, BeforeSlash, AfterBody;
    if addr == AUTO_ADDR {
      assert PrintAddr(addr)[1..] + rest == "AUTO" + rest;
      assert ("AUTO" + rest)[4..] == rest;
    } else {
      var text := (addr + ENCODING_ADDR_BASE) % U64;
      var h := Hex(text);
      var s := "(" + (h + ([')'] + rest));
      assert PrintAddr(addr)[1..] + rest == s;
      assert s[1..] == h + ([')'] + rest);
      HexAlnum(text);
      BodyRun(h, ')', rest);
      assert s[1..][..|h|] == h;
      NoSlash(h);
      HexReadBack(text);
      TrimSolid(h);
      Rebased(addr);
      assert s[0] == '(' && EatWs(s) == s;
      assert ParseInt(Trim(BeforeSlash(h))) == Some(text);
    }
  }

  lemma Rebased(addr: u64)
    ensures ((addr + ENCODING_ADDR_BASE) % U64 - ENCODING_ADDR_BASE) % U64 == addr
  {
    if addr + ENCODING_ADDR_BASE >= U64 {
      assert (addr + ENCODING_ADDR_BASE) % U64 == addr + ENCODING_ADDR_BASE - U64;
    }
  }

  lemma PtrReadBack(addr: u64, inner: string, t: Arg, rest: string, d: nat, unpack: string -> seq<byte>)
    requires inner != [] && HeadChar(inner[0]) && inner[0] != 'n'
    requires ParseArg(inner + rest, d, unpack) == (t, rest)
    ensures ParseInner(PrintAddr(addr) + ("=" + inner) + rest, d, unpack) == (Ptr(addr, Some(t)), rest)
  {
    hide ParseArg, ParseList, ParseWord, PtrAddr, BodyLen, PrintAddr;
    AddrHead(addr);
    var s := PrintAddr(addr) + ("=" + inner) + rest;
    assert s[1..] == PrintAddr(addr)[1..] + ("=" + (inner + rest));
    AddrReadBack(addr, "=" + (inner + rest));
    assert ("=" + (inner + rest))[1..] == inner + rest;
  }

  lemma NilPtrReadBack(addr: u64, rest: string, d: nat, unpack: string -> seq<byte>)
    ensures ParseInner(PrintAddr(addr) + "=nil" + rest, d, unpack) == (Ptr(addr, None), rest)
  {
    hide ParseArg, ParseList, ParseWord, PtrAddr, BodyLen, PrintAddr;
    AddrHead(addr);
    var s := PrintAddr(addr) + "=nil" + rest;
    assert s[1..] == PrintAddr(addr)[1..] + ("=nil" + rest);
    AddrReadBack(addr, "=nil" + rest);
    assert ("=nil" + rest)[1..] == "nil" + rest;
    assert ("nil" + rest)[3..] == rest;
  }

  lemma AddrHead(addr: u64)
    ensures PrintAddr(addr) != [] && PrintAddr(addr)[0] == '&'
  {
  }

  lemma SequenceReadBack(body: string, fs: seq<Arg>, open: char, close: char, rest: string, d: nat,
                         unpack: string -> seq<byte>)
    requires (open == '{' && close == '}') || (open == '[' && close == ']')
    requires ParseList(body + ([close] + rest), close, d, unpack) == (fs, rest)
    ensures ParseInner([open] + (body + [close]) + rest, d, unpack)
         == (if open == '{' then Struct(fs) else Array(fs), rest)
  {
    hide ParseArg, ParseList, ParseWord, ParsePtr, BodyLen;
    var s := [open] + (body + [close]) + rest;
    assert s[1..] == body + ([close] + rest);
  }

  /** How a list ends: with its closing bracket, or, the outermost one, with the text. */
  ghost predicate Ends(ending: string, close: char, rest: string)
  {
    ((close == '}' || close == ']') && ending == [close] + rest) || (close == '\0' && ending == [] && rest == [])
  }

  lemma NothingReadBack(ending: string, close: char, rest: string, d: nat, unpack: string -> seq<byte>)
    requires Ends(ending, close, rest)
    ensures ParseList(ending, close, d, unpack) == ([], rest)
  {
    hide ParseArg;
  }

  lemma EndsFollow(ending: string, close: char, rest: string)
    requires Ends(ending, close, rest)
    ensures Follows(ending) && (close == '}' || close == ']' || close == '\0')
  {
  }

  lemma PrintAllSplit(fs: seq<Arg>, name: string, ending: string)
    requires |fs| > 1
    ensures var more := PrintAll(fs[1..], name) + ending;
            && PrintAll(fs, name) + ending == Print(fs[0], name) + (", " + more)
            && more != [] && !IsWs(more[0]) && Follows(", " + more)
  {
    hide Print;
    PrintHead(fs[1], name);
    assert fs[1..][0] == fs[1];
  }

  /** The list loop on one printed element and what follows it. */
  lemma LastReadBack(head: string, a: Arg, ending: string, close: char, rest: string, d: nat,
                     unpack: string -> seq<byte>)
    requires head != [] && HeadChar(head[0]) && !IsWs(head[0]) && Ends(ending, close, rest)
    requires ParseArg(head + ending, d, unpack) == (a, ending)
    ensures ParseList(head + ending, close, d, unpack) == ([a], rest)
  {
    hide ParseArg;
  }

  lemma NextReadBack(head: string, a: Arg, more: string, fs: seq<Arg>, close: char, rest: string, d: nat,
                     unpack: string -> seq<byte>)
    requires head != [] && HeadChar(head[0]) && !IsWs(head[0]) && (close == '}' || close == ']' || close == '\0')
    requires more != [] && !IsWs(more[0])
    requires ParseArg(head + (", " + more), d, unpack) == (a, ", " + more)
    requires ParseList(more, close, d, unpack) == (fs, rest)
    ensures ParseList(head + (", " + more), close, d, unpack) == ([a] + fs, rest)
  {
    hide ParseArg;
    assert (", " + more)[1..] == " " + more;
    BlankSkipped(more, close, d, unpack);
  }

  lemma BlankSkipped(more: string, close: char, d: nat, unpack: string -> seq<byte>)
    requires more != [] && !IsWs(more[0])
    ensures ParseList(" " + more, close, d, unpack) == ParseList(more, close, d, unpack)
  {
    hide ParseArg;
    assert (" " + more)[1..] == more;
  }

  /** Parsing the text of any tree, whatever list or end follows, gives the tree with nil pointees dropped. */
  lemma {:induction false} ArgReadBack(a: Arg, name: string, rest: string, d: nat, unpack: string -> seq<byte>)
    requires Writable(a) && IsName(name) && Follows(rest) && d + Depth(a) <= MAX_DEPTH
    ensures ParseArg(Print(a, name) + rest, d, unpack) == (Norm(a), rest)
    decreases a, 0
  {
    hide ParseInner, ParseList, ParsePtr, ParseWord, Digits, HexBytes, PrintAddr;
    PrintHead(a, name);
    match a
    case Ptr(addr, None) => NilPtrReadBack(addr, rest, d + 1, unpack);
    case Ptr(addr, Some(t)) =>
      if t.Nil? {
        NilTargetText(addr, name, rest);
        NilPtrReadBack(addr, rest, d + 1, unpack);
      } else {
        ArgReadBack(t, name, rest, d + 1, unpack);
        PrintHead(t, name);
        PtrReadBack(addr, Print(t, name), Norm(t), rest, d + 1, unpack);
      }
    case Data(bs) => DataReadBack(bs, rest, d + 1, unpack);
    case Struct(fs) =>
      ListReadBack(fs, name, ['}'] + rest, '}', rest, d + 1, unpack);
      SequenceReadBack(PrintAll(fs, name), NormAll(fs), '{', '}', rest, d + 1, unpack);
    case Array(fs) =>
      ListReadBack(fs, name, [']'] + rest, ']', rest, d + 1, unpack);
      SequenceReadBack(PrintAll(fs, name), NormAll(fs), '[', ']', rest, d + 1, unpack);
    case Union(c) =>
      ArgReadBack(c, name, rest, d + 1, unpack);
      UnionReadBack(Print(c, name), Norm(c), name, rest, d + 1, unpack);
    case Out(slot, inner) =>
      ArgReadBack(inner, name, rest, d + 1, unpack);
      OutReadBack(Print(inner, name), Norm(inner), slot, rest, d + 1, unpack);
    case _ => LeafReadBack(a, name, rest, d + 1, unpack);
  }

  lemma NilTargetText(addr: u64, name: string, rest: string)
    ensures Print(Ptr(addr, Some(Nil)), name) + rest == PrintAddr(addr) + "=nil" + rest
  {
    hide PrintAddr;
    assert PrintAddr(addr) + ("=" + "nil") == PrintAddr(addr) + "=nil";
  }

  lemma {:induction false} ListReadBack(fs: seq<Arg>, name: string, ending: string, close: char, rest: string, d: nat,
                                        unpack: string -> seq<byte>)
    requires AllWritable(fs) && IsName(name) && d + DepthAll(fs) <= MAX_DEPTH && Ends(ending, close, rest)
    ensures ParseList(PrintAll(fs, name) + ending, close, d, unpack) == (NormAll(fs), rest)
    decreases fs, 1
  {
    hide ParseArg, Print, Writable, ParseList, Ends, HeadChar, IsWs, IsName, Depth, Norm;
    EndsFollow(ending, close, rest);
    if fs == [] {
      assert PrintAll(fs, name) + ending == ending;
      NothingReadBack(ending, close, rest, d, unpack);
    } else {
      var head := Print(fs[0], name);
      PrintHead(fs[0], name);
      if |fs| == 1 {
        ArgReadBack(fs[0], name, ending, d, unpack);
        assert PrintAll(fs, name) == head;
        LastReadBack(head, Norm(fs[0]), ending, close, rest, d, unpack);
        NormOne(fs);
      } else {
        var more := PrintAll(fs[1..], name) + ending;
        ListReadBack(fs[1..], name, ending, close, rest, d, unpack);
        ArgReadBack(fs[0], name, ", " + more, d, unpack);
        PrintAllSplit(fs, name, ending);
        NextReadBack(head, Norm(fs[0]), more, NormAll(fs[1..]), close, rest, d, unpack);
      }
    }
  }

  /** A tree reads back from its text if and only if no pointer in it points to an explicit nil. */
  lemma ReadsBackExactly(a: Arg, name: string, rest: string, d: nat, unpack: string -> seq<byte>)
    requires Writable(a) && IsName(name) && Follows(rest) && d + Depth(a) <= MAX_DEPTH
    ensures ParseArg(Print(a, name) + rest, d, unpack) == (a, rest) <==> NoNilPointee(a)
  {
    hide ParseArg, Print, Norm, Writable, Depth;
    ArgReadBack(a, name, rest, d, unpack);
    NormIsSame(a);
  }

  /** A call's whole argument list, printed and parsed, is the list again on the same condition. */
  lemma CallArgsReadBack(fs: seq<Arg>, name: string, unpack: string -> seq<byte>)
    requires AllWritable(fs) && IsName(name) && DepthAll(fs) <= MAX_DEPTH
    ensures ParseList(PrintAll(fs, name), '\0', 0, unpack) == (NormAll(fs), [])
    ensures ParseList(PrintAll(fs, name), '\0', 0, unpack) == (fs, []) <==> NoNilPointees(fs)
  {
    hide ParseList, PrintAll, NormAll;
    ListReadBack(fs, name, [], '\0', [], 0, unpack);
    assert PrintAll(fs, name) + [] == PrintAll(fs, name);
    NormAllIsSame(fs);
  }

  /** A pointer to an explicit nil comes back as a pointer without a target. */
  lemma NilPointeeLost(addr: u64, name: string, rest: string, unpack: string -> seq<byte>)
    requires IsName(name) && Follows(rest)
    ensures ParseArg(Print(Ptr(addr, Some(Nil)), name) + rest, 0, unpack) == (Ptr(addr, None), rest)
  {
    hide ParseArg, Print;
    ArgReadBack(Ptr(addr, Some(Nil)), name, rest, 0, unpack);
  }
}

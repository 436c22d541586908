/**
  The other ways to write what `SyzRoundTrip` prints (vock/src/fuzz/prog_decode.rs, `parse_int`, `ptr`,
  `unescape`): addresses and literals with a size, numbers in other radices, quoted bytes with escapes,
  and how deep arguments may nest.
 */
module SyzSpellings {
  import opened Prelude
  import opened SyzLayout
  import opened SyzText
  import opened SyzRoundTrip

  // ---- digits and white space

  /** A digit is its place in one of two alphabets. */
  lemma DigitIs(c: char, k: nat)
    ensures Digit(c) == Some(k) <==> k < 16 && (c == "0123456789abcdef"[k] || c == "0123456789ABCDEF"[k])
  {
  }

  ghost predicate Blanks(s: string)
  {
    forall i :: 0 <= i < |s| ==> s[i] == ' ' || s[i] == '\t' || s[i] == '\n' || s[i] == '\r'
  }

  lemma {:induction false} EatBlanks(p: string, s: string)
    requires Blanks(p) && s != [] && !IsWs(s[0])
    ensures EatWs(p + s) == s
    decreases |p|
  {
    if p == [] {
      assert p + s == s;
    } else {
      EatBlanks(p[1..], s);
      assert (p + s)[1..] == p[1..] + s;
    }
  }

  lemma {:induction false} TrimBlanks(s: string, q: string)
    requires Blanks(q) && s != [] && !IsWs(s[|s| - 1])
    ensures TrimEnd(s + q) == s
    decreases |q|
  {
    if q == [] {
      assert s + q == s;
    } else {
      TrimBlanks(s, q[..|q| - 1]);
      assert (s + q)[..|s + q| - 1] == s + q[..|q| - 1];
    }
  }

  /** Blanks around a number do not matter. */
  lemma PaddedNumber(p: string, s: string, q: string)
    requires Blanks(p) && Blanks(q) && s != [] && Solid(s)
    ensures ParseInt(p + s + q) == ParseInt(s)
  {
    assert p + s + q == p + (s + q);
    EatBlanks(p, s + q);
    TrimBlanks(s, q);
    TrimSolid(s);
  }

  // ---- numbers

  /** Octal digits without leading zeros. */
  function Octal(v: nat): (s: string)
    ensures |s| > 0 && forall i :: 0 <= i < |s| ==> '0' <= s[i] <= '7'
    decreases v
  {
    if v < 8 then [DigitChar(v)] else Octal(v / 8) + [DigitChar(v % 8)]
  }

  lemma {:induction false} ValueOfOctal(v: nat)
    ensures forall i :: 0 <= i < |Octal(v)| ==> IsDigitOf(Octal(v)[i], 8)
    ensures Value(Octal(v), 8) == v
    decreases v
  {
    var s := Octal(v);
    if v >= 8 {
      ValueOfOctal(v / 8);
      assert s[..|s| - 1] == Octal(v / 8);
    } else {
      assert s[..0] == [];
    }
  }

  lemma FromOctal(v: nat)
    requires v < U64
    ensures FromRadix(Octal(v), 8) == Some(v)
  {
    hide Octal, Value, Digit;
    ValueOfOctal(v);
    OctalPlain(v);
    assert Octal(v)[0] != '+';
  }

  /** A number with a leading zero and octal digits is octal. */
  lemma OctalReadBack(v: nat)
    requires v < U64
    ensures ParseInt("0" + Octal(v)) == Some(v)
  {
    hide Octal, FromRadix, Trim, Negated;
    OctalPlain(v);
    FromOctal(v);
    var s := "0" + Octal(v);
    assert Solid(s);
    TrimSolid(s);
    assert s[1..] == Octal(v) && s[1] != 'x' && s[1] != 'X';
    assert !StartsWith(s, "0x") && !StartsWith(s, "0X");
  }

  lemma OctalPlain(v: nat)
    ensures |Octal(v)| > 0 && forall i :: 0 <= i < |Octal(v)| ==> '0' <= Octal(v)[i] <= '7'
  {
  }

  /** Decimal digits do not start with a zero, unless they are one. */
  lemma {:induction false} DecimalHead(v: nat)
    ensures Digits(v, 10)[0] == '0' <==> v == 0
    ensures v < 10 <==> |Digits(v, 10)| == 1
    ensures '0' <= Digits(v, 10)[0] <= '9'
    decreases v
  {
    if v >= 10 {
      DecimalHead(v / 10);
    }
  }

  lemma DecimalReadBack(v: nat)
    requires v < U64
    ensures ParseInt(Digits(v, 10)) == Some(v)
  {
    hide Digits, Value;
    var s := Digits(v, 10);
    DigitsSolid(v, 10);
    TrimSolid(s);
    DecimalHead(v);
    FromRadixDigits(v, 10);
  }

  /** A plus sign changes nothing. */
  lemma PlusReadBack(v: nat)
    requires v < U64
    ensures ParseInt("+" + Digits(v, 10)) == Some(v)
  {
    hide Digits, Value;
    var t := Digits(v, 10);
    var s := "+" + t;
    DigitsSolid(v, 10);
    assert Solid(s);
    TrimSolid(s);
    assert s[1..] == t;
    ValueOfDigits(v, 10);
    DigitsAre(v);
  }

  /** A capital X marks hexadecimal digits too. */
  lemma CapitalReadBack(v: nat)
    requires v < U64
    ensures ParseInt("0X" + Digits(v, 16)) == Some(v)
  {
    hide Digits, FromRadix;
    var t := Digits(v, 16);
    var s := "0X" + t;
    DigitsSolid(v, 16);
    assert Solid(s);
    TrimSolid(s);
    assert s[2..] == t && s[..2] == "0X";
    FromRadixDigits(v, 16);
  }

  /** A minus sign gives the two's complement, down to but not including the least 64-bit integer. */
  lemma NegativeReadBack(v: nat)
    ensures v < 0x8000_0000_0000_0000 ==> ParseInt("-" + Digits(v, 10)) == Some((U64 - v) % U64)
    ensures v >= 0x8000_0000_0000_0000 ==> ParseInt("-" + Digits(v, 10)) == None
  {
    hide Digits, Value;
    var t := Digits(v, 10);
    var s := "-" + t;
    DigitsSolid(v, 10);
    assert Solid(s);
    TrimSolid(s);
    DecimalHead(v);
    assert s[1..] == t;
    ValueOfDigits(v, 10);
    DigitsAre(v);
  }

  lemma DigitsAre(v: nat)
    ensures |Digits(v, 10)| > 0 && forall i :: 0 <= i < |Digits(v, 10)| ==> IsDigitOf(Digits(v, 10)[i], 10)
  {
  }

  // ---- sizes

  /** Text that does not close a bracket. */
  ghost predicate Inside(s: string)
  {
    forall i :: 0 <= i < |s| ==> s[i] != ')' && s[i] != '\\'
  }

  lemma {:induction false} SlashCuts(s: string, t: string)
    requires forall i :: 0 <= i < |s| ==> s[i] != '/'
    ensures BeforeSlash(s + ("/" + t)) == s
  {
    if s == [] {
      assert s + ("/" + t) == "/" + t;
    } else {
      SlashCuts(s[1..], t);
      assert (s + ("/" + t))[1..] == s[1..] + ("/" + t);
    }
  }

  /** An address in the text is 0x7f0000000000 above its place in the arena; a size after it is ignored. */
  lemma SizedAddress(addr: u64, size: string, rest: string)
    requires Inside(size)
    ensures var h := Hex((addr + 0x7f00_0000_0000) % U64);
            && PtrAddr("(" + (h + ("/" + size)) + ")" + rest) == (addr, rest)
            && PtrAddr("(" + h + ")" + rest) == (addr, rest)
  {
    hide Hex, ParseInt, BodyLen, BeforeSlash, AfterBody;
    var text := (addr + 0x7f00_0000_0000) % U64;
    var h := Hex(text);
    HexAlnum(text);
    HexReadBack(text);
    TrimSolid(h);
    Rebased(addr);
    SlashCuts(h, size);
    NoSlash(h);
    Bracketed(h + ("/" + size), rest);
    Bracketed(h, rest);
  }

  lemma Bracketed(body: string, rest: string)
    requires Inside(body)
    ensures var v := ParseInt(Trim(BeforeSlash(body)));
            var s := "(" + body + ")" + rest;
            PtrAddr(s) == (if v.Some? then (v.value - 0x7f00_0000_0000) % U64 else 0, rest)
  {
    hide ParseInt, BodyLen, BeforeSlash, AfterBody, Trim;
    var s := "(" + body + ")" + rest;
    assert s[1..] == body + ([')'] + rest);
    BodyRun(body, ')', rest);
    assert s[1..][..|body|] == body;
    assert s[0] == '(' && EatWs(s) == s;
  }

  /** A buffer size after a literal is ignored. */
  lemma SizedData(bs: seq<byte>, size: string, rest: string, d: nat, unpack: string -> seq<byte>)
    requires IsName(size) && (rest == [] || IsSep(rest[0]))
    ensures ParseInner("\"" + HexBytes(bs) + "\"/" + size + rest, d, unpack) == (Data(bs), rest)
  {
    hide HexBytes, HexLiteral, BodyLen, ParseArg, ParseList, ParsePtr, ParseWord, TokenLen;
    var body := HexBytes(bs);
    var s := "\"" + body + "\"/" + size + rest;
    var after := "/" + (size + rest);
    assert s[1..] == body + (['"'] + after);
    HexBytesPlain(bs);
    forall i | 0 <= i < |body| ensures body[i] != '"' && body[i] != '\\' {
      DigitIsPlain(body[i], 16);
    }
    BodyRun(body, '"', after);
    assert s[1..][..|body|] == body;
    HexLiteralReadBack(bs, unpack);
    assert after[1..] == size + rest;
    SizeRun(size, rest);
    assert (size + rest)[|size|..] == rest;
  }

  lemma {:induction false} SizeRun(w: string, rest: string)
    requires IsName(w) && (rest == [] || IsSep(rest[0]))
    ensures TokenLen(w + rest) == |w|
  {
    if w == [] {
      assert w + rest == rest;
    } else {
      SizeRun(w[1..], rest);
      assert (w + rest)[1..] == w[1..] + rest;
    }
  }

  // ---- quoted bytes

  /** How a byte may be written between single quotes. */
  datatype Escape = Plain | Named | Hexed | Slashed

  function NamedChar(b: byte): (c: Option<char>)
  {
    if b == 10 then Some('n') else if b == 9 then Some('t') else if b == 13 then Some('r') else if b == 7 then Some('a')
    else if b == 8 then Some('b') else if b == 12 then Some('f') else if b == 11 then Some('v') else None
  }

  predicate HasMeaning(b: byte)
  {
    var c := b as char;
    c == 'n' || c == 't' || c == 'r' || c == 'a' || c == 'b' || c == 'f' || c == 'v' || c == 'x'
  }

  predicate CanWrite(b: byte, how: Escape)
  {
    match how
    case Plain => b as char != '\\' && b as char != '\''
    case Named => NamedChar(b).Some?
    case Hexed => true
    case Slashed => !HasMeaning(b)
  }

  function Written(b: byte, how: Escape): (s: string)
    requires CanWrite(b, how)
    ensures |s| > 0
  {
    match how
    case Plain => [b as char]
    case Named => ['\\', NamedChar(b).value]
    case Hexed => ['\\', 'x', DigitChar(b / 16), DigitChar(b % 16)]
    case Slashed => ['\\', b as char]
  }

  lemma UnescapeOne(b: byte, how: Escape, rest: string)
    requires CanWrite(b, how)
    ensures Unescape(Written(b, how) + rest) == [b] + Unescape(rest)
  {
    var s := Written(b, how) + rest;
    match how
    case Plain => assert s[1..] == rest;
    case Named => assert s[2..] == rest;
    case Hexed =>
      assert s[2] == DigitChar(b / 16) && s[3] == DigitChar(b % 16);
      assert s[4..] == rest;
    case Slashed => assert s[2..] == rest;
  }

  lemma PlainStep(c: char, rest: string)
    requires c != '\\' && c != '\''
    ensures BodyLen([c] + rest, '\'') == 1 + BodyLen(rest, '\'')
  {
    assert ([c] + rest)[1..] == rest;
  }

  lemma SlashStep(c: char, rest: string)
    ensures BodyLen(['\\', c] + rest, '\'') == 2 + BodyLen(rest, '\'')
  {
    assert (['\\', c] + rest)[2..] == rest;
  }

  /** A written byte does not end the literal. */
  lemma BodyOne(b: byte, how: Escape, rest: string)
    requires CanWrite(b, how)
    ensures BodyLen(Written(b, how) + rest, '\'') == |Written(b, how)| + BodyLen(rest, '\'')
  {
    hide BodyLen, DigitChar;
    match how
    case Plain => PlainStep(b as char, rest);
    case Named => SlashStep(NamedChar(b).value, rest);
    case Hexed =>
      var hi, lo := DigitChar(b / 16), DigitChar(b % 16);
      HexChar(b / 16);
      HexChar(b % 16);
      assert Written(b, how) + rest == ['\\', 'x'] + ([hi] + ([lo] + rest));
      SlashStep('x', [hi] + ([lo] + rest));
      PlainStep(hi, [lo] + rest);
      PlainStep(lo, rest);
    case Slashed => SlashStep(b as char, rest);
  }

  lemma HexChar(n: nat)
    requires n < 16
    ensures DigitChar(n) != '\\' && DigitChar(n) != '\''
  {
  }

  ghost predicate AllWritten(bs: seq<byte>, hows: seq<Escape>)
  {
    |bs| == |hows| && forall i :: 0 <= i < |bs| ==> CanWrite(bs[i], hows[i])
  }

  ghost function WrittenAll(bs: seq<byte>, hows: seq<Escape>): (s: string)
    requires AllWritten(bs, hows)
    decreases |bs|
  {
    if bs == [] then [] else Written(bs[0], hows[0]) + WrittenAll(bs[1..], hows[1..])
  }

  lemma {:induction false} EscapesReadBack(bs: seq<byte>, hows: seq<Escape>, rest: string)
    requires AllWritten(bs, hows)
    ensures Unescape(WrittenAll(bs, hows)) == bs
    ensures BodyLen(WrittenAll(bs, hows) + ("'" + rest), '\'') == |WrittenAll(bs, hows)|
    decreases |bs|
  {
    hide Unescape, BodyLen, Written;
    if bs == [] {
      assert [] + ("'" + rest) == "'" + rest;
      NothingQuoted(rest);
    } else {
      var w, tail := Written(bs[0], hows[0]), WrittenAll(bs[1..], hows[1..]);
      EscapesReadBack(bs[1..], hows[1..], rest);
      UnescapeOne(bs[0], hows[0], tail);
      BodyOne(bs[0], hows[0], tail + ("'" + rest));
      assert w + tail + ("'" + rest) == w + (tail + ("'" + rest));
      assert [bs[0]] + bs[1..] == bs;
    }
  }

  lemma NothingQuoted(rest: string)
    ensures Unescape([]) == [] && BodyLen("'" + rest, '\'') == 0
  {
  }

  /** A single-quoted literal reads back as the bytes it was written for, however they were escaped. */
  lemma QuotedReadBack(bs: seq<byte>, hows: seq<Escape>, rest: string, d: nat, unpack: string -> seq<byte>)
    requires AllWritten(bs, hows) && Follows(rest)
    ensures ParseInner("'" + WrittenAll(bs, hows) + "'" + rest, d, unpack) == (Data(bs), rest)
  {
    hide Unescape, BodyLen, WrittenAll, ParseArg, ParseList, ParsePtr, ParseWord;
    var body := WrittenAll(bs, hows);
    var s := "'" + body + "'" + rest;
    assert s[1..] == body + ("'" + rest);
    EscapesReadBack(bs, hows, rest);
    assert s[1..][..|body|] == body && s[1..][|body| + 1..] == rest;
  }

  // ---- double-quoted text

  predicate HexText(s: string)
  {
    s != [] && |s| % 2 == 0 && forall i :: 0 <= i < |s| ==> IsDigitOf(s[i], 16)
  }

  /** Text without escapes stands for its own characters. */
  lemma {:induction false} UnescapePlain(s: string)
    requires forall i :: 0 <= i < |s| ==> s[i] != '\\'
    ensures Unescape(s) == seq(|s|, i requires 0 <= i < |s| => s[i] as int % 256)
  {
    if s != [] {
      UnescapePlain(s[1..]);
    }
  }

  /** After a dollar sign, a packed blob; text that is not whole hexadecimal bytes stands for its characters. */
  lemma TextLiteral(s: string, unpack: string -> seq<byte>)
    ensures HexLiteral("$" + s, unpack) == unpack(s)
    ensures Peek(s) != '$' && !HexText(s) && (forall i :: 0 <= i < |s| ==> s[i] != '\\') ==>
              HexLiteral(s, unpack) == seq(|s|, i requires 0 <= i < |s| => s[i] as int % 256)
  {
    assert ("$" + s)[1..] == s;
    if forall i :: 0 <= i < |s| ==> s[i] != '\\' {
      UnescapePlain(s);
    }
  }

  /** `\x` without two digits after it is the letter. */
  lemma DanglingHex(s: string)
    requires |s| >= 2 && s[0] == '\\' && s[1] == 'x'
    requires |s| < 4 || Digit(s[2]).None? || Digit(s[3]).None?
    ensures Unescape(s) == [0x78] + Unescape(s[2..])
  {
  }

  /** A backslash at the end is itself. */
  lemma DanglingSlash(s: string)
    requires |s| == 1 && s[0] == '\\'
    ensures Unescape(s) == [0x5c]
  {
  }

  // ---- bare words

  /** What ends a bare word. */
  lemma WordEnds(w: string, c: char, rest: string)
    requires IsName(w)
    ensures TokenLen(w + ([c] + rest)) == |w| <==> c in ",)}]= \t\0"
  {
    if c in ",)}]= \t\0" {
      SizeRun(w, [c] + rest);
    } else {
      LongerWord(w, c, rest);
    }
  }

  lemma {:induction false} LongerWord(w: string, c: char, rest: string)
    requires IsName(w) && !IsSep(c)
    ensures TokenLen(w + ([c] + rest)) > |w|
  {
    if w == [] {
      assert w + ([c] + rest) == [c] + rest;
    } else {
      LongerWord(w[1..], c, rest);
      assert (w + ([c] + rest))[1..] == w[1..] + ([c] + rest);
    }
  }

  /** Anything that starts with `csum` asks for a checksum. */
  lemma CsumWord(w: string)
    ensures TokenArg("csum" + w) == Csum
  {
    assert "csum" <= "csum" + w && ("csum" + w)[0] == 'c';
    assert "nil"[0] == 'n' && "AUTO"[0] == 'A';
  }

  // ---- squashed pointers

  /** `=ANY=` before a pointee changes nothing. */
  lemma AnyPointee(addr: u64, inner: string, t: Arg, rest: string, d: nat, unpack: string -> seq<byte>)
    requires inner != [] && HeadChar(inner[0]) && inner[0] != 'n'
    requires ParseArg(inner + rest, d, unpack) == (t, rest)
    ensures ParseInner(PrintAddr(addr) + ("=ANY=" + inner) + rest, d, unpack) == (Ptr(addr, Some(t)), rest)
  {
    hide ParseArg, ParseList, ParseWord, PtrAddr, BodyLen, PrintAddr;
    AddrHead(addr);
    var s := PrintAddr(addr) + ("=ANY=" + inner) + rest;
    var after := "=ANY=" + (inner + rest);
    assert s[1..] == PrintAddr(addr)[1..] + after;
    AddrReadBack(addr, after);
    assert after[1..] == "ANY=" + (inner + rest) && after[1..][4..] == inner + rest;
    var u := after[1..];
    assert u[..4] == "ANY=" && StartsWith(u, "ANY=") && EatWs(u) == u;
    var v := inner + rest;
    assert v[0] == inner[0] && !StartsWith(v, "nil") by {
      assert "nil"[0] == 'n';
    }
    assert s[0] == '&';
    assert ParsePtr(s[1..], d, unpack) == (Ptr(addr, Some(t)), rest);
  }

  // ---- depth

  /** An integer inside `n` union options. */
  function Unions(n: nat): (a: Arg)
  {
    if n == 0 then Int(1) else Union(Unions(n - 1))
  }

  /** What is left of it when arguments at depth 64 are given up. */
  function Kept(n: nat, d: nat): (a: Arg)
    decreases n
  {
    if d >= 64 then Nil else if n == 0 then Int(1) else Union(Kept(n - 1, d + 1))
  }

  lemma {:induction false} KeptExact(n: nat, d: nat)
    ensures Kept(n, d) == Unions(n) <==> d + n < 64
    decreases n
  {
    if n > 0 {
      KeptExact(n - 1, d + 1);
    }
  }

  lemma OptionHead(inner: string, d: nat, unpack: string -> seq<byte>)
    ensures ParseInner("@" + ("x" + ("=" + inner)), d, unpack).0 == Union(ParseArg(inner, d, unpack).0)
  {
    hide ParseArg, ParseList, ParsePtr, ParseWord, BodyLen, NameLen;
    var s := "@" + ("x" + ("=" + inner));
    assert s[1..] == "x" + ("=" + inner);
    NameRun("x", inner);
    assert s[1..][1..] == "=" + inner && ("=" + inner)[1..] == inner;
  }

  lemma {:induction false} UnionsParsed(n: nat, d: nat, unpack: string -> seq<byte>)
    ensures ParseArg(Print(Unions(n), "x"), d, unpack).0 == Kept(n, d)
    decreases n
  {
    hide ParseInner, Print;
    PrintHead(Unions(n), "x");
    var s := Print(Unions(n), "x");
    assert EatWs(s) == s;
    if d < 64 {
      if n == 0 {
        LeafReadBack(Int(1), "x", "", d + 1, unpack);
        assert s + "" == s;
      } else {
        UnionsParsed(n - 1, d + 1, unpack);
        assert s == "@" + ("x" + ("=" + Print(Unions(n - 1), "x"))) by { UnionText(n); }
        OptionHead(Print(Unions(n - 1), "x"), d + 1, unpack);
      }
    }
  }

  lemma UnionText(n: nat)
    requires n > 0
    ensures Print(Unions(n), "x") == "@" + ("x" + ("=" + Print(Unions(n - 1), "x")))
  {
  }

  /** Sixty-four arguments may nest, and no more. */
  lemma DepthCap(n: nat, unpack: string -> seq<byte>)
    ensures ParseArg(Print(Unions(n), "x"), 0, unpack).0 == Unions(n) <==> n < 64
  {
    UnionsParsed(n, 0, unpack);
    KeptExact(n, 0);
  }
}

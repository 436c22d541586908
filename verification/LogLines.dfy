/**
  The lines of coverage logs (vock/src/report/mod.rs): exactly which lines hold an address and which one,
  and what a line of the annotated log consists of.
 */
module LogLines {
  import opened Prelude
  import opened LogReader
  import opened SourceCoverage

  // ---- numerals

  const LOWER: seq<byte> := [48, 49, 50, 51, 52, 53, 54, 55, 56, 57, 97, 98, 99, 100, 101, 102]
  const UPPER: seq<byte> := [48, 49, 50, 51, 52, 53, 54, 55, 56, 57, 65, 66, 67, 68, 69, 70]

  /** A hexadecimal digit is its place in one of two alphabets. */
  lemma DigitExact(c: byte, d: nat)
    ensures DigitValue(c) == Some(d) <==> d < 16 && (c == LOWER[d] || c == UPPER[d])
  {
  }

  /** Each digit counts by its place. */
  ghost predicate Numeral(s: seq<byte>, v: int)
  {
    if s == [] then v == 0
    else DigitValue(s[0]).Some? && Numeral(s[1..], v - DigitValue(s[0]).value * Pow16(|s| - 1))
  }

  /** What a digit in front of a numeral adds. */
  ghost function Front(c: byte, rest: Option<nat>, n: nat): (v: Option<nat>)
  {
    var d := DigitValue(c);
    if d.Some? && rest.Some? then Some(d.value * Pow16(n) + rest.value) else None
  }

  /** What a digit behind a numeral makes of it. */
  ghost function Behind(front: Option<nat>, c: byte): (v: Option<nat>)
  {
    var d := DigitValue(c);
    if front.Some? && d.Some? then Some(front.value * 16 + d.value) else None
  }

  lemma BehindFront(a: byte, rest: Option<nat>, n: nat, c: byte)
    ensures Behind(Front(a, rest, n), c) == Front(a, Behind(rest, c), n + 1)
  {
    hide DigitValue;
    var d := DigitValue(a);
    if d.Some? {
      assert d.value * Pow16(n + 1) == d.value * Pow16(n) * 16;
    }
  }

  lemma HexBehind(s: seq<byte>)
    requires s != []
    ensures HexValue(s) == Behind(HexValue(s[..|s| - 1]), s[|s| - 1])
  {
    hide DigitValue;
  }

  lemma {:induction false} HexFront(s: seq<byte>)
    requires s != []
    ensures HexValue(s) == Front(s[0], HexValue(s[1..]), |s| - 1)
    decreases |s|
  {
    hide HexValue, Front, Behind;
    var n := |s| - 1;
    HexBehind(s);
    if n == 0 {
      assert s[..0] == [] && s[1..] == [];
      OneDigit(s[0]);
    } else {
      HexFront(s[..n]);
      HexBehind(s[1..]);
      assert s[..n][1..] == s[1..][..n - 1] && s[1..][n - 1] == s[n];
      BehindFront(s[0], HexValue(s[1..][..n - 1]), n - 1, s[n]);
    }
  }

  lemma OneDigit(c: byte)
    ensures HexValue([]) == Some(0) && Behind(Some(0), c) == Front(c, Some(0), 0)
  {
    hide DigitValue;
    assert Pow16(0) == 1;
  }

  lemma {:induction false} NumeralExact(s: seq<byte>, v: nat)
    ensures Numeral(s, v) <==> HexValue(s) == Some(v)
    decreases |s|
  {
    hide DigitValue, Pow16;
    if s != [] {
      HexFront(s);
      var d := DigitValue(s[0]);
      if d.Some? {
        var u := v - d.value * Pow16(|s| - 1);
        if u >= 0 {
          NumeralExact(s[1..], u);
        } else {
          NumeralPositive(s[1..], u);
        }
      }
    }
  }

  lemma {:induction false} NumeralPositive(s: seq<byte>, v: int)
    requires v < 0
    ensures !Numeral(s, v)
    decreases |s|
  {
    hide DigitValue;
    if s != [] && DigitValue(s[0]).Some? {
      var d := DigitValue(s[0]).value;
      assert d * Pow16(|s| - 1) >= 0;
      NumeralPositive(s[1..], v - d * Pow16(|s| - 1));
    }
  }

  // ---- lines

  predicate Space(c: byte)
  {
    c == 32 || c == 9 || c == 13
  }

  /** Blanks, perhaps `0x`, one to sixteen digits, and a blank or the end after them. */
  ghost predicate Shaped(line: seq<byte>, i: nat, j: nat, k: nat)
  {
    && i <= j < k <= |line| && k <= j + 16
    && (forall m :: 0 <= m < i ==> Space(line[m]))
    && (line[i..j] == [] || line[i..j] == [48, 120] || line[i..j] == [48, 88])
    && (k < |line| ==> Space(line[k]))
  }

  ghost predicate Addressed(line: seq<byte>, v: nat)
  {
    exists i: nat, j: nat, k: nat :: Shaped(line, i, j, k) && Numeral(line[j..k], v)
  }

  lemma {:induction false} SkippedTo(line: seq<byte>, i: nat)
    requires i <= |line| && (forall m :: 0 <= m < i ==> Space(line[m])) && (i < |line| ==> !Space(line[i]))
    ensures SkipBlanks(line) == line[i..]
    decreases i
  {
    if i > 0 {
      SkippedTo(line[1..], i - 1);
      assert line[1..][i - 1..] == line[i..];
    } else {
      assert line[0..] == line;
    }
  }

  lemma {:induction false} TokenTo(s: seq<byte>, k: nat)
    requires k <= |s| && (forall m :: 0 <= m < k ==> !Space(s[m])) && (k < |s| ==> Space(s[k]))
    ensures TokenLength(s) == k
    decreases k
  {
    if k > 0 {
      TokenTo(s[1..], k - 1);
    }
  }

  lemma {:induction false} NumeralDigits(s: seq<byte>, v: int, m: nat)
    requires Numeral(s, v) && m < |s|
    ensures DigitValue(s[m]).Some?
    decreases m
  {
    hide DigitValue, Pow16;
    if m > 0 {
      NumeralDigits(s[1..], v - DigitValue(s[0]).value * Pow16(|s| - 1), m - 1);
    }
  }

  lemma DigitPlain(c: byte)
    requires DigitValue(c).Some?
    ensures !Space(c) && c != 120 && c != 88
  {
  }

  /** A shaped line is read as its numeral. */
  lemma ShapedRead(line: seq<byte>, i: nat, j: nat, k: nat, v: nat)
    requires Shaped(line, i, j, k) && Numeral(line[j..k], v)
    ensures LinePcs(line) == [v]
  {
    hide DigitValue, SkipBlanks, TokenLength, HexValue, Numeral;
    var digits := line[j..k];
    forall m | j <= m < k ensures !Space(line[m]) && line[m] != 120 && line[m] != 88 {
      NumeralDigits(digits, v, m - j);
      assert line[m] == digits[m - j];
      DigitPlain(line[m]);
    }
    forall m | i <= m < j ensures !Space(line[m]) {
      assert line[m] == line[i..j][m - i];
    }
    SkippedTo(line, i);
    var body := line[i..];
    TokenTo(body, k - i);
    var tok := body[..k - i];
    assert tok == line[i..j] + digits;
    assert StripPrefix(tok) == digits by {
      if i == j {
        assert tok == digits;
        assert |tok| >= 2 ==> tok[1] == line[j + 1];
      } else {
        assert tok[0] == line[i..j][0] && tok[1] == line[i..j][1];
        assert tok[2..] == digits;
      }
    }
    NumeralExact(digits, v);
  }

  lemma {:induction false} SkipShape(line: seq<byte>) returns (i: nat)
    ensures i <= |line| && SkipBlanks(line) == line[i..] && (forall m :: 0 <= m < i ==> Space(line[m]))
    decreases |line|
  {
    if line != [] && Blank(line[0]) {
      var n := SkipShape(line[1..]);
      i := n + 1;
      assert line[1..][n..] == line[i..];
    } else {
      i := 0;
      assert line[0..] == line;
    }
  }

  lemma {:induction false} TokenShape(s: seq<byte>)
    ensures TokenLength(s) < |s| ==> Space(s[TokenLength(s)])
    decreases |s|
  {
    if s != [] && !Blank(s[0]) {
      TokenShape(s[1..]);
    }
  }

  /** A line that is read has the shape. */
  lemma ReadShaped(line: seq<byte>, v: nat)
    requires LinePcs(line) == [v]
    ensures Addressed(line, v)
  {
    hide DigitValue, SkipBlanks, TokenLength, HexValue, Numeral, Shaped;
    var i := SkipShape(line);
    var body := line[i..];
    TokenBound(body);
    TokenShape(body);
    var k := i + TokenLength(body);
    var tok := body[..TokenLength(body)];
    assert tok == line[i..k];
    var digits := StripPrefix(tok);
    var j := k - |digits|;
    assert digits == line[j..k];
    NumeralExact(digits, v);
    assert k < |line| ==> body[k - i] == line[k];
    StripShape(tok);
    assert line[i..j] == tok[..|tok| - |digits|];
    assert Shaped(line, i, j, k) by { ShapedIs(line, i, j, k); }
  }

  lemma ShapedIs(line: seq<byte>, i: nat, j: nat, k: nat)
    requires i <= j < k <= |line| && k <= j + 16
    requires forall m :: 0 <= m < i ==> Space(line[m])
    requires line[i..j] == [] || line[i..j] == [48, 120] || line[i..j] == [48, 88]
    requires k < |line| ==> Space(line[k])
    ensures Shaped(line, i, j, k)
  {
  }

  lemma TokenBound(s: seq<byte>)
    ensures TokenLength(s) <= |s|
  {
  }

  lemma StripShape(tok: seq<byte>)
    ensures var d := StripPrefix(tok);
            var mark := tok[..|tok| - |d|];
            (mark == [] || mark == [48, 120] || mark == [48, 88]) && tok[|tok| - |d|..] == d
  {
    if |tok| >= 2 && tok[0] == 48 && (tok[1] == 120 || tok[1] == 88) {
      assert tok[..2] == [48, tok[1]];
    } else {
      assert tok[..0] == [] && tok[0..] == tok;
    }
  }

  /** A line holds an address if and only if it has the shape, and then that one. */
  lemma LineExact(line: seq<byte>, v: nat)
    ensures LinePcs(line) == [v] <==> Addressed(line, v)
  {
    hide LinePcs, Numeral;
    if Addressed(line, v) {
      var i: nat, j: nat, k: nat :| Shaped(line, i, j, k) && Numeral(line[j..k], v);
      ShapedRead(line, i, j, k, v);
    }
    if LinePcs(line) == [v] {
      ReadShaped(line, v);
    }
  }

  // ---- the annotated log

  /** A line is the address, a blank and the place, two question marks if there is none. */
  lemma LineParts(pc: nat, place: Option<Place>)
    requires pc < U64
    ensures var s := Line(pc, place);
            var tail: seq<byte> := if place.Some? then place.value else [63, 63];
            exists digits :: Numeral(digits, pc) && 1 <= |digits| <= 16 && s == [48, 120] + digits + [32] + tail + [10]
  {
    hide HexText, Numeral;
    HexReadsBack(pc);
    HexParses(pc);
    NumeralExact(HexText(pc), pc);
    assert Line(pc, place) == [48, 120] + HexText(pc) + [32] + (if place.Some? then place.value else [63, 63]) + [10];
  }

  /** The address looked up is the one the kernel was slid from. */
  lemma UnslidBack(a: nat, off: nat)
    requires a < U64 && off < U64
    ensures Unslid((a + off) % U64, off) == a
  {
    if a + off >= U64 {
      assert (a + off) % U64 == a + off - U64;
    }
  }
}

/**
  The tables of vock/src/fuzz/inflate.rs by the rules that sections 3.2.5 to 3.2.7 of RFC 1951 give for
  them, the fixed codes by value, and one compressed stream byte by byte.
 */
module DeflateTables {
  import opened Prelude
  import opened BitReaders
  import opened Huffman
  import opened Deflate
  import opened DeflateEncode
  import opened DeflateRoundTrip

  // ---- length and distance symbols

  /** How many extra bits a length symbol has: none, then one more every four symbols, and none for 258. */
  function LengthBits(i: nat): (n: nat)
  {
    if i < 8 || i >= 28 then 0 else (i - 4) / 4
  }

  function DistanceBits(j: nat): (n: nat)
  {
    if j < 2 then 0 else j / 2 - 1
  }

  lemma SmallPowers()
    ensures Pow2(0) == 1 && Pow2(1) == 2 && Pow2(2) == 4 && Pow2(3) == 8 && Pow2(4) == 16 && Pow2(5) == 32
    ensures Pow2(6) == 64 && Pow2(7) == 128 && Pow2(8) == 256 && Pow2(9) == 512 && Pow2(10) == 1024
    ensures Pow2(11) == 2048 && Pow2(12) == 4096 && Pow2(13) == 8192
  {
    Pow2Values();
    assert Pow2(6) == 64;
    assert Pow2(9) == 512 && Pow2(10) == 1024 && Pow2(11) == 2048 && Pow2(12) == 4096 && Pow2(13) == 8192;
  }

  /** Each length symbol starts where the one before it ends, from 3 on; the last is 258 alone. */
  lemma LengthTable(i: nat)
    requires i < 29
    ensures |LEN_BASE| == |LEN_EXTRA| == 29 && LEN_EXTRA[i] == LengthBits(i)
    ensures LEN_BASE[0] == 3 && LEN_BASE[28] == 258
    ensures i < 27 ==> LEN_BASE[i + 1] == LEN_BASE[i] + Pow2(LEN_EXTRA[i])
    ensures i == 27 ==> LEN_BASE[i] + Pow2(LEN_EXTRA[i]) == 259
  {
    SmallPowers();
    hide Pow2;
  }

  /** Each distance symbol starts where the one before it ends, from 1 to 32768. */
  lemma DistanceTable(j: nat)
    requires j < 30
    ensures |DIST_BASE| == |DIST_EXTRA| == 30 && DIST_EXTRA[j] == DistanceBits(j)
    ensures DIST_BASE[0] == 1
    ensures j < 29 ==> DIST_BASE[j + 1] == DIST_BASE[j] + Pow2(DIST_EXTRA[j])
    ensures j == 29 ==> DIST_BASE[j] + Pow2(DIST_EXTRA[j]) == 32769
  {
    SmallPowers();
    hide Pow2;
  }

  ghost predicate Spells(base: seq<nat>, extra: seq<nat>, i: nat, x: nat, v: nat)
  {
    i < |base| && i < |extra| && x < Pow2(extra[i]) && base[i] + x == v
  }

  lemma {:induction false} BasesGrow(base: seq<nat>, extra: seq<nat>, i: nat, j: nat)
    requires i < j < |base| == |extra|
    requires forall k :: 0 <= k < j ==> base[k + 1] == base[k] + Pow2(extra[k])
    ensures base[i] + Pow2(extra[i]) <= base[j]
    decreases j
  {
    hide Pow2;
    if i + 1 < j {
      BasesGrow(base, extra, i, j - 1);
    }
  }

  /** A symbol below 285 and its extra bits spell each length in one way only. */
  lemma LengthUnique(i: nat, x: nat, j: nat, y: nat, len: nat)
    requires i < 28 && j < 28 && Spells(LEN_BASE, LEN_EXTRA, i, x, len) && Spells(LEN_BASE, LEN_EXTRA, j, y, len)
    ensures i == j && x == y
  {
    hide Pow2;
    var base, extra := LEN_BASE[..28], LEN_EXTRA[..28];
    forall k | 0 <= k < 27 ensures LEN_BASE[k + 1] == LEN_BASE[k] + Pow2(LEN_EXTRA[k]) {
      LengthTable(k);
    }
    if i < j {
      BasesGrow(base, extra, i, j);
    } else if j < i {
      BasesGrow(base, extra, j, i);
    }
  }

  lemma DistanceUnique(i: nat, x: nat, j: nat, y: nat, d: nat)
    requires Spells(DIST_BASE, DIST_EXTRA, i, x, d) && Spells(DIST_BASE, DIST_EXTRA, j, y, d)
    ensures i == j && x == y
  {
    hide Pow2;
    forall k | 0 <= k < 29 ensures DIST_BASE[k + 1] == DIST_BASE[k] + Pow2(DIST_EXTRA[k]) {
      DistanceTable(k);
    }
    if i < j {
      BasesGrow(DIST_BASE, DIST_EXTRA, i, j);
    } else if j < i {
      BasesGrow(DIST_BASE, DIST_EXTRA, j, i);
    }
  }

  /** The code length symbols come as the three repeats, zero, then outwards from eight. */
  lemma OrderRule(k: nat)
    requires k < 19
    ensures |ORDER| == 19
    ensures ORDER[k] == if k < 3 then 16 + k else if k == 3 then 0 else if k % 2 == 0 then 6 + k / 2 else 9 - k / 2
  {
  }

  // ---- the fixed codes

  lemma FixedLengths(sym: nat)
    requires sym < 288
    ensures FixedLit()[sym] == if sym <= 143 then 8 else if sym <= 255 then 9 else if sym <= 279 then 7 else 8
  {
  }

  /** The first code of each length of the fixed literal alphabet. */
  lemma FixedFirst()
    ensures First(FixedLit(), 7) == 0 && First(FixedLit(), 8) == 0x30 && First(FixedLit(), 9) == 0x190
  {
    hide FixedLit, Count;
    var s := FixedLit();
    forall l: nat ensures Count(s, l) == if l == 7 then 24 else if l == 8 then 152 else if l == 9 then 112 else 0 {
      FixedLitCount(l);
    }
    assert First(s, 1) == 0 && First(s, 2) == 0 && First(s, 3) == 0 && First(s, 4) == 0;
    assert First(s, 5) == 0 && First(s, 6) == 0 && First(s, 7) == 0;
  }

  lemma RepeatedRank(before: seq<nat>, v: nat, n: nat, l: nat)
    ensures Count(before + Repeated(v, n), l) == Count(before, l) + if v == l then n else 0
  {
    CountSplit(before, Repeated(v, n), l);
    CountRepeated(v, n, l);
  }

  lemma FixedRank(sym: nat)
    requires sym < 288
    ensures Rank(FixedLit(), sym)
         == if sym <= 143 then sym else if sym <= 255 then sym - 144 else if sym <= 279 then sym - 256 else sym - 280 + 144
  {
    hide Count;
    var s, l := FixedLit(), FixedLit()[sym];
    FixedLengths(sym);
    var a, b, c := Repeated(8, 144), Repeated(9, 112), Repeated(7, 24);
    CountRepeated(8, 144, l);
    if sym <= 143 {
      assert s[..sym] == Repeated(8, sym);
      CountRepeated(8, sym, l);
    } else if sym <= 255 {
      assert s[..sym] == a + Repeated(9, sym - 144);
      RepeatedRank(a, 9, sym - 144, l);
    } else if sym <= 279 {
      assert s[..sym] == a + b + Repeated(7, sym - 256);
      RepeatedRank(a, 9, 112, l);
      RepeatedRank(a + b, 7, sym - 256, l);
    } else {
      assert s[..sym] == a + b + c + Repeated(8, sym - 280);
      RepeatedRank(a, 9, 112, l);
      RepeatedRank(a + b, 7, 24, l);
      RepeatedRank(a + b + c, 8, sym - 280, l);
    }
  }

  /** The fixed literal and length codes, by value (section 3.2.6 of RFC 1951). */
  lemma FixedCode(sym: nat)
    requires sym < 288
    ensures sym <= 143 ==> CodeBits(FixedLit(), sym) == MsbBits(0x30 + sym, 8)
    ensures 144 <= sym <= 255 ==> CodeBits(FixedLit(), sym) == MsbBits(0x190 + sym - 144, 9)
    ensures 256 <= sym <= 279 ==> CodeBits(FixedLit(), sym) == MsbBits(sym - 256, 7)
    ensures 280 <= sym ==> CodeBits(FixedLit(), sym) == MsbBits(0xc0 + sym - 280, 8)
  {
    hide FixedLit, First, Rank, MsbBits;
    FixedFirst();
    FixedRank(sym);
    FixedLengths(sym);
  }

  /** The fixed distance codes are the symbols in five bits. */
  lemma FixedDistanceCode(j: nat)
    requires j < 30
    ensures CodeBits(FixedDist(), j) == MsbBits(j, 5)
  {
    hide Count, MsbBits;
    var s := FixedDist();
    forall l: nat ensures Count(s, l) == if l == 5 then 30 else 0 {
      CountRepeated(5, 30, l);
    }
    assert First(s, 1) == 0 && First(s, 2) == 0 && First(s, 3) == 0 && First(s, 4) == 0 && First(s, 5) == 0;
    assert s[..j] == Repeated(5, j);
    CountRepeated(5, j, 5);
  }

  // ---- one stream

  /** "abc", then eleven bytes from two back. */
  ghost function Sample(): (ts: seq<Token>)
  {
    [Literal(0x61), Literal(0x62), Literal(0x63), Copy(11, 2)]
  }

  lemma SampleExpands()
    ensures TokensFit(Sample(), [])
    ensures Expand(Sample(), [])
         == [0x61, 0x62, 0x63, 0x62, 0x63, 0x62, 0x63, 0x62, 0x63, 0x62, 0x63, 0x62, 0x63, 0x62]
  {
    var ts := Sample();
    assert ts[1..] == [Literal(0x62), Literal(0x63), Copy(11, 2)];
    assert ts[1..][1..] == [Literal(0x63), Copy(11, 2)];
    assert ts[1..][1..][1..] == [Copy(11, 2)];
    assert ts[1..][1..][1..][1..] == [];
    assert [] + [0x61] == [0x61] && [0x61] + [0x62] == [0x61, 0x62] && [0x61, 0x62] + [0x63] == [0x61, 0x62, 0x63];
    assert Periodic([0x61, 0x62, 0x63], 2, 11)
        == [0x61, 0x62, 0x63, 0x62, 0x63, 0x62, 0x63, 0x62, 0x63, 0x62, 0x63, 0x62, 0x63, 0x62];
    assert TokensFit([], Periodic([0x61, 0x62, 0x63], 2, 11));
    assert TokensFit([Copy(11, 2)], [0x61, 0x62, 0x63]);
    assert TokensFit([Literal(0x63), Copy(11, 2)], [0x61, 0x62]);
    assert TokensFit(ts[1..], [0x61]);
  }

  lemma SampleSpelled()
    ensures LEN_BASE[8] == 11 && LEN_EXTRA[8] == 1 && DIST_BASE[1] == 2 && DIST_EXTRA[1] == 0
    ensures Spells(LEN_BASE, LEN_EXTRA, 8, 0, 11) && Spells(DIST_BASE, DIST_EXTRA, 1, 0, 2)
  {
    hide Pow2;
    SmallPowers();
  }

  lemma SampleSymbols()
    ensures LenSymbol(11) == 8 && DistSymbol(2) == 1
  {
    hide *;
    TableSizes();
    SymbolsSpell(11, 2);
    SampleSpelled();
    LengthUnique(LenSymbol(11), 11 - LEN_BASE[LenSymbol(11)], 8, 0, 11);
    DistanceUnique(DistSymbol(2), 2 - DIST_BASE[DistSymbol(2)], 1, 0, 2);
  }

  lemma TableSizes()
    ensures |LEN_BASE| == |LEN_EXTRA| == 29 && |DIST_BASE| == |DIST_EXTRA| == 30
  {
  }

  lemma SymbolsSpell(len: nat, d: nat)
    requires 3 <= len < 258 && 1 <= d <= 32768
    ensures LenSymbol(len) < 28 && LEN_BASE[LenSymbol(len)] <= len
    ensures Spells(LEN_BASE, LEN_EXTRA, LenSymbol(len), len - LEN_BASE[LenSymbol(len)], len)
    ensures DistSymbol(d) < 30 && DIST_BASE[DistSymbol(d)] <= d
    ensures Spells(DIST_BASE, DIST_EXTRA, DistSymbol(d), d - DIST_BASE[DistSymbol(d)], d)
  {
    hide Pow2, LenIndex, DistIndex;
  }

  lemma SampleCodes()
    ensures CodeBits(FixedLit(), 0x61) == [1, 0, 0, 1, 0, 0, 0, 1]
    ensures CodeBits(FixedLit(), 0x62) == [1, 0, 0, 1, 0, 0, 1, 0]
    ensures CodeBits(FixedLit(), 0x63) == [1, 0, 0, 1, 0, 0, 1, 1]
    ensures CodeBits(FixedLit(), 265) == [0, 0, 0, 1, 0, 0, 1]
    ensures CodeBits(FixedLit(), 256) == [0, 0, 0, 0, 0, 0, 0]
    ensures CodeBits(FixedDist(), 1) == [0, 0, 0, 0, 1]
  {
    hide CodeBits, FixedLit, FixedDist, MsbBits;
    FixedCode(0x61);
    FixedCode(0x62);
    FixedCode(0x63);
    FixedCode(265);
    FixedCode(256);
    FixedDistanceCode(1);
    LiteralBits();
  }

  lemma LiteralBits()
    ensures MsbBits(0x91, 8) == [1, 0, 0, 1, 0, 0, 0, 1] && MsbBits(0x92, 8) == [1, 0, 0, 1, 0, 0, 1, 0]
    ensures MsbBits(0x93, 8) == [1, 0, 0, 1, 0, 0, 1, 1] && MsbBits(9, 7) == [0, 0, 0, 1, 0, 0, 1]
    ensures MsbBits(0, 7) == [0, 0, 0, 0, 0, 0, 0] && MsbBits(1, 5) == [0, 0, 0, 0, 1]
  {
    ZeroBits(7);
    assert MsbBits(1, 5) == MsbBits(0, 4) + [1] by { ZeroBits(4); }
    ZeroBits(4);
    ZeroBits(3);
    assert MsbBits(1, 4) == MsbBits(0, 3) + [1];
    assert MsbBits(9, 7) == MsbBits(1, 4) + [0] + [0] + [1];
    assert MsbBits(9, 4) == [1, 0, 0, 1];
    assert MsbBits(0x91, 8) == MsbBits(9, 4) + [0] + [0] + [0] + [1];
    assert MsbBits(0x92, 8) == MsbBits(9, 4) + [0] + [0] + [1] + [0];
    assert MsbBits(0x93, 8) == MsbBits(9, 4) + [0] + [0] + [1] + [1];
  }

  lemma {:induction false} ZeroBits(n: nat)
    ensures MsbBits(0, n) == seq(n, _ => 0)
    decreases n
  {
    if n > 0 {
      ZeroBits(n - 1);
    }
  }

  /** The bits of the block after its three header bits. */
  ghost function SampleBits(): (s: seq<bit>)
  {
    [1, 0, 0, 1, 0, 0, 0, 1] + ([1, 0, 0, 1, 0, 0, 1, 0] + ([1, 0, 0, 1, 0, 0, 1, 1]
    + (([0, 0, 0, 1, 0, 0, 1] + [0] + [0, 0, 0, 0, 1]) + [0, 0, 0, 0, 0, 0, 0])))
  }

  lemma WriteOne(lit: seq<nat>, dist: seq<nat>, t: Token, ts: seq<Token>)
    requires AllCoded(lit, dist, [t] + ts) && Coded(lit, 256)
    ensures TokenCoded(lit, dist, t) && AllCoded(lit, dist, ts)
    ensures EncodeTokens(lit, dist, [t] + ts) == EncodeToken(lit, dist, t) + EncodeTokens(lit, dist, ts)
  {
    hide TokenCoded, EncodeToken;
    var all := [t] + ts;
    assert all[1..] == ts && all[0] == t;
    forall i | 0 <= i < |ts| ensures TokenCoded(lit, dist, ts[i]) {
      assert all[i + 1] == ts[i];
    }
  }

  lemma SampleCopy(lit: seq<nat>, dist: seq<nat>)
    requires TokenCoded(lit, dist, Copy(11, 2)) && |lit| > 265 && |dist| > 1
    ensures EncodeToken(lit, dist, Copy(11, 2)) == CodeBits(lit, 265) + [0] + CodeBits(dist, 1)
  {
    hide CodeBits, LenSymbol, DistSymbol;
    SampleSymbols();
    SampleSpelled();
    assert LsbBits(0, 1) == [0] && LsbBits(0, 0) == [];
  }

  lemma SampleSplit()
    ensures Sample() == [Literal(0x61)] + ([Literal(0x62)] + ([Literal(0x63)] + ([Copy(11, 2)] + [])))
  {
  }

  lemma SampleWritten()
    ensures AllCoded(FixedLit(), FixedDist(), Sample()) && Coded(FixedLit(), 256)
    ensures EncodeTokens(FixedLit(), FixedDist(), Sample()) == SampleBits()
  {
    hide CodeBits, FixedLit, FixedDist, LenSymbol, DistSymbol, TokenCoded, EncodeTokens, AllCoded;
    SampleExpands();
    FixedCodes(Sample(), []);
    FixedLengths(256);
    SampleCodes();
    var lit, dist := FixedLit(), FixedDist();
    SampleSplit();
    var t4 := [Copy(11, 2)] + [];
    var t3 := [Literal(0x63)] + t4;
    var t2 := [Literal(0x62)] + t3;
    WriteOne(lit, dist, Literal(0x61), t2);
    WriteOne(lit, dist, Literal(0x62), t3);
    WriteOne(lit, dist, Literal(0x63), t4);
    WriteOne(lit, dist, Copy(11, 2), []);
    SampleCopy(lit, dist);
    NothingWritten(lit, dist);
  }

  lemma NothingWritten(lit: seq<nat>, dist: seq<nat>)
    requires AllCoded(lit, dist, []) && Coded(lit, 256)
    ensures EncodeTokens(lit, dist, []) == CodeBits(lit, 256)
  {
    hide CodeBits;
  }

  lemma StreamCons(b: byte, rest: seq<byte>)
    ensures Stream([b] + rest) == LsbBits(b, 8) + Stream(rest)
  {
    hide LsbBits;
    assert ([b] + rest)[1..] == rest;
  }

  lemma BitStep(v: nat, n: nat)
    requires n > 0
    ensures LsbBits(v, n) == [v % 2] + LsbBits(v / 2, n - 1)
  {
  }

  /** A byte's bits, one by one. */
  lemma ByteBits(v: nat)
    ensures LsbBits(v, 8)
         == [v % 2, v / 2 % 2, v / 4 % 2, v / 8 % 2, v / 16 % 2, v / 32 % 2, v / 64 % 2, v / 128 % 2]
  {
    var n := LsbBits(v / 256, 0);
    assert n == [];
    hide LsbBits;
    BitStep(v, 8);
    BitStep(v / 2, 7);
    BitStep(v / 4, 6);
    BitStep(v / 8, 5);
    BitStep(v / 16, 4);
    BitStep(v / 32, 3);
    BitStep(v / 64, 2);
    BitStep(v / 128, 1);
    assert v / 2 / 2 == v / 4 && v / 4 / 2 == v / 8 && v / 8 / 2 == v / 16 && v / 16 / 2 == v / 32;
    assert v / 32 / 2 == v / 64 && v / 64 / 2 == v / 128 && v / 128 / 2 == v / 256;
  }

  lemma SampleBytes()
    ensures LsbBits(0x4b, 8) == [1, 1, 0, 1, 0, 0, 1, 0] && LsbBits(0x4c, 8) == [0, 0, 1, 1, 0, 0, 1, 0]
    ensures LsbBits(0x4a, 8) == [0, 1, 0, 1, 0, 0, 1, 0] && LsbBits(0x46, 8) == [0, 1, 1, 0, 0, 0, 1, 0]
    ensures LsbBits(0x82, 8) == [0, 1, 0, 0, 0, 0, 0, 1] && LsbBits(0, 8) == [0, 0, 0, 0, 0, 0, 0, 0]
  {
    hide LsbBits;
    ByteBits(0x4b);
    ByteBits(0x4c);
    ByteBits(0x4a);
    ByteBits(0x46);
    ByteBits(0x82);
    ByteBits(0);
  }

  lemma Slide(h: seq<bit>, x: seq<bit>, y: seq<bit>, rest: seq<bit>)
    ensures h + ((x + y) + rest) == (h + x) + (y + rest)
  {
  }

  lemma Nest(x: seq<bit>, y: seq<bit>, z: seq<bit>)
    ensures (x + y) + z == x + (y + z)
  {
  }

  /** The same bits cut at byte boundaries. */
  lemma SampleCut()
    ensures [1] + ([1, 0] + (SampleBits() + [0]))
         == [1, 1, 0, 1, 0, 0, 1, 0] + ([0, 0, 1, 1, 0, 0, 1, 0] + ([0, 1, 0, 1, 0, 0, 1, 0]
            + ([0, 1, 1, 0, 0, 0, 1, 0] + ([0, 1, 0, 0, 0, 0, 0, 1] + [0, 0, 0, 0, 0, 0, 0, 0]))))
  {
    var a: seq<bit> := [1, 0, 0, 1, 0, 0, 0, 1];
    var b: seq<bit> := [1, 0, 0, 1, 0, 0, 1, 0];
    var c: seq<bit> := [1, 0, 0, 1, 0, 0, 1, 1];
    var d: seq<bit> := [0, 0, 0, 1, 0, 0, 1] + [0] + [0, 0, 0, 0, 1];
    var e: seq<bit> := [0, 0, 0, 0, 0, 0, 0];
    var half: seq<bit> := [1, 0, 0, 1, 0];
    var end := e + [0];
    assert end == [0, 0, 0, 0, 0, 0, 0, 0];
    Nest(a, b + (c + (d + e)), [0]);
    Nest(b, c + (d + e), [0]);
    Nest(c, d + e, [0]);
    Nest(d, e, [0]);
    assert SampleBits() + [0] == a + (b + (c + (d + end)));
    assert a == half + [0, 0, 1] && b == half + [0, 1, 0] && c == half + [0, 1, 1];
    assert d == [0, 0, 0, 1, 0] + [0, 1, 0, 0, 0, 0, 0, 1];
    var all := a + (b + (c + (d + end)));
    assert [1] + ([1, 0] + all) == [1, 1, 0] + all;
    Slide([1, 1, 0], half, [0, 0, 1], b + (c + (d + end)));
    Slide([0, 0, 1], half, [0, 1, 0], c + (d + end));
    Slide([0, 1, 0], half, [0, 1, 1], d + end);
    Slide([0, 1, 1], [0, 0, 0, 1, 0], [0, 1, 0, 0, 0, 0, 0, 1], end);
    assert [1, 1, 0] + half == [1, 1, 0, 1, 0, 0, 1, 0] && [0, 0, 1] + half == [0, 0, 1, 1, 0, 0, 1, 0];
    assert [0, 1, 0] + half == [0, 1, 0, 1, 0, 0, 1, 0];
    assert [0, 1, 1] + [0, 0, 0, 1, 0] == [0, 1, 1, 0, 0, 0, 1, 0];
  }

  lemma SampleStream()
    ensures Stream([0x4b, 0x4c, 0x4a, 0x46, 0x82, 0x00]) == [1] + ([1, 0] + (SampleBits() + [0]))
  {
    hide LsbBits, Stream, SampleBits;
    SampleBytes();
    SampleCut();
    var d5: seq<byte> := [0x00] + [];
    var d4 := [0x82] + d5;
    var d3 := [0x46] + d4;
    var d2 := [0x4a] + d3;
    var d1 := [0x4c] + d2;
    StreamCons(0x4b, d1);
    StreamCons(0x4c, d2);
    StreamCons(0x4a, d3);
    StreamCons(0x46, d4);
    StreamCons(0x82, d5);
    StreamCons(0x00, []);
    assert Stream([]) == [] by { StreamEmpty(); }
    assert [0x4b] + d1 == [0x4b, 0x4c, 0x4a, 0x46, 0x82, 0x00];
  }

  lemma StreamEmpty()
    ensures Stream([]) == []
  {
  }

  /** Six bytes of a fixed block, and what they stand for. */
  lemma SampleReads(limit: nat)
    requires limit >= 14
    ensures ReadBlocks(Stream([0x4b, 0x4c, 0x4a, 0x46, 0x82, 0x00]), [], limit)
         == Some([0x61, 0x62, 0x63, 0x62, 0x63, 0x62, 0x63, 0x62, 0x63, 0x62, 0x63, 0x62, 0x63, 0x62])
  {
    hide ReadTokens, EncodeTokens, Stream, FixedLit, FixedDist, TokensFit, Expand;
    SampleExpands();
    SampleWritten();
    SampleStream();
    hide SampleBits;
    var bits := SampleBits();
    FixedReadBack(Sample(), [], limit, [0]);
    assert LsbBits(1, 1) == [1] && LsbBits(1, 2) == [1, 0];
    FlagsReadBack(1, 1, bits + [0]);
  }
}

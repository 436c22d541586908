/**
  The DEFLATE format (RFC 1951) as a reference for vock/src/fuzz/inflate.rs.

  Two pieces: what a token list expands to (LZ77), and what a decoder reads from a bit sequence
  (section 3.2 of the RFC).
 */
module Deflate {
  import opened Prelude
  import opened BitReaders
  import opened Huffman

  const LEN_BASE: seq<nat> := [
    3, 4, 5, 6, 7, 8, 9, 10, 11, 13, 15, 17, 19, 23, 27, 31, 35, 43, 51, 59, 67, 83, 99, 115, 131,
    163, 195, 227, 258]
  const LEN_EXTRA: seq<nat> := [
    0, 0, 0, 0, 0, 0, 0, 0, 1, 1, 1, 1, 2, 2, 2, 2, 3, 3, 3, 3, 4, 4, 4, 4, 5, 5, 5, 5, 0]
  const DIST_BASE: seq<nat> := [
    1, 2, 3, 4, 5, 7, 9, 13, 17, 25, 33, 49, 65, 97, 129, 193, 257, 385, 513, 769, 1025, 1537,
    2049, 3073, 4097, 6145, 8193, 12289, 16385, 24577]
  const DIST_EXTRA: seq<nat> := [
    0, 0, 0, 0, 1, 1, 2, 2, 3, 3, 4, 4, 5, 5, 6, 6, 7, 7, 8, 8, 9, 9, 10, 10, 11, 11, 12, 12, 13,
    13]
  const ORDER: seq<nat> := [16, 17, 18, 0, 8, 7, 9, 6, 10, 5, 11, 4, 12, 3, 13, 2, 14, 1, 15]

  // ---- what a block means

  datatype Token = Literal(b: byte) | Copy(len: nat, dist: nat)

  /** A back-reference: the last `d` bytes of the output repeat with period `d`, overlap included. */
  ghost function Periodic(out: seq<byte>, d: nat, n: nat): (r: seq<byte>)
    requires 1 <= d <= |out|
  {
    out + seq(n, k requires 0 <= k < n => out[|out| - d + k % d])
  }

  /** Every copied byte equals the byte `d` places before it. */
  lemma {:induction false} PeriodicRepeats(out: seq<byte>, d: nat, n: nat, i: nat)
    requires 1 <= d <= |out| && |out| <= i < |out| + n
    ensures Periodic(out, d, n)[i] == Periodic(out, d, n)[i - d]
  {
    var k := i - |out|;
    if k < d {
      SmallMod(k, d);
    } else {
      ModShift(k - d, d);
    }
  }

  lemma SmallMod(k: nat, d: nat)
    requires k < d
    ensures k % d == k
  {
  }

  lemma ModShift(k: nat, d: nat)
    requires d > 0
    ensures (k + d) % d == k % d
  {
    var q := (k + d) / d - k / d - 1;
    assert q * d == k % d - (k + d) % d;
    MultipleIsFar(q, d);
  }

  lemma MultipleIsFar(q: int, d: int)
    requires d > 0
    ensures q >= 1 ==> q * d >= d
    ensures q <= -1 ==> q * d <= -d
  {
  }

  predicate TokenFits(t: Token, n: nat)
  {
    t.Copy? ==> 3 <= t.len <= 258 && 1 <= t.dist <= 32768 && t.dist <= n
  }

  ghost function ExpandToken(t: Token, out: seq<byte>): (r: seq<byte>)
    requires TokenFits(t, |out|)
    ensures |r| > |out|
  {
    match t
    case Literal(b) => out + [b]
    case Copy(len, dist) => Periodic(out, dist, len)
  }

  ghost predicate TokensFit(ts: seq<Token>, out: seq<byte>)
  {
    ts != [] ==> TokenFits(ts[0], |out|) && TokensFit(ts[1..], ExpandToken(ts[0], out))
  }

  /** The LZ77 expansion of a token list after `out`. */
  ghost function Expand(ts: seq<Token>, out: seq<byte>): (r: seq<byte>)
    requires TokensFit(ts, out)
    ensures |r| >= |out| + |ts|
  {
    if ts == [] then out else Expand(ts[1..], ExpandToken(ts[0], out))
  }

  // ---- reading

  /** A match: extra length bits, a distance symbol, extra distance bits. */
  ghost function ReadMatch(base: nat, extra: nat, dbase: seq<nat>, dextra: seq<nat>, dist: seq<nat>,
                           bits: seq<bit>, out: seq<byte>, limit: nat)
    : (r: Option<(seq<bit>, seq<byte>)>)
    requires |dbase| == |dextra| && forall j :: 0 <= j < |dbase| ==> dbase[j] >= 1
    ensures r.Some? ==> |r.value.0| < |bits| && |r.value.1| <= limit
  {
    var (x, b1) :- Take(bits, extra);
    var (j, b2) :- ReadSymbol(dist, b1);
    if j >= |dbase| then None else
    var (y, b3) :- Take(b2, dextra[j]);
    var len, d := base + x, dbase[j] + y;
    if d > |out| || |out| + len > limit then None else Some((b3, Periodic(out, d, len)))
  }

  lemma DistBasePositive()
    ensures |DIST_BASE| == |DIST_EXTRA| == 30 && forall j :: 0 <= j < 30 ==> DIST_BASE[j] >= 1
  {
  }

  ghost function ReadCopy(i: nat, dist: seq<nat>, bits: seq<bit>, out: seq<byte>, limit: nat)
    : (r: Option<(seq<bit>, seq<byte>)>)
    requires i < 29
    ensures r.Some? ==> |r.value.0| < |bits| && |r.value.1| <= limit
  {
    DistBasePositive();
    ReadMatch(LEN_BASE[i], LEN_EXTRA[i], DIST_BASE, DIST_EXTRA, dist, bits, out, limit)
  }

  /** A compressed block's tokens up to and including end-of-block (section 3.2.3 of RFC 1951). */
  ghost function ReadTokens(lit: seq<nat>, dist: seq<nat>, bits: seq<bit>, out: seq<byte>, limit: nat)
    : (r: Option<(seq<bit>, seq<byte>)>)
    ensures r.Some? ==> |r.value.0| < |bits| && (|out| <= limit ==> |r.value.1| <= limit)
    decreases |bits|
  {
    var (sym, b1) :- ReadSymbol(lit, bits);
    if sym < 256 then
      if |out| >= limit then None else ReadTokens(lit, dist, b1, out + [sym], limit)
    else if sym == 256 then Some((b1, out))
    else if sym <= 285 then
      var (b2, out') :- ReadCopy(sym - 257, dist, b1, out, limit);
      ReadTokens(lit, dist, b2, out', limit)
    else None
  }

  ghost function ReadRaw(bits: seq<bit>, n: nat, out: seq<byte>, limit: nat): (r: Option<(seq<bit>, seq<byte>)>)
    ensures r.Some? ==> |r.value.0| <= |bits| && (|out| <= limit ==> |r.value.1| <= limit)
    decreases n
  {
    if n == 0 then Some((bits, out))
    else if |out| >= limit then None
    else
      var (b, rest) :- Take(bits, 8);
      if b >= 256 then None else ReadRaw(rest, n - 1, out + [b], limit)
  }

  ghost function ReadStored(bits: seq<bit>, out: seq<byte>, limit: nat): (r: Option<(seq<bit>, seq<byte>)>)
    ensures r.Some? ==> |r.value.0| <= |bits| && (|out| <= limit ==> |r.value.1| <= limit)
  {
    var aligned := bits[|bits| % 8..];
    var (len, b1) :- Take(aligned, 16);
    var (_, b2) :- Take(b1, 16);
    ReadRaw(b2, len, out, limit)
  }

  /** The code length code's own lengths, three bits each in `ORDER`. */
  ghost function ReadClens(order: seq<nat>, bits: seq<bit>, k: nat, n: nat, cl: seq<nat>)
    : (r: Option<(seq<nat>, seq<bit>)>)
    requires k <= n <= |order| && forall j :: 0 <= j < |order| ==> order[j] < |cl|
    ensures r.Some? ==> |r.value.0| == |cl| && |r.value.1| <= |bits|
    decreases n - k
  {
    if k == n then Some((cl, bits))
    else
      var (x, rest) :- Take(bits, 3);
      ReadClens(order, rest, k + 1, n, cl[order[k] := x])
  }

  lemma OrderInRange()
    ensures |ORDER| == 19 && forall j :: 0 <= j < 19 ==> ORDER[j] < 19
  {
  }

  ghost function Repeated(v: nat, n: nat): (s: seq<nat>)
    ensures |s| == n
  {
    seq(n, _ => v)
  }

  function Min(a: nat, b: nat): nat { if a < b then a else b }

  /** The run-length coded code lengths of both alphabets (section 3.2.7 of RFC 1951). */
  ghost function ReadLengths(cl: seq<nat>, bits: seq<bit>, total: nat, acc: seq<nat>)
    : (r: Option<(seq<nat>, seq<bit>)>)
    requires |acc| <= total
    ensures r.Some? ==> |r.value.0| == total && |r.value.1| <= |bits|
    decreases |bits|
  {
    if |acc| == total then Some((acc, bits))
    else
      var (sym, b1) :- ReadSymbol(cl, bits);
      if sym <= 15 then ReadLengths(cl, b1, total, acc + [sym])
      else if sym == 16 then
        if acc == [] then None else
        var (x, b2) :- Take(b1, 2);
        if |acc| + 3 + x > total then None
        else ReadLengths(cl, b2, total, acc + Repeated(acc[|acc| - 1], 3 + x))
      else if sym == 17 then
        var (x, b2) :- Take(b1, 3);
        ReadLengths(cl, b2, total, acc + Repeated(0, Min(3 + x, total - |acc|)))
      else if sym == 18 then
        var (x, b2) :- Take(b1, 7);
        ReadLengths(cl, b2, total, acc + Repeated(0, Min(11 + x, total - |acc|)))
      else None
  }

  /** The header of a dynamic block: the two alphabets' code lengths. */
  ghost function ReadHeader(order: seq<nat>, bits: seq<bit>): (r: Option<(seq<nat>, seq<nat>, seq<bit>)>)
    requires |order| == 19 && forall j :: 0 <= j < 19 ==> order[j] < 19
    ensures r.Some? ==> |r.value.2| <= |bits|
  {
    var (h, b1) :- Take(bits, 5);
    var (d, b2) :- Take(b1, 5);
    var (c, b3) :- Take(b2, 4);
    if c + 4 > 19 then None else
    var (cl, b4) :- ReadClens(order, b3, 0, c + 4, Repeated(0, 19));
    var (lens, b5) :- ReadLengths(cl, b4, h + 257 + d + 1, []);
    Some((lens[..h + 257], lens[h + 257..], b5))
  }

  ghost function ReadDynamic(bits: seq<bit>, out: seq<byte>, limit: nat): (r: Option<(seq<bit>, seq<byte>)>)
    ensures r.Some? ==> |r.value.0| <= |bits| && (|out| <= limit ==> |r.value.1| <= limit)
  {
    OrderInRange();
    var (lit, dist, b1) :- ReadHeader(ORDER, bits);
    ReadTokens(lit, dist, b1, out, limit)
  }

  ghost function FixedLit(): (s: seq<nat>)
    ensures |s| == 288
  {
    Repeated(8, 144) + Repeated(9, 112) + Repeated(7, 24) + Repeated(8, 8)
  }

  ghost function FixedDist(): (s: seq<nat>)
    ensures |s| == 30
  {
    Repeated(5, 30)
  }

  ghost function ReadBlock(ty: nat, bits: seq<bit>, out: seq<byte>, limit: nat): (r: Option<(seq<bit>, seq<byte>)>)
    ensures r.Some? ==> |r.value.0| <= |bits| && (|out| <= limit ==> |r.value.1| <= limit)
  {
    if ty == 0 then ReadStored(bits, out, limit)
    else if ty == 1 then ReadTokens(FixedLit(), FixedDist(), bits, out, limit)
    else if ty == 2 then ReadDynamic(bits, out, limit)
    else None
  }

  /** A whole DEFLATE stream. */
  ghost function ReadBlocks(bits: seq<bit>, out: seq<byte>, limit: nat): (r: Option<seq<byte>>)
    ensures r.Some? && |out| <= limit ==> |r.value| <= limit
    decreases |bits|
  {
    var (last, b1) :- Take(bits, 1);
    var (ty, b2) :- Take(b1, 2);
    var (b3, out') :- ReadBlock(ty, b2, out, limit);
    if last == 1 then Some(out') else ReadBlocks(b3, out', limit)
  }
}

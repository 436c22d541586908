/**
  An encoder for all three DEFLATE block types, and the proof that the reader of `Deflate` inverts
  it (sections 3.2.3 to 3.2.7 of RFC 1951).
 */
module DeflateEncode {
  import opened Prelude
  import opened BitReaders
  import opened Huffman
  import opened Deflate

  // ---- length and distance symbols

  /** The index of the length symbol for a match length: the greatest base not above it. */
  ghost function LenIndex(len: nat, i: nat): (r: nat)
    requires i < 29 && 3 <= len
    ensures r <= i && LEN_BASE[r] <= len && (r < i ==> len < LEN_BASE[r + 1])
  {
    if LEN_BASE[i] <= len then i else LenIndex(len, i - 1)
  }

  ghost function DistIndex(d: nat, i: nat): (r: nat)
    requires i < 30 && 1 <= d
    ensures r <= i && DIST_BASE[r] <= d && (r < i ==> d < DIST_BASE[r + 1])
  {
    if DIST_BASE[i] <= d then i else DistIndex(d, i - 1)
  }

  /** The extra bits of a length symbol reach the next base. */
  lemma LenStep(i: nat)
    requires i < 28
    ensures LEN_BASE[i + 1] <= LEN_BASE[i] + Pow2(LEN_EXTRA[i])
  {
    if i < 8 {} else if i < 16 {} else if i < 24 {} else {}
  }

  lemma DistStep(i: nat)
    requires i < 29
    ensures DIST_BASE[i + 1] <= DIST_BASE[i] + Pow2(DIST_EXTRA[i])
  {
    if i < 8 {} else if i < 16 {} else if i < 24 {} else {}
  }

  ghost function LenSymbol(len: nat): (i: nat)
    requires 3 <= len <= 258
    ensures i < 29 && LEN_BASE[i] <= len < LEN_BASE[i] + Pow2(LEN_EXTRA[i])
  {
    var i := LenIndex(len, 28);
    if i < 28 then LenStep(i); i else i
  }

  ghost function DistSymbol(d: nat): (i: nat)
    requires 1 <= d <= 32768
    ensures i < 30 && DIST_BASE[i] <= d < DIST_BASE[i] + Pow2(DIST_EXTRA[i])
  {
    var i := DistIndex(d, 29);
    if i < 29 then DistStep(i); i else assert Pow2(13) == 8192; i
  }

  // ---- reading back one field

  lemma TakeWritten(v: nat, n: nat, tail: seq<bit>)
    requires v < Pow2(n)
    ensures Take(LsbBits(v, n) + tail, n) == Some((v, tail))
  {
    LsbRoundTrip(v, n);
    assert (LsbBits(v, n) + tail)[..n] == LsbBits(v, n);
    assert (LsbBits(v, n) + tail)[n..] == tail;
  }

  ghost predicate Coded(s: seq<nat>, sym: nat)
  {
    sym < |s| && 1 <= s[sym] <= 15
  }

  lemma ReadWritten(s: seq<nat>, sym: nat, tail: seq<bit>)
    requires Kraft(s) && Coded(s, sym)
    ensures ReadSymbol(s, CodeBits(s, sym) + tail) == Some((sym, tail))
  {
    CodeMatches(s, sym, tail);
    ReadSymbolIs(s, sym, CodeBits(s, sym) + tail);
    assert (CodeBits(s, sym) + tail)[s[sym]..] == tail;
  }

  // ---- compressed data

  /** The two alphabets have a code for everything the token uses. */
  ghost predicate TokenCoded(lit: seq<nat>, dist: seq<nat>, t: Token)
  {
    match t
    case Literal(b) => Coded(lit, b)
    case Copy(len, d) =>
      3 <= len <= 258 && 1 <= d <= 32768 && Coded(lit, 257 + LenSymbol(len)) && Coded(dist, DistSymbol(d))
  }

  ghost function EncodeDistance(dist: seq<nat>, d: nat): (bits: seq<bit>)
    requires 1 <= d <= 32768 && Coded(dist, DistSymbol(d))
  {
    var j := DistSymbol(d);
    CodeBits(dist, j) + LsbBits(d - DIST_BASE[j], DIST_EXTRA[j])
  }

  ghost function LengthExtra(len: nat): (bits: seq<bit>)
    requires 3 <= len <= 258
  {
    var i := LenSymbol(len);
    LsbBits(len - LEN_BASE[i], LEN_EXTRA[i])
  }

  ghost function EncodeLength(lit: seq<nat>, len: nat): (bits: seq<bit>)
    requires 3 <= len <= 258 && Coded(lit, 257 + LenSymbol(len))
  {
    CodeBits(lit, 257 + LenSymbol(len)) + LengthExtra(len)
  }

  ghost function EncodeToken(lit: seq<nat>, dist: seq<nat>, t: Token): (bits: seq<bit>)
    requires TokenCoded(lit, dist, t)
  {
    match t
    case Literal(b) => CodeBits(lit, b)
    case Copy(len, d) => EncodeLength(lit, len) + EncodeDistance(dist, d)
  }

  ghost predicate AllCoded(lit: seq<nat>, dist: seq<nat>, ts: seq<Token>)
  {
    forall i :: 0 <= i < |ts| ==> TokenCoded(lit, dist, ts[i])
  }

  /** The tokens of a block followed by end-of-block. */
  ghost function EncodeTokens(lit: seq<nat>, dist: seq<nat>, ts: seq<Token>): (bits: seq<bit>)
    requires AllCoded(lit, dist, ts) && Coded(lit, 256)
  {
    if ts == [] then CodeBits(lit, 256)
    else EncodeToken(lit, dist, ts[0]) + EncodeTokens(lit, dist, ts[1..])
  }

  lemma MatchReadBack(len: nat, base: nat, extra: nat, d: nat, j: nat, dbase: seq<nat>, dextra: seq<nat>,
                      dist: seq<nat>, out: seq<byte>, limit: nat, tail: seq<bit>)
    requires |dbase| == |dextra| && forall j :: 0 <= j < |dbase| ==> dbase[j] >= 1
    requires Kraft(dist) && Coded(dist, j) && j < |dbase|
    requires base <= len < base + Pow2(extra) && dbase[j] <= d < dbase[j] + Pow2(dextra[j])
    requires d <= |out| && |out| + len <= limit
    ensures ReadMatch(base, extra, dbase, dextra, dist,
                      LsbBits(len - base, extra) + (CodeBits(dist, j) + LsbBits(d - dbase[j], dextra[j]) + tail),
                      out, limit)
         == Some((tail, Periodic(out, d, len)))
  {
    var b2 := LsbBits(d - dbase[j], dextra[j]) + tail;
    var b1 := CodeBits(dist, j) + b2;
    assert CodeBits(dist, j) + LsbBits(d - dbase[j], dextra[j]) + tail == b1;
    TakeWritten(len - base, extra, b1);
    ReadWritten(dist, j, b2);
    TakeWritten(d - dbase[j], dextra[j], tail);
  }

  lemma CopyReadBack(len: nat, d: nat, dist: seq<nat>, out: seq<byte>, limit: nat, tail: seq<bit>)
    requires 3 <= len <= 258 && 1 <= d <= 32768 && Kraft(dist) && Coded(dist, DistSymbol(d))
    requires d <= |out| && |out| + len <= limit
    ensures ReadCopy(LenSymbol(len), dist, LengthExtra(len) + (EncodeDistance(dist, d) + tail), out, limit)
         == Some((tail, Periodic(out, d, len)))
  {
    hide ReadMatch, Kraft, Coded, LsbBits, CodeBits, Periodic, Pow2;
    DistBasePositive();
    var i, j := LenSymbol(len), DistSymbol(d);
    MatchReadBack(len, LEN_BASE[i], LEN_EXTRA[i], d, j, DIST_BASE, DIST_EXTRA, dist, out, limit, tail);
  }

  lemma ReadTokensCopy(lit: seq<nat>, dist: seq<nat>, bits: seq<bit>, sym: nat, b1: seq<bit>, b2: seq<bit>,
                       out: seq<byte>, out': seq<byte>, limit: nat)
    requires ReadSymbol(lit, bits) == Some((sym, b1)) && 257 <= sym <= 285
    requires ReadCopy(sym - 257, dist, b1, out, limit) == Some((b2, out'))
    ensures ReadTokens(lit, dist, bits, out, limit) == ReadTokens(lit, dist, b2, out', limit)
  {
    hide ReadSymbol, ReadCopy;
  }

  lemma CopyWritten(lit: seq<nat>, dist: seq<nat>, len: nat, d: nat, tail: seq<bit>)
    requires TokenCoded(lit, dist, Copy(len, d))
    ensures EncodeToken(lit, dist, Copy(len, d)) + tail
         == CodeBits(lit, 257 + LenSymbol(len)) + (LengthExtra(len) + (EncodeDistance(dist, d) + tail))
  {
    hide CodeBits, LengthExtra, EncodeDistance, LenSymbol, Coded, DistSymbol;
  }

  /** One token read back, then whatever follows. */
  lemma TokenReadBack(lit: seq<nat>, dist: seq<nat>, t: Token, out: seq<byte>, limit: nat, tail: seq<bit>)
    requires Kraft(lit) && Kraft(dist) && TokenCoded(lit, dist, t) && TokenFits(t, |out|)
    requires |ExpandToken(t, out)| <= limit
    ensures ReadTokens(lit, dist, EncodeToken(lit, dist, t) + tail, out, limit)
         == ReadTokens(lit, dist, tail, ExpandToken(t, out), limit)
  {
    match t
    case Literal(b) =>
      ReadWritten(lit, b, tail);
    case Copy(len, d) =>
      var b1 := LengthExtra(len) + (EncodeDistance(dist, d) + tail);
      var sym := 257 + LenSymbol(len);
      CopyWritten(lit, dist, len, d, tail);
      ReadWritten(lit, sym, b1);
      CopyReadBack(len, d, dist, out, limit, tail);
      ReadTokensCopy(lit, dist, CodeBits(lit, sym) + b1, sym, b1, tail, out, Periodic(out, d, len), limit);
  }

  /** A compressed block decodes to the LZ77 expansion of its tokens. */
  lemma {:induction false} TokensReadBack(lit: seq<nat>, dist: seq<nat>, ts: seq<Token>, out: seq<byte>,
                                          limit: nat, tail: seq<bit>)
    requires Kraft(lit) && Kraft(dist) && AllCoded(lit, dist, ts) && Coded(lit, 256)
    requires TokensFit(ts, out) && |Expand(ts, out)| <= limit
    ensures ReadTokens(lit, dist, EncodeTokens(lit, dist, ts) + tail, out, limit) == Some((tail, Expand(ts, out)))
    decreases |ts|
  {
    if ts == [] {
      ReadWritten(lit, 256, tail);
    } else {
      var next := EncodeTokens(lit, dist, ts[1..]) + tail;
      assert EncodeTokens(lit, dist, ts) + tail == EncodeToken(lit, dist, ts[0]) + next;
      TokenReadBack(lit, dist, ts[0], out, limit, next);
      TokensReadBack(lit, dist, ts[1..], ExpandToken(ts[0], out), limit, tail);
    }
  }

  // ---- stored data

  lemma {:induction false} RawReadBack(bytes: seq<byte>, out: seq<byte>, limit: nat, tail: seq<bit>)
    requires |out| + |bytes| <= limit
    ensures ReadRaw(Stream(bytes) + tail, |bytes|, out, limit) == Some((tail, out + bytes))
    decreases |bytes|
  {
    hide LsbBits, FromLsb, Pow2;
    if bytes == [] {
      assert Stream(bytes) + tail == tail && out + bytes == out;
    } else {
      var next := Stream(bytes[1..]) + tail;
      Pow2Values();
      assert Stream(bytes) + tail == LsbBits(bytes[0], 8) + next;
      TakeWritten(bytes[0], 8, next);
      RawReadBack(bytes[1..], out + [bytes[0]], limit, tail);
      assert out + [bytes[0]] + bytes[1..] == out + bytes;
    }
  }

  ghost function PadBits(n: nat): (bits: seq<bit>)
    ensures |bits| == n
  {
    seq(n, _ => 0)
  }

  /** How many bits are missing to the next byte boundary after `off` bits. */
  function PadLen(off: nat): (n: nat)
    ensures n < 8 && (off + n) % 8 == 0
  {
    (8 - off % 8) % 8
  }

  ghost function EncodeStored(bytes: seq<byte>, off: nat): (bits: seq<bit>)
    requires |bytes| < 65536
  {
    PadBits(PadLen(off)) + (LsbBits(|bytes|, 16) + (LsbBits(65535 - |bytes|, 16) + Stream(bytes)))
  }

  lemma StoredReadBack(bytes: seq<byte>, off: nat, out: seq<byte>, limit: nat, tail: seq<bit>, m: nat)
    requires |bytes| < 65536 && |out| + |bytes| <= limit
    requires off + |EncodeStored(bytes, off)| + |tail| == 8 * m
    ensures ReadStored(EncodeStored(bytes, off) + tail, out, limit) == Some((tail, out + bytes))
  {
    hide LsbBits, Stream, FromLsb, ReadRaw, Pow2;
    Pow2Values();
    var c2 := Stream(bytes) + tail;
    var c1 := LsbBits(65535 - |bytes|, 16) + c2;
    var c0 := LsbBits(|bytes|, 16) + c1;
    var bits := EncodeStored(bytes, off) + tail;
    assert bits == PadBits(PadLen(off)) + c0;
    AlignedLength(off, PadLen(off), |c0|);
    assert bits[|bits| % 8..] == c0;
    TakeWritten(|bytes|, 16, c1);
    TakeWritten(65535 - |bytes|, 16, c2);
    RawReadBack(bytes, out, limit, tail);
  }

  lemma AlignedLength(off: nat, pad: nat, n: nat)
    requires pad < 8 && (off + pad) % 8 == 0 && (off + pad + n) % 8 == 0
    ensures (pad + n) % 8 == pad
  {
  }

  // ---- the header of a dynamic block

  datatype LenOp = Len(l: nat) | Repeat(n: nat) | Zeros(n: nat)

  ghost predicate OpFits(op: LenOp, acc: seq<nat>)
  {
    match op
    case Len(l) => l <= 15
    case Repeat(n) => 3 <= n <= 6 && acc != []
    case Zeros(n) => 3 <= n <= 138
  }

  ghost function ExpandOp(op: LenOp, acc: seq<nat>): (r: seq<nat>)
    requires OpFits(op, acc)
    ensures |r| > |acc|
  {
    match op
    case Len(l) => acc + [l]
    case Repeat(n) => acc + Repeated(acc[|acc| - 1], n)
    case Zeros(n) => acc + Repeated(0, n)
  }

  ghost predicate OpsFit(ops: seq<LenOp>, acc: seq<nat>)
  {
    ops != [] ==> OpFits(ops[0], acc) && OpsFit(ops[1..], ExpandOp(ops[0], acc))
  }

  /** The code lengths a run-length description stands for. */
  ghost function ExpandOps(ops: seq<LenOp>, acc: seq<nat>): (r: seq<nat>)
    requires OpsFit(ops, acc)
    ensures |r| >= |acc| + |ops|
  {
    if ops == [] then acc else ExpandOps(ops[1..], ExpandOp(ops[0], acc))
  }

  ghost function OpSymbol(op: LenOp): (sym: nat)
  {
    match op
    case Len(l) => l
    case Repeat(_) => 16
    case Zeros(n) => if n <= 10 then 17 else 18
  }

  ghost function OpExtra(op: LenOp): (bits: seq<bit>)
    requires op.Len? || 3 <= op.n
  {
    match op
    case Len(_) => []
    case Repeat(n) => LsbBits(n - 3, 2)
    case Zeros(n) => if n <= 10 then LsbBits(n - 3, 3) else LsbBits(n - 11, 7)
  }

  ghost predicate OpCoded(cl: seq<nat>, op: LenOp)
  {
    Coded(cl, OpSymbol(op)) && (op.Len? || 3 <= op.n)
  }

  ghost function EncodeOp(cl: seq<nat>, op: LenOp): (bits: seq<bit>)
    requires OpCoded(cl, op)
  {
    CodeBits(cl, OpSymbol(op)) + OpExtra(op)
  }

  ghost function EncodeOps(cl: seq<nat>, ops: seq<LenOp>): (bits: seq<bit>)
    requires forall i :: 0 <= i < |ops| ==> OpCoded(cl, ops[i])
  {
    if ops == [] then [] else EncodeOp(cl, ops[0]) + EncodeOps(cl, ops[1..])
  }

  /** How `ReadLengths` continues once its symbol is known. */
  lemma LengthsStep(cl: seq<nat>, bits: seq<bit>, b1: seq<bit>, op: LenOp, total: nat, acc: seq<nat>, tail: seq<bit>)
    requires ReadSymbol(cl, bits) == Some((OpSymbol(op), b1)) && OpFits(op, acc) && |ExpandOp(op, acc)| <= total
    requires op.Len? ==> b1 == tail
    requires op.Repeat? ==> Take(b1, 2) == Some((op.n - 3, tail))
    requires op.Zeros? && op.n <= 10 ==> Take(b1, 3) == Some((op.n - 3, tail))
    requires op.Zeros? && op.n > 10 ==> Take(b1, 7) == Some((op.n - 11, tail))
    ensures ReadLengths(cl, bits, total, acc) == ReadLengths(cl, tail, total, ExpandOp(op, acc))
  {
    hide ReadSymbol, Take;
  }

  lemma ExtraReadBack(op: LenOp, tail: seq<bit>)
    requires op.Len? || (op.Repeat? && 3 <= op.n <= 6) || (op.Zeros? && 3 <= op.n <= 138)
    ensures op.Len? ==> OpExtra(op) + tail == tail
    ensures op.Repeat? ==> Take(OpExtra(op) + tail, 2) == Some((op.n - 3, tail))
    ensures op.Zeros? && op.n <= 10 ==> Take(OpExtra(op) + tail, 3) == Some((op.n - 3, tail))
    ensures op.Zeros? && op.n > 10 ==> Take(OpExtra(op) + tail, 7) == Some((op.n - 11, tail))
  {
    match op
    case Len(_) =>
    case Repeat(n) =>
      assert Pow2(2) == 4;
      TakeWritten(n - 3, 2, tail);
    case Zeros(n) =>
      assert Pow2(3) == 8 && Pow2(7) == 128;
      if n <= 10 { TakeWritten(n - 3, 3, tail); } else { TakeWritten(n - 11, 7, tail); }
  }

  lemma OpReadBack(cl: seq<nat>, op: LenOp, total: nat, acc: seq<nat>, tail: seq<bit>)
    requires Kraft(cl) && OpCoded(cl, op) && OpFits(op, acc) && |ExpandOp(op, acc)| <= total
    ensures ReadLengths(cl, EncodeOp(cl, op) + tail, total, acc) == ReadLengths(cl, tail, total, ExpandOp(op, acc))
  {
    var b1 := OpExtra(op) + tail;
    var bits := CodeBits(cl, OpSymbol(op)) + b1;
    assert EncodeOp(cl, op) + tail == bits;
    ReadWritten(cl, OpSymbol(op), b1);
    ExtraReadBack(op, tail);
    LengthsStep(cl, bits, b1, op, total, acc, tail);
  }

  lemma {:induction false} OpsReadBack(cl: seq<nat>, ops: seq<LenOp>, total: nat, acc: seq<nat>, tail: seq<bit>)
    requires Kraft(cl) && forall i :: 0 <= i < |ops| ==> OpCoded(cl, ops[i])
    requires OpsFit(ops, acc) && |ExpandOps(ops, acc)| == total
    ensures ReadLengths(cl, EncodeOps(cl, ops) + tail, total, acc) == Some((ExpandOps(ops, acc), tail))
    decreases |ops|
  {
    if ops == [] {
      assert EncodeOps(cl, ops) + tail == tail;
    } else {
      var next := EncodeOps(cl, ops[1..]) + tail;
      assert EncodeOps(cl, ops) + tail == EncodeOp(cl, ops[0]) + next;
      OpReadBack(cl, ops[0], total, acc, next);
      OpsReadBack(cl, ops[1..], total, ExpandOp(ops[0], acc), tail);
    }
  }

  ghost function EncodeClens(order: seq<nat>, cl: seq<nat>, k: nat, n: nat): (bits: seq<bit>)
    requires k <= n <= |order| && forall j :: 0 <= j < |order| ==> order[j] < |cl|
    decreases n - k
  {
    if k == n then [] else LsbBits(cl[order[k]], 3) + EncodeClens(order, cl, k + 1, n)
  }

  /** `order` lists every index below `n` exactly once; `inv` says where. */
  ghost predicate Permutes(order: seq<nat>, inv: seq<nat>, n: nat)
  {
    && |order| == |inv| == n
    && (forall j :: 0 <= j < n ==> order[j] < n && inv[order[j]] == j)
    && (forall i :: 0 <= i < n ==> inv[i] < n && order[inv[i]] == i)
  }

  lemma {:induction false} ClensReadBack(order: seq<nat>, inv: seq<nat>, cl: seq<nat>, acc: seq<nat>, k: nat, n: nat,
                                         tail: seq<bit>)
    requires Permutes(order, inv, |cl|) && |acc| == |cl| && k <= n <= |cl|
    requires forall j :: 0 <= j < |cl| ==> cl[j] < 8
    requires forall j :: n <= j < |cl| ==> cl[order[j]] == 0
    requires forall j :: 0 <= j < |cl| ==> acc[order[j]] == if j < k then cl[order[j]] else 0
    ensures ReadClens(order, EncodeClens(order, cl, k, n) + tail, k, n, acc) == Some((cl, tail))
    decreases n - k
  {
    if k == n {
      assert EncodeClens(order, cl, k, n) + tail == tail;
      forall i | 0 <= i < |cl|
        ensures acc[i] == cl[i]
      {
        assert order[inv[i]] == i;
      }
      assert acc == cl;
    } else {
      var x := cl[order[k]];
      var next := EncodeClens(order, cl, k + 1, n) + tail;
      assert EncodeClens(order, cl, k, n) + tail == LsbBits(x, 3) + next;
      assert Pow2(3) == 8;
      TakeWritten(x, 3, next);
      var acc' := acc[order[k] := x];
      forall j | 0 <= j < |cl|
        ensures acc'[order[j]] == if j < k + 1 then cl[order[j]] else 0
      {
        assert inv[order[j]] == j && inv[order[k]] == k;
      }
      ClensReadBack(order, inv, cl, acc', k + 1, n, tail);
    }
  }

  const ORDER_INVERSE: seq<nat> := [3, 17, 15, 13, 11, 9, 7, 5, 4, 6, 8, 10, 12, 14, 16, 18, 0, 1, 2]

  lemma OrderPermutes()
    ensures Permutes(ORDER, ORDER_INVERSE, 19)
  {
  }
}

/**
  Whole DEFLATE streams: any list of stored, fixed and dynamic blocks, written by the encoder and
  read back, gives the bytes the blocks stand for.
 */
module DeflateRoundTrip {
  import opened Prelude
  import opened BitReaders
  import opened Huffman
  import opened Deflate
  import opened DeflateEncode

  // ---- the fixed code is complete (section 3.2.6 of RFC 1951)

  lemma {:induction false} CountRepeated(v: nat, n: nat, l: nat)
    ensures Count(Repeated(v, n), l) == if v == l then n else 0
    decreases n
  {
    if n > 0 {
      assert Repeated(v, n)[..n - 1] == Repeated(v, n - 1);
      CountRepeated(v, n - 1, l);
    }
  }

  lemma FixedLitCount(l: nat)
    ensures Count(FixedLit(), l) == if l == 7 then 24 else if l == 8 then 152 else if l == 9 then 112 else 0
  {
    CountRepeated(8, 144, l);
    CountRepeated(9, 112, l);
    CountRepeated(7, 24, l);
    CountRepeated(8, 8, l);
    CountSplit(Repeated(8, 144), Repeated(9, 112), l);
    CountSplit(Repeated(8, 144) + Repeated(9, 112), Repeated(7, 24), l);
    CountSplit(Repeated(8, 144) + Repeated(9, 112) + Repeated(7, 24), Repeated(8, 8), l);
  }

  lemma {:induction false} ShlZero(n: nat)
    ensures Shl(0, n) == 0
  {
    if n > 0 { ShlZero(n - 1); }
  }

  lemma {:induction false} KraftGap(s: seq<nat>, a: nat, b: nat)
    requires a <= b <= 15 && forall l :: a < l <= b ==> Count(s, l) == 0
    ensures KraftUpTo(s, b) == KraftUpTo(s, a)
    decreases b
  {
    if a < b {
      ShlZero(15 - b);
      KraftGap(s, a, b - 1);
    }
  }

  lemma LitKraft(s: seq<nat>)
    requires forall l: nat :: Count(s, l) == if l == 7 then 24 else if l == 8 then 152 else if l == 9 then 112 else 0
    ensures Kraft(s)
  {
    assert KraftUpTo(s, 0) == 0;
    KraftGap(s, 0, 6);
    assert KraftUpTo(s, 7) == Shl(24, 8) == 6144;
    assert KraftUpTo(s, 8) == 6144 + Shl(152, 7) == 25600;
    assert KraftUpTo(s, 9) == 25600 + Shl(112, 6) == 32768;
    KraftGap(s, 9, 15);
  }

  lemma DistKraft(s: seq<nat>)
    requires forall l: nat :: Count(s, l) == if l == 5 then 30 else 0
    ensures Kraft(s)
  {
    assert KraftUpTo(s, 0) == 0;
    KraftGap(s, 0, 4);
    assert KraftUpTo(s, 5) == Shl(30, 10) == 30720;
    KraftGap(s, 5, 15);
  }

  lemma FixedKraft()
    ensures Kraft(FixedLit()) && Kraft(FixedDist())
  {
    forall l: nat
      ensures Count(FixedLit(), l) == if l == 7 then 24 else if l == 8 then 152 else if l == 9 then 112 else 0
      ensures Count(FixedDist(), l) == if l == 5 then 30 else 0
    {
      FixedLitCount(l);
      CountRepeated(5, 30, l);
    }
    LitKraft(FixedLit());
    DistKraft(FixedDist());
  }

  lemma FixedCodesToken(t: Token, n: nat)
    requires TokenFits(t, n)
    ensures TokenCoded(FixedLit(), FixedDist(), t)
  {
  }

  /** The fixed alphabets have a code for every token that fits. */
  lemma {:induction false} FixedCodes(ts: seq<Token>, out: seq<byte>)
    requires TokensFit(ts, out)
    ensures AllCoded(FixedLit(), FixedDist(), ts)
    decreases |ts|
  {
    hide TokenCoded, ExpandToken, FixedLit, FixedDist;
    if ts != [] {
      FixedCodes(ts[1..], ExpandToken(ts[0], out));
      FixedCodesToken(ts[0], |out|);
      forall i | 0 <= i < |ts| ensures TokenCoded(FixedLit(), FixedDist(), ts[i]) {
        assert i > 0 ==> ts[i] == ts[1..][i - 1];
      }
    }
  }

  // ---- blocks

  datatype Header = Header(hclen: nat, cl: seq<nat>, ops: seq<LenOp>, hlit: nat)

  datatype Block = Stored(bytes: seq<byte>) | Fixed(tokens: seq<Token>) | Dynamic(h: Header, tokens: seq<Token>)

  /** A header a compressor may write (section 3.2.7 of RFC 1951). */
  ghost predicate HeaderFits(order: seq<nat>, h: Header)
  {
    && |order| == 19 && (forall j :: 0 <= j < 19 ==> order[j] < 19)
    && 4 <= h.hclen <= 19 && |h.cl| == 19
    && (forall j :: 0 <= j < 19 ==> h.cl[j] < 8)
    && (forall j :: h.hclen <= j < 19 ==> h.cl[order[j]] == 0)
    && Kraft(h.cl)
    && (forall i :: 0 <= i < |h.ops| ==> OpCoded(h.cl, h.ops[i]))
    && OpsFit(h.ops, [])
    && 257 <= h.hlit <= 288 && h.hlit + 1 <= |ExpandOps(h.ops, [])| <= h.hlit + 32
    && Kraft(LitLengths(h)) && Kraft(DistLengths(h))
  }

  ghost function LitLengths(h: Header): (s: seq<nat>)
    requires OpsFit(h.ops, []) && h.hlit <= |ExpandOps(h.ops, [])|
  {
    ExpandOps(h.ops, [])[..h.hlit]
  }

  ghost function DistLengths(h: Header): (s: seq<nat>)
    requires OpsFit(h.ops, []) && h.hlit <= |ExpandOps(h.ops, [])|
  {
    ExpandOps(h.ops, [])[h.hlit..]
  }

  ghost predicate BlockFits(b: Block, out: seq<byte>)
  {
    match b
    case Stored(bytes) => |bytes| < 65536
    case Fixed(ts) => TokensFit(ts, out)
    case Dynamic(h, ts) =>
      && TokensFit(ts, out) && HeaderFits(ORDER, h)
      && AllCoded(LitLengths(h), DistLengths(h), ts) && Coded(LitLengths(h), 256)
  }

  ghost function ExpandBlock(b: Block, out: seq<byte>): (r: seq<byte>)
    requires BlockFits(b, out)
    ensures |r| >= |out|
  {
    match b
    case Stored(bytes) => out + bytes
    case Fixed(ts) => Expand(ts, out)
    case Dynamic(_, ts) => Expand(ts, out)
  }

  ghost predicate BlocksFit(bs: seq<Block>, out: seq<byte>)
  {
    bs != [] ==> BlockFits(bs[0], out) && BlocksFit(bs[1..], ExpandBlock(bs[0], out))
  }

  /** The bytes a list of blocks stands for. */
  ghost function ExpandBlocks(bs: seq<Block>, out: seq<byte>): (r: seq<byte>)
    requires BlocksFit(bs, out)
    ensures |r| >= |out|
  {
    if bs == [] then out else ExpandBlocks(bs[1..], ExpandBlock(bs[0], out))
  }

  ghost function EncodeHeader(order: seq<nat>, h: Header): (bits: seq<bit>)
    requires HeaderFits(order, h)
  {
    LsbBits(h.hlit - 257, 5) + (LsbBits(|DistLengths(h)| - 1, 5) + (LsbBits(h.hclen - 4, 4)
    + (EncodeClens(order, h.cl, 0, h.hclen) + EncodeOps(h.cl, h.ops))))
  }

  function BlockType(b: Block): nat
  {
    match b case Stored(_) => 0 case Fixed(_) => 1 case Dynamic(_, _) => 2
  }

  /** A block's bits after its three header bits; `off` counts the bits written before. */
  ghost function EncodePayload(b: Block, out: seq<byte>, off: nat): (bits: seq<bit>)
    requires BlockFits(b, out)
  {
    match b
    case Stored(bytes) => EncodeStored(bytes, off)
    case Fixed(ts) => FixedCodes(ts, out); EncodeTokens(FixedLit(), FixedDist(), ts)
    case Dynamic(h, ts) => EncodeHeader(ORDER, h) + EncodeTokens(LitLengths(h), DistLengths(h), ts)
  }

  ghost function EncodeBlocks(bs: seq<Block>, out: seq<byte>, off: nat): (bits: seq<bit>)
    requires BlocksFit(bs, out)
    decreases |bs|
  {
    if bs == [] then []
    else
      var payload := EncodePayload(bs[0], out, off + 3);
      LsbBits(if |bs| == 1 then 1 else 0, 1) + (LsbBits(BlockType(bs[0]), 2)
      + (payload + EncodeBlocks(bs[1..], ExpandBlock(bs[0], out), off + 3 + |payload|)))
  }

  lemma HeaderReadBack(order: seq<nat>, inv: seq<nat>, h: Header, tail: seq<bit>)
    requires HeaderFits(order, h) && Permutes(order, inv, 19)
    ensures ReadHeader(order, EncodeHeader(order, h) + tail) == Some((LitLengths(h), DistLengths(h), tail))
  {
    hide ReadHeader, ReadClens, ReadLengths, EncodeClens, EncodeOps, Kraft, OpsFit, LsbBits;
    var n := |DistLengths(h)|;
    var b4 := EncodeOps(h.cl, h.ops) + tail;
    var b3 := EncodeClens(order, h.cl, 0, h.hclen) + b4;
    ClensReadBack(order, inv, h.cl, Repeated(0, 19), 0, h.hclen, b4);
    OpsReadBack(h.cl, h.ops, h.hlit + n, [], tail);
    assert ReadClens(order, b3, 0, h.hclen, Repeated(0, 19)) == Some((h.cl, b4));
    assert ReadLengths(h.cl, b4, h.hlit + n, []) == Some((ExpandOps(h.ops, []), tail));
    HeaderTail(order, h.hlit, n, h.hclen, b3, h.cl, b4, ExpandOps(h.ops, []), tail);
    Reassociate(LsbBits(h.hlit - 257, 5), LsbBits(n - 1, 5), LsbBits(h.hclen - 4, 4),
                EncodeClens(order, h.cl, 0, h.hclen), EncodeOps(h.cl, h.ops), tail);
    assert EncodeHeader(order, h) + tail
        == LsbBits(h.hlit - 257, 5) + (LsbBits(n - 1, 5) + (LsbBits(h.hclen - 4, 4) + b3));
  }

  lemma DynamicReadBack(h: Header, ts: seq<Token>, out: seq<byte>, limit: nat, tail: seq<bit>)
    requires BlockFits(Dynamic(h, ts), out) && |Expand(ts, out)| <= limit
    ensures ReadDynamic(EncodeHeader(ORDER, h) + EncodeTokens(LitLengths(h), DistLengths(h), ts) + tail, out, limit)
         == Some((tail, Expand(ts, out)))
  {
    hide ReadTokens, EncodeTokens, EncodeHeader, ReadHeader, TokensFit, Expand, AllCoded, Kraft, OpsFit, ExpandOps;
    var rest := EncodeTokens(LitLengths(h), DistLengths(h), ts) + tail;
    OrderPermutes();
    HeaderReadBack(ORDER, ORDER_INVERSE, h, rest);
    TokensReadBack(LitLengths(h), DistLengths(h), ts, out, limit, tail);
    assert EncodeHeader(ORDER, h) + EncodeTokens(LitLengths(h), DistLengths(h), ts) + tail == EncodeHeader(ORDER, h) + rest;
  }

  lemma FixedReadBack(ts: seq<Token>, out: seq<byte>, limit: nat, tail: seq<bit>)
    requires TokensFit(ts, out) && |Expand(ts, out)| <= limit
    ensures AllCoded(FixedLit(), FixedDist(), ts) && Coded(FixedLit(), 256)
    ensures ReadTokens(FixedLit(), FixedDist(), EncodeTokens(FixedLit(), FixedDist(), ts) + tail, out, limit)
         == Some((tail, Expand(ts, out)))
  {
    FixedKraft();
    FixedCodes(ts, out);
    TokensReadBack(FixedLit(), FixedDist(), ts, out, limit, tail);
  }

  lemma Reassociate(a: seq<bit>, b: seq<bit>, c: seq<bit>, d: seq<bit>, e: seq<bit>, f: seq<bit>)
    ensures a + (b + (c + (d + e))) + f == a + (b + (c + (d + (e + f))))
  {
  }

  lemma HeaderTail(order: seq<nat>, hlit: nat, hdist: nat, hclen: nat, b3: seq<bit>, cl: seq<nat>, b4: seq<bit>,
                   lens: seq<nat>, b5: seq<bit>)
    requires 257 <= hlit < 289 && 1 <= hdist < 33 && 4 <= hclen <= 19
    requires |order| == 19 && forall j :: 0 <= j < 19 ==> order[j] < 19
    requires ReadClens(order, b3, 0, hclen, Repeated(0, 19)) == Some((cl, b4))
    requires ReadLengths(cl, b4, hlit + hdist, []) == Some((lens, b5))
    ensures ReadHeader(order, LsbBits(hlit - 257, 5) + (LsbBits(hdist - 1, 5) + (LsbBits(hclen - 4, 4) + b3)))
         == Some((lens[..hlit], lens[hlit..], b5))
  {
    var b2 := LsbBits(hclen - 4, 4) + b3;
    var b1 := LsbBits(hdist - 1, 5) + b2;
    CountsReadBack(hlit, hdist, hclen, b3);
    HeaderSteps(order, LsbBits(hlit - 257, 5) + b1, hlit, hdist, hclen, b1, b2, b3, cl, b4, lens, b5);
  }

  lemma CountsReadBack(hlit: nat, hdist: nat, hclen: nat, tail: seq<bit>)
    requires 257 <= hlit < 289 && 1 <= hdist < 33 && 4 <= hclen <= 19
    ensures var b2 := LsbBits(hclen - 4, 4) + tail;
            var b1 := LsbBits(hdist - 1, 5) + b2;
            && Take(LsbBits(hlit - 257, 5) + b1, 5) == Some((hlit - 257, b1))
            && Take(b1, 5) == Some((hdist - 1, b2))
            && Take(b2, 4) == Some((hclen - 4, tail))
  {
    assert Pow2(4) == 16 && Pow2(5) == 32;
    var b2 := LsbBits(hclen - 4, 4) + tail;
    var b1 := LsbBits(hdist - 1, 5) + b2;
    TakeWritten(hlit - 257, 5, b1);
    TakeWritten(hdist - 1, 5, b2);
    TakeWritten(hclen - 4, 4, tail);
  }

  lemma HeaderSteps(order: seq<nat>, b0: seq<bit>, hlit: nat, hdist: nat, hclen: nat, b1: seq<bit>, b2: seq<bit>,
                    b3: seq<bit>, cl: seq<nat>, b4: seq<bit>, lens: seq<nat>, b5: seq<bit>)
    requires hlit >= 257 && hdist >= 1 && 4 <= hclen <= 19
    requires |order| == 19 && forall j :: 0 <= j < 19 ==> order[j] < 19
    requires Take(b0, 5) == Some((hlit - 257, b1)) && Take(b1, 5) == Some((hdist - 1, b2))
    requires Take(b2, 4) == Some((hclen - 4, b3))
    requires ReadClens(order, b3, 0, hclen, Repeated(0, 19)) == Some((cl, b4))
    requires ReadLengths(cl, b4, hlit + hdist, []) == Some((lens, b5))
    ensures ReadHeader(order, b0) == Some((lens[..hlit], lens[hlit..], b5))
  {
    hide Take, ReadClens, ReadLengths;
  }

  lemma PayloadReadBack(b: Block, off: nat, out: seq<byte>, limit: nat, tail: seq<bit>, m: nat)
    requires BlockFits(b, out) && |ExpandBlock(b, out)| <= limit
    requires off + |EncodePayload(b, out, off)| + |tail| == 8 * m
    ensures ReadBlock(BlockType(b), EncodePayload(b, out, off) + tail, out, limit) == Some((tail, ExpandBlock(b, out)))
  {
    match b
    case Stored(bytes) => StoredReadBack(bytes, off, out, limit, tail, m);
    case Fixed(ts) => FixedReadBack(ts, out, limit, tail);
    case Dynamic(h, ts) => DynamicReadBack(h, ts, out, limit, tail);
  }

  /** One block read back, then whatever follows. */
  lemma BlockReadBack(b: Block, last: nat, off: nat, out: seq<byte>, limit: nat, tail: seq<bit>, m: nat)
    requires BlockFits(b, out) && |ExpandBlock(b, out)| <= limit && last < 2
    requires off + |EncodePayload(b, out, off)| + |tail| == 8 * m
    ensures ReadBlocks(LsbBits(last, 1) + (LsbBits(BlockType(b), 2) + (EncodePayload(b, out, off) + tail)), out, limit)
         == if last == 1 then Some(ExpandBlock(b, out)) else ReadBlocks(tail, ExpandBlock(b, out), limit)
  {
    var b2 := EncodePayload(b, out, off) + tail;
    var b1 := LsbBits(BlockType(b), 2) + b2;
    PayloadReadBack(b, off, out, limit, tail, m);
    FlagsReadBack(last, BlockType(b), b2);
    BlocksStep(LsbBits(last, 1) + b1, last, b1, BlockType(b), b2, tail, out, ExpandBlock(b, out), limit);
  }

  /** Reading an encoded stream, whatever bits follow it, gives the expansion of its blocks. */
  lemma {:induction false} BlocksReadBack(bs: seq<Block>, out: seq<byte>, off: nat, limit: nat, tail: seq<bit>,
                                          m: nat)
    requires bs != [] && BlocksFit(bs, out) && |ExpandBlocks(bs, out)| <= limit
    requires off + |EncodeBlocks(bs, out, off)| + |tail| == 8 * m
    ensures ReadBlocks(EncodeBlocks(bs, out, off) + tail, out, limit) == Some(ExpandBlocks(bs, out))
    decreases |bs|
  {
    hide EncodePayload, BlockFits, ExpandBlock, ReadBlocks, EncodeBlocks;
    var out' := ExpandBlock(bs[0], out);
    var off' := off + 3 + |EncodePayload(bs[0], out, off + 3)|;
    BlocksWritten(bs, out, off, tail);
    var rest := EncodeBlocks(bs[1..], out', off') + tail;
    assert off + 3 + |EncodePayload(bs[0], out, off + 3)| + |rest| == 8 * m;
    BlockReadBack(bs[0], if |bs| == 1 then 1 else 0, off + 3, out, limit, rest, m);
    if |bs| > 1 {
      BlocksReadBack(bs[1..], out', off', limit, tail, m);
      assert ReadBlocks(rest, out', limit) == Some(ExpandBlocks(bs[1..], out'));
    } else {
      assert bs[1..] == [];
    }
  }

  lemma BlocksWritten(bs: seq<Block>, out: seq<byte>, off: nat, tail: seq<bit>)
    requires bs != [] && BlocksFit(bs, out)
    ensures var payload := EncodePayload(bs[0], out, off + 3);
            EncodeBlocks(bs, out, off) + tail
            == LsbBits(if |bs| == 1 then 1 else 0, 1) + (LsbBits(BlockType(bs[0]), 2)
               + (payload + (EncodeBlocks(bs[1..], ExpandBlock(bs[0], out), off + 3 + |payload|) + tail)))
            && |EncodeBlocks(bs, out, off)|
               == 3 + |payload| + |EncodeBlocks(bs[1..], ExpandBlock(bs[0], out), off + 3 + |payload|)|
  {
    hide EncodePayload, BlockFits, ExpandBlock, BlockType, LsbBits;
  }

  lemma FlagsReadBack(last: nat, ty: nat, tail: seq<bit>)
    requires last < 2 && ty < 4
    ensures Take(LsbBits(last, 1) + (LsbBits(ty, 2) + tail), 1) == Some((last, LsbBits(ty, 2) + tail))
    ensures Take(LsbBits(ty, 2) + tail, 2) == Some((ty, tail))
  {
    assert Pow2(1) == 2 && Pow2(2) == 4;
    TakeWritten(last, 1, LsbBits(ty, 2) + tail);
    TakeWritten(ty, 2, tail);
  }

  lemma BlocksStep(b0: seq<bit>, last: nat, b1: seq<bit>, ty: nat, b2: seq<bit>, b3: seq<bit>, out: seq<byte>,
                   out': seq<byte>, limit: nat)
    requires Take(b0, 1) == Some((last, b1)) && Take(b1, 2) == Some((ty, b2))
    requires ReadBlock(ty, b2, out, limit) == Some((b3, out'))
    ensures ReadBlocks(b0, out, limit) == if last == 1 then Some(out') else ReadBlocks(b3, out', limit)
  {
  }

  // ---- bits to bytes

  /** Pack bits into bytes LSB-first, zero-filling the last one (section 3.1.1 of RFC 1951). */
  ghost function Pack(bits: seq<bit>): (data: seq<byte>)
    decreases |bits|
  {
    if bits == [] then []
    else if |bits| < 8 then [PackByte(bits)]
    else [PackByte(bits[..8])] + Pack(bits[8..])
  }

  ghost function PackByte(s: seq<bit>): (b: byte)
    requires |s| <= 8
  {
    FromLsbBound(s);
    assert Pow2(8) == 256;
    Pow2Monotone(|s|, 8);
    FromLsb(s)
  }

  lemma {:induction false} FromLsbBound(s: seq<bit>)
    ensures FromLsb(s) < Pow2(|s|)
  {
    if s != [] {
      FromLsbBound(s[1..]);
    }
  }

  lemma {:induction false} LsbBitsOfValue(s: seq<bit>, n: nat)
    requires |s| <= n
    ensures s <= LsbBits(FromLsb(s), n)
    decreases n
  {
    if s != [] {
      LsbBitsOfValue(s[1..], n - 1);
      assert FromLsb(s) % 2 == s[0] && FromLsb(s) / 2 == FromLsb(s[1..]);
      assert s == [s[0]] + s[1..];
    }
  }

  lemma {:induction false} StreamOfPack(bits: seq<bit>)
    ensures bits <= Stream(Pack(bits))
    decreases |bits|
  {
    if bits == [] {
    } else if |bits| < 8 {
      LsbBitsOfValue(bits, 8);
    } else {
      LsbBitsOfValue(bits[..8], 8);
      StreamOfPack(bits[8..]);
      assert Pack(bits)[1..] == Pack(bits[8..]);
      assert bits == bits[..8] + bits[8..];
    }
  }

  /**
    The round trip: any block list within the limit, encoded, packed into bytes and followed by any
    trailer (zlib's Adler-32, for instance), reads back as the bytes it stands for.
   */
  lemma RoundTrip(bs: seq<Block>, limit: nat, trailer: seq<byte>)
    requires bs != [] && BlocksFit(bs, []) && |ExpandBlocks(bs, [])| <= limit
    ensures ReadBlocks(Stream(Pack(EncodeBlocks(bs, [], 0)) + trailer), [], limit) == Some(ExpandBlocks(bs, []))
  {
    hide EncodeBlocks, ReadBlocks, BlocksFit, ExpandBlocks, Pack;
    var bits := EncodeBlocks(bs, [], 0);
    var data := Pack(bits) + trailer;
    assert bits <= Stream(data) by {
      StreamOfPack(bits);
      StreamConcat(Pack(bits), trailer);
    }
    var tail := Stream(data)[|bits|..];
    assert Stream(data) == bits + tail;
    BlocksReadBack(bs, [], 0, limit, tail, |data|);
  }

  lemma {:induction false} StreamConcat(a: seq<byte>, b: seq<byte>)
    ensures Stream(a + b) == Stream(a) + Stream(b)
  {
    hide LsbBits;
    if a == [] {
      assert a + b == b;
    } else {
      StreamConcat(a[1..], b);
      assert (a + b)[1..] == a[1..] + b;
      var x, y, z := LsbBits(a[0], 8), Stream(a[1..]), Stream(b);
      assert (x + y) + z == x + (y + z);
    }
  }
}

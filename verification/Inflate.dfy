/**
  The DEFLATE decoder of vock/src/fuzz/inflate.rs, in its own imperative form, proved against the
  reference reader of `Deflate`.
 */
module Inflate {
  import opened Prelude
  import opened BitReaders
  import opened Huffman
  import opened Deflate

  /** The byte-by-byte copy of a back-reference, which may read bytes it has just written. */
  method CopyBack(before: seq<byte>, d: nat, len: nat) returns (out: seq<byte>)
    requires 1 <= d <= |before|
    ensures out == Periodic(before, d, len)
  {
    out := before;
    var start := |out| - d;
    for k := 0 to len
      invariant out == Periodic(before, d, k)
    {
      PeriodicNext(before, d, k);
      var b := out[start + k];
      out := out + [b];
    }
  }

  lemma PeriodicNext(out: seq<byte>, d: nat, k: nat)
    requires 1 <= d <= |out|
    ensures Periodic(out, d, k + 1) == Periodic(out, d, k) + [Periodic(out, d, k)[|out| - d + k]]
  {
    if k < d {
      SmallMod(k, d);
    } else {
      ModShift(k - d, d);
    }
  }

  /** The block loop: literals, matches, end-of-block, and every way a block can be refused. */
  method InflateBlock(br: BitReader, before: seq<byte>, lit: Table, dist: Table, limit: nat,
                      ghost ls: seq<nat>, ghost ds: seq<nat>) returns (r: Option<seq<byte>>)
    requires br.Valid() && Represents(lit, ls) && Represents(dist, ds)
    requires forall i :: 0 <= i < |ls| ==> ls[i] <= 15
    requires forall i :: 0 <= i < |ds| ==> ds[i] <= 15
    modifies br`pos, br`buf, br`cnt
    ensures r.None? <==> ReadTokens(ls, ds, old(br.Rest()), before, limit).None?
    ensures r.Some? ==> br.Valid() && ReadTokens(ls, ds, old(br.Rest()), before, limit) == Some((br.Rest(), r.value))
  {
    hide Represents, ReadSymbol, ReadCopy, Matches, Pow2, BitReader.Rest;
    var out := before;
    while true
      invariant br.Valid()
      invariant ReadTokens(ls, ds, br.Rest(), out, limit) == ReadTokens(ls, ds, old(br.Rest()), before, limit)
      decreases |br.Rest()|
    {
      var sym :- Decode(lit, br, ls);
      if sym <= 255 {
        if |out| >= limit {
          return None;
        }
        out := out + [sym];
      } else if sym == 256 {
        return Some(out);
      } else if sym <= 285 {
        out :- InflateCopy(br, out, sym - 257, dist, limit, ds);
      } else {
        return None;
      }
    }
  }

  /** One match: extra length bits, the distance symbol and its extra bits, then the copy. */
  method InflateMatch(br: BitReader, before: seq<byte>, lenBase: nat, lenExtra: nat, distBase: seq<nat>,
                      distExtra: seq<nat>, dist: Table, limit: nat, ghost ds: seq<nat>)
    returns (r: Option<seq<byte>>)
    requires br.Valid() && Represents(dist, ds)
    requires forall i :: 0 <= i < |ds| ==> ds[i] <= 15
    requires |distBase| == |distExtra| == 30 && forall j :: 0 <= j < 30 ==> distBase[j] >= 1
    requires lenExtra <= 16 && forall j :: 0 <= j < 30 ==> distExtra[j] <= 16
    modifies br`pos, br`buf, br`cnt
    ensures r.None? <==>
              ReadMatch(lenBase, lenExtra, distBase, distExtra, ds, old(br.Rest()), before, limit).None?
    ensures r.Some? ==> br.Valid() && ReadMatch(lenBase, lenExtra, distBase, distExtra, ds, old(br.Rest()), before, limit)
                                      == Some((br.Rest(), r.value))
  {
    hide Represents, Periodic, ReadSymbol, Take, Matches, BitReader.Valid, BitReader.Rest;
    var x :- br.Bits(lenExtra);
    var len := lenBase + x;
    var dsym :- Decode(dist, br, ds);
    if dsym >= 30 {
      return None;
    }
    var y :- br.Bits(distExtra[dsym]);
    var d := distBase[dsym] + y;
    if d > |before| || |before| + len > limit {
      return None;
    }
    var out := CopyBack(before, d, len);
    r := Some(out);
  }

  method InflateCopy(br: BitReader, before: seq<byte>, i: nat, dist: Table, limit: nat, ghost ds: seq<nat>)
    returns (r: Option<seq<byte>>)
    requires br.Valid() && Represents(dist, ds) && i < 29
    requires forall i :: 0 <= i < |ds| ==> ds[i] <= 15
    modifies br`pos, br`buf, br`cnt
    ensures r.None? <==> ReadCopy(i, ds, old(br.Rest()), before, limit).None?
    ensures r.Some? ==> br.Valid() && ReadCopy(i, ds, old(br.Rest()), before, limit) == Some((br.Rest(), r.value))
  {
    hide Represents, ReadMatch, BitReader.Valid, BitReader.Rest;
    DistBasePositive();
    r := InflateMatch(br, before, LEN_BASE[i], LEN_EXTRA[i], DIST_BASE, DIST_EXTRA, dist, limit, ds);
  }

  method InflateStored(br: BitReader, before: seq<byte>, limit: nat) returns (r: Option<seq<byte>>)
    requires br.Valid()
    modifies br`pos, br`buf, br`cnt
    ensures r.None? <==> ReadStored(old(br.Rest()), before, limit).None?
    ensures r.Some? ==> br.Valid() && ReadStored(old(br.Rest()), before, limit) == Some((br.Rest(), r.value))
  {
    hide LsbBits, Stream, Take, Pow2;
    Pow2Values();
    br.AlignByte();
    var len :- br.Bits(16);
    var _ :- br.Bits(16);
    var out: seq<byte> := before;
    ghost var start := br.Rest();
    for k := 0 to len
      invariant br.Valid()
      invariant ReadRaw(br.Rest(), len - k, out, limit) == ReadRaw(start, len, before, limit)
    {
      if |out| >= limit {
        return None;
      }
      var b :- br.Bits(8);
      out := out + [b];
    }
    r := Some(out);
  }

  /** The code length code's lengths, in their transmission order. */
  method ReadCodeLengthLengths(br: BitReader, hclen: nat) returns (r: Option<seq<nat>>)
    requires br.Valid() && hclen <= 19
    modifies br`pos, br`buf, br`cnt
    ensures |ORDER| == 19 && forall j :: 0 <= j < 19 ==> ORDER[j] < 19
    ensures r.None? <==> ReadClens(ORDER, old(br.Rest()), 0, hclen, Repeated(0, 19)).None?
    ensures r.Some? ==> br.Valid() && |r.value| == 19 && forall j :: 0 <= j < 19 ==> r.value[j] <= 15
    ensures r.Some? ==> ReadClens(ORDER, old(br.Rest()), 0, hclen, Repeated(0, 19)) == Some((r.value, br.Rest()))
  {
    hide LsbBits, Stream, Take, Pow2;
    Pow2Values();
    OrderInRange();
    var cl: seq<nat> := seq(19, _ => 0);
    assert cl == Repeated(0, 19);
    for k := 0 to hclen
      invariant br.Valid() && |cl| == 19 && forall j :: 0 <= j < 19 ==> cl[j] <= 15
      invariant ReadClens(ORDER, br.Rest(), k, hclen, cl)
             == ReadClens(ORDER, old(br.Rest()), 0, hclen, Repeated(0, 19))
    {
      var x :- br.Bits(3);
      cl := cl[ORDER[k] := x];
    }
    r := Some(cl);
  }

  /** The written part of a length vector, and zeros after it. */
  ghost predicate Written(lengths: seq<nat>, i: nat, acc: seq<nat>)
  {
    && i <= |lengths| && lengths[..i] == acc
    && (forall j :: i <= j < |lengths| ==> lengths[j] == 0)
    && (forall j :: 0 <= j < |lengths| ==> lengths[j] <= 15)
  }

  lemma WriteOne(lengths: seq<nat>, i: nat, acc: seq<nat>, v: nat)
    requires Written(lengths, i, acc) && i < |lengths| && v <= 15
    ensures Written(lengths[i := v], i + 1, acc + [v])
  {
  }

  lemma SkipZeros(lengths: seq<nat>, i: nat, acc: seq<nat>, n: nat)
    requires Written(lengths, i, acc)
    ensures Written(lengths, Min(i + n, |lengths|), acc + Repeated(0, Min(n, |lengths| - i)))
  {
  }

  /** Repeat the previous length `n` times; refuse to run past the end. */
  method RepeatPrevious(lengths0: seq<nat>, i0: nat, n: nat, ghost acc: seq<nat>) returns (r: Option<seq<nat>>)
    requires Written(lengths0, i0, acc) && i0 > 0
    ensures r.None? <==> i0 + n > |lengths0|
    ensures r.Some? ==> |r.value| == |lengths0| && Written(r.value, i0 + n, acc + Repeated(acc[i0 - 1], n))
  {
    var lengths, i := lengths0, i0;
    var prev := lengths[i - 1];
    for k := 0 to n
      invariant i == i0 + k && |lengths| == |lengths0|
      invariant Written(lengths, i, acc + Repeated(prev, k))
    {
      if i >= |lengths| {
        return None;
      }
      WriteOne(lengths, i, acc + Repeated(prev, k), prev);
      assert acc + Repeated(prev, k) + [prev] == acc + Repeated(prev, k + 1);
      lengths := lengths[i := prev];
      i := i + 1;
    }
    r := Some(lengths);
  }

  /** The run-length coded lengths of both alphabets. */
  method ReadCodeLengths(br: BitReader, tree: Table, total: nat, ghost cl: seq<nat>) returns (r: Option<seq<nat>>)
    requires br.Valid() && Represents(tree, cl)
    requires forall j :: 0 <= j < |cl| ==> cl[j] <= 15
    modifies br`pos, br`buf, br`cnt
    ensures r.None? <==> ReadLengths(cl, old(br.Rest()), total, []).None?
    ensures r.Some? ==> br.Valid() && |r.value| == total && forall j :: 0 <= j < total ==> r.value[j] <= 15
    ensures r.Some? ==> ReadLengths(cl, old(br.Rest()), total, []) == Some((r.value, br.Rest()))
  {
    hide Take, Represents, ReadSymbol, Matches, Pow2, Repeated, BitReader.Rest;
    var lengths: seq<nat> := seq(total, _ => 0);
    var i: nat := 0;
    ghost var acc: seq<nat> := [];
    while i < |lengths|
      invariant br.Valid() && |lengths| == total && Written(lengths, i, acc)
      invariant ReadLengths(cl, br.Rest(), total, acc) == ReadLengths(cl, old(br.Rest()), total, [])
      decreases |br.Rest()|
    {
      var sym :- Decode(tree, br, cl);
      if sym <= 15 {
        WriteOne(lengths, i, acc, sym);
        lengths := lengths[i := sym];
        i, acc := i + 1, acc + [sym];
      } else if sym == 16 {
        if i == 0 {
          return None;
        }
        var x :- br.Bits(2);
        lengths :- RepeatPrevious(lengths, i, 3 + x, acc);
        i, acc := i + 3 + x, acc + Repeated(acc[i - 1], 3 + x);
      } else if sym == 17 {
        var x :- br.Bits(3);
        SkipZeros(lengths, i, acc, 3 + x);
        i, acc := Min(i + 3 + x, |lengths|), acc + Repeated(0, Min(3 + x, total - i));
      } else if sym == 18 {
        var x :- br.Bits(7);
        SkipZeros(lengths, i, acc, 11 + x);
        i, acc := Min(i + 11 + x, |lengths|), acc + Repeated(0, Min(11 + x, total - i));
      } else {
        return None;
      }
    }
    assert lengths[..i] == lengths;
    r := Some(lengths);
  }

  method InflateDynamic(br: BitReader, before: seq<byte>, limit: nat) returns (r: Option<seq<byte>>)
    requires br.Valid()
    modifies br`pos, br`buf, br`cnt
    ensures r.None? <==> ReadDynamic(old(br.Rest()), before, limit).None?
    ensures r.Some? ==> br.Valid() && ReadDynamic(old(br.Rest()), before, limit) == Some((br.Rest(), r.value))
  {
    hide Take, Represents, ReadTokens, ReadLengths, ReadClens, Repeated, Pow2, BitReader.Valid, BitReader.Rest;
    Pow2Values();
    var h :- br.Bits(5);
    var hlit := h + 257;
    var d :- br.Bits(5);
    var hdist := d + 1;
    var c :- br.Bits(4);
    var hclen := c + 4;
    var cl :- ReadCodeLengthLengths(br, hclen);
    var tree := NewTable(cl);
    var lengths :- ReadCodeLengths(br, tree, hlit + hdist, cl);
    var lit := NewTable(lengths[..hlit]);
    var dist := NewTable(lengths[hlit..]);
    r := InflateBlock(br, before, lit, dist, limit, lengths[..hlit], lengths[hlit..]);
  }

  method FixedTrees() returns (lit: Table, dist: Table)
    ensures Represents(lit, FixedLit()) && Represents(dist, FixedDist())
    ensures forall i :: 0 <= i < |FixedLit()| ==> FixedLit()[i] <= 15
    ensures forall i :: 0 <= i < |FixedDist()| ==> FixedDist()[i] <= 15
  {
    hide Represents;
    var lens := new nat[288];
    for i := 0 to 288
      invariant forall j :: 0 <= j < i ==> lens[j] == FixedLit()[j]
    {
      lens[i] := if i <= 143 then 8 else if i <= 255 then 9 else if i <= 279 then 7 else 8;
    }
    assert lens[..] == FixedLit();
    lit := NewTable(lens[..]);
    var ds: seq<nat> := seq(30, _ => 5);
    assert ds == FixedDist();
    dist := NewTable(ds);
  }

  /**
    `inflate`: on every byte string and every limit the decoder terminates and agrees with the
    reference reader of DEFLATE streams, and never returns more than `limit` bytes.
   */
  method InflateStream(data: seq<byte>, limit: nat) returns (r: Option<seq<byte>>)
    ensures r == ReadBlocks(Stream(data), [], limit)
    ensures r.Some? ==> |r.value| <= limit
  {
    hide LsbBits, Stream, Take, Represents, ReadTokens, ReadStored, ReadDynamic, Pow2, FixedLit, FixedDist;
    Pow2Values();
    var br := new BitReader(data);
    var out: seq<byte> := [];
    while true
      invariant br.Valid() && fresh(br)
      invariant ReadBlocks(br.Rest(), out, limit) == ReadBlocks(Stream(data), [], limit)
      decreases |br.Rest()|
    {
      var last :- br.Bits(1);
      var btype :- br.Bits(2);
      match btype {
        case 0 =>
          out :- InflateStored(br, out, limit);
        case 1 =>
          var lit, dist := FixedTrees();
          out :- InflateBlock(br, out, lit, dist, limit, FixedLit(), FixedDist());
        case 2 =>
          out :- InflateDynamic(br, out, limit);
        case _ =>
          return None;
      }
      if last == 1 {
        return Some(out);
      }
    }
  }
}

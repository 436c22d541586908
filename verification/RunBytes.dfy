/**
  Where every byte a call is given comes from (vock/src/fuzz/prog_decode.rs, `copyin`, `encode`,
  `fix_csums`, `Arena::write`): a byte of one reference, a byte of an object's checksum, or nothing
  that depends on the resource slots.  Objects are clipped at the next recorded address, and where a
  call lays out several objects over one another the last one is seen.
 */
module RunBytes {
  import opened Prelude
  import opened Checksum
  import opened SyzArena
  import opened SyzLayout
  import opened SyzCopyin

  const ALL_ONES: u64 := 0xffff_ffff_ffff_ffff
  const U32_MAX: nat := 0xffff_ffff

  /** The arena's size, the recorded addresses and the integer width. */
  datatype Setup = Setup(size: nat, fixed: seq<nat>, w: nat)

  datatype Origin = Constant | Of(idx: nat, div: u64, add: u64, k: nat) | Sum(t: Arg, high: bool)

  /** Byte `k` of a little-endian number. */
  function ByteOf(v: nat, k: nat): (b: byte)
  {
    LeBytes(v, k + 1)[k]
  }

  lemma ByteStep(x: nat, n: nat, j: nat)
    requires j < n
    ensures LeBytes(x, n)[j] == if j == 0 then x % 256 else LeBytes(x / 256, n - 1)[j - 1]
  {
  }

  lemma {:induction false} ByteAt(v: nat, n: nat, k: nat)
    requires k < n
    ensures LeBytes(v, n)[k] == ByteOf(v, k)
    decreases n
  {
    ByteStep(v, n, k);
    ByteStep(v, k + 1, k);
    if k > 0 {
      ByteAt(v / 256, n - 1, k - 1);
    }
  }

  // ---- images

  /** Where byte `p` of an image comes from, before its checksum is stored. */
  function ImageOrigin(arg: Arg, p: nat, w: nat): (o: Origin)
    requires p < EncodedLen(arg, w)
    decreases arg, 0
  {
    match arg
    case Res(idx, div, add) => Of(idx, div, add, p)
    case Union(c) => ImageOrigin(c, p, w)
    case Out(_, inner) => if p < EncodedLen(inner, RES_WIDTH) then ImageOrigin(inner, p, RES_WIDTH) else Constant
    case Struct(fs) => ImageOriginIn(fs, p, w)
    case Array(fs) => ImageOriginIn(fs, p, w)
    case _ => Constant
  }

  function ImageOriginIn(fs: seq<Arg>, p: nat, w: nat): (o: Origin)
    requires p < EncodedLens(fs, w)
    decreases fs, 1
  {
    var n := EncodedLen(fs[0], w);
    if p < n then ImageOrigin(fs[0], p, w) else ImageOriginIn(fs[1..], p - n, w)
  }

  /** A byte is what its origin makes it: a byte of a resolved reference, or the same in every context. */
  ghost predicate ComesFrom(x: byte, y: byte, o: Origin, a: Ctx, b: Ctx)
  {
    match o
    case Constant => x == y
    case Of(idx, div, add, k) =>
      x == ByteOf(Resolve(a, idx, div, add), k) && y == ByteOf(Resolve(b, idx, div, add), k)
    case Sum(_, _) => false
  }

  lemma {:induction false} ImageComes(arg: Arg, a: Ctx, b: Ctx, p: nat, w: nat)
    requires Width(w) && p < EncodedLen(arg, w)
    ensures p < |Encode(arg, a, w)| && p < |Encode(arg, b, w)|
    ensures ComesFrom(Encode(arg, a, w)[p], Encode(arg, b, w)[p], ImageOrigin(arg, p, w), a, b)
    decreases arg, 0
  {
    hide ByteOf, Resolve, ComesFrom, LeBytes;
    EncodeLength(arg, a, w);
    EncodeLength(arg, b, w);
    match arg
    case Res(idx, div, add) =>
      ByteAt(Resolve(a, idx, div, add), w, p);
      ByteAt(Resolve(b, idx, div, add), w, p);
      ReferenceComes(idx, div, add, p, a, b);
    case Union(c) => ImageComes(c, a, b, p, w);
    case Out(slot, inner) =>
      EncodeLength(inner, a, RES_WIDTH);
      EncodeLength(inner, b, RES_WIDTH);
      ResizeAt(slot, inner, a, w, p);
      ResizeAt(slot, inner, b, w, p);
      if p < EncodedLen(inner, RES_WIDTH) {
        ImageComes(inner, a, b, p, RES_WIDTH);
      } else {
        ConstantComes(0, a, b);
      }
    case Struct(fs) => ImageComesIn(fs, a, b, p, w);
    case Array(fs) => ImageComesIn(fs, a, b, p, w);
    case _ => ConstantComes(Encode(arg, a, w)[p], a, b);
  }

  lemma {:induction false} ImageComesIn(fs: seq<Arg>, a: Ctx, b: Ctx, p: nat, w: nat)
    requires Width(w) && p < EncodedLens(fs, w)
    ensures p < |EncodeAll(fs, a, w)| && p < |EncodeAll(fs, b, w)|
    ensures ComesFrom(EncodeAll(fs, a, w)[p], EncodeAll(fs, b, w)[p], ImageOriginIn(fs, p, w), a, b)
    decreases fs, 1
  {
    hide ComesFrom, Encode, EncodedLen;
    var n := EncodedLen(fs[0], w);
    EncodeLength(fs[0], a, w);
    EncodeLength(fs[0], b, w);
    EncodeLengths(fs, a, w);
    EncodeLengths(fs, b, w);
    if p < n {
      ImageComes(fs[0], a, b, p, w);
    } else {
      ImageComesIn(fs[1..], a, b, p - n, w);
    }
  }

  lemma ReferenceComes(idx: nat, div: u64, add: u64, k: nat, a: Ctx, b: Ctx)
    ensures ComesFrom(ByteOf(Resolve(a, idx, div, add), k), ByteOf(Resolve(b, idx, div, add), k), Of(idx, div, add, k), a, b)
  {
  }

  lemma ConstantComes(x: byte, a: Ctx, b: Ctx)
    ensures ComesFrom(x, x, Constant, a, b)
  {
  }

  lemma ResizeAt(slot: nat, inner: Arg, ctx: Ctx, w: nat, p: nat)
    requires Width(w) && p < RES_WIDTH
    ensures |Encode(Out(slot, inner), ctx, w)| == RES_WIDTH
    ensures Encode(Out(slot, inner), ctx, w)[p]
         == if p < |Encode(inner, ctx, RES_WIDTH)| then Encode(inner, ctx, RES_WIDTH)[p] else 0
  {
  }

  lemma {:induction false} ImageOriginIs(arg: Arg, p: nat, w: nat)
    requires w <= 8 && p < EncodedLen(arg, w)
    ensures var o := ImageOrigin(arg, p, w); o == Constant || (o.Of? && o.k < 8)
    decreases arg, 0
  {
    match arg
    case Union(c) => ImageOriginIs(c, p, w);
    case Out(_, inner) =>
      if p < EncodedLen(inner, RES_WIDTH) {
        ImageOriginIs(inner, p, RES_WIDTH);
      }
    case Struct(fs) => ImageOriginInIs(fs, p, w);
    case Array(fs) => ImageOriginInIs(fs, p, w);
    case _ =>
  }

  lemma {:induction false} ImageOriginInIs(fs: seq<Arg>, p: nat, w: nat)
    requires w <= 8 && p < EncodedLens(fs, w)
    ensures var o := ImageOriginIn(fs, p, w); o == Constant || (o.Of? && o.k < 8)
    decreases fs, 1
  {
    hide EncodedLen;
    var n := EncodedLen(fs[0], w);
    if p < n {
      ImageOriginIs(fs[0], p, w);
    } else {
      ImageOriginInIs(fs[1..], p - n, w);
    }
  }

  // ---- checksums

  /** Where the checksum of an object goes, if there is room for it. */
  function CsumAt(t: Arg, w: nat): (m: Option<nat>)
  {
    var c := CsumOffset(t, 0, w);
    if c.Some? && c.value + 2 <= EncodedLen(t, w) then c else None
  }

  /** The checksum of an object's image. */
  ghost function SumOf(t: Arg, ctx: Ctx, w: nat): (c: nat)
    requires Width(w) && CsumAt(t, w).Some?
    ensures c <= 0xffff
  {
    EncodeLength(t, ctx, w);
    CsumSpec(Cleared(Encode(t, ctx, w), CsumAt(t, w).value))
  }

  ghost function SumByte(t: Arg, ctx: Ctx, w: nat, high: bool): (b: byte)
    requires Width(w) && CsumAt(t, w).Some?
  {
    if high then SumOf(t, ctx, w) / 256 else SumOf(t, ctx, w) % 256
  }

  /** The bytes an object is laid out with. */
  ghost function Bytes(t: Arg, ctx: Ctx, w: nat): (s: seq<byte>)
    requires Width(w)
    ensures |s| == EncodedLen(t, w)
  {
    EncodeLength(t, ctx, w);
    FixedCsums(Encode(t, ctx, w), t, w)
  }

  /** Where byte `p` of a laid-out object comes from. */
  function ObjectOrigin(t: Arg, p: nat, w: nat): (o: Origin)
    requires p < EncodedLen(t, w)
  {
    var m := CsumAt(t, w);
    if m.Some? && p == m.value then Sum(t, false)
    else if m.Some? && p == m.value + 1 then Sum(t, true)
    else ImageOrigin(t, p, w)
  }

  /** An origin that some byte of some object has. */
  ghost predicate Sound(o: Origin, w: nat)
  {
    o.Sum? ==> CsumAt(o.t, w).Some?
  }

  /** What an origin yields in a context. */
  ghost function Yield(o: Origin, ctx: Ctx, w: nat): (b: byte)
    requires Width(w) && Sound(o, w)
  {
    match o
    case Constant => 0
    case Of(idx, div, add, k) => ByteOf(Resolve(ctx, idx, div, add), k)
    case Sum(t, high) => SumByte(t, ctx, w, high)
  }

  lemma PatchedAt(t: Arg, ctx: Ctx, p: nat, w: nat)
    requires Width(w) && p < EncodedLen(t, w)
    ensures p < |Encode(t, ctx, w)| && Sound(ObjectOrigin(t, p, w), w)
    ensures ObjectOrigin(t, p, w).Sum? ==> ObjectOrigin(t, p, w).t == t
    ensures Bytes(t, ctx, w)[p] == if ObjectOrigin(t, p, w).Sum? then SumByte(t, ctx, w, ObjectOrigin(t, p, w).high)
                                   else Encode(t, ctx, w)[p]
  {
    hide Encode, CsumSpec, CsumOffset, EncodedLen, ImageOrigin;
    EncodeLength(t, ctx, w);
    ImageOriginNotSum(t, p, w);
  }

  lemma ImageOriginNotSum(t: Arg, p: nat, w: nat)
    requires Width(w) && p < EncodedLen(t, w)
    ensures !ImageOrigin(t, p, w).Sum?
  {
    ImageOriginIs(t, p, w);
  }

  /** A byte of a laid-out object changes with the context exactly as its origin does. */
  lemma ObjectByteExact(t: Arg, a: Ctx, b: Ctx, p: nat, w: nat)
    requires Width(w) && p < EncodedLen(t, w)
    ensures Sound(ObjectOrigin(t, p, w), w)
    ensures Bytes(t, a, w)[p] == Bytes(t, b, w)[p]
       <==> Yield(ObjectOrigin(t, p, w), a, w) == Yield(ObjectOrigin(t, p, w), b, w)
  {
    hide Encode, EncodedLen, CsumAt, ImageOrigin, SumByte, Bytes, ByteOf, Resolve;
    PatchedAt(t, a, p, w);
    PatchedAt(t, b, p, w);
    ImageOriginNotSum(t, p, w);
    ImageComes(t, a, b, p, w);
  }

  // ---- the objects of a call

  /** An object without its contents: where it goes and what it is made from. */
  datatype Site = Site(off: nat, t: Arg)

  ghost function SitesOf(arg: Arg): (s: seq<Site>)
    decreases arg, 0
  {
    match arg
    case Ptr(addr, Some(t)) => NestedSites(t) + [Site(addr, t)]
    case Union(c) => SitesOf(c)
    case Out(_, inner) => SitesOf(inner)
    case _ => []
  }

  ghost function NestedSites(arg: Arg): (s: seq<Site>)
    decreases arg, 1
  {
    match arg
    case Ptr(_, _) => SitesOf(arg)
    case Struct(fs) => NestedSitesIn(fs)
    case Array(fs) => NestedSitesIn(fs)
    case Union(c) => NestedSites(c)
    case Out(_, inner) => NestedSites(inner)
    case _ => []
  }

  ghost function NestedSitesIn(fs: seq<Arg>): (s: seq<Site>)
    decreases fs, 1
  {
    if fs == [] then [] else NestedSitesIn(fs[..|fs| - 1]) + NestedSites(fs[|fs| - 1])
  }

  ghost function Laid(x: Site, ctx: Ctx, w: nat): (o: Object)
    requires Width(w)
  {
    Object(x.off, Bytes(x.t, ctx, w))
  }

  ghost function LaidAll(xs: seq<Site>, ctx: Ctx, w: nat): (ws: seq<Object>)
    requires Width(w)
    ensures |ws| == |xs|
  {
    if xs == [] then [] else LaidAll(xs[..|xs| - 1], ctx, w) + [Laid(xs[|xs| - 1], ctx, w)]
  }

  lemma {:induction false} LaidConcat(xs: seq<Site>, ys: seq<Site>, ctx: Ctx, w: nat)
    requires Width(w)
    ensures LaidAll(xs + ys, ctx, w) == LaidAll(xs, ctx, w) + LaidAll(ys, ctx, w)
    decreases |ys|
  {
    hide Laid;
    if ys == [] {
      assert xs + ys == xs;
    } else {
      var n := |ys| - 1;
      assert (xs + ys)[..|xs| + n] == xs + ys[..n];
      LaidConcat(xs, ys[..n], ctx, w);
    }
  }

  lemma LaidOne(x: Site, ctx: Ctx, w: nat)
    requires Width(w)
    ensures LaidAll([x], ctx, w) == [Laid(x, ctx, w)]
  {
    assert [x][..0] == [];
  }

  /** What an argument lays out is its sites, filled in. */
  lemma {:induction false} ObjectsLaid(arg: Arg, ctx: Ctx, w: nat)
    requires Width(w)
    ensures ObjectsOf(arg, ctx, w) == LaidAll(SitesOf(arg), ctx, w)
    decreases arg, 0
  {
    hide Encode, FixedCsums, LaidAll;
    match arg
    case Ptr(addr, Some(t)) =>
      NestedLaid(t, ctx, w);
      LaidConcat(NestedSites(t), [Site(addr, t)], ctx, w);
      LaidOne(Site(addr, t), ctx, w);
    case Union(c) => ObjectsLaid(c, ctx, w);
    case Out(_, inner) => ObjectsLaid(inner, ctx, w);
    case _ => NoneLaid(ctx, w);
  }

  lemma {:induction false} NestedLaid(arg: Arg, ctx: Ctx, w: nat)
    requires Width(w)
    ensures Nested(arg, ctx, w) == LaidAll(NestedSites(arg), ctx, w)
    decreases arg, 1
  {
    hide LaidAll, ObjectsOf;
    match arg
    case Ptr(_, _) => ObjectsLaid(arg, ctx, w);
    case Struct(fs) => NestedLaidIn(fs, ctx, w);
    case Array(fs) => NestedLaidIn(fs, ctx, w);
    case Union(c) => NestedLaid(c, ctx, w);
    case Out(_, inner) => NestedLaid(inner, ctx, w);
    case _ => NoneLaid(ctx, w);
  }

  lemma {:induction false} NestedLaidIn(fs: seq<Arg>, ctx: Ctx, w: nat)
    requires Width(w)
    ensures NestedAll(fs, ctx, w) == LaidAll(NestedSitesIn(fs), ctx, w)
    decreases fs, 1
  {
    hide LaidAll, Nested;
    if fs == [] {
      NoneLaid(ctx, w);
    } else {
      var n := |fs| - 1;
      NestedLaidIn(fs[..n], ctx, w);
      NestedLaid(fs[n], ctx, w);
      LaidConcat(NestedSitesIn(fs[..n]), NestedSites(fs[n]), ctx, w);
    }
  }

  lemma NoneLaid(ctx: Ctx, w: nat)
    requires Width(w)
    ensures LaidAll([], ctx, w) == []
  {
  }

  // ---- the arena

  /** The clipped write of an object reaches byte `p` of the arena. */
  predicate Reaches(x: Site, p: nat, s: Setup)
  {
    var n := Clip(s.fixed, x.off, EncodedLen(x.t, s.w));
    x.off <= p < x.off + n && x.off + n <= s.size
  }

  /** The object seen at byte `p`: the last one to reach it. */
  ghost function SeenAt(xs: seq<Site>, p: nat, s: Setup): (r: Option<Site>)
    ensures r.Some? ==> r.value in xs && Reaches(r.value, p, s)
  {
    if xs == [] then None
    else
      var n := |xs| - 1;
      if Reaches(xs[n], p, s) then Some(xs[n]) else SeenAt(xs[..n], p, s)
  }

  ghost function ArenaOrigin(xs: seq<Site>, p: nat, s: Setup): (o: Origin)
  {
    var x := SeenAt(xs, p, s);
    if x.Some? then ObjectOrigin(x.value.t, p - x.value.off, s.w) else Constant
  }

  lemma {:induction false} SeenByte(mem: seq<byte>, xs: seq<Site>, ctx: Ctx, p: nat, s: Setup)
    requires Width(s.w) && p < |mem| == s.size
    ensures var x := SeenAt(xs, p, s);
            WriteAll(mem, s.fixed, LaidAll(xs, ctx, s.w))[p]
            == if x.Some? then Bytes(x.value.t, ctx, s.w)[p - x.value.off] else mem[p]
    decreases |xs|
  {
    hide Bytes, Clip, EncodedLen;
    if xs != [] {
      var n := |xs| - 1;
      SeenByte(mem, xs[..n], ctx, p, s);
      var ws := LaidAll(xs, ctx, s.w);
      assert ws[..n] == LaidAll(xs[..n], ctx, s.w);
      WrittenAt(WriteAll(mem, s.fixed, ws[..n]), xs[n], ctx, p, s);
    }
  }

  lemma WrittenAt(mem: seq<byte>, x: Site, ctx: Ctx, p: nat, s: Setup)
    requires Width(s.w) && p < |mem| == s.size
    ensures var o := Laid(x, ctx, s.w);
            Written(mem, s.fixed, o.off, o.bytes)[p]
            == if Reaches(x, p, s) then Bytes(x.t, ctx, s.w)[p - x.off] else mem[p]
  {
    hide Bytes, EncodedLen;
  }

  /** A byte of the arena after a call's writes changes with the context exactly as its origin does. */
  lemma ArenaByteExact(mem: seq<byte>, xs: seq<Site>, a: Ctx, b: Ctx, p: nat, s: Setup)
    requires Width(s.w) && p < |mem| == s.size
    ensures Sound(ArenaOrigin(xs, p, s), s.w)
    ensures WriteAll(mem, s.fixed, LaidAll(xs, a, s.w))[p] == WriteAll(mem, s.fixed, LaidAll(xs, b, s.w))[p]
       <==> Yield(ArenaOrigin(xs, p, s), a, s.w) == Yield(ArenaOrigin(xs, p, s), b, s.w)
  {
    hide Bytes, Clip, EncodedLen, SeenAt, ObjectOrigin, SumByte, ByteOf, Resolve;
    SeenByte(mem, xs, a, p, s);
    SeenByte(mem, xs, b, p, s);
    var x := SeenAt(xs, p, s);
    SeenIs(xs, p, s);
    if x.Some? {
      ObjectByteExact(x.value.t, a, b, p - x.value.off, s.w);
    }
  }

  lemma SeenIs(xs: seq<Site>, p: nat, s: Setup)
    ensures var x := SeenAt(xs, p, s);
            x.Some? ==> x.value in xs && x.value.off <= p < x.value.off + EncodedLen(x.value.t, s.w)
  {
    hide EncodedLen;
  }

  // ---- scalars

  /** Where byte `k` of the scalar passed for an argument comes from. */
  function ScalarOrigin(arg: Arg, k: nat): (o: Origin)
    ensures !o.Sum?
  {
    match arg
    case Res(idx, div, add) => Of(idx, div, add, k)
    case Union(c) => ScalarOrigin(c, k)
    case Out(_, inner) => ScalarOrigin(inner, k)
    case _ => Constant
  }

  ghost predicate ScalarAgrees(arg: Arg, a: Ctx, b: Ctx, w: nat)
    requires Width(w)
  {
    forall k :: 0 <= k < 8 ==> Yield(ScalarOrigin(arg, k), a, w) == Yield(ScalarOrigin(arg, k), b, w)
  }

  lemma {:induction false} ScalarExact(arg: Arg, a: Ctx, b: Ctx, w: nat)
    requires Width(w)
    ensures ScalarOf(arg, a) == ScalarOf(arg, b) <==> ScalarAgrees(arg, a, b, w)
  {
    hide ByteOf, Resolve, Yield;
    match arg
    case Res(idx, div, add) =>
      NumberExact(Resolve(a, idx, div, add), Resolve(b, idx, div, add));
      forall k | 0 <= k < 8
        ensures Yield(ScalarOrigin(arg, k), a, w) == ByteOf(Resolve(a, idx, div, add), k)
        ensures Yield(ScalarOrigin(arg, k), b, w) == ByteOf(Resolve(b, idx, div, add), k)
      {
        ReferenceYields(idx, div, add, k, a, w);
        ReferenceYields(idx, div, add, k, b, w);
      }
    case Union(c) =>
      ScalarExact(c, a, b, w);
      SameOrigins(arg, c, a, b, w);
    case Out(_, inner) =>
      ScalarExact(inner, a, b, w);
      SameOrigins(arg, inner, a, b, w);
    case _ => ConstantScalar(arg, a, b, w);
  }

  lemma ReferenceYields(idx: nat, div: u64, add: u64, k: nat, ctx: Ctx, w: nat)
    requires Width(w)
    ensures Yield(Of(idx, div, add, k), ctx, w) == ByteOf(Resolve(ctx, idx, div, add), k)
  {
  }

  lemma SameOrigins(x: Arg, y: Arg, a: Ctx, b: Ctx, w: nat)
    requires Width(w) && forall k: nat :: ScalarOrigin(x, k) == ScalarOrigin(y, k)
    ensures ScalarAgrees(x, a, b, w) <==> ScalarAgrees(y, a, b, w)
  {
    hide Yield, ScalarOrigin;
  }

  lemma ConstantScalar(arg: Arg, a: Ctx, b: Ctx, w: nat)
    requires Width(w) && forall k: nat :: ScalarOrigin(arg, k) == Constant
    ensures ScalarAgrees(arg, a, b, w)
  {
  }

  lemma NumberExact(x: u64, y: u64)
    ensures x == y <==> forall k :: 0 <= k < 8 ==> ByteOf(x, k) == ByteOf(y, k)
  {
    hide LeBytes, ByteOf, LeValue, Pow256;
    if forall k :: 0 <= k < 8 ==> ByteOf(x, k) == ByteOf(y, k) {
      forall k | 0 <= k < 8 ensures LeBytes(x, 8)[k] == LeBytes(y, 8)[k] {
        ByteAt(x, 8, k);
        ByteAt(y, 8, k);
      }
      assert LeBytes(x, 8) == LeBytes(y, 8);
      EightBytes();
      LeRoundTrip(x, 8);
      LeRoundTrip(y, 8);
    }
  }

  lemma EightBytes()
    ensures Pow256(8) == U64
  {
    assert Pow256(4) == 0x1_0000_0000;
  }
}

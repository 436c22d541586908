/**
  What the bytes of an argument are, told without encoding it (vock/src/fuzz/prog_decode.rs, `encode`,
  `copyin`, `physical_addr`, `Arena::write`): a description of images that holds of exactly one byte
  string, and what of it arrives in the arena.
 */
module SyzBytes {
  import opened Prelude
  import opened Checksum
  import opened SyzArena
  import opened SyzLayout
  import opened SyzCopyin

  // ---- values

  /** `q` goes `d` into `x`, with a rest smaller than `d`. */
  ghost predicate Goes(x: nat, d: nat, q: nat)
  {
    d * q <= x < d * q + d
  }

  lemma GoesExact(x: nat, d: nat, q: nat)
    requires d > 0
    ensures Goes(x, d, q) <==> q == x / d
  {
    assert x == d * (x / d) + x % d;
    if Goes(x, d, q) {
      RemainderIs(x, d, q, x - d * q);
    }
  }

  /** The quotient, with the addend, in 64 bits. */
  ghost predicate Amounts(x: nat, d: nat, add: nat, v: nat)
  {
    exists q: nat :: Goes(x, d, q) && v == (q + add) % 0x1_0000_0000_0000_0000
  }

  lemma AmountsExact(x: nat, d: nat, add: nat, v: nat)
    requires d > 0
    ensures Amounts(x, d, add, v) <==> v == (x / d + add) % 0x1_0000_0000_0000_0000
  {
    hide Goes;
    DivBound(x, d);
    var whole: nat := x / d;
    GoesExact(x, d, whole);
    if q: nat :| Goes(x, d, q) && v == (q + add) % 0x1_0000_0000_0000_0000 {
      GoesExact(x, d, q);
    }
  }

  /** What a reference to a resource stands for. */
  ghost predicate Refers(ctx: Ctx, idx: nat, div: u64, add: u64, v: nat)
  {
    if idx !in ctx then v == 0xffff_ffff_ffff_ffff else Amounts(ctx[idx], if div == 0 then 1 else div, add, v)
  }

  lemma RefersExact(ctx: Ctx, idx: nat, div: u64, add: u64, v: nat)
    ensures Refers(ctx, idx, div, add, v) <==> v == Resolve(ctx, idx, div, add)
  {
    hide Amounts;
    if idx in ctx {
      AmountsExact(ctx[idx], if div == 0 then 1 else div, add, v);
    }
  }

  // ---- images

  /** A little-endian number cut to its bytes. */
  ghost predicate Number(s: seq<byte>, n: nat, v: nat)
  {
    |s| == n && LeValue(s) == v % Pow256(n)
  }

  lemma NumberExact(s: seq<byte>, n: nat, v: nat)
    ensures Number(s, n, v) <==> s == LeBytes(v, n)
  {
    hide LeValue, LeBytes, Pow256;
    LeSize(v, n);
    LeTruncates(v, n);
    LeWrittenBack(LeBytes(v, n));
    if Number(s, n, v) {
      LeWrittenBack(s);
    }
  }

  /** `s` is the image of `arg`: each leaf in its own terms, one field after another. */
  ghost predicate IsImage(s: seq<byte>, arg: Arg, ctx: Ctx, w: nat)
    decreases arg, 0
  {
    match arg
    case Int(v) => Number(s, w, v)
    case Res(idx, div, add) => exists v: nat :: Refers(ctx, idx, div, add, v) && Number(s, w, v)
    case Ptr(addr, _) => Number(s, 8, (0x2000_0000_0000 + addr) % 0x1_0000_0000_0000_0000)
    case Data(d) => s == d
    case Nil => |s| == w && forall i :: 0 <= i < w ==> s[i] == 0
    case Csum => s == [0, 0]
    case Union(c) => IsImage(s, c, ctx, w)
    case Struct(fs) => AreImages(s, fs, ctx, w)
    case Array(fs) => AreImages(s, fs, ctx, w)
    case Out(_, inner) =>
      |s| == 4 && exists t :: IsImage(t, inner, ctx, 4) && forall i :: 0 <= i < 4 ==> s[i] == if i < |t| then t[i] else 0
  }

  ghost predicate AreImages(s: seq<byte>, fs: seq<Arg>, ctx: Ctx, w: nat)
    decreases fs, 1
  {
    if fs == [] then s == []
    else exists n :: 0 <= n <= |s| && IsImage(s[..n], fs[0], ctx, w) && AreImages(s[n..], fs[1..], ctx, w)
  }

  /** Exactly one byte string is the image of a tree in a context, the one `encode` makes. */
  lemma {:induction false} ImageExact(s: seq<byte>, arg: Arg, ctx: Ctx, w: nat)
    requires Width(w)
    ensures IsImage(s, arg, ctx, w) <==> s == Encode(arg, ctx, w)
    decreases arg, 0
  {
    hide LeBytes, Resolve, Number, Refers;
    match arg
    case Int(v) => NumberExact(s, w, v);
    case Res(idx, div, add) =>
      var v := Resolve(ctx, idx, div, add);
      RefersExact(ctx, idx, div, add, v);
      NumberExact(s, w, v);
      if u: nat :| Refers(ctx, idx, div, add, u) && Number(s, w, u) {
        RefersExact(ctx, idx, div, add, u);
      }
    case Ptr(addr, _) => NumberExact(s, 8, PhysicalAddr(addr));
    case Union(c) => ImageExact(s, c, ctx, w);
    case Struct(fs) => ImagesExact(s, fs, ctx, w);
    case Array(fs) => ImagesExact(s, fs, ctx, w);
    case Out(slot, inner) => OutExact(s, slot, inner, ctx, w);
    case _ =>
  }

  lemma {:induction false} OutExact(s: seq<byte>, slot: nat, inner: Arg, ctx: Ctx, w: nat)
    requires Width(w)
    ensures IsImage(s, Out(slot, inner), ctx, w) <==> s == Encode(Out(slot, inner), ctx, w)
    decreases inner, 2
  {
    var e := Encode(inner, ctx, RES_WIDTH);
    var z := Encode(Out(slot, inner), ctx, w);
    assert z == Resize(e, 4);
    hide Encode;
    assert forall i :: 0 <= i < 4 ==> z[i] == if i < |e| then e[i] else 0;
    ImageExact(e, inner, ctx, RES_WIDTH);
    if IsImage(s, Out(slot, inner), ctx, w) {
      var t :| IsImage(t, inner, ctx, 4) && forall i :: 0 <= i < 4 ==> s[i] == if i < |t| then t[i] else 0;
      ImageExact(t, inner, ctx, RES_WIDTH);
    }
  }

  lemma {:induction false} ImagesExact(s: seq<byte>, fs: seq<Arg>, ctx: Ctx, w: nat)
    requires Width(w)
    ensures AreImages(s, fs, ctx, w) <==> s == EncodeAll(fs, ctx, w)
    decreases fs, 1
  {
    hide Encode, IsImage;
    if fs != [] {
      var e, rest := Encode(fs[0], ctx, w), EncodeAll(fs[1..], ctx, w);
      ImageExact(e, fs[0], ctx, w);
      ImagesExact(rest, fs[1..], ctx, w);
      if AreImages(s, fs, ctx, w) {
        var n :| 0 <= n <= |s| && IsImage(s[..n], fs[0], ctx, w) && AreImages(s[n..], fs[1..], ctx, w);
        ImageExact(s[..n], fs[0], ctx, w);
        ImagesExact(s[n..], fs[1..], ctx, w);
        assert s == s[..n] + s[n..];
      }
      if s == e + rest {
        assert s[..|e|] == e && s[|e|..] == rest;
      }
    }
  }

  /** Each leaf of a tree stands at its own place, as described. */
  lemma LeafContents(arg: Arg, ctx: Ctx, w: nat, k: nat)
    requires Width(w) && k < |Leaves(arg)|
    ensures var s, i, n := Encode(arg, ctx, w), LeafStart(Leaves(arg), k, w), EncodedLen(Leaves(arg)[k], w);
            i + n <= |s| && IsImage(s[i..i + n], Leaves(arg)[k], ctx, w)
  {
    hide Encode, IsImage, LeafStart, EncodedLen;
    EncodeLeaves(arg, ctx, w);
    LeafBytes(Leaves(arg), k, ctx, w);
    ImageExact(Encode(Leaves(arg)[k], ctx, w), Leaves(arg)[k], ctx, w);
  }

  // ---- scalars

  /** An argument without the options and labels around it. */
  function Core(arg: Arg): (a: Arg)
    ensures !a.Union? && !a.Out?
  {
    match arg
    case Union(c) => Core(c)
    case Out(_, inner) => Core(inner)
    case _ => arg
  }

  /** The scalar a call gets: a number, a reference's value, an address in the arena, or zero. */
  lemma {:induction false} ScalarIs(arg: Arg, ctx: Ctx)
    ensures var a, v := Core(arg), ScalarOf(arg, ctx);
            match a
            case Int(x) => v == x
            case Res(idx, div, add) => Refers(ctx, idx, div, add, v)
            case Ptr(addr, _) => v == (0x2000_0000_0000 + addr) % 0x1_0000_0000_0000_0000
            case _ => v == 0
  {
    hide Refers, Resolve;
    match arg
    case Union(c) => ScalarIs(c, ctx);
    case Out(_, inner) => ScalarIs(inner, ctx);
    case Res(idx, div, add) => RefersExact(ctx, idx, div, add, Resolve(ctx, idx, div, add));
    case _ =>
  }

  // ---- in the arena

  /** A write keeps as much as fits before the next recorded address, and no less. */
  lemma ClipExact(fixed: seq<nat>, off: nat, n: nat)
    requires Ascending(fixed)
    ensures var m := Clip(fixed, off, n);
            && m <= n
            && (forall i :: 0 <= i < |fixed| ==> !(off < fixed[i] < off + m))
            && (m < n ==> off + m in fixed)
  {
    var m := Clip(fixed, off, n);
    forall i | 0 <= i < |fixed| ensures !(off < fixed[i] < off + m) {
      if fixed[i] > off {
        NextAboveLeast(fixed, off, fixed[i]);
      }
    }
  }

  /** No recorded address lies strictly inside. */
  ghost predicate Clear(fixed: seq<nat>, off: nat, n: nat)
  {
    forall i :: 0 <= i < |fixed| ==> !(off < fixed[i] < off + n)
  }

  lemma Unclipped(fixed: seq<nat>, off: nat, n: nat)
    requires Ascending(fixed) && Clear(fixed, off, n)
    ensures Clip(fixed, off, n) == n
  {
    hide Clip;
    ClipExact(fixed, off, n);
    if Clip(fixed, off, n) < n {
      var i :| 0 <= i < |fixed| && fixed[i] == off + Clip(fixed, off, n);
      if Clip(fixed, off, n) == 0 {
        ClipPositive(fixed, off, n);
      }
    }
  }

  lemma ClipPositive(fixed: seq<nat>, off: nat, n: nat)
    requires n > 0
    ensures Clip(fixed, off, n) > 0
  {
  }

  /** A written image that has room, and no recorded address inside it, is all there. */
  lemma WrittenWhole(mem: seq<byte>, fixed: seq<nat>, off: nat, bytes: seq<byte>)
    requires Ascending(fixed) && Clear(fixed, off, |bytes|) && off + |bytes| <= |mem|
    ensures Written(mem, fixed, off, bytes) == mem[..off] + bytes + mem[off + |bytes|..]
  {
    Unclipped(fixed, off, |bytes|);
    assert bytes[..|bytes|] == bytes;
    if bytes == [] {
      assert mem == mem[..off] + mem[off..];
    }
  }

  /** A literal's bytes arrive as they are written. */
  lemma DataArrives(mem: seq<byte>, fixed: seq<nat>, addr: u64, d: seq<byte>, ctx: Ctx, w: nat)
    requires Width(w) && Ascending(fixed) && Clear(fixed, addr, |d|) && addr + |d| <= |mem|
    ensures WriteAll(mem, fixed, ObjectsOf(Ptr(addr, Some(Data(d))), ctx, w)) == mem[..addr] + d + mem[addr + |d|..]
  {
    assert Nested(Data(d), ctx, w) == [] && FixedCsums(Encode(Data(d), ctx, w), Data(d), w) == d;
    assert ObjectsOf(Ptr(addr, Some(Data(d))), ctx, w) == [] + [Object(addr, d)];
    WriteAllLast(mem, fixed, [], Object(addr, d));
    WrittenWhole(mem, fixed, addr, d);
  }

  /** The object an argument points to arrives last, as its image, but for the bytes of a checksum. */
  lemma ObjectArrives(mem: seq<byte>, fixed: seq<nat>, addr: u64, t: Arg, ctx: Ctx, w: nat)
    requires Width(w) && Ascending(fixed) && Clear(fixed, addr, EncodedLen(t, w)) && addr + EncodedLen(t, w) <= |mem|
    ensures var n := EncodedLen(t, w);
            var there := WriteAll(mem, fixed, ObjectsOf(Ptr(addr, Some(t)), ctx, w))[addr..addr + n];
            exists s :: IsImage(s, t, ctx, w) && |s| == n && there == FixedCsums(s, t, w)
  {
    hide Encode, EncodedLen, FixedCsums, Clip, IsImage, Nested;
    var n := EncodedLen(t, w);
    var s := Encode(t, ctx, w);
    EncodeLength(t, ctx, w);
    ImageExact(s, t, ctx, w);
    var fixedUp := FixedCsums(s, t, w);
    FixedSize(s, t, w);
    var before := WriteAll(mem, fixed, Nested(t, ctx, w));
    WriteAllSize(mem, fixed, Nested(t, ctx, w));
    WriteAllLast(mem, fixed, Nested(t, ctx, w), Object(addr, fixedUp));
    WrittenWhole(before, fixed, addr, fixedUp);
    var there := WriteAll(mem, fixed, ObjectsOf(Ptr(addr, Some(t)), ctx, w))[addr..addr + n];
    assert there == fixedUp;
  }

  lemma FixedSize(s: seq<byte>, t: Arg, w: nat)
    ensures |FixedCsums(s, t, w)| == |s|
  {
  }

  lemma WriteAllSize(mem: seq<byte>, fixed: seq<nat>, ws: seq<Object>)
    ensures |WriteAll(mem, fixed, ws)| == |mem|
  {
  }

  // ---- reading results back

  /** A number stored in one to eight bytes is read back as far as they hold it. */
  lemma ScalarReadBack(before: seq<byte>, v: u64, w: nat, after: seq<byte>)
    requires 1 <= w <= 8
    ensures Scalar(before + LeBytes(v, w) + after, |before|, w) == Some(v % Pow256(w))
  {
    hide LeBytes, LeValue, Pow256;
    LeSize(v, w);
    LeTruncates(v, w);
    var mem := before + LeBytes(v, w) + after;
    assert mem[|before|..|before| + w] == LeBytes(v, w);
  }

  /** A size of nothing reads one byte, and a large one eight. */
  lemma ScalarSizes(mem: seq<byte>, off: nat, size: nat)
    ensures Scalar(mem, off, 0) == Scalar(mem, off, 1)
    ensures size >= 8 ==> Scalar(mem, off, size) == Scalar(mem, off, 8)
  {
  }
}

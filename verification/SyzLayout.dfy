/**
  Syzkaller argument trees and their byte images (vock/src/fuzz/prog_decode.rs, `Arg`, `encode`,
  `encoded_len`, `collect_copyouts`, `csum_offset` and `fix_csums`).

  The integer width `w` is the one the environment selects: 1, 2, 4 or 8 bytes.
 */
module SyzLayout {
  import opened Prelude
  import opened Checksum

  const RES_WIDTH: nat := 4
  const DATA_OFFSET: u64 := 0x2000_0000_0000
  const AUTO_ADDR: u64 := 0xffff_ffff_ffff_ffff

  datatype Arg =
    | Int(v: u64)
    | Res(idx: nat, div: u64, add: u64)
    | Ptr(addr: u64, target: Option<Arg>)
    | Data(bytes: seq<byte>)
    | Struct(fields: seq<Arg>)
    | Array(elems: seq<Arg>)
    | Union(chosen: Arg)
    | Csum
    | Out(slot: nat, inner: Arg)
    | Nil

  /** Resource slots filled by earlier calls. */
  type Ctx = map<nat, u64>

  /** `Ctx::resolve`: divide, then add with wrap-around; a missing resource is all ones. */
  function Resolve(ctx: Ctx, idx: nat, div: u64, add: u64): (v: u64)
  {
    if idx !in ctx then 0xffff_ffff_ffff_ffff
    else
      var v := if div != 0 then DivBound(ctx[idx], div); ctx[idx] / div else ctx[idx];
      (v + add) % U64
  }

  lemma DivBound(a: nat, b: nat)
    requires b > 0
    ensures 0 <= a / b <= a
  {
    assert a == (a / b) * b + a % b;
    MulAtLeast(a / b, b);
  }

  lemma MulAtLeast(x: int, b: int)
    requires b >= 1
    ensures x >= 0 ==> x * b >= x
    ensures x < 0 ==> x * b <= x
  {
  }

  function PhysicalAddr(off: u64): (a: u64)
  {
    (DATA_OFFSET + off) % U64
  }

  /** Rust's `Vec::resize(n, 0)`. */
  function Resize(s: seq<byte>, n: nat): (r: seq<byte>)
    ensures |r| == n
  {
    if |s| >= n then s[..n] else s + seq(n - |s|, _ => 0)
  }

  predicate Width(w: nat)
  {
    w == 1 || w == 2 || w == 4 || w == 8
  }

  /** `encode`: the in-memory bytes of a value. */
  function Encode(arg: Arg, ctx: Ctx, w: nat): (s: seq<byte>)
    requires Width(w)
    decreases arg, 0
  {
    match arg
    case Int(v) => LeBytes(v, w)
    case Res(idx, div, add) => LeBytes(Resolve(ctx, idx, div, add), w)
    case Nil => seq(w, _ => 0)
    case Csum => [0, 0]
    case Data(d) => d
    case Union(c) => Encode(c, ctx, w)
    case Out(_, inner) => Resize(Encode(inner, ctx, RES_WIDTH), RES_WIDTH)
    case Struct(fs) => EncodeAll(fs, ctx, w)
    case Array(fs) => EncodeAll(fs, ctx, w)
    case Ptr(addr, _) => LeBytes(PhysicalAddr(addr), 8)
  }

  function EncodeAll(fs: seq<Arg>, ctx: Ctx, w: nat): (s: seq<byte>)
    requires Width(w)
    decreases fs, 1
  {
    if fs == [] then [] else Encode(fs[0], ctx, w) + EncodeAll(fs[1..], ctx, w)
  }

  /** `encoded_len`. */
  function EncodedLen(arg: Arg, w: nat): (n: nat)
    decreases arg, 0
  {
    match arg
    case Data(d) => |d|
    case Csum => 2
    case Ptr(_, _) => 8
    case Out(_, _) => RES_WIDTH
    case Union(c) => EncodedLen(c, w)
    case Struct(fs) => EncodedLens(fs, w)
    case Array(fs) => EncodedLens(fs, w)
    case _ => w
  }

  function EncodedLens(fs: seq<Arg>, w: nat): (n: nat)
    decreases fs, 1
  {
    if fs == [] then 0 else EncodedLen(fs[0], w) + EncodedLens(fs[1..], w)
  }

  /** Predicted and produced lengths agree, for every tree, context and width. */
  lemma {:induction false} EncodeLength(arg: Arg, ctx: Ctx, w: nat)
    requires Width(w)
    ensures |Encode(arg, ctx, w)| == EncodedLen(arg, w)
    decreases arg, 0
  {
    match arg
    case Union(c) => EncodeLength(c, ctx, w);
    case Struct(fs) => EncodeLengths(fs, ctx, w);
    case Array(fs) => EncodeLengths(fs, ctx, w);
    case _ =>
  }

  lemma {:induction false} EncodeLengths(fs: seq<Arg>, ctx: Ctx, w: nat)
    requires Width(w)
    ensures |EncodeAll(fs, ctx, w)| == EncodedLens(fs, w)
    decreases fs, 1
  {
    if fs != [] {
      EncodeLength(fs[0], ctx, w);
      EncodeLengths(fs[1..], ctx, w);
    }
  }

  // ---- an image is the concatenation of its leaves

  /** The tree's leaves in memory order; a labelled field and a nested pointer are leaves. */
  ghost function Leaves(arg: Arg): (s: seq<Arg>)
    decreases arg, 0
  {
    match arg
    case Union(c) => Leaves(c)
    case Struct(fs) => AllLeaves(fs)
    case Array(fs) => AllLeaves(fs)
    case _ => [arg]
  }

  ghost function AllLeaves(fs: seq<Arg>): (s: seq<Arg>)
    decreases fs, 1
  {
    if fs == [] then [] else Leaves(fs[0]) + AllLeaves(fs[1..])
  }

  lemma {:induction false} EncodeConcat(a: seq<Arg>, b: seq<Arg>, ctx: Ctx, w: nat)
    requires Width(w)
    ensures EncodeAll(a + b, ctx, w) == EncodeAll(a, ctx, w) + EncodeAll(b, ctx, w)
    decreases |a|
  {
    hide Encode;
    if a == [] {
      assert a + b == b;
    } else {
      EncodeConcat(a[1..], b, ctx, w);
      assert (a + b)[1..] == a[1..] + b;
      var x, y, z := Encode(a[0], ctx, w), EncodeAll(a[1..], ctx, w), EncodeAll(b, ctx, w);
      assert (x + y) + z == x + (y + z);
    }
  }

  lemma {:induction false} EncodeLeaves(arg: Arg, ctx: Ctx, w: nat)
    requires Width(w)
    ensures Encode(arg, ctx, w) == EncodeAll(Leaves(arg), ctx, w)
    decreases arg, 0
  {
    match arg
    case Union(c) => EncodeLeaves(c, ctx, w);
    case Struct(fs) => EncodeAllLeaves(fs, ctx, w);
    case Array(fs) => EncodeAllLeaves(fs, ctx, w);
    case _ =>
      EncodeOne(arg, ctx, w);
  }

  lemma EncodeOne(arg: Arg, ctx: Ctx, w: nat)
    requires Width(w)
    ensures EncodeAll([arg], ctx, w) == Encode(arg, ctx, w)
  {
    hide Encode;
    assert [arg][1..] == [];
    assert Encode(arg, ctx, w) + [] == Encode(arg, ctx, w);
  }

  lemma {:induction false} EncodeAllLeaves(fs: seq<Arg>, ctx: Ctx, w: nat)
    requires Width(w)
    ensures EncodeAll(fs, ctx, w) == EncodeAll(AllLeaves(fs), ctx, w)
    decreases fs, 1
  {
    if fs != [] {
      EncodeLeaves(fs[0], ctx, w);
      EncodeAllLeaves(fs[1..], ctx, w);
      EncodeConcat(Leaves(fs[0]), AllLeaves(fs[1..]), ctx, w);
    }
  }

  lemma {:induction false} LensConcat(a: seq<Arg>, b: seq<Arg>, w: nat)
    ensures EncodedLens(a + b, w) == EncodedLens(a, w) + EncodedLens(b, w)
    decreases |a|
  {
    if a == [] {
      assert a + b == b;
    } else {
      LensConcat(a[1..], b, w);
      assert (a + b)[1..] == a[1..] + b;
    }
  }

  lemma {:induction false} LensOfLeaves(arg: Arg, w: nat)
    ensures EncodedLen(arg, w) == EncodedLens(Leaves(arg), w)
    decreases arg, 0
  {
    match arg
    case Union(c) => LensOfLeaves(c, w);
    case Struct(fs) => LensOfAllLeaves(fs, w);
    case Array(fs) => LensOfAllLeaves(fs, w);
    case _ => assert [arg][1..] == [];
  }

  lemma {:induction false} LensOfAllLeaves(fs: seq<Arg>, w: nat)
    ensures EncodedLens(fs, w) == EncodedLens(AllLeaves(fs), w)
    decreases fs, 1
  {
    if fs != [] {
      LensOfLeaves(fs[0], w);
      LensOfAllLeaves(fs[1..], w);
      LensConcat(Leaves(fs[0]), AllLeaves(fs[1..]), w);
    }
  }

  // ---- copyouts

  datatype Copyout = Copyout(slot: nat, off: nat, size: nat)

  /** `collect_copyouts`: what it appends for `arg` placed at `base`. */
  function CollectCopyouts(arg: Arg, base: nat, w: nat): (out: seq<Copyout>)
    decreases arg, 0
  {
    match arg
    case Out(slot, inner) => [Copyout(slot, base, RES_WIDTH)] + CollectCopyouts(inner, base, w)
    case Struct(fs) => CollectAll(fs, base, w)
    case Array(fs) => CollectAll(fs, base, w)
    case Union(c) => CollectCopyouts(c, base, w)
    case _ => []
  }

  function CollectAll(fs: seq<Arg>, base: nat, w: nat): (out: seq<Copyout>)
    decreases fs, 1
  {
    if fs == [] then []
    else CollectCopyouts(fs[0], base, w) + CollectAll(fs[1..], base + EncodedLen(fs[0], w), w)
  }

  /** The labelled leaves with the places they have in the image. */
  ghost function LabelsOf(leaves: seq<Arg>, base: nat, w: nat): (out: seq<Copyout>)
  {
    if leaves == [] then []
    else (if leaves[0].Out? then [Copyout(leaves[0].slot, base, RES_WIDTH)] else [])
         + LabelsOf(leaves[1..], base + EncodedLen(leaves[0], w), w)
  }

  lemma {:induction false} LabelsConcat(a: seq<Arg>, b: seq<Arg>, base: nat, w: nat)
    ensures LabelsOf(a + b, base, w) == LabelsOf(a, base, w) + LabelsOf(b, base + EncodedLens(a, w), w)
    decreases |a|
  {
    hide EncodedLen;
    if a == [] {
      assert a + b == b;
    } else {
      var next := base + EncodedLen(a[0], w);
      LabelsConcat(a[1..], b, next, w);
      assert (a + b)[1..] == a[1..] + b;
      var x := if a[0].Out? then [Copyout(a[0].slot, base, RES_WIDTH)] else [];
      var y, z := LabelsOf(a[1..], next, w), LabelsOf(b, next + EncodedLens(a[1..], w), w);
      assert (x + y) + z == x + (y + z);
    }
  }

  lemma LabelsOfNothing(base: nat, w: nat)
    ensures LabelsOf([], base, w) == []
  {
  }

  /** How many labels a tree holds that are not behind a pointer. */
  ghost function Labels(arg: Arg): (n: nat)
    decreases arg, 0
  {
    match arg
    case Out(_, inner) => 1 + Labels(inner)
    case Struct(fs) => AllLabels(fs)
    case Array(fs) => AllLabels(fs)
    case Union(c) => Labels(c)
    case _ => 0
  }

  ghost function AllLabels(fs: seq<Arg>): (n: nat)
    decreases fs, 1
  {
    if fs == [] then 0 else Labels(fs[0]) + AllLabels(fs[1..])
  }

  /** No label is nested inside another one's field. */
  ghost predicate FlatLabels(arg: Arg)
    decreases arg, 0
  {
    match arg
    case Out(_, inner) => Labels(inner) == 0
    case Struct(fs) => AllFlat(fs)
    case Array(fs) => AllFlat(fs)
    case Union(c) => FlatLabels(c)
    case _ => true
  }

  ghost predicate AllFlat(fs: seq<Arg>)
    decreases fs, 1
  {
    fs == [] || (FlatLabels(fs[0]) && AllFlat(fs[1..]))
  }

  lemma {:induction false} CollectCount(arg: Arg, base: nat, w: nat)
    ensures |CollectCopyouts(arg, base, w)| == Labels(arg)
    decreases arg, 0
  {
    match arg
    case Out(_, inner) => CollectCount(inner, base, w);
    case Union(c) => CollectCount(c, base, w);
    case Struct(fs) => CollectCountAll(fs, base, w);
    case Array(fs) => CollectCountAll(fs, base, w);
    case _ =>
  }

  lemma {:induction false} CollectCountAll(fs: seq<Arg>, base: nat, w: nat)
    ensures |CollectAll(fs, base, w)| == AllLabels(fs)
    decreases fs, 1
  {
    if fs != [] {
      CollectCount(fs[0], base, w);
      CollectCountAll(fs[1..], base + EncodedLen(fs[0], w), w);
    }
  }

  lemma {:induction false} CollectFlat(arg: Arg, base: nat, w: nat)
    requires FlatLabels(arg)
    ensures CollectCopyouts(arg, base, w) == LabelsOf(Leaves(arg), base, w)
    decreases arg, 0
  {
    match arg
    case Out(_, inner) =>
      CollectCount(inner, base, w);
      assert [arg][1..] == [];
    case Union(c) => CollectFlat(c, base, w);
    case Struct(fs) => CollectFlatAll(fs, base, w);
    case Array(fs) => CollectFlatAll(fs, base, w);
    case _ => assert [arg][1..] == [];
  }

  lemma {:induction false} CollectFlatAll(fs: seq<Arg>, base: nat, w: nat)
    requires AllFlat(fs)
    ensures CollectAll(fs, base, w) == LabelsOf(AllLeaves(fs), base, w)
    decreases fs, 1
  {
    hide CollectCopyouts, Leaves, LabelsOf, EncodedLen, FlatLabels;
    if fs == [] {
      LabelsOfNothing(base, w);
    } else {
      CollectFlat(fs[0], base, w);
      LensOfLeaves(fs[0], w);
      CollectFlatAll(fs[1..], base + EncodedLen(fs[0], w), w);
      LabelsConcat(Leaves(fs[0]), AllLeaves(fs[1..]), base, w);
    }
  }

  /** Where the `k`-th leaf of an image begins. */
  ghost function LeafStart(leaves: seq<Arg>, k: nat, w: nat): (n: nat)
    requires k <= |leaves|
  {
    EncodedLens(leaves[..k], w)
  }

  /** Leaf `k` of an image occupies its own bytes. */
  lemma LeafBytes(leaves: seq<Arg>, k: nat, ctx: Ctx, w: nat)
    requires k < |leaves| && Width(w)
    ensures var s, i, n := EncodeAll(leaves, ctx, w), LeafStart(leaves, k, w), EncodedLen(leaves[k], w);
            i + n <= |s| && s[i..i + n] == Encode(leaves[k], ctx, w)
  {
    hide Encode, EncodedLen;
    var a, b := leaves[..k], leaves[k + 1..];
    assert leaves == a + ([leaves[k]] + b);
    EncodeConcat(a, [leaves[k]] + b, ctx, w);
    EncodeConcat([leaves[k]], b, ctx, w);
    EncodeOne(leaves[k], ctx, w);
    EncodeLengths(a, ctx, w);
    EncodeLength(leaves[k], ctx, w);
  }

  /** Every recorded place is that of a labelled leaf, and the places follow one another. */
  lemma {:induction false} LabelPlace(leaves: seq<Arg>, base: nat, w: nat, i: nat) returns (k: nat)
    requires i < |LabelsOf(leaves, base, w)|
    ensures k < |leaves| && leaves[k].Out?
    ensures LabelsOf(leaves, base, w)[i] == Copyout(leaves[k].slot, base + LeafStart(leaves, k, w), RES_WIDTH)
    ensures i + 1 < |LabelsOf(leaves, base, w)| ==>
              LabelsOf(leaves, base, w)[i].off + RES_WIDTH <= LabelsOf(leaves, base, w)[i + 1].off
    decreases |leaves|
  {
    hide EncodedLen;
    var head := leaves[0];
    var rest := LabelsOf(leaves[1..], base + EncodedLen(head, w), w);
    if head.Out? && i == 0 {
      k := 0;
      assert leaves[..0] == [];
      OutLen(head, w);
      if rest != [] {
        var j := LabelPlace(leaves[1..], base + EncodedLen(head, w), w, 0);
      }
    } else {
      var i' := if head.Out? then i - 1 else i;
      var j := LabelPlace(leaves[1..], base + EncodedLen(head, w), w, i');
      k := j + 1;
      assert leaves[..k][1..] == leaves[1..][..j];
    }
  }

  lemma OutLen(arg: Arg, w: nat)
    requires arg.Out?
    ensures EncodedLen(arg, w) == RES_WIDTH
  {
  }

  /**
    Every entry `collect_copyouts` records for a tree without nested labels is the place of a labelled
    field: the four bytes of the image there are that field's, and the next entry lies beyond them.
   */
  lemma CopyoutPlaces(arg: Arg, ctx: Ctx, base: nat, w: nat, i: nat) returns (k: nat)
    requires Width(w) && FlatLabels(arg) && i < |CollectCopyouts(arg, base, w)|
    ensures var c, image := CollectCopyouts(arg, base, w)[i], Encode(arg, ctx, w);
            && k < |Leaves(arg)| && Leaves(arg)[k].Out? && Leaves(arg)[k].slot == c.slot && c.size == RES_WIDTH
            && base <= c.off && c.off - base + RES_WIDTH <= |image|
            && image[c.off - base..c.off - base + RES_WIDTH] == Encode(Leaves(arg)[k], ctx, w)
    ensures i + 1 < |CollectCopyouts(arg, base, w)| ==>
              CollectCopyouts(arg, base, w)[i].off + RES_WIDTH <= CollectCopyouts(arg, base, w)[i + 1].off
  {
    hide Encode, EncodeAll, CollectCopyouts, LabelsOf, Leaves, FlatLabels, EncodedLen;
    CollectFlat(arg, base, w);
    k := LabelPlace(Leaves(arg), base, w, i);
    EncodeLeaves(arg, ctx, w);
    LeafBytes(Leaves(arg), k, ctx, w);
    OutLen(Leaves(arg)[k], w);
  }

  // ---- checksum fields

  /** `csum_offset`: counted at the width of the whole tree, inside labelled fields too. */
  function CsumOffset(arg: Arg, base: nat, w: nat): (r: Option<nat>)
    decreases arg, 0
  {
    match arg
    case Csum => Some(base)
    case Struct(fs) => CsumOffsetIn(fs, base, w)
    case Array(fs) => CsumOffsetIn(fs, base, w)
    case Union(c) => CsumOffset(c, base, w)
    case Out(_, inner) => CsumOffset(inner, base, w)
    case _ => None
  }

  function CsumOffsetIn(fs: seq<Arg>, base: nat, w: nat): (r: Option<nat>)
    decreases fs, 1
  {
    if fs == [] then None
    else
      var p := CsumOffset(fs[0], base, w);
      if p.Some? then p else CsumOffsetIn(fs[1..], base + EncodedLen(fs[0], w), w)
  }

  /** `fix_csums` on an image. */
  method FixCsums(bytes: array<byte>, arg: Arg, w: nat)
    modifies bytes
    ensures bytes[..] == FixedCsums(old(bytes[..]), arg, w)
  {
    var off := CsumOffset(arg, 0, w);
    if off.None? || off.value + 2 > bytes.Length {
      return;
    }
    PatchCsum(bytes, off.value);
  }

  ghost function FixedCsums(s: seq<byte>, arg: Arg, w: nat): (r: seq<byte>)
    ensures |r| == |s|
  {
    var off := CsumOffset(arg, 0, w);
    if off.None? || off.value + 2 > |s| then s else Patched(s, off.value)
  }
}

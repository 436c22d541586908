/**
  Laying argument trees out in the arena (vock/src/fuzz/prog_decode.rs, `copyin`, `lay_out_nested`
  and `Arena::write`), and why the order in which objects are laid out does not matter.
 */
module SyzCopyin {
  import opened Prelude
  import opened SyzArena
  import opened SyzLayout

  /** One object: the address it is written at and its image. */
  datatype Object = Object(off: nat, bytes: seq<byte>)

  ghost function WriteAll(mem: seq<byte>, fixed: seq<nat>, ws: seq<Object>): (r: seq<byte>)
    ensures |r| == |mem|
  {
    if ws == [] then mem
    else
      var n := |ws| - 1;
      Written(WriteAll(mem, fixed, ws[..n]), fixed, ws[n].off, ws[n].bytes)
  }

  lemma {:induction false} WriteAllConcat(mem: seq<byte>, fixed: seq<nat>, a: seq<Object>, b: seq<Object>)
    ensures WriteAll(mem, fixed, a + b) == WriteAll(WriteAll(mem, fixed, a), fixed, b)
    decreases |b|
  {
    hide Written;
    if b == [] {
      assert a + b == a;
    } else {
      var n := |b| - 1;
      assert (a + b)[..|a + b| - 1] == a + b[..n];
      WriteAllConcat(mem, fixed, a, b[..n]);
    }
  }

  /** The write of `o` reaches byte `i` of an arena of `n` bytes. */
  ghost predicate Covers(fixed: seq<nat>, n: nat, o: Object, i: nat)
  {
    o.off <= i < o.off + Clip(fixed, o.off, |o.bytes|) && o.off + Clip(fixed, o.off, |o.bytes|) <= n
  }

  /** Writes to distinct recorded addresses never overlap, however wide their images are. */
  lemma NeverOverlap(fixed: seq<nat>, n: nat, a: Object, b: Object, i: nat)
    requires Ascending(fixed) && a.off in fixed && b.off in fixed && a.off != b.off
    ensures !(Covers(fixed, n, a, i) && Covers(fixed, n, b, i))
  {
    if a.off < b.off {
      NextAboveLeast(fixed, a.off, b.off);
    } else {
      NextAboveLeast(fixed, b.off, a.off);
    }
  }

  /** Every object has a recorded address of its own. */
  ghost predicate Separate(fixed: seq<nat>, ws: seq<Object>)
  {
    && (forall i :: 0 <= i < |ws| ==> ws[i].off in fixed)
    && (forall i, j :: 0 <= i < j < |ws| ==> ws[i].off != ws[j].off)
  }

  /** Each byte is the one of the object that covers it, or was there before. */
  lemma {:induction false} WriteAllAt(mem: seq<byte>, fixed: seq<nat>, ws: seq<Object>, i: nat)
    requires Ascending(fixed) && Separate(fixed, ws) && i < |mem|
    ensures forall k :: 0 <= k < |ws| && Covers(fixed, |mem|, ws[k], i) ==>
              WriteAll(mem, fixed, ws)[i] == ws[k].bytes[i - ws[k].off]
    ensures (forall k :: 0 <= k < |ws| ==> !Covers(fixed, |mem|, ws[k], i)) ==>
              WriteAll(mem, fixed, ws)[i] == mem[i]
    decreases |ws|
  {
    hide Clip, Ascending;
    if ws != [] {
      var n := |ws| - 1;
      WriteAllAt(mem, fixed, ws[..n], i);
      if Covers(fixed, |mem|, ws[n], i) {
        forall k | 0 <= k < n ensures !Covers(fixed, |mem|, ws[k], i) {
          NeverOverlap(fixed, |mem|, ws[k], ws[n], i);
        }
      }
    }
  }

  /** Laying the same objects out in any order gives the same arena. */
  lemma OrderIrrelevant(mem: seq<byte>, fixed: seq<nat>, ws: seq<Object>, ws': seq<Object>)
    requires Ascending(fixed) && Separate(fixed, ws) && Separate(fixed, ws')
    requires forall o :: o in ws <==> o in ws'
    ensures WriteAll(mem, fixed, ws) == WriteAll(mem, fixed, ws')
  {
    hide WriteAll, Covers;
    forall i | 0 <= i < |mem| ensures WriteAll(mem, fixed, ws)[i] == WriteAll(mem, fixed, ws')[i] {
      WriteAllAt(mem, fixed, ws, i);
      WriteAllAt(mem, fixed, ws', i);
      if k :| 0 <= k < |ws| && Covers(fixed, |mem|, ws[k], i) {
        assert ws[k] in ws';
        var j :| 0 <= j < |ws'| && ws'[j] == ws[k];
      } else {
        forall j | 0 <= j < |ws'| ensures !Covers(fixed, |mem|, ws'[j], i) {
          assert ws'[j] in ws;
        }
      }
    }
  }

  /** Afterwards every object that fits the arena holds its image, clipped at the next address. */
  lemma ObjectHolds(mem: seq<byte>, fixed: seq<nat>, ws: seq<Object>, k: nat)
    requires Ascending(fixed) && Separate(fixed, ws) && k < |ws|
    requires ws[k].off + Clip(fixed, ws[k].off, |ws[k].bytes|) <= |mem|
    ensures var o := ws[k];
            var n := Clip(fixed, o.off, |o.bytes|);
            WriteAll(mem, fixed, ws)[o.off..o.off + n] == o.bytes[..n]
  {
    hide WriteAll, Clip;
    var o := ws[k];
    var n := Clip(fixed, o.off, |o.bytes|);
    forall i | o.off <= i < o.off + n ensures WriteAll(mem, fixed, ws)[i] == o.bytes[i - o.off] {
      WriteAllAt(mem, fixed, ws, i);
      assert Covers(fixed, |mem|, ws[k], i);
    }
  }

  // ---- copyin

  /** The objects a pointer argument lays out: what it points to nested objects first. */
  ghost function ObjectsOf(arg: Arg, ctx: Ctx, w: nat): (ws: seq<Object>)
    requires Width(w)
    decreases arg, 0
  {
    match arg
    case Ptr(addr, Some(t)) => Nested(t, ctx, w) + [Object(addr, FixedCsums(Encode(t, ctx, w), t, w))]
    case Union(c) => ObjectsOf(c, ctx, w)
    case Out(_, inner) => ObjectsOf(inner, ctx, w)
    case _ => []
  }

  ghost function Nested(arg: Arg, ctx: Ctx, w: nat): (ws: seq<Object>)
    requires Width(w)
    decreases arg, 1
  {
    match arg
    case Ptr(_, _) => ObjectsOf(arg, ctx, w)
    case Struct(fs) => NestedAll(fs, ctx, w)
    case Array(fs) => NestedAll(fs, ctx, w)
    case Union(c) => Nested(c, ctx, w)
    case Out(_, inner) => Nested(inner, ctx, w)
    case _ => []
  }

  ghost function NestedAll(fs: seq<Arg>, ctx: Ctx, w: nat): (ws: seq<Object>)
    requires Width(w)
    decreases fs, 1
  {
    if fs == [] then [] else NestedAll(fs[..|fs| - 1], ctx, w) + Nested(fs[|fs| - 1], ctx, w)
  }

  /** The scalar the call receives for an argument. */
  ghost function ScalarOf(arg: Arg, ctx: Ctx): (v: u64)
  {
    match arg
    case Int(v) => v
    case Res(idx, div, add) => Resolve(ctx, idx, div, add)
    case Union(c) => ScalarOf(c, ctx)
    case Out(_, inner) => ScalarOf(inner, ctx)
    case Ptr(addr, _) => PhysicalAddr(addr)
    case _ => 0
  }

  /** `copyin`: lay out what the argument points to, and return the argument's scalar. */
  method CopyIn(arena: Arena, arg: Arg, ctx: Ctx, w: nat) returns (v: u64)
    requires Width(w)
    modifies arena.mem
    ensures v == ScalarOf(arg, ctx)
    ensures arena.mem[..] == WriteAll(old(arena.mem[..]), arena.fixed, ObjectsOf(arg, ctx, w))
    decreases arg, 0
  {
    hide Written, Encode, FixedCsums;
    match arg {
      case Int(x) => v := x;
      case Res(idx, div, add) => v := Resolve(ctx, idx, div, add);
      case Union(c) => v := CopyIn(arena, c, ctx, w);
      case Out(_, inner) => v := CopyIn(arena, inner, ctx, w);
      case Ptr(addr, target) =>
        if target.Some? {
          var t := target.value;
          LayOutNested(arena, t, ctx, w);
          var image := Encode(t, ctx, w);
          var bytes := new byte[|image|](i requires 0 <= i < |image| => image[i]);
          assert bytes[..] == image;
          FixCsums(bytes, t, w);
          arena.Write(addr, bytes[..]);
          WriteAllLast(old(arena.mem[..]), arena.fixed, Nested(t, ctx, w), Object(addr, bytes[..]));
        }
        v := PhysicalAddr(addr);
      case _ => v := 0;
    }
  }

  lemma WriteAllLast(mem: seq<byte>, fixed: seq<nat>, ws: seq<Object>, o: Object)
    ensures WriteAll(mem, fixed, ws + [o]) == Written(WriteAll(mem, fixed, ws), fixed, o.off, o.bytes)
  {
    hide Written;
    assert (ws + [o])[..|ws|] == ws;
  }

  method LayOutNested(arena: Arena, arg: Arg, ctx: Ctx, w: nat)
    requires Width(w)
    modifies arena.mem
    ensures arena.mem[..] == WriteAll(old(arena.mem[..]), arena.fixed, Nested(arg, ctx, w))
    decreases arg, 1
  {
    hide Written, Encode, FixedCsums, ObjectsOf;
    match arg {
      case Ptr(_, _) => var _ := CopyIn(arena, arg, ctx, w);
      case Struct(fs) => LayOutAll(arena, fs, ctx, w, arg);
      case Array(fs) => LayOutAll(arena, fs, ctx, w, arg);
      case Union(c) => LayOutNested(arena, c, ctx, w);
      case Out(_, inner) => LayOutNested(arena, inner, ctx, w);
      case _ =>
    }
  }

  method LayOutAll(arena: Arena, fs: seq<Arg>, ctx: Ctx, w: nat, ghost parent: Arg)
    requires Width(w) && (parent == Struct(fs) || parent == Array(fs))
    modifies arena.mem
    ensures arena.mem[..] == WriteAll(old(arena.mem[..]), arena.fixed, NestedAll(fs, ctx, w))
    decreases parent, 0
  {
    hide Written, Encode, FixedCsums, ObjectsOf, Nested;
    ghost var before := arena.mem[..];
    for i := 0 to |fs|
      invariant arena.mem[..] == WriteAll(before, arena.fixed, NestedAll(fs[..i], ctx, w))
    {
      LayOutNested(arena, fs[i], ctx, w);
      assert fs[..i + 1][..i] == fs[..i];
      WriteAllConcat(before, arena.fixed, NestedAll(fs[..i], ctx, w), Nested(fs[i], ctx, w));
    }
    assert fs[..|fs|] == fs;
  }
}

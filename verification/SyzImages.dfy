/**
  What placement promises about the bytes of a program's objects (vock/src/fuzz/prog_decode.rs,
  `note_fixed`, `Arena::alloc`): the images that are laid out do not overlap, and each `&AUTO` object is
  as low in the arena as it can be.
 */
module SyzImages {
  import opened Prelude
  import opened SyzArena
  import opened SyzLayout
  import opened SyzPlacement

  /** A pointer after placement: where it points and to what. */
  datatype Spot = Spot(off: nat, target: Option<Arg>)

  /** The pointers of `before` that were AUTO, as they are in `after`. */
  ghost function AutoSpots(before: Arg, after: Arg): (r: seq<Spot>)
    decreases before, 0
  {
    match (before, after)
    case (Ptr(a, Some(t)), Ptr(b, Some(u))) =>
      (if a == 0xffff_ffff_ffff_ffff then [Spot(b, Some(u))] else []) + AutoSpots(t, u)
    case (Ptr(a, None), Ptr(b, None)) => if a == 0xffff_ffff_ffff_ffff then [Spot(b, None)] else []
    case (Struct(fs), Struct(gs)) => AutoSpotsAll(fs, gs)
    case (Array(fs), Array(gs)) => AutoSpotsAll(fs, gs)
    case (Union(c), Union(d)) => AutoSpots(c, d)
    case (Out(_, c), Out(_, d)) => AutoSpots(c, d)
    case _ => []
  }

  ghost function AutoSpotsAll(before: seq<Arg>, after: seq<Arg>): (r: seq<Spot>)
    decreases before, 1
  {
    if before == [] || after == [] then []
    else AutoSpots(before[0], after[0]) + AutoSpotsAll(before[1..], after[1..])
  }

  /** The pointers with contents, in the order of the text. */
  ghost function TextSpots(arg: Arg): (r: seq<Spot>)
    decreases arg, 0
  {
    match arg
    case Ptr(a, Some(t)) => [Spot(a, Some(t))] + TextSpots(t)
    case Struct(fs) => TextSpotsAll(fs)
    case Array(fs) => TextSpotsAll(fs)
    case Union(c) => TextSpots(c)
    case Out(_, inner) => TextSpots(inner)
    case _ => []
  }

  ghost function TextSpotsAll(fs: seq<Arg>): (r: seq<Spot>)
    decreases fs, 1
  {
    if fs == [] then [] else TextSpots(fs[0]) + TextSpotsAll(fs[1..])
  }

  /** The bytes that are laid out there; a pointer without contents has a granule to itself. */
  ghost function Bytes(x: Spot, ctx: Ctx, w: nat): (n: nat)
    requires Width(w)
  {
    if x.target.Some? then |Encode(x.target.value, ctx, w)| else 64
  }

  // ---- spots and slots

  /** A slot reserves at least the bytes of its spot. */
  ghost predicate Reserves(s: Slot, x: Spot, w: nat)
  {
    s.off == x.off && s.size == if x.target.Some? then ObjectSize(x.target.value, w) else GRANULE
  }

  ghost predicate AllReserve(ss: seq<Slot>, xs: seq<Spot>, w: nat)
  {
    |ss| == |xs| && forall i :: 0 <= i < |ss| ==> Reserves(ss[i], xs[i], w)
  }

  lemma ReserveConcat(a: seq<Slot>, b: seq<Slot>, x: seq<Spot>, y: seq<Spot>, w: nat)
    requires AllReserve(a, x, w) && AllReserve(b, y, w)
    ensures AllReserve(a + b, x + y, w)
  {
    hide Reserves;
  }

  lemma ReserveOne(off: nat, t: Option<Arg>, w: nat)
    ensures AllReserve([Slot(off, if t.Some? then ObjectSize(t.value, w) else GRANULE)], [Spot(off, t)], w)
    ensures AllReserve([], [], w)
  {
  }

  /** Placing pointers changes no size. */
  lemma {:induction false} PlacedLen(arg: Arg, used: set<nat>, w: nat, n: nat, v: nat)
    requires n < AUTO_ADDR
    ensures EncodedLen(Assign(arg, used, w, n).arg, v) == EncodedLen(arg, v)
    decreases arg, 0
  {
    hide PlaceAt, PlaceUsed, ObjectSize;
    match arg
    case Struct(fs) => PlacedLens(fs, used, w, n, v);
    case Array(fs) => PlacedLens(fs, used, w, n, v);
    case Union(c) => PlacedLen(c, used, w, n, v);
    case _ =>
  }

  lemma {:induction false} PlacedLens(fs: seq<Arg>, used: set<nat>, w: nat, n: nat, v: nat)
    requires n < AUTO_ADDR
    ensures EncodedLens(AssignAll(fs, used, w, n).args, v) == EncodedLens(fs, v)
    decreases fs, 1
  {
    hide Assign, EncodedLen;
    if fs != [] {
      var p := Assign(fs[0], used, w, n);
      PlacedLen(fs[0], used, w, n, v);
      PlacedLens(fs[1..], p.used, w, n, v);
      assert AssignAll(fs, used, w, n).args[1..] == AssignAll(fs[1..], p.used, w, n).args;
    }
  }

  lemma PlacedSize(t: Arg, used: set<nat>, w: nat, n: nat)
    requires n < AUTO_ADDR
    ensures ObjectSize(Assign(t, used, w, n).arg, w) == ObjectSize(t, w)
  {
    hide Assign, EncodedLen;
    PlacedLen(t, used, w, n, w);
  }

  /** The slots pass 2 takes are those of the AUTO pointers, one each. */
  lemma {:induction false} AutoReserved(arg: Arg, used: set<nat>, w: nat, n: nat)
    requires n < AUTO_ADDR
    ensures var p := Assign(arg, used, w, n); AllReserve(p.slots, AutoSpots(arg, p.arg), w)
    decreases arg, 0
  {
    hide PlaceAt, PlaceUsed, ObjectSize, AllReserve;
    ReserveOne(0, None, w);
    match arg
    case Ptr(addr, Some(t)) =>
      var u := if addr == AUTO_ADDR then PlaceUsed(used, ObjectSize(t, w), n) else used;
      var p := Assign(t, u, w, n);
      AutoReserved(t, u, w, n);
      PlacedSize(t, u, w, n);
      if addr == AUTO_ADDR {
        var off := PlaceAt(used, ObjectSize(t, w), n);
        ReserveOne(off, Some(p.arg), w);
        ReserveConcat([Slot(off, ObjectSize(t, w))], p.slots, [Spot(off, Some(p.arg))], AutoSpots(t, p.arg), w);
      } else {
        assert [] + AutoSpots(t, p.arg) == AutoSpots(t, p.arg);
      }
    case Ptr(addr, None) =>
      if addr == AUTO_ADDR {
        ReserveOne(PlaceAt(used, GRANULE, n), None, w);
      }
    case Struct(fs) => AutoReservedAll(fs, used, w, n);
    case Array(fs) => AutoReservedAll(fs, used, w, n);
    case Union(c) => AutoReserved(c, used, w, n);
    case Out(_, inner) => AutoReserved(inner, used, w, n);
    case _ =>
  }

  lemma {:induction false} AutoReservedAll(fs: seq<Arg>, used: set<nat>, w: nat, n: nat)
    requires n < AUTO_ADDR
    ensures var p := AssignAll(fs, used, w, n); AllReserve(p.slots, AutoSpotsAll(fs, p.args), w)
    decreases fs, 1
  {
    hide Assign, AutoSpots, AllReserve;
    if fs == [] {
      ReserveOne(0, None, w);
    } else {
      var p := Assign(fs[0], used, w, n);
      var q := AssignAll(fs[1..], p.used, w, n);
      AutoReserved(fs[0], used, w, n);
      AutoReservedAll(fs[1..], p.used, w, n);
      ReserveConcat(p.slots, q.slots, AutoSpots(fs[0], p.arg), AutoSpotsAll(fs[1..], q.args), w);
      assert ([p.arg] + q.args)[1..] == q.args;
    }
  }

  /** What pass 1 reserves are the pointers with contents, one slot each. */
  lemma {:induction false} TextReserved(arg: Arg, w: nat)
    ensures AllReserve(Contents(arg, w), TextSpots(arg), w)
    decreases arg, 0
  {
    hide ObjectSize, AllReserve;
    ReserveOne(0, None, w);
    match arg
    case Ptr(a, Some(t)) =>
      TextReserved(t, w);
      ReserveOne(a, Some(t), w);
      ReserveConcat([Slot(a, ObjectSize(t, w))], Contents(t, w), [Spot(a, Some(t))], TextSpots(t), w);
    case Struct(fs) => TextReservedAll(fs, w);
    case Array(fs) => TextReservedAll(fs, w);
    case Union(c) => TextReserved(c, w);
    case Out(_, inner) => TextReserved(inner, w);
    case _ =>
  }

  lemma {:induction false} TextReservedAll(fs: seq<Arg>, w: nat)
    ensures AllReserve(ContentsAll(fs, w), TextSpotsAll(fs), w)
    decreases fs, 1
  {
    hide Contents, TextSpots, AllReserve;
    if fs == [] {
      ReserveOne(0, None, w);
    } else {
      TextReserved(fs[0], w);
      TextReservedAll(fs[1..], w);
      ReserveConcat(Contents(fs[0], w), ContentsAll(fs[1..], w), TextSpots(fs[0]), TextSpotsAll(fs[1..]), w);
    }
  }

  /** A slot is as long as its spot's bytes, but never empty. */
  lemma ReservedBytes(s: Slot, x: Spot, ctx: Ctx, w: nat)
    requires Width(w) && Reserves(s, x, w)
    ensures s.off == x.off && Bytes(x, ctx, w) <= s.size && s.size == if Bytes(x, ctx, w) == 0 then 1 else Bytes(x, ctx, w)
  {
    hide Encode, EncodedLen;
    if x.target.Some? {
      EncodeLength(x.target.value, ctx, w);
    }
  }

  // ---- images do not overlap

  /** The images of any two AUTO objects of a program that fits share no byte, whatever the context. */
  lemma AutoImagesApart(args: seq<Arg>, w: nat, n: nat, ctx: Ctx, i: nat, j: nat)
    requires Width(w) && n < AUTO_ADDR && ProgramFits(args, w, n)
    requires i < j < |AutoSpotsAll(args, Settled(args, w, n).args)|
    ensures var xs := AutoSpotsAll(args, Settled(args, w, n).args);
            && xs[i].off + Bytes(xs[i], ctx, w) <= n
            && (xs[i].off + Bytes(xs[i], ctx, w) <= xs[j].off || xs[j].off + Bytes(xs[j], ctx, w) <= xs[i].off)
  {
    hide AutoSpotsAll, AssignAll, FitsAll, Reserved, Bytes, Reserves;
    var u := AfterNote(args, w, n);
    var ss, xs := AssignAll(args, u, w, n).slots, AutoSpotsAll(args, Settled(args, w, n).args);
    AutoReservedAll(args, u, w, n);
    AssignAllApart(args, u, w, n);
    ApartPairwise(ss, u, n, i, j);
    ApartFrom(ss, u, n, i);
    ReservedBytes(ss[i], xs[i], ctx, w);
    ReservedBytes(ss[j], xs[j], ctx, w);
  }

  /** ... nor with the image of a textually addressed object that lies in the arena. */
  lemma AutoImagesAvoidText(args: seq<Arg>, w: nat, n: nat, ctx: Ctx, i: nat, k: nat)
    requires Width(w) && n < AUTO_ADDR && ProgramFits(args, w, n)
    requires i < |AutoSpotsAll(args, Settled(args, w, n).args)| && k < |TextSpotsAll(args)|
    requires TextSpotsAll(args)[k].off + Bytes(TextSpotsAll(args)[k], ctx, w) <= n
    ensures var x, y := AutoSpotsAll(args, Settled(args, w, n).args)[i], TextSpotsAll(args)[k];
            x.off + Bytes(x, ctx, w) <= y.off || y.off + Bytes(y, ctx, w) <= x.off
  {
    hide AutoSpotsAll, AssignAll, FitsAll, ContentsAll, TextSpotsAll, Bytes, Reserves, Reserved;
    var u, fixed := AfterNote(args, w, n), ContentsAll(args, w);
    var ss, xs, ys := AssignAll(args, u, w, n).slots, AutoSpotsAll(args, Settled(args, w, n).args), TextSpotsAll(args);
    AutoReservedAll(args, u, w, n);
    TextReservedAll(args, w);
    AssignAllApart(args, u, w, n);
    ApartFrom(ss, u, n, i);
    ReservedBytes(ss[i], xs[i], ctx, w);
    ReservedBytes(fixed[k], ys[k], ctx, w);
    if fixed[k].off + fixed[k].size <= n {
      ReservedHas(fixed, n, k);
      SpansDisjoint(ss[i], fixed[k]);
    }
  }

  // ---- as low as possible

  /** An object of `size` bytes fits at granule `g`: inside the arena's granules, none of them in use. */
  ghost predicate Room(used: set<nat>, g: nat, size: nat, n: nat)
  {
    && 64 * g + size <= n / 64 * 64
    && forall p :: 64 * g <= p < 64 * g + size ==> p / 64 !in used
  }

  lemma RoomIsRun(used: set<nat>, g: nat, size: nat, n: nat)
    requires size >= 1
    ensures Room(used, g, size, n) <==> FreeRun(used, g, Need(size), n / 64)
  {
    var m := Need(size);
    assert size <= 64 * m < size + 64;
    if Room(used, g, size, n) {
      forall h | g <= h < g + m ensures h !in used {
        var p := if 64 * h < 64 * g + size then 64 * h else 64 * g;
        assert p / 64 == h;
      }
    }
    if FreeRun(used, g, m, n / 64) {
      forall p | 64 * g <= p < 64 * g + size ensures p / 64 !in used {
        assert g <= p / 64 < g + m;
      }
    }
  }

  /** An allocation takes the first granule where the object fits, and zero if there is none. */
  lemma PlacedLowest(used: set<nat>, size: nat, n: nat)
    requires size >= 1
    ensures var off := PlaceAt(used, size, n);
            if exists g: nat :: Room(used, g, size, n)
            then off % 64 == 0 && Room(used, off / 64, size, n) && forall g: nat :: g < off / 64 ==> !Room(used, g, size, n)
            else off == 0
  {
    hide Need, Room;
    forall g: nat ensures Room(used, g, size, n) <==> FreeRun(used, g, Need(size), n / 64) {
      RoomIsRun(used, g, size, n);
    }
    hide FreeRun, FirstFit;
    FirstFitIs(used, Need(size), n / 64);
  }

  lemma FirstFitIs(used: set<nat>, need: nat, total: nat)
    ensures var r := FirstFit(used, 0, need, total);
            && (r.Some? ==> FreeRun(used, r.value, need, total)
                            && forall t: nat :: t < r.value ==> !FreeRun(used, t, need, total))
            && (r.None? ==> forall t: nat :: !FreeRun(used, t, need, total))
  {
  }

  /** Two literals of 65 bytes take two granules each. */
  lemma TwoLiterals(x: seq<byte>, y: seq<byte>, w: nat, n: nat)
    requires |x| == |y| == 65 && 256 <= n < AUTO_ADDR
    ensures Settled([Ptr(AUTO_ADDR, Some(Data(x))), Ptr(AUTO_ADDR, Some(Data(y)))], w, n).args
         == [Ptr(0, Some(Data(x))), Ptr(128, Some(Data(y)))]
  {
    var p, q := Ptr(AUTO_ADDR, Some(Data(x))), Ptr(AUTO_ADDR, Some(Data(y)));
    assert [p, q][1..] == [q] && [q][1..] == [];
    assert Contents(Data(x), w) == [] && Contents(Data(y), w) == [];
    assert ContentsAll([q], w) == [Slot(AUTO_ADDR, 65)] + [] + [];
    assert ContentsAll([p, q], w) == [Slot(AUTO_ADDR, 65), Slot(AUTO_ADDR, 65)];
    var s := Slot(AUTO_ADDR, 65);
    assert [s, s][1..] == [s] && [s][1..] == [] && Reserved([s], n) == {} && Reserved([s, s], n) == {};
    FirstTwo({}, n);
    var u := PlaceUsed({}, 65, n);
    FirstTwo(u, n);
    hide PlaceAt, PlaceUsed;
    assert Assign(p, {}, w, n).arg == Ptr(0, Some(Data(x))) && Assign(p, {}, w, n).used == u;
    assert Assign(q, u, w, n).arg == Ptr(128, Some(Data(y)));
    assert AssignAll([q], u, w, n).args == [Ptr(128, Some(Data(y)))] + AssignAll([], Assign(q, u, w, n).used, w, n).args;
    assert AssignAll([p, q], {}, w, n).args == [Ptr(0, Some(Data(x)))] + AssignAll([q], u, w, n).args;
  }

  lemma FirstTwo(used: set<nat>, n: nat)
    requires 256 <= n && (used == {} || used == Span(0, 65))
    ensures PlaceAt(used, 65, n) == if used == {} then 0 else 128
    ensures used == {} ==> PlaceUsed(used, 65, n) == Span(0, 65)
  {
    var g := if used == {} then 0 else 2;
    hide FirstFit, PlaceAt;
    PlacedLowest(used, 65, n);
    assert Room(used, g, 65, n) by {
      forall p | 64 * g <= p < 64 * g + 65 ensures p / 64 !in used {
      }
    }
    if used != {} {
      assert 0 / 64 in used && 64 / 64 in used;
      assert !Room(used, 0, 65, n) by { assert 0 / 64 in used; }
      assert !Room(used, 1, 65, n) by { assert 64 / 64 in used; }
    }
    var off := PlaceAt(used, 65, n);
    assert off / 64 == g;
    if used == {} {
      RoomIsRun(used, 0, 65, n);
      FirstFitIs(used, Need(65), n / 64);
    }
  }
}

/**
  Giving every pointer of a program its place (vock/src/fuzz/prog_decode.rs, `note_fixed`): textually
  addressed objects are reserved first, then every `&AUTO` pointer is allocated around them.
 */
module SyzPlacement {
  import opened Prelude
  import opened SyzArena
  import opened SyzLayout
  import opened SyzCopyin

  // ---- the allocator as a function of the granules in use

  /** The lowest free run at or after granule `s`. */
  ghost function FirstFit(used: set<nat>, s: nat, need: nat, total: nat): (r: Option<nat>)
    ensures r.Some? ==> r.value >= s && FreeRun(used, r.value, need, total)
    ensures r.Some? ==> forall t :: s <= t < r.value ==> !FreeRun(used, t, need, total)
    ensures r.None? ==> forall t :: s <= t ==> !FreeRun(used, t, need, total)
    decreases total - s
  {
    if s + need > total then None
    else if FreeRun(used, s, need, total) then Some(s)
    else FirstFit(used, s + 1, need, total)
  }

  /** An allocation of `size` bytes succeeds in an arena of `n` bytes. */
  ghost predicate Fits1(used: set<nat>, size: nat, n: nat)
  {
    FirstFit(used, 0, Need(size), n / 64).Some?
  }

  ghost function PlaceAt(used: set<nat>, size: nat, n: nat): (off: nat)
    ensures off <= n
  {
    var r := FirstFit(used, 0, Need(size), n / 64);
    if r.Some? then 64 * r.value else 0
  }

  ghost function PlaceUsed(used: set<nat>, size: nat, n: nat): (u: set<nat>)
  {
    if Fits1(used, size, n) then used + Span(PlaceAt(used, size, n), size) else used
  }

  // ---- both passes as functions

  function ObjectSize(t: Arg, w: nat): (n: nat)
    ensures n >= 1
  {
    if EncodedLen(t, w) == 0 then 1 else EncodedLen(t, w)
  }

  datatype Slot = Slot(off: nat, size: nat)

  /** Pass 1: the objects with contents, in the order they are visited. */
  ghost function Contents(arg: Arg, w: nat): (s: seq<Slot>)
    decreases arg, 0
  {
    match arg
    case Ptr(addr, Some(t)) => [Slot(addr, ObjectSize(t, w))] + Contents(t, w)
    case Struct(fs) => ContentsAll(fs, w)
    case Array(fs) => ContentsAll(fs, w)
    case Union(c) => Contents(c, w)
    case Out(_, inner) => Contents(inner, w)
    case _ => []
  }

  ghost function ContentsAll(fs: seq<Arg>, w: nat): (s: seq<Slot>)
    decreases fs, 1
  {
    if fs == [] then [] else Contents(fs[0], w) + ContentsAll(fs[1..], w)
  }

  /** The granules of the slots that lie inside an arena of `n` bytes. */
  ghost function Reserved(ss: seq<Slot>, n: nat): (u: set<nat>)
  {
    if ss == [] then {}
    else (if ss[0].off + ss[0].size <= n then Span(ss[0].off, ss[0].size) else {}) + Reserved(ss[1..], n)
  }

  ghost function Offsets(ss: seq<Slot>): (s: seq<nat>)
    ensures |s| == |ss|
  {
    if ss == [] then [] else [ss[0].off] + Offsets(ss[1..])
  }

  /** What pass 2 makes of a tree: the tree, the granules in use after it, and the slots it took. */
  datatype Placed = Placed(arg: Arg, used: set<nat>, slots: seq<Slot>, pushed: seq<nat>)
  datatype PlacedAll = PlacedAll(args: seq<Arg>, used: set<nat>, slots: seq<Slot>, pushed: seq<nat>)

  /** Pass 2. */
  ghost function Assign(arg: Arg, used: set<nat>, w: nat, n: nat): (r: Placed)
    requires n < AUTO_ADDR
    decreases arg, 0
  {
    match arg
    case Ptr(addr, Some(t)) =>
      if addr == AUTO_ADDR then
        var off, u := PlaceAt(used, ObjectSize(t, w), n), PlaceUsed(used, ObjectSize(t, w), n);
        var p := Assign(t, u, w, n);
        Placed(Ptr(off, Some(p.arg)), p.used, [Slot(off, ObjectSize(t, w))] + p.slots, [off] + p.pushed)
      else
        var p := Assign(t, used, w, n);
        Placed(Ptr(addr, Some(p.arg)), p.used, p.slots, p.pushed)
    case Ptr(addr, None) =>
      if addr == AUTO_ADDR then
        var off := PlaceAt(used, GRANULE, n);
        Placed(Ptr(off, None), PlaceUsed(used, GRANULE, n), [Slot(off, GRANULE)], [])
      else Placed(arg, used, [], [])
    case Struct(fs) => var p := AssignAll(fs, used, w, n); Placed(Struct(p.args), p.used, p.slots, p.pushed)
    case Array(fs) => var p := AssignAll(fs, used, w, n); Placed(Array(p.args), p.used, p.slots, p.pushed)
    case Union(c) => var p := Assign(c, used, w, n); Placed(Union(p.arg), p.used, p.slots, p.pushed)
    case Out(slot, inner) => var p := Assign(inner, used, w, n); Placed(Out(slot, p.arg), p.used, p.slots, p.pushed)
    case _ => Placed(arg, used, [], [])
  }

  ghost function AssignAll(fs: seq<Arg>, used: set<nat>, w: nat, n: nat): (r: PlacedAll)
    requires n < AUTO_ADDR
    decreases fs, 1
  {
    if fs == [] then PlacedAll([], used, [], [])
    else
      var p := Assign(fs[0], used, w, n);
      var q := AssignAll(fs[1..], p.used, w, n);
      PlacedAll([p.arg] + q.args, q.used, p.slots + q.slots, p.pushed + q.pushed)
  }

  /** Every allocation of pass 2 finds room. */
  ghost predicate Fits(arg: Arg, used: set<nat>, w: nat, n: nat)
    requires n < AUTO_ADDR
    decreases arg, 0
  {
    match arg
    case Ptr(addr, Some(t)) =>
      if addr == AUTO_ADDR then
        Fits1(used, ObjectSize(t, w), n) && Fits(t, PlaceUsed(used, ObjectSize(t, w), n), w, n)
      else Fits(t, used, w, n)
    case Ptr(addr, None) => addr == AUTO_ADDR ==> Fits1(used, GRANULE, n)
    case Struct(fs) => FitsAll(fs, used, w, n)
    case Array(fs) => FitsAll(fs, used, w, n)
    case Union(c) => Fits(c, used, w, n)
    case Out(_, inner) => Fits(inner, used, w, n)
    case _ => true
  }

  ghost predicate FitsAll(fs: seq<Arg>, used: set<nat>, w: nat, n: nat)
    requires n < AUTO_ADDR
    decreases fs, 1
  {
    fs == [] || (Fits(fs[0], used, w, n) && FitsAll(fs[1..], Assign(fs[0], used, w, n).used, w, n))
  }

  // ---- no AUTO address remains, and a second pass changes nothing

  ghost predicate NoAuto(arg: Arg)
    decreases arg, 0
  {
    match arg
    case Ptr(addr, Some(t)) => addr != AUTO_ADDR && NoAuto(t)
    case Ptr(addr, None) => addr != AUTO_ADDR
    case Struct(fs) => NoAutoAll(fs)
    case Array(fs) => NoAutoAll(fs)
    case Union(c) => NoAuto(c)
    case Out(_, inner) => NoAuto(inner)
    case _ => true
  }

  ghost predicate NoAutoAll(fs: seq<Arg>)
    decreases fs, 1
  {
    fs == [] || (NoAuto(fs[0]) && NoAutoAll(fs[1..]))
  }

  lemma {:induction false} AssignLeavesNoAuto(arg: Arg, used: set<nat>, w: nat, n: nat)
    requires n < AUTO_ADDR
    ensures NoAuto(Assign(arg, used, w, n).arg)
    decreases arg, 0
  {
    hide PlaceUsed;
    match arg
    case Ptr(addr, Some(t)) =>
      AssignLeavesNoAuto(t, if addr == AUTO_ADDR then PlaceUsed(used, ObjectSize(t, w), n) else used, w, n);
    case Struct(fs) => AssignAllLeavesNoAuto(fs, used, w, n);
    case Array(fs) => AssignAllLeavesNoAuto(fs, used, w, n);
    case Union(c) => AssignLeavesNoAuto(c, used, w, n);
    case Out(_, inner) => AssignLeavesNoAuto(inner, used, w, n);
    case _ =>
  }

  lemma {:induction false} AssignAllLeavesNoAuto(fs: seq<Arg>, used: set<nat>, w: nat, n: nat)
    requires n < AUTO_ADDR
    ensures NoAutoAll(AssignAll(fs, used, w, n).args)
    decreases fs, 1
  {
    hide Assign, NoAuto;
    if fs != [] {
      var p := Assign(fs[0], used, w, n);
      AssignLeavesNoAuto(fs[0], used, w, n);
      AssignAllLeavesNoAuto(fs[1..], p.used, w, n);
      assert AssignAll(fs, used, w, n).args[1..] == AssignAll(fs[1..], p.used, w, n).args;
    }
  }

  /** Pass 2 leaves a tree without AUTO pointers, and the bitmap, alone. */
  lemma {:induction false} AssignIdle(arg: Arg, used: set<nat>, w: nat, n: nat)
    requires n < AUTO_ADDR && NoAuto(arg)
    ensures Assign(arg, used, w, n) == Placed(arg, used, [], [])
    decreases arg, 0
  {
    match arg
    case Ptr(addr, Some(t)) => AssignIdle(t, used, w, n);
    case Struct(fs) => AssignAllIdle(fs, used, w, n);
    case Array(fs) => AssignAllIdle(fs, used, w, n);
    case Union(c) => AssignIdle(c, used, w, n);
    case Out(_, inner) => AssignIdle(inner, used, w, n);
    case _ =>
  }

  lemma {:induction false} AssignAllIdle(fs: seq<Arg>, used: set<nat>, w: nat, n: nat)
    requires n < AUTO_ADDR && NoAutoAll(fs)
    ensures AssignAll(fs, used, w, n) == PlacedAll(fs, used, [], [])
    decreases fs, 1
  {
    hide Assign, NoAuto;
    if fs != [] {
      AssignIdle(fs[0], used, w, n);
      AssignAllIdle(fs[1..], used, w, n);
      assert [fs[0]] + fs[1..] == fs;
    }
  }

  // ---- AUTO objects are disjoint from each other and from everything reserved

  /** The slots lie inside the arena, outside `used` and outside each other. */
  ghost predicate Apart(ss: seq<Slot>, used: set<nat>, n: nat)
  {
    ss != [] ==>
      && ss[0].off + ss[0].size <= n && ss[0].size >= 1
      && Span(ss[0].off, ss[0].size) !! used
      && Apart(ss[1..], used + Span(ss[0].off, ss[0].size), n)
  }

  lemma PlaceApart(used: set<nat>, size: nat, n: nat)
    requires Fits1(used, size, n) && size >= 1
    ensures var off := PlaceAt(used, size, n);
            off + size <= n && Span(off, size) !! used && PlaceUsed(used, size, n) == used + Span(off, size)
  {
    hide FirstFit;
    var start := FirstFit(used, 0, Need(size), n / 64).value;
    assert CeilDiv(64 * start + size) == start + CeilDiv(size);
  }

  lemma {:induction false} ApartConcat(a: seq<Slot>, b: seq<Slot>, used: set<nat>, n: nat)
    requires Apart(a, used, n) && Apart(b, used + Reserved(a, n), n)
    ensures Apart(a + b, used, n) && Reserved(a + b, n) == Reserved(a, n) + Reserved(b, n)
    decreases |a|
  {
    hide Span;
    if a == [] {
      assert a + b == b && used + Reserved(a, n) == used;
    } else {
      var s := Span(a[0].off, a[0].size);
      assert used + Reserved(a, n) == used + s + Reserved(a[1..], n);
      ApartConcat(a[1..], b, used + s, n);
      assert (a + b)[1..] == a[1..] + b;
    }
  }

  /** Pass 2 takes slots apart from everything in use and marks exactly them. */
  lemma {:induction false} AssignApart(arg: Arg, used: set<nat>, w: nat, n: nat)
    requires n < AUTO_ADDR && Fits(arg, used, w, n)
    ensures var p := Assign(arg, used, w, n);
            Apart(p.slots, used, n) && p.used == used + Reserved(p.slots, n)
    decreases arg, 0
  {
    hide PlaceAt, PlaceUsed, Fits1, ObjectSize, Span;
    match arg
    case Ptr(addr, Some(t)) =>
      if addr == AUTO_ADDR {
        PlaceApart(used, ObjectSize(t, w), n);
        AssignApart(t, PlaceUsed(used, ObjectSize(t, w), n), w, n);
        ReservedCons(PlaceAt(used, ObjectSize(t, w), n), ObjectSize(t, w),
                     Assign(t, PlaceUsed(used, ObjectSize(t, w), n), w, n).slots, used, n);
      } else {
        AssignApart(t, used, w, n);
      }
    case Ptr(addr, None) =>
      if addr == AUTO_ADDR {
        PlaceApart(used, GRANULE, n);
        ReservedCons(PlaceAt(used, GRANULE, n), GRANULE, [], used, n);
      }
    case Struct(fs) => AssignAllApart(fs, used, w, n);
    case Array(fs) => AssignAllApart(fs, used, w, n);
    case Union(c) => AssignApart(c, used, w, n);
    case Out(_, inner) => AssignApart(inner, used, w, n);
    case _ =>
  }

  lemma ReservedCons(off: nat, size: nat, rest: seq<Slot>, used: set<nat>, n: nat)
    requires off + size <= n && size >= 1 && Span(off, size) !! used && Apart(rest, used + Span(off, size), n)
    ensures Apart([Slot(off, size)] + rest, used, n)
    ensures used + Reserved([Slot(off, size)] + rest, n) == used + Span(off, size) + Reserved(rest, n)
  {
    hide Span;
    assert ([Slot(off, size)] + rest)[1..] == rest;
  }

  lemma {:induction false} AssignAllApart(fs: seq<Arg>, used: set<nat>, w: nat, n: nat)
    requires n < AUTO_ADDR && FitsAll(fs, used, w, n)
    ensures var p := AssignAll(fs, used, w, n);
            Apart(p.slots, used, n) && p.used == used + Reserved(p.slots, n)
    decreases fs, 1
  {
    hide Assign, Fits, Span;
    if fs != [] {
      var p := Assign(fs[0], used, w, n);
      var q := AssignAll(fs[1..], p.used, w, n);
      AssignApart(fs[0], used, w, n);
      AssignAllApart(fs[1..], p.used, w, n);
      ApartConcat(p.slots, q.slots, used, n);
    }
  }

  /** Two objects share no byte. */
  ghost predicate Disjoint(a: Slot, b: Slot)
  {
    a.off + a.size <= b.off || b.off + b.size <= a.off
  }

  lemma SpansDisjoint(a: Slot, b: Slot)
    requires Span(a.off, a.size) !! Span(b.off, b.size) && a.size >= 1 && b.size >= 1
    ensures Disjoint(a, b)
  {
    var x := if a.off < b.off then b.off else a.off;
    Touches(a, x);
    Touches(b, x);
  }

  lemma Touches(s: Slot, x: nat)
    ensures s.off <= x < s.off + s.size ==> x / 64 in Span(s.off, s.size)
  {
  }

  lemma {:induction false} ApartFrom(ss: seq<Slot>, used: set<nat>, n: nat, i: nat)
    requires Apart(ss, used, n) && i < |ss|
    ensures ss[i].off + ss[i].size <= n && ss[i].size >= 1 && Span(ss[i].off, ss[i].size) !! used
  {
    hide Span;
    if i > 0 {
      ApartFrom(ss[1..], used + Span(ss[0].off, ss[0].size), n, i - 1);
    }
  }

  lemma {:induction false} ApartPairwise(ss: seq<Slot>, used: set<nat>, n: nat, i: nat, j: nat)
    requires Apart(ss, used, n) && i < j < |ss|
    ensures Disjoint(ss[i], ss[j])
    decreases i
  {
    hide Span;
    var u := used + Span(ss[0].off, ss[0].size);
    if i > 0 {
      ApartPairwise(ss[1..], u, n, i - 1, j - 1);
    } else {
      ApartFrom(ss[1..], u, n, j - 1);
      SpansDisjoint(ss[0], ss[j]);
    }
  }

  lemma {:induction false} ReservedHas(ss: seq<Slot>, n: nat, i: nat)
    requires i < |ss| && ss[i].off + ss[i].size <= n
    ensures Span(ss[i].off, ss[i].size) <= Reserved(ss, n)
  {
    hide Span;
    if i > 0 {
      ReservedHas(ss[1..], n, i - 1);
    }
  }

  /** Where the pointers that were AUTO in `before` point in `after`, with the sizes they need. */
  ghost function AutoSlots(before: Arg, after: Arg, w: nat): (ss: seq<Slot>)
    decreases before, 0
  {
    match (before, after)
    case (Ptr(a, Some(t)), Ptr(b, Some(t'))) =>
      (if a == AUTO_ADDR then [Slot(b, ObjectSize(t, w))] else []) + AutoSlots(t, t', w)
    case (Ptr(a, None), Ptr(b, None)) => if a == AUTO_ADDR then [Slot(b, GRANULE)] else []
    case (Struct(fs), Struct(gs)) => AutoSlotsAll(fs, gs, w)
    case (Array(fs), Array(gs)) => AutoSlotsAll(fs, gs, w)
    case (Union(c), Union(d)) => AutoSlots(c, d, w)
    case (Out(_, c), Out(_, d)) => AutoSlots(c, d, w)
    case _ => []
  }

  ghost function AutoSlotsAll(before: seq<Arg>, after: seq<Arg>, w: nat): (ss: seq<Slot>)
    decreases before, 1
  {
    if before == [] || after == [] then []
    else AutoSlots(before[0], after[0], w) + AutoSlotsAll(before[1..], after[1..], w)
  }

  lemma {:induction false} AssignSlots(arg: Arg, used: set<nat>, w: nat, n: nat)
    requires n < AUTO_ADDR
    ensures AutoSlots(arg, Assign(arg, used, w, n).arg, w) == Assign(arg, used, w, n).slots
    decreases arg, 0
  {
    hide PlaceAt, PlaceUsed, ObjectSize;
    match arg
    case Ptr(addr, Some(t)) =>
      AssignSlots(t, if addr == AUTO_ADDR then PlaceUsed(used, ObjectSize(t, w), n) else used, w, n);
    case Struct(fs) => AssignAllSlots(fs, used, w, n);
    case Array(fs) => AssignAllSlots(fs, used, w, n);
    case Union(c) => AssignSlots(c, used, w, n);
    case Out(_, inner) => AssignSlots(inner, used, w, n);
    case _ =>
  }

  lemma {:induction false} AssignAllSlots(fs: seq<Arg>, used: set<nat>, w: nat, n: nat)
    requires n < AUTO_ADDR
    ensures AutoSlotsAll(fs, AssignAll(fs, used, w, n).args, w) == AssignAll(fs, used, w, n).slots
    decreases fs, 1
  {
    hide Assign, AutoSlots;
    if fs != [] {
      var p := Assign(fs[0], used, w, n);
      AssignSlots(fs[0], used, w, n);
      AssignAllSlots(fs[1..], p.used, w, n);
      assert AssignAll(fs, used, w, n).args[1..] == AssignAll(fs[1..], p.used, w, n).args;
    }
  }

  /** The bitmap after pass 1 over all arguments of a program. */
  ghost function AfterNote(args: seq<Arg>, w: nat, n: nat): (u: set<nat>)
  {
    Reserved(ContentsAll(args, w), n)
  }

  /** The program's arguments after both passes, starting from an empty bitmap. */
  ghost function Settled(args: seq<Arg>, w: nat, n: nat): (r: PlacedAll)
    requires n < AUTO_ADDR
  {
    AssignAll(args, AfterNote(args, w, n), w, n)
  }

  /** A program whose AUTO objects all find room. */
  ghost predicate ProgramFits(args: seq<Arg>, w: nat, n: nat)
    requires n < AUTO_ADDR
  {
    FitsAll(args, AfterNote(args, w, n), w, n)
  }

  /** After placement, any two AUTO objects of a program that fits are disjoint. */
  lemma AutoDisjoint(args: seq<Arg>, w: nat, n: nat, i: nat, j: nat)
    requires n < AUTO_ADDR && ProgramFits(args, w, n)
    requires i < j < |AutoSlotsAll(args, Settled(args, w, n).args, w)|
    ensures var ss := AutoSlotsAll(args, Settled(args, w, n).args, w); Disjoint(ss[i], ss[j])
  {
    hide AutoSlotsAll, AssignAll, FitsAll, Reserved;
    var u := AfterNote(args, w, n);
    AssignAllApart(args, u, w, n);
    AssignAllSlots(args, u, w, n);
    ApartPairwise(AssignAll(args, u, w, n).slots, u, n, i, j);
  }

  /** ... and disjoint from every textually addressed object with contents that lies in the arena. */
  lemma AutoAvoidsFixed(args: seq<Arg>, w: nat, n: nat, i: nat, k: nat)
    requires n < AUTO_ADDR && ProgramFits(args, w, n)
    requires i < |AutoSlotsAll(args, Settled(args, w, n).args, w)| && k < |ContentsAll(args, w)|
    requires ContentsAll(args, w)[k].off + ContentsAll(args, w)[k].size <= n
    ensures Disjoint(AutoSlotsAll(args, Settled(args, w, n).args, w)[i], ContentsAll(args, w)[k])
  {
    hide AutoSlotsAll, AssignAll, FitsAll, ContentsAll;
    var u, fixed := AfterNote(args, w, n), ContentsAll(args, w);
    AssignAllApart(args, u, w, n);
    AssignAllSlots(args, u, w, n);
    ApartFrom(AssignAll(args, u, w, n).slots, u, n, i);
    ReservedHas(fixed, n, k);
    ContentsSized(args, w, k);
    SpansDisjoint(AssignAll(args, u, w, n).slots[i], fixed[k]);
  }

  lemma {:induction false} ContentsSized(fs: seq<Arg>, w: nat, k: nat)
    requires k < |ContentsAll(fs, w)|
    ensures ContentsAll(fs, w)[k].size >= 1
    decreases fs, 1
  {
    var m := |Contents(fs[0], w)|;
    if k < m {
      ContentsSizedIn(fs[0], w, k);
    } else {
      ContentsSized(fs[1..], w, k - m);
    }
  }

  lemma {:induction false} ContentsSizedIn(arg: Arg, w: nat, k: nat)
    requires k < |Contents(arg, w)|
    ensures Contents(arg, w)[k].size >= 1
    decreases arg, 0
  {
    match arg
    case Ptr(_, Some(t)) => if k > 0 { ContentsSizedIn(t, w, k - 1); }
    case Struct(fs) => ContentsSized(fs, w, k);
    case Array(fs) => ContentsSized(fs, w, k);
    case Union(c) => ContentsSizedIn(c, w, k);
    case Out(_, inner) => ContentsSizedIn(inner, w, k);
  }

  /** A second reset-and-place pass leaves the program as the first one left it. */
  lemma SettledIsFixpoint(args: seq<Arg>, w: nat, n: nat)
    requires n < AUTO_ADDR
    ensures NoAutoAll(Settled(args, w, n).args)
    ensures Settled(Settled(args, w, n).args, w, n).args == Settled(args, w, n).args
  {
    hide AssignAll, NoAutoAll, ContentsAll;
    AssignAllLeavesNoAuto(args, AfterNote(args, w, n), w, n);
    var once := Settled(args, w, n).args;
    AssignAllIdle(once, AfterNote(once, w, n), w, n);
  }
}

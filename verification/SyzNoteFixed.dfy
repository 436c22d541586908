/**
  `note_fixed` (vock/src/fuzz/prog_decode.rs) as it runs on an arena, proved against the two passes
  of `SyzPlacement`, and what it means for the objects laid out afterwards.
 */
module SyzNoteFixed {
  import opened Prelude
  import opened SyzArena
  import opened SyzLayout
  import opened SyzCopyin
  import opened SyzPlacement

  /** One call of a program, as far as layout and scheduling look at it. */
  datatype Call = Call(args: seq<Arg>, res: Option<nat>, isAsync: bool, pseudo: bool)

  ghost function ArgsOf(calls: seq<Call>): (s: seq<Arg>)
  {
    if calls == [] then [] else calls[0].args + ArgsOf(calls[1..])
  }

  // ---- lists of slots

  lemma {:induction false} OffsetsConcat(a: seq<Slot>, b: seq<Slot>)
    ensures Offsets(a + b) == Offsets(a) + Offsets(b)
  {
    if a == [] {
      assert a + b == b;
    } else {
      OffsetsConcat(a[1..], b);
      assert (a + b)[1..] == a[1..] + b;
    }
  }

  lemma {:induction false} ReservedConcat(a: seq<Slot>, b: seq<Slot>, n: nat)
    ensures Reserved(a + b, n) == Reserved(a, n) + Reserved(b, n)
  {
    hide Span;
    if a == [] {
      assert a + b == b;
    } else {
      ReservedConcat(a[1..], b, n);
      assert (a + b)[1..] == a[1..] + b;
    }
  }

  lemma {:induction false} ContentsAppend(a: seq<Arg>, b: seq<Arg>, w: nat)
    ensures ContentsAll(a + b, w) == ContentsAll(a, w) + ContentsAll(b, w)
    decreases |a|
  {
    hide Contents;
    if a == [] {
      assert a + b == b;
    } else {
      ContentsAppend(a[1..], b, w);
      assert (a + b)[1..] == a[1..] + b;
      var x, y, z := Contents(a[0], w), ContentsAll(a[1..], w), ContentsAll(b, w);
      assert (x + y) + z == x + (y + z);
    }
  }

  lemma ContentsStep(fs: seq<Arg>, i: nat, w: nat)
    requires i < |fs|
    ensures ContentsAll(fs[..i + 1], w) == ContentsAll(fs[..i], w) + Contents(fs[i], w)
  {
    hide Contents;
    assert fs[..i + 1] == fs[..i] + [fs[i]];
    ContentsAppend(fs[..i], [fs[i]], w);
    assert [fs[i]][1..] == [];
  }

  lemma SlotsOfNone(n: nat)
    ensures Reserved([], n) == {} && Offsets([]) == []
  {
  }

  lemma SlotsOfMore(s: Slot, rest: seq<Slot>, n: nat)
    ensures Reserved([s] + rest, n) == (if s.off + s.size <= n then Span(s.off, s.size) else {}) + Reserved(rest, n)
    ensures Offsets([s] + rest) == [s.off] + Offsets(rest)
  {
    hide Span;
    assert ([s] + rest)[1..] == rest;
  }

  // ---- pass 1

  /** Reserve every object of `arg` that has contents, and record its address. */
  method Note(arena: Arena, arg: Arg, w: nat, addrs0: seq<nat>) returns (addrs: seq<nat>)
    requires arena.Valid()
    modifies arena`used
    ensures arena.Valid()
    ensures arena.Granules() == old(arena.Granules()) + Reserved(Contents(arg, w), arena.mem.Length)
    ensures addrs == addrs0 + Offsets(Contents(arg, w))
    decreases arg, 1
  {
    hide ObjectSize, Span, ContentsAll, Reserved, Offsets, Arena.Granules, Arena.Valid;
    addrs := addrs0;
    SlotsOfNone(arena.mem.Length);
    match arg {
      case Ptr(addr, target) =>
        if target.Some? {
          var t := target.value;
          arena.NoteAlloc(addr, ObjectSize(t, w));
          addrs := addrs + [addr];
          addrs := Note(arena, t, w, addrs);
          SlotsOfMore(Slot(addr, ObjectSize(t, w)), Contents(t, w), arena.mem.Length);
        }
      case Struct(fs) => addrs := NoteAll(arena, fs, w, addrs, arg);
      case Array(fs) => addrs := NoteAll(arena, fs, w, addrs, arg);
      case Union(c) => addrs := Note(arena, c, w, addrs);
      case Out(_, inner) => addrs := Note(arena, inner, w, addrs);
      case _ =>
    }
  }

  method NoteAll(arena: Arena, fs: seq<Arg>, w: nat, addrs0: seq<nat>, ghost parent: Arg) returns (addrs: seq<nat>)
    requires arena.Valid() && (parent == Struct(fs) || parent == Array(fs))
    modifies arena`used
    ensures arena.Valid()
    ensures arena.Granules() == old(arena.Granules()) + Reserved(ContentsAll(fs, w), arena.mem.Length)
    ensures addrs == addrs0 + Offsets(ContentsAll(fs, w))
    decreases parent, 0
  {
    hide Contents, Span;
    addrs := addrs0;
    for i := 0 to |fs|
      invariant arena.Valid()
      invariant arena.Granules() == old(arena.Granules()) + Reserved(ContentsAll(fs[..i], w), arena.mem.Length)
      invariant addrs == addrs0 + Offsets(ContentsAll(fs[..i], w))
    {
      addrs := Note(arena, fs[i], w, addrs);
      ContentsStep(fs, i, w);
      ReservedConcat(ContentsAll(fs[..i], w), Contents(fs[i], w), arena.mem.Length);
      OffsetsConcat(ContentsAll(fs[..i], w), Contents(fs[i], w));
    }
    assert fs[..|fs|] == fs;
  }

  // ---- pass 2

  /** The allocator's contract in terms of the first-fit function. */
  lemma AllocIsPlace(used: set<nat>, size: nat, n: nat, off: nat)
    ensures HasRun(used, Need(size), n / 64) <==> Fits1(used, size, n)
    ensures off % 64 == 0 && LowestRun(used, off / 64, Need(size), n / 64) ==> off == PlaceAt(used, size, n)
  {
    hide FirstFit;
  }

  method Allocate(arena: Arena, size: nat) returns (off: nat)
    requires arena.Valid() && size >= 1
    modifies arena`used
    ensures arena.Valid()
    ensures off == PlaceAt(old(arena.Granules()), size, arena.mem.Length)
    ensures arena.Granules() == PlaceUsed(old(arena.Granules()), size, arena.mem.Length)
  {
    hide FirstFit, Span;
    ghost var used := arena.Granules();
    off := arena.Alloc(size);
    AllocIsPlace(used, size, arena.mem.Length, off);
  }

  /** Give every AUTO pointer of `arg` a slot, and record those with contents. */
  method AssignArg(arena: Arena, arg: Arg, w: nat, addrs0: seq<nat>) returns (arg': Arg, addrs: seq<nat>)
    requires arena.Valid() && arena.mem.Length < AUTO_ADDR
    modifies arena`used
    ensures arena.Valid()
    ensures var p := Assign(arg, old(arena.Granules()), w, arena.mem.Length);
            arg' == p.arg && arena.Granules() == p.used && addrs == addrs0 + p.pushed
    decreases arg, 1
  {
    hide PlaceAt, PlaceUsed, ObjectSize, AssignAll;
    addrs := addrs0;
    match arg {
      case Ptr(addr, target) =>
        if target.Some? {
          var t, at := target.value, addr;
          if addr == AUTO_ADDR {
            var off := Allocate(arena, ObjectSize(t, w));
            PlaceBound(old(arena.Granules()), ObjectSize(t, w), arena.mem.Length);
            at := off;
            addrs := addrs + [off];
          }
          var t';
          t', addrs := AssignArg(arena, t, w, addrs);
          arg' := Ptr(at, Some(t'));
        } else if addr == AUTO_ADDR {
          var off := Allocate(arena, GRANULE);
          PlaceBound(old(arena.Granules()), GRANULE, arena.mem.Length);
          arg' := Ptr(off, None);
        } else {
          arg' := arg;
        }
      case Struct(fs) =>
        var gs;
        gs, addrs := AssignList(arena, fs, w, addrs, arg);
        arg' := Struct(gs);
      case Array(fs) =>
        var gs;
        gs, addrs := AssignList(arena, fs, w, addrs, arg);
        arg' := Array(gs);
      case Union(c) =>
        var d;
        d, addrs := AssignArg(arena, c, w, addrs);
        arg' := Union(d);
      case Out(slot, inner) =>
        var d;
        d, addrs := AssignArg(arena, inner, w, addrs);
        arg' := Out(slot, d);
      case _ => arg' := arg;
    }
  }

  lemma PlaceBound(used: set<nat>, size: nat, n: nat)
    ensures PlaceAt(used, size, n) <= n
  {
  }

  /** `done`, then the outcome of assigning the rest, is the outcome of assigning all. */
  ghost predicate Continues(whole: PlacedAll, args: seq<Arg>, pushed: seq<nat>, rest: PlacedAll)
  {
    whole.args == args + rest.args && whole.used == rest.used && whole.pushed == pushed + rest.pushed
  }

  lemma ContinuesStep(whole: PlacedAll, args: seq<Arg>, pushed: seq<nat>, fs: seq<Arg>, used: set<nat>, w: nat, n: nat)
    requires n < AUTO_ADDR && fs != [] && Continues(whole, args, pushed, AssignAll(fs, used, w, n))
    ensures var p := Assign(fs[0], used, w, n);
            Continues(whole, args + [p.arg], pushed + p.pushed, AssignAll(fs[1..], p.used, w, n))
  {
    hide Assign;
    var p := Assign(fs[0], used, w, n);
    var q := AssignAll(fs[1..], p.used, w, n);
    assert args + ([p.arg] + q.args) == (args + [p.arg]) + q.args;
    assert pushed + (p.pushed + q.pushed) == (pushed + p.pushed) + q.pushed;
  }

  method AssignList(arena: Arena, fs: seq<Arg>, w: nat, addrs0: seq<nat>, ghost parent: Arg)
    returns (gs: seq<Arg>, addrs: seq<nat>)
    requires arena.Valid() && arena.mem.Length < AUTO_ADDR && (parent == Struct(fs) || parent == Array(fs))
    modifies arena`used
    ensures arena.Valid()
    ensures var p := AssignAll(fs, old(arena.Granules()), w, arena.mem.Length);
            gs == p.args && arena.Granules() == p.used && addrs == addrs0 + p.pushed
    decreases parent, 0
  {
    hide Assign, AssignAll;
    addrs, gs := addrs0, [];
    ghost var whole := AssignAll(fs, arena.Granules(), w, arena.mem.Length);
    ghost var pushed: seq<nat> := [];
    assert fs[0..] == fs;
    for i := 0 to |fs|
      invariant arena.Valid() && addrs == addrs0 + pushed
      invariant Continues(whole, gs, pushed, AssignAll(fs[i..], arena.Granules(), w, arena.mem.Length))
    {
      ContinuesStep(whole, gs, pushed, fs[i..], arena.Granules(), w, arena.mem.Length);
      assert fs[i..][1..] == fs[i + 1..];
      ghost var p := Assign(fs[i], arena.Granules(), w, arena.mem.Length);
      var g;
      g, addrs := AssignArg(arena, fs[i], w, addrs);
      gs := gs + [g];
      pushed := pushed + p.pushed;
    }
    AssignNothing(arena.Granules(), w, arena.mem.Length);
    assert fs[|fs|..] == [];
  }

  lemma AssignNothing(used: set<nat>, w: nat, n: nat)
    requires n < AUTO_ADDR
    ensures AssignAll([], used, w, n) == PlacedAll([], used, [], [])
  {
  }

  // ---- the whole pass

  lemma JoinArgs(x: seq<Arg>, y: seq<Arg>, z: seq<Arg>)
    ensures (x + y) + z == x + (y + z)
  {
  }

  lemma {:induction false} ArgsOfAppend(a: seq<Call>, b: seq<Call>)
    ensures ArgsOf(a + b) == ArgsOf(a) + ArgsOf(b)
  {
    if a == [] {
      assert a + b == b;
    } else {
      ArgsOfAppend(a[1..], b);
      assert (a + b)[0] == a[0] && (a + b)[1..] == a[1..] + b;
      JoinArgs(a[0].args, ArgsOf(a[1..]), ArgsOf(b));
    }
  }

  lemma ArgsOfStep(calls: seq<Call>, i: nat)
    requires i < |calls|
    ensures ArgsOf(calls[..i + 1]) == ArgsOf(calls[..i]) + calls[i].args
    ensures ArgsOf(calls[i..]) == calls[i].args + ArgsOf(calls[i + 1..])
  {
    assert calls[..i + 1] == calls[..i] + [calls[i]];
    ArgsOfAppend(calls[..i], [calls[i]]);
    assert [calls[i]][1..] == [];
    assert calls[i..][1..] == calls[i + 1..];
  }

  method NoteCalls(arena: Arena, calls: seq<Call>, w: nat) returns (addrs: seq<nat>)
    requires arena.Valid()
    modifies arena`used
    ensures arena.Valid()
    ensures arena.Granules() == old(arena.Granules()) + Reserved(ContentsAll(ArgsOf(calls), w), arena.mem.Length)
    ensures addrs == Offsets(ContentsAll(ArgsOf(calls), w))
  {
    hide ContentsAll, Reserved, Offsets;
    addrs := [];
    ContentsNothing(w, arena.mem.Length);
    for i := 0 to |calls|
      invariant arena.Valid()
      invariant arena.Granules() == old(arena.Granules())
                                    + Reserved(ContentsAll(ArgsOf(calls[..i]), w), arena.mem.Length)
      invariant addrs == Offsets(ContentsAll(ArgsOf(calls[..i]), w))
    {
      var a := calls[i].args;
      addrs := NoteAll(arena, a, w, addrs, Struct(a));
      ArgsOfStep(calls, i);
      ContentsAppend(ArgsOf(calls[..i]), a, w);
      ReservedConcat(ContentsAll(ArgsOf(calls[..i]), w), ContentsAll(a, w), arena.mem.Length);
      OffsetsConcat(ContentsAll(ArgsOf(calls[..i]), w), ContentsAll(a, w));
    }
    assert calls[..|calls|] == calls;
  }

  lemma ContentsNothing(w: nat, n: nat)
    ensures ContentsAll([], w) == [] && Reserved([], n) == {} && Offsets([]) == []
  {
  }

  /** The same calls with other arguments. */
  ghost predicate SameCalls(a: seq<Call>, b: seq<Call>)
  {
    && |a| == |b|
    && forall i :: 0 <= i < |a| ==> b[i] == a[i].(args := b[i].args) && |a[i].args| == |b[i].args|
  }

  lemma {:induction false} AssignAppend(a: seq<Arg>, b: seq<Arg>, used: set<nat>, w: nat, n: nat)
    requires n < AUTO_ADDR
    ensures var p := AssignAll(a, used, w, n);
            var q := AssignAll(b, p.used, w, n);
            AssignAll(a + b, used, w, n) == PlacedAll(p.args + q.args, q.used, p.slots + q.slots, p.pushed + q.pushed)
    decreases |a|
  {
    hide Assign;
    if a == [] {
      assert a + b == b;
    } else {
      var h := Assign(a[0], used, w, n);
      AssignAppend(a[1..], b, h.used, w, n);
      assert (a + b)[1..] == a[1..] + b;
      var p := AssignAll(a[1..], h.used, w, n);
      var q := AssignAll(b, p.used, w, n);
      assert ([h.arg] + p.args) + q.args == [h.arg] + (p.args + q.args);
      assert (h.slots + p.slots) + q.slots == h.slots + (p.slots + q.slots);
      assert (h.pushed + p.pushed) + q.pushed == h.pushed + (p.pushed + q.pushed);
    }
  }

  lemma {:induction false} AssignCount(fs: seq<Arg>, used: set<nat>, w: nat, n: nat)
    requires n < AUTO_ADDR
    ensures |AssignAll(fs, used, w, n).args| == |fs|
    decreases |fs|
  {
    hide Assign;
    if fs != [] {
      AssignCount(fs[1..], Assign(fs[0], used, w, n).used, w, n);
    }
  }

  method AssignCalls(arena: Arena, calls: seq<Call>, w: nat, addrs0: seq<nat>)
    returns (calls': seq<Call>, addrs: seq<nat>)
    requires arena.Valid() && arena.mem.Length < AUTO_ADDR
    modifies arena`used
    ensures arena.Valid() && SameCalls(calls, calls')
    ensures var p := AssignAll(ArgsOf(calls), old(arena.Granules()), w, arena.mem.Length);
            ArgsOf(calls') == p.args && addrs == addrs0 + p.pushed
  {
    hide AssignAll;
    calls', addrs := [], addrs0;
    ghost var u0 := arena.Granules();
    AssignNothing(u0, w, arena.mem.Length);
    for i := 0 to |calls|
      invariant arena.Valid() && SameCalls(calls[..i], calls')
      invariant var p := AssignAll(ArgsOf(calls[..i]), u0, w, arena.mem.Length);
                ArgsOf(calls') == p.args && arena.Granules() == p.used && addrs == addrs0 + p.pushed
    {
      var a := calls[i].args;
      AssignAppend(ArgsOf(calls[..i]), a, u0, w, arena.mem.Length);
      AssignCount(a, arena.Granules(), w, arena.mem.Length);
      ArgsOfStep(calls, i);
      var g;
      g, addrs := AssignList(arena, a, w, addrs, Struct(a));
      ArgsOfAppend(calls', [calls[i].(args := g)]);
      assert ArgsOf([calls[i].(args := g)]) == g + ArgsOf([]);
      calls' := calls' + [calls[i].(args := g)];
    }
    assert calls[..|calls|] == calls;
  }

  /**
    `note_fixed` on a freshly reset arena: reserve, assign, and record the address of exactly the
    placed objects that have contents, beside the AUTO marker itself when one had contents.
   */
  method NoteFixed(arena: Arena, calls: seq<Call>, w: nat) returns (calls': seq<Call>)
    requires arena.Valid() && arena.mem.Length < AUTO_ADDR && arena.Granules() == {}
    modifies arena`used, arena`fixed
    ensures arena.Valid() && SameCalls(calls, calls')
    ensures ArgsOf(calls') == Settled(ArgsOf(calls), w, arena.mem.Length).args
    ensures Ascending(arena.fixed)
    ensures forall a :: a in arena.fixed <==>
              a in Offsets(ContentsAll(ArgsOf(calls), w)) + Settled(ArgsOf(calls), w, arena.mem.Length).pushed
    ensures forall a :: a in arena.fixed <==>
              || a in Offsets(ContentsAll(ArgsOf(calls'), w))
              || (a == AUTO_ADDR && AUTO_ADDR in Offsets(ContentsAll(ArgsOf(calls), w)))
  {
    hide AssignAll, ContentsAll;
    var addrs := NoteCalls(arena, calls, w);
    assert arena.Granules() == AfterNote(ArgsOf(calls), w, arena.mem.Length);
    calls', addrs := AssignCalls(arena, calls, w, addrs);
    AssignAllRecorded(ArgsOf(calls), AfterNote(ArgsOf(calls), w, arena.mem.Length), w, arena.mem.Length);
    arena.SetFixed(addrs);
  }

  // ---- every object is recorded

  /** After placement: what was recorded before, without the AUTO marker, and what was pushed. */
  ghost predicate Exactly(after: seq<nat>, before: seq<nat>, pushed: seq<nat>)
  {
    forall a :: a in after <==> (a in before && a != AUTO_ADDR) || a in pushed
  }

  lemma ExactlyNone()
    ensures Exactly([], [], [])
  {
  }

  lemma ExactlyCons(addr: nat, off: nat, after: seq<nat>, before: seq<nat>, pushed: seq<nat>)
    requires Exactly(after, before, pushed)
    ensures addr == AUTO_ADDR ==> Exactly([off] + after, [addr] + before, [off] + pushed)
    ensures addr != AUTO_ADDR ==> Exactly([addr] + after, [addr] + before, pushed)
  {
  }

  lemma ExactlyConcat(a: seq<nat>, b: seq<nat>, p: seq<nat>, a': seq<nat>, b': seq<nat>, p': seq<nat>)
    requires Exactly(a, b, p) && Exactly(a', b', p')
    ensures Exactly(a + a', b + b', p + p')
  {
  }

  lemma {:induction false} AssignRecorded(arg: Arg, used: set<nat>, w: nat, n: nat)
    requires n < AUTO_ADDR
    ensures var p := Assign(arg, used, w, n); Exactly(Offsets(Contents(p.arg, w)), Offsets(Contents(arg, w)), p.pushed)
    decreases arg, 0
  {
    hide PlaceAt, PlaceUsed, ObjectSize, Exactly, Offsets;
    SlotsOfNone(0);
    ExactlyNone();
    match arg
    case Ptr(addr, Some(t)) =>
      var u := if addr == AUTO_ADDR then PlaceUsed(used, ObjectSize(t, w), n) else used;
      AssignRecorded(t, u, w, n);
      OffsetsCons(addr, t, w);
      var p, q := Assign(arg, used, w, n), Assign(t, u, w, n);
      OffsetsCons(p.arg.addr, q.arg, w);
      ExactlyCons(addr, p.arg.addr, Offsets(Contents(q.arg, w)), Offsets(Contents(t, w)), q.pushed);
    case Struct(fs) => AssignAllRecorded(fs, used, w, n);
    case Array(fs) => AssignAllRecorded(fs, used, w, n);
    case Union(c) => AssignRecorded(c, used, w, n);
    case Out(_, inner) => AssignRecorded(inner, used, w, n);
    case _ =>
  }

  lemma OffsetsCons(addr: u64, t: Arg, w: nat)
    ensures Offsets(Contents(Ptr(addr, Some(t)), w)) == [addr] + Offsets(Contents(t, w))
  {
    hide ObjectSize;
    var s := [Slot(addr, ObjectSize(t, w))] + Contents(t, w);
    assert s[1..] == Contents(t, w);
  }

  lemma {:induction false} AssignAllRecorded(fs: seq<Arg>, used: set<nat>, w: nat, n: nat)
    requires n < AUTO_ADDR
    ensures var p := AssignAll(fs, used, w, n);
            Exactly(Offsets(ContentsAll(p.args, w)), Offsets(ContentsAll(fs, w)), p.pushed)
    decreases fs, 1
  {
    hide Assign, Contents, Exactly, Offsets;
    if fs == [] {
      SlotsOfNone(0);
      ExactlyNone();
    } else {
      var p := Assign(fs[0], used, w, n);
      var q := AssignAll(fs[1..], p.used, w, n);
      AssignRecorded(fs[0], used, w, n);
      AssignAllRecorded(fs[1..], p.used, w, n);
      OffsetsConcat(Contents(fs[0], w), ContentsAll(fs[1..], w));
      OffsetsConcat(Contents(p.arg, w), ContentsAll(q.args, w));
      assert AssignAll(fs, used, w, n).args[1..] == q.args;
      ExactlyConcat(Offsets(Contents(p.arg, w)), Offsets(Contents(fs[0], w)), p.pushed,
                    Offsets(ContentsAll(q.args, w)), Offsets(ContentsAll(fs[1..], w)), q.pushed);
    }
  }

  lemma {:induction false} ObjectsRecorded(arg: Arg, ctx: Ctx, w: nat)
    requires Width(w)
    ensures forall o :: o in ObjectsOf(arg, ctx, w) ==> o.off in Offsets(Contents(arg, w))
    ensures forall o :: o in Nested(arg, ctx, w) ==> o.off in Offsets(Contents(arg, w))
    decreases arg, 0
  {
    hide Encode, FixedCsums, ObjectSize;
    match arg
    case Ptr(addr, Some(t)) =>
      ObjectsRecorded(t, ctx, w);
      OffsetsCons(addr, t, w);
    case Struct(fs) => NestedRecorded(fs, ctx, w, |fs|);
    case Array(fs) => NestedRecorded(fs, ctx, w, |fs|);
    case Union(c) => ObjectsRecorded(c, ctx, w);
    case Out(_, inner) => ObjectsRecorded(inner, ctx, w);
    case _ =>
  }

  lemma {:induction false} NestedRecorded(fs: seq<Arg>, ctx: Ctx, w: nat, k: nat)
    requires Width(w) && k <= |fs|
    ensures forall o :: o in NestedAll(fs[..k], ctx, w) ==> o.off in Offsets(ContentsAll(fs[..k], w))
    ensures k == |fs| ==> fs[..k] == fs
    decreases fs, 1, k
  {
    hide Nested, Contents, ObjectsOf;
    if k > 0 {
      NestedRecorded(fs, ctx, w, k - 1);
      ObjectsRecorded(fs[k - 1], ctx, w);
      assert fs[..k][..k - 1] == fs[..k - 1];
      ContentsStep(fs, k - 1, w);
      OffsetsConcat(ContentsAll(fs[..k - 1], w), Contents(fs[k - 1], w));
    }
  }

  /** After `note_fixed` every object any argument lays out is written at a recorded address. */
  lemma SettledRecorded(args: seq<Arg>, ctx: Ctx, w: nat, n: nat, i: nat, o: Object)
    requires Width(w) && n < AUTO_ADDR && i < |Settled(args, w, n).args|
    requires o in ObjectsOf(Settled(args, w, n).args[i], ctx, w)
    ensures o.off in Offsets(ContentsAll(args, w)) + Settled(args, w, n).pushed
  {
    hide ObjectsOf, ContentsAll, AssignAll, Offsets, Contents;
    var after := Settled(args, w, n).args;
    ObjectsRecorded(after[i], ctx, w);
    AssignAllRecorded(args, AfterNote(args, w, n), w, n);
    ContentsStep(after, i, w);
    assert after == after[..i + 1] + after[i + 1..];
    ContentsAppend(after[..i + 1], after[i + 1..], w);
    OffsetsConcat(ContentsAll(after[..i], w), Contents(after[i], w));
    OffsetsConcat(ContentsAll(after[..i + 1], w), ContentsAll(after[i + 1..], w));
  }

  /** Objects that a placed program's arguments lay out, no two at one address. */
  ghost predicate Layout(args: seq<Arg>, ctx: Ctx, w: nat, n: nat, ws: seq<Object>)
    requires Width(w) && n < AUTO_ADDR
  {
    && (forall k :: 0 <= k < |ws| ==>
          exists i :: 0 <= i < |Settled(args, w, n).args| && ws[k] in ObjectsOf(Settled(args, w, n).args[i], ctx, w))
    && (forall j, k :: 0 <= j < k < |ws| ==> ws[j].off != ws[k].off)
  }

  lemma LayoutSeparate(args: seq<Arg>, ctx: Ctx, w: nat, n: nat, fixed: seq<nat>, ws: seq<Object>)
    requires Width(w) && n < AUTO_ADDR && Layout(args, ctx, w, n, ws)
    requires forall a :: a in fixed <==> a in Offsets(ContentsAll(args, w)) + Settled(args, w, n).pushed
    ensures Separate(fixed, ws)
  {
    hide ObjectsOf, ContentsAll, Settled, Offsets;
    forall k | 0 <= k < |ws| ensures ws[k].off in fixed {
      var i :| 0 <= i < |Settled(args, w, n).args| && ws[k] in ObjectsOf(Settled(args, w, n).args[i], ctx, w);
      SettledRecorded(args, ctx, w, n, i, ws[k]);
    }
  }

  /**
    With the addresses `note_fixed` records, the objects of a placed program can be laid out in any
    order: the arena is the same, and every object that fits holds its image up to the next address.
   */
  lemma SettledAnyOrder(args: seq<Arg>, ctx: Ctx, w: nat, n: nat, mem: seq<byte>, fixed: seq<nat>, ws: seq<Object>,
                        ws': seq<Object>)
    requires Width(w) && n < AUTO_ADDR && Layout(args, ctx, w, n, ws) && Layout(args, ctx, w, n, ws')
    requires Ascending(fixed)
    requires forall a :: a in fixed <==> a in Offsets(ContentsAll(args, w)) + Settled(args, w, n).pushed
    requires forall o :: o in ws <==> o in ws'
    ensures WriteAll(mem, fixed, ws) == WriteAll(mem, fixed, ws')
    ensures forall k :: 0 <= k < |ws| ==>
              var o := ws[k];
              var m := Clip(fixed, o.off, |o.bytes|);
              o.off + m <= |mem| ==>
                |WriteAll(mem, fixed, ws)| == |mem| && WriteAll(mem, fixed, ws)[o.off..o.off + m] == o.bytes[..m]
  {
    hide Layout, Separate, Ascending, Settled, ContentsAll, Offsets, WriteAll;
    LayoutSeparate(args, ctx, w, n, fixed, ws);
    LayoutSeparate(args, ctx, w, n, fixed, ws');
    OrderIrrelevant(mem, fixed, ws, ws');
    forall k | 0 <= k < |ws| && ws[k].off + Clip(fixed, ws[k].off, |ws[k].bytes|) <= |mem|
      ensures var o := ws[k];
              var m := Clip(fixed, o.off, |o.bytes|);
              |WriteAll(mem, fixed, ws)| == |mem| && WriteAll(mem, fixed, ws)[o.off..o.off + m] == o.bytes[..m]
    {
      ObjectHolds(mem, fixed, ws, k);
    }
  }
}

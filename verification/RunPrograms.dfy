/**
  Programs on either side of the condition for overlapping calls unseen (vock/src/fuzz/prog_exec.rs,
  `run_prog`).
 */
module RunPrograms {
  import opened Prelude
  import opened Checksum
  import opened SyzArena
  import opened SyzLayout
  import opened SyzFields
  import opened SyzCopyin
  import opened SyzNoteFixed
  import opened RunBytes
  import opened RunCarry
  import opened RunContexts
  import opened RunOverlap

  /** A tree without `<rN=>` labels, also behind pointers. */
  ghost predicate LabelFree(arg: Arg)
    decreases arg, 0
  {
    match arg
    case Out(_, _) => false
    case Struct(fs) => AllLabelFree(fs)
    case Array(fs) => AllLabelFree(fs)
    case Union(c) => LabelFree(c)
    case Ptr(_, Some(t)) => LabelFree(t)
    case _ => true
  }

  ghost predicate AllLabelFree(fs: seq<Arg>)
    decreases fs, 1
  {
    fs == [] || (LabelFree(fs[0]) && AllLabelFree(fs[1..]))
  }

  lemma {:induction false} LabelFreeCount(arg: Arg)
    requires LabelFree(arg)
    ensures Labels(arg) == 0
    decreases arg, 0
  {
    match arg
    case Struct(fs) => LabelFreeCounts(fs);
    case Array(fs) => LabelFreeCounts(fs);
    case Union(c) => LabelFreeCount(c);
    case _ =>
  }

  lemma {:induction false} LabelFreeCounts(fs: seq<Arg>)
    requires AllLabelFree(fs)
    ensures AllLabels(fs) == 0
    decreases fs, 1
  {
    if fs != [] {
      LabelFreeCount(fs[0]);
      LabelFreeCounts(fs[1..]);
    }
  }

  lemma {:induction false} LabelFreeCopyouts(fs: seq<Arg>, k: nat, w: nat)
    requires k <= |fs| && forall i :: 0 <= i < |fs| ==> LabelFree(fs[i])
    ensures AllCopyouts(fs[..k], w) == []
    decreases k
  {
    hide CollectCopyouts, Labels;
    if k > 0 {
      LabelFreeCopyouts(fs, k - 1, w);
      var a := fs[k - 1];
      if a.Ptr? && a.target.Some? {
        LabelFreeCount(a.target.value);
        CollectCount(a.target.value, a.addr, w);
      }
      assert fs[..k][..k - 1] == fs[..k - 1];
    }
  }

  /** Programs without labels are quiet, whatever the options. */
  lemma LabelFreeIsQuiet(calls: seq<Call>, opts: Opts, s: Setup)
    requires Width(s.w)
    requires forall i, j :: 0 <= i < |calls| && 0 <= j < |calls[i].args| ==> LabelFree(calls[i].args[j])
    ensures Quiet(calls, opts, s)
  {
    hide AnyReferences, CallsReference, Overlaps, LabelFree, Watched, Quiet, AllCopyouts, Writer, Taken;
    forall j, slot: nat | 0 <= j < |calls| && AnyReferences(calls[j].args, slot)
      ensures !Watched(calls, j, opts, s, slot)
    {
      if Watched(calls, j, opts, s, slot) {
        var i := WatchedWriter(calls, j, opts, s, slot);
        NotOwnResult(calls, i, j, opts, slot);
        NoLabels(calls[i], s.w);
      }
    }
    UnwatchedIsQuiet(calls, opts, s);
  }

  lemma NoLabels(call: Call, w: nat)
    requires forall j :: 0 <= j < |call.args| ==> LabelFree(call.args[j])
    ensures AllCopyouts(Taken(call), w) == []
  {
    hide AllCopyouts, LabelFree;
    LabelFreeCopyouts(Taken(call), |Taken(call)|, w);
    assert Taken(call)[..|Taken(call)|] == Taken(call);
  }

  /** The copyouts of a call whose one argument points to a labelled integer. */
  lemma OneLabel(addr: u64, slot: nat, asynch: bool, w: nat)
    ensures AllCopyouts(Taken(Labelling(addr, slot, asynch)), w) == [Copyout(slot, addr, RES_WIDTH)]
  {
    var args := Labelling(addr, slot, asynch).args;
    assert args[..0] == [];
    assert CollectCopyouts(Out(slot, Int(0)), addr, w) == [Copyout(slot, addr, RES_WIDTH)];
  }

  function Labelling(addr: u64, slot: nat, asynch: bool): (c: Call)
  {
    Call([Ptr(addr, Some(Out(slot, Int(0))))], None, asynch, false)
  }

  function Passing(args: seq<Arg>): (c: Call)
  {
    Call(args, None, false, false)
  }

  lemma OneFills(addr: u64, slot: nat, asynch: bool, s: Setup, r: nat)
    ensures LabelOn(Labelling(addr, slot, asynch), r, s)
         == if r == slot && addr + RES_WIDTH <= s.size then Some(Copyout(slot, addr, RES_WIDTH)) else None
    ensures Fills(Labelling(addr, slot, asynch), r, s) <==> r == slot && addr + RES_WIDTH <= s.size
  {
    hide AllCopyouts;
    OneLabel(addr, slot, asynch, s.w);
    var c := Copyout(slot, addr, RES_WIDTH);
    assert [c][..0] == [];
    assert LastLabel([], r, s.size) == None;
  }

  /** With a label the overlap can show: the consumer runs before the label is ever read back. */
  lemma LabelledOverlapShows(s: Setup)
    requires Width(s.w) && s.size >= RES_WIDTH
    ensures var calls, opts := [Labelling(0, 0, true), Passing([Res(0, 0, 0)])], Opts(false, true);
            && !Quiet(calls, opts, s)
            && exists k :: Answers(k, |calls|, s.size)
                           && Trace(calls, Flags(calls, opts), k, s) != SequentialTrace(calls, k, s)
  {
    hide LabelOn, Fills, Carries;
    var calls, opts := [Labelling(0, 0, true), Passing([Res(0, 0, 0)])], Opts(false, true);
    OneFills(0, 0, true, s, 0);
    assert Overlaps(calls, 0, opts);
    assert Writer(calls, 0, Flags(calls, opts), 0, s) == None;
    assert Writer(calls, 1, Flags(calls, opts), 0, s) == None;
    assert Writer(calls, 1, Waiting(2), 0, s) == Some(0);
    assert Watched(calls, 1, opts, s, 0);
    var o := Of(0, 0, 0, 0);
    assert o == ScalarOrigin(Received(calls[1])[0], 0);
    assert Datum(calls[1], s, o);
    CarriesLow(U32_MAX, 0);
    assert Told(o, calls, 1, opts, s);
    var k := NotQuietShows(calls, opts, s);
  }

  /** A label that a call waited for fills again before it is used does not show. */
  lemma RefilledIsQuiet(s: Setup)
    requires Width(s.w) && s.size >= 64 + RES_WIDTH
    ensures Quiet([Labelling(0, 0, true), Labelling(64, 0, false), Passing([Res(0, 0, 0)])], Opts(false, true), s)
  {
    hide LabelOn, Fills, Quiet;
    var calls, opts := [Labelling(0, 0, true), Labelling(64, 0, false), Passing([Res(0, 0, 0)])], Opts(false, true);
    OneFills(64, 0, false, s, 0);
    forall j, slot: nat | 0 <= j < |calls| && AnyReferences(calls[j].args, slot)
      ensures !Watched(calls, j, opts, s, slot)
    {
      assert calls[0].args[1..] == [] && calls[1].args[1..] == [] && calls[2].args[1..] == [];
      assert j == 2 && slot == 0;
      assert !Overlaps(calls, 1, opts);
      assert Writer(calls, 2, Flags(calls, opts), 0, s) == Some(1) == Writer(calls, 2, Waiting(3), 0, s);
    }
    UnwatchedIsQuiet(calls, opts, s);
  }

  /** A label outside the arena is never filled. */
  lemma OutsideIsQuiet(addr: u64, args: seq<Arg>, s: Setup)
    requires Width(s.w) && addr + RES_WIDTH > s.size
    ensures Quiet([Labelling(addr, 0, true), Passing(args)], Opts(false, true), s)
  {
    hide LabelOn, Fills, Quiet, AnyReferences, Overlaps;
    var calls, opts := [Labelling(addr, 0, true), Passing(args)], Opts(false, true);
    forall j, slot: nat | 0 <= j < |calls| && AnyReferences(calls[j].args, slot)
      ensures !Watched(calls, j, opts, s, slot)
    {
      OneFills(addr, 0, true, s, slot);
      assert Writer(calls, 0, Flags(calls, opts), slot, s) == None == Writer(calls, 0, Waiting(2), slot, s);
      assert Writer(calls, 1, Flags(calls, opts), slot, s) == None == Writer(calls, 1, Waiting(2), slot, s);
    }
    UnwatchedIsQuiet(calls, opts, s);
  }

  /** Call 1 of such a program finds slot 0 watched, and nothing in it. */
  lemma FirstWatched(addr: u64, args: seq<Arg>, s: Setup)
    requires addr + RES_WIDTH <= s.size
    ensures var calls, opts := [Labelling(addr, 0, true), Passing(args)], Opts(false, true);
            Watched(calls, 1, opts, s, 0) && KindOf(calls, 1, Flags(calls, opts), 0, s) == Nothing
  {
    hide LabelOn, Fills;
    var calls, opts := [Labelling(addr, 0, true), Passing(args)], Opts(false, true);
    OneFills(addr, 0, true, s, 0);
    assert Overlaps(calls, 0, opts);
    assert Writer(calls, 0, Flags(calls, opts), 0, s) == None;
    assert Writer(calls, 1, Flags(calls, opts), 0, s) == None;
    assert Writer(calls, 1, Waiting(2), 0, s) == Some(0);
  }

  lemma TwoSites(p: Arg, q: Arg)
    requires p.Ptr? && q.Ptr? && p.target.Some? && q.target.Some?
    requires NestedSites(p.target.value) == NestedSites(q.target.value) == []
    ensures AllSites([p, q]) == [Site(p.addr, p.target.value), Site(q.addr, q.target.value)]
  {
    assert [p, q][..1] == [p] && [p][..0] == [];
    assert AllSites([p]) == [Site(p.addr, p.target.value)];
  }

  lemma TwoSeen(x: Site, y: Site, p: nat, s: Setup)
    ensures SeenAt([x, y], p, s) == if Reaches(y, p, s) then Some(y) else if Reaches(x, p, s) then Some(x) else None
  {
    hide Reaches;
    assert [x, y][..1] == [x] && [x][..0] == [];
    assert SeenAt([], p, s) == None;
  }

  lemma PairSites(a: Arg, b: Arg)
    requires NestedSites(a) == NestedSites(b) == []
    ensures NestedSites(Struct([a, b])) == []
  {
    assert [a, b][..1] == [a] && [a][..0] == [];
    assert NestedSitesIn([a]) == [];
  }

  /** A reference that the next object clips away does not show. */
  lemma ClippedIsQuiet(size: nat)
    ensures var user := Passing([Ptr(0, Some(Struct([Int(1), Res(0, 0, 0)]))), Ptr(8, Some(Int(2)))]);
            Quiet([Labelling(256, 0, true), user], Opts(false, true), Setup(size, [0, 8, 256], 8))
  {
    hide Told;
    var s := Setup(size, [0, 8, 256], 8);
    var t := Struct([Int(1), Res(0, 0, 0)]);
    var p, q := Ptr(0, Some(t)), Ptr(8, Some(Int(2)));
    var calls, opts := [Labelling(256, 0, true), Passing([p, q])], Opts(false, true);
    forall j, o | 0 <= j < 2 && Datum(calls[j], s, o) && Sound(o, s.w) ensures !Told(o, calls, j, opts, s) {
      if j == 0 {
        LabellingGives(256, 0, true, s, o);
      } else {
        ClippedGives(size, o);
      }
      ConstantUntold(calls, j, opts, s);
    }
  }

  lemma ConstantUntold(calls: seq<Call>, j: nat, opts: Opts, s: Setup)
    requires Width(s.w) && j <= |calls|
    ensures !Told(Constant, calls, j, opts, s)
  {
  }

  lemma LabellingGives(addr: u64, slot: nat, asynch: bool, s: Setup, o: Origin)
    requires Width(s.w) && Datum(Labelling(addr, slot, asynch), s, o)
    ensures o == Constant
  {
    hide AllSites, ArenaOrigin;
    var call := Labelling(addr, slot, asynch);
    if m, k :| 0 <= m < |Received(call)| && 0 <= k < 8 && o == ScalarOrigin(Received(call)[m], k) {
    } else {
      var p :| 0 <= p < s.size && o == ArenaOrigin(AllSites(Taken(call)), p, s);
      OneSite(addr, slot, asynch);
      LabelledOrigin(addr, slot, p, s);
    }
  }

  lemma OneSite(addr: u64, slot: nat, asynch: bool)
    ensures AllSites(Taken(Labelling(addr, slot, asynch))) == [Site(addr, Out(slot, Int(0)))]
  {
    var args := Labelling(addr, slot, asynch).args;
    assert args[..0] == [];
    assert NestedSites(Out(slot, Int(0))) == [];
    assert SitesOf(args[0]) == [Site(addr, Out(slot, Int(0)))];
  }

  lemma LabelledOrigin(addr: u64, slot: nat, p: nat, s: Setup)
    ensures ArenaOrigin([Site(addr, Out(slot, Int(0)))], p, s) == Constant
  {
    hide Reaches;
    var x := Site(addr, Out(slot, Int(0)));
    assert [x][..0] == [];
    assert SeenAt([], p, s) == None;
    SeenIs([x], p, s);
    assert CsumOffset(x.t, 0, s.w) == None;
    var r := SeenAt([x], p, s);
    if r.Some? {
      assert r.value == x;
      assert ImageOrigin(Int(0), p - addr, RES_WIDTH) == Constant;
    }
  }

  lemma ClippedGives(size: nat, o: Origin)
    requires var user := Passing([Ptr(0, Some(Struct([Int(1), Res(0, 0, 0)]))), Ptr(8, Some(Int(2)))]);
             Datum(user, Setup(size, [0, 8, 256], 8), o)
    ensures o == Constant
  {
    hide AllSites, ArenaOrigin;
    var s := Setup(size, [0, 8, 256], 8);
    var t := Struct([Int(1), Res(0, 0, 0)]);
    var p, q := Ptr(0, Some(t)), Ptr(8, Some(Int(2)));
    var user := Passing([p, q]);
    if m, k :| 0 <= m < |Received(user)| && 0 <= k < 8 && o == ScalarOrigin(Received(user)[m], k) {
    } else {
      var n :| 0 <= n < size && o == ArenaOrigin(AllSites(Taken(user)), n, s);
      PairSites(Int(1), Res(0, 0, 0));
      TwoSites(p, q);
      ClippedOrigin(n, s);
    }
  }

  lemma ClippedOrigin(p: nat, s: Setup)
    requires s.fixed == [0, 8, 256] && s.w == 8
    ensures ArenaOrigin([Site(0, Struct([Int(1), Res(0, 0, 0)])), Site(8, Int(2))], p, s) == Constant
  {
    var fs := [Int(1), Res(0, 0, 0)];
    var t := Struct(fs);
    assert fs[1..] == [Res(0, 0, 0)];
    assert EncodedLens(fs[1..], 8) == 8;
    assert EncodedLen(t, 8) == 16 && CsumOffsetIn(fs[1..], 8, 8) == None;
    assert CsumAt(t, 8) == None;
    TwoSeen(Site(0, t), Site(8, Int(2)), p, s);
    assert s.fixed[1..] == [8, 256];
    assert NextAbove(s.fixed, 0) == Some(8);
    assert Clip(s.fixed, 0, 16) == 8;
  }

  /** ... unless its object has a checksum that is not clipped: then it shows there. */
  lemma ClippedShowsInSum(size: nat)
    requires size >= 256 + RES_WIDTH
    ensures var user := Passing([Ptr(0, Some(Struct([Csum, Res(0, 0, 0)]))), Ptr(2, Some(Int(2)))]);
            !Quiet([Labelling(256, 0, true), user], Opts(false, true), Setup(size, [0, 2, 256], 1))
  {
    hide Told, AllSites, ArenaOrigin, Watched, KindOf, CsumAt;
    var s := Setup(size, [0, 2, 256], 1);
    var t := Struct([Csum, Res(0, 0, 0)]);
    var p, q := Ptr(0, Some(t)), Ptr(2, Some(Int(2)));
    var user := Passing([p, q]);
    var calls, opts := [Labelling(256, 0, true), user], Opts(false, true);
    PairSites(Csum, Res(0, 0, 0));
    TwoSites(p, q);
    SummedOrigin(s);
    assert Taken(calls[1]) == [p, q];
    assert 0 < s.size && Sum(t, false) == ArenaOrigin(AllSites(Taken(calls[1])), 0, s);
    assert Datum(calls[1], s, Sum(t, false));
    FirstWatched(256, [p, q], s);
    assert AnyReferences(calls[1].args, 0) by {
      assert References(p, 0);
    }
    var k := WatchedHolds(calls, 1, opts, s, 0, None, 0);
    var a, b := ContextAt(calls, 1, Flags(calls, opts), k, s), ContextAt(calls, 1, Waiting(2), k, s);
    RunsPossible(calls, 1, opts, k, s);
    SummedBytes(a);
    SummedBytes(b);
    assert Told(Sum(t, false), calls, 1, opts, s) by { SumTold(t, a, b, calls, 1, opts, s); }
  }

  lemma SumTold(t: Arg, a: Ctx, b: Ctx, calls: seq<Call>, j: nat, opts: Opts, s: Setup)
    requires Width(s.w) && Sound(Sum(t, false), s.w) && j <= |calls| && Possible(a, b, calls, j, opts, s)
    requires SumByte(t, a, s.w, false) != SumByte(t, b, s.w, false)
    ensures Told(Sum(t, false), calls, j, opts, s)
  {
    hide Possible;
  }

  lemma SummedOrigin(s: Setup)
    requires s.fixed == [0, 2, 256] && s.w == 1 && s.size >= 2
    ensures ArenaOrigin([Site(0, Struct([Csum, Res(0, 0, 0)])), Site(2, Int(2))], 0, s)
         == Sum(Struct([Csum, Res(0, 0, 0)]), false)
    ensures CsumAt(Struct([Csum, Res(0, 0, 0)]), 1) == Some(0)
  {
    var fs := [Csum, Res(0, 0, 0)];
    var t := Struct(fs);
    assert fs[1..] == [Res(0, 0, 0)];
    assert EncodedLens(fs[1..], 1) == 1;
    assert EncodedLen(t, 1) == 3 && CsumOffset(t, 0, 1) == Some(0);
    TwoSeen(Site(0, t), Site(2, Int(2)), 0, s);
    assert s.fixed[1..] == [2, 256];
    assert NextAbove(s.fixed, 0) == Some(2);
    assert Clip(s.fixed, 0, 3) == 2;
  }

  lemma SummedBytes(ctx: Ctx)
    ensures CsumAt(Struct([Csum, Res(0, 0, 0)]), 1) == Some(0)
    ensures 0 !in ctx ==> SumByte(Struct([Csum, Res(0, 0, 0)]), ctx, 1, false) == 0
    ensures 0 in ctx && ctx[0] == 0 ==> SumByte(Struct([Csum, Res(0, 0, 0)]), ctx, 1, false) == 255
  {
    hide SumOf, CsumAt, OnesComplement;
    SummedValue(ctx);
    SmallIsItself(0);
    SmallIsItself(255);
  }

  lemma SummedValue(ctx: Ctx)
    ensures CsumAt(Struct([Csum, Res(0, 0, 0)]), 1) == Some(0)
    ensures SumOf(Struct([Csum, Res(0, 0, 0)]), ctx, 1) == 0xffff - OnesComplement(Resolve(ctx, 0, 0, 0) % 256)
  {
    SummedOrigin(Setup(2, [0, 2, 256], 1));
    SummedImage(ctx);
    hide CsumAt, Encode, WordSum, Resolve, OnesComplement;
    var t := Struct([Csum, Res(0, 0, 0)]);
    var x := Resolve(ctx, 0, 0, 0) % 256;
    assert Cleared(Encode(t, ctx, 1), 0) == [0, 0, x];
    ThreeBytes(x);
  }

  lemma SummedImage(ctx: Ctx)
    ensures Encode(Struct([Csum, Res(0, 0, 0)]), ctx, 1) == [0, 0, Resolve(ctx, 0, 0, 0) % 256]
  {
    hide Resolve, EncodeAll;
    EncodePair(Csum, Res(0, 0, 0), ctx, 1);
    assert LeBytes(Resolve(ctx, 0, 0, 0) / 256, 0) == [];
  }

  lemma ThreeBytes(x: byte)
    ensures WordSum([0, 0, x]) == x
  {
    var s: seq<byte> := [0, 0, x];
    assert s[..2] == [0, 0] && [0, 0][..1] == [0] && [0][..0] == [];
    assert WordSum([0]) == 0 && WordSum([0, 0]) == 0;
  }

  // ---- what reaches a call, and what is overlapped

  function Least(x: nat, y: nat): (m: nat)
  {
    if x < y then x else y
  }

  /** A system call gets the scalars of its first six arguments, a pseudo-call those of its first nine. */
  lemma ScalarsReceived(call: Call, ctx: Ctx, mem: seq<byte>, s: Setup, m: nat)
    requires Width(s.w)
    ensures var n := Least(|call.args|, if call.pseudo then 9 else 6);
            var g := Gives(call, ctx, mem, s);
            |g.scalars| == n && (m < n ==> g.scalars[m] == ScalarOf(call.args[m], ctx))
  {
    hide ScalarOf, WriteAll, AllObjects;
    if m < |Received(call)| {
      ScalarsAt(Received(call), ctx, m);
    }
  }

  /** Nine arguments are laid out, and what a tenth says changes nothing. */
  lemma TenthIgnored(call: Call, ctx: Ctx, mem: seq<byte>, s: Setup, more: seq<Arg>)
    requires Width(s.w)
    ensures |call.args| <= 9 ==>
              Gives(call, ctx, mem, s).arena == WriteAll(mem, s.fixed, AllObjects(call.args, ctx, s.w))
    ensures |call.args| == 9 ==> Gives(call.(args := call.args + more), ctx, mem, s) == Gives(call, ctx, mem, s)
  {
    hide ScalarsOf, WriteAll, AllObjects;
    if |call.args| == 9 {
      var longer := call.(args := call.args + more);
      assert longer.args[..9] == call.args && call.args[..9] == call.args;
      assert Taken(longer) == Taken(call);
    }
  }

  /**
    Which calls overlap: in threaded runs, the asynchronous ones and under collision every second one,
    unless later calls use their result.
   */
  lemma OverlapRules(calls: seq<Call>, i: nat, opts: Opts)
    requires i < |calls|
    ensures !opts.threaded || calls[i].pseudo ==> !Overlaps(calls, i, opts)
    ensures !calls[i].isAsync && (!opts.collide || i % 2 == 0) ==> !Overlaps(calls, i, opts)
    ensures opts.threaded && !calls[i].pseudo && calls[i].res == None && calls[i].isAsync ==> Overlaps(calls, i, opts)
    ensures opts.threaded && !calls[i].pseudo && calls[i].res == None && opts.collide && i % 2 == 1 ==>
              Overlaps(calls, i, opts)
    ensures opts.threaded && !calls[i].pseudo && calls[i].isAsync && calls[i].res.Some? ==>
              (Overlaps(calls, i, opts) <==>
                 forall j :: i < j < |calls| ==> !AnyReferences(calls[j].args, calls[i].res.value))
  {
    hide AnyReferences;
    if calls[i].res.Some? {
      UsedLater(calls[i + 1..], calls[i].res.value);
      forall j | i < j < |calls| ensures calls[j] == calls[i + 1..][j - i - 1] {
      }
    }
  }

  lemma {:induction false} UsedLater(calls: seq<Call>, slot: nat)
    ensures CallsReference(calls, slot) <==> exists j :: 0 <= j < |calls| && AnyReferences(calls[j].args, slot)
    decreases |calls|
  {
    hide AnyReferences;
    if calls != [] {
      UsedLater(calls[1..], slot);
      forall j | 0 < j < |calls| ensures calls[j] == calls[1..][j - 1] {
      }
    }
  }

  /** The tree with one slot replaced by another. */
  function Renamed(arg: Arg, from: nat, to: nat): (r: Arg)
    decreases arg, 0
  {
    match arg
    case Res(idx, div, add) => Res(if idx == from then to else idx, div, add)
    case Struct(fs) => Struct(RenamedAll(fs, from, to))
    case Array(fs) => Array(RenamedAll(fs, from, to))
    case Union(c) => Union(Renamed(c, from, to))
    case Out(slot, inner) => Out(slot, Renamed(inner, from, to))
    case Ptr(addr, Some(t)) => Ptr(addr, Some(Renamed(t, from, to)))
    case _ => arg
  }

  function RenamedAll(fs: seq<Arg>, from: nat, to: nat): (r: seq<Arg>)
    ensures |r| == |fs|
    decreases fs, 1
  {
    if fs == [] then [] else [Renamed(fs[0], from, to)] + RenamedAll(fs[1..], from, to)
  }

  /** An argument refers to a slot if and only if putting another one in its place makes a difference. */
  lemma {:induction false} ReferencesExact(arg: Arg, slot: nat, to: nat)
    requires to != slot
    ensures References(arg, slot) <==> Renamed(arg, slot, to) != arg
    decreases arg, 0
  {
    match arg
    case Struct(fs) => AnyReferencesExact(fs, slot, to);
    case Array(fs) => AnyReferencesExact(fs, slot, to);
    case Union(c) => ReferencesExact(c, slot, to);
    case Out(_, inner) => ReferencesExact(inner, slot, to);
    case Ptr(_, Some(t)) => ReferencesExact(t, slot, to);
    case _ =>
  }

  lemma {:induction false} AnyReferencesExact(fs: seq<Arg>, slot: nat, to: nat)
    requires to != slot
    ensures AnyReferences(fs, slot) <==> RenamedAll(fs, slot, to) != fs
    decreases fs, 1
  {
    hide References, Renamed;
    if fs != [] {
      ReferencesExact(fs[0], slot, to);
      AnyReferencesExact(fs[1..], slot, to);
      var r := RenamedAll(fs, slot, to);
      assert r[0] == Renamed(fs[0], slot, to) && r[1..] == RenamedAll(fs[1..], slot, to);
      assert fs == [fs[0]] + fs[1..];
    }
  }
}

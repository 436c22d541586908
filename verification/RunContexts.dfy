/**
  What the resource slots hold while a program runs (vock/src/fuzz/prog_exec.rs, `run_prog`): a call
  that is waited for fills the slot of its result and then, from the arena, the slots of its labelled
  fields.  A slot therefore holds what the last such call left in it.

  What a call returns and the arena it leaves are inputs: the theorems hold for every choice of them.
 */
module RunContexts {
  import opened Prelude
  import opened SyzArena
  import opened SyzLayout
  import opened SyzCopyin
  import opened SyzNoteFixed
  import opened RunBytes
  import opened RunCarry

  const MAX_ARGS: nat := 9
  const SYSCALL_ARGS: nat := 6

  // ---- what a call is given

  function Taken(call: Call): (s: seq<Arg>)
    ensures |s| <= MAX_ARGS && s <= call.args
  {
    if |call.args| <= MAX_ARGS then call.args else call.args[..MAX_ARGS]
  }

  /** The arguments whose scalars reach the call: only a pseudo-syscall gets more than six. */
  function Received(call: Call): (s: seq<Arg>)
    ensures s <= Taken(call)
  {
    if call.pseudo || |Taken(call)| <= SYSCALL_ARGS then Taken(call) else Taken(call)[..SYSCALL_ARGS]
  }

  ghost function ScalarsOf(args: seq<Arg>, ctx: Ctx): (s: seq<u64>)
    ensures |s| == |args|
  {
    if args == [] then [] else ScalarsOf(args[..|args| - 1], ctx) + [ScalarOf(args[|args| - 1], ctx)]
  }

  ghost function AllObjects(args: seq<Arg>, ctx: Ctx, w: nat): (s: seq<Object>)
    requires Width(w)
  {
    if args == [] then [] else AllObjects(args[..|args| - 1], ctx, w) + ObjectsOf(args[|args| - 1], ctx, w)
  }

  ghost function CopyoutsOf(arg: Arg, w: nat): (s: seq<Copyout>)
  {
    if arg.Ptr? && arg.target.Some? then CollectCopyouts(arg.target.value, arg.addr, w) else []
  }

  ghost function AllCopyouts(args: seq<Arg>, w: nat): (s: seq<Copyout>)
  {
    if args == [] then [] else AllCopyouts(args[..|args| - 1], w) + CopyoutsOf(args[|args| - 1], w)
  }

  /** A call's scalars and the arena it finds. */
  datatype Given = Given(scalars: seq<u64>, arena: seq<byte>)

  ghost function Gives(call: Call, ctx: Ctx, mem: seq<byte>, s: Setup): (g: Given)
    requires Width(s.w)
  {
    Given(ScalarsOf(Received(call), ctx), WriteAll(mem, s.fixed, AllObjects(Taken(call), ctx, s.w)))
  }

  lemma {:induction false} ScalarsAt(args: seq<Arg>, ctx: Ctx, m: nat)
    requires m < |args|
    ensures ScalarsOf(args, ctx)[m] == ScalarOf(args[m], ctx)
    decreases |args|
  {
    hide ScalarOf;
    if m < |args| - 1 {
      ScalarsAt(args[..|args| - 1], ctx, m);
    }
  }

  lemma {:induction false} ScalarsPrefix(args: seq<Arg>, ctx: Ctx, m: nat)
    requires m <= |args|
    ensures ScalarsOf(args, ctx)[..m] == ScalarsOf(args[..m], ctx)
    decreases |args|
  {
    hide ScalarOf;
    if m < |args| {
      ScalarsPrefix(args[..|args| - 1], ctx, m);
      assert args[..|args| - 1][..m] == args[..m];
    } else {
      assert args[..m] == args;
    }
  }

  ghost function AllSites(args: seq<Arg>): (s: seq<Site>)
  {
    if args == [] then [] else AllSites(args[..|args| - 1]) + SitesOf(args[|args| - 1])
  }

  lemma {:induction false} AllLaid(args: seq<Arg>, ctx: Ctx, w: nat)
    requires Width(w)
    ensures AllObjects(args, ctx, w) == LaidAll(AllSites(args), ctx, w)
    decreases |args|
  {
    hide ObjectsOf, LaidAll, SitesOf;
    if args == [] {
      NoneLaid(ctx, w);
    } else {
      var n := |args| - 1;
      AllLaid(args[..n], ctx, w);
      ObjectsLaid(args[n], ctx, w);
      LaidConcat(AllSites(args[..n]), SitesOf(args[n]), ctx, w);
    }
  }

  // ---- the data a call is given

  /** An origin of a scalar's byte or of a byte of the arena. */
  ghost predicate Datum(call: Call, s: Setup, o: Origin)
  {
    || (exists m, k :: 0 <= m < |Received(call)| && 0 <= k < 8 && o == ScalarOrigin(Received(call)[m], k))
    || (exists p :: 0 <= p < s.size && o == ArenaOrigin(AllSites(Taken(call)), p, s))
  }

  lemma DatumSound(call: Call, s: Setup, o: Origin)
    requires Width(s.w) && Datum(call, s, o)
    ensures Sound(o, s.w) && (o.Of? ==> o.k < 8)
  {
    hide ArenaOrigin, ScalarOrigin;
    if m, k :| 0 <= m < |Received(call)| && 0 <= k < 8 && o == ScalarOrigin(Received(call)[m], k) {
      ScalarSound(Received(call)[m], k, s.w);
    } else {
      var p :| 0 <= p < s.size && o == ArenaOrigin(AllSites(Taken(call)), p, s);
      ArenaSound(AllSites(Taken(call)), p, s);
    }
  }

  lemma {:induction false} ScalarSound(arg: Arg, k: nat, w: nat)
    requires k < 8
    ensures var o := ScalarOrigin(arg, k); Sound(o, w) && (o.Of? ==> o.k < 8)
  {
    match arg
    case Union(c) => ScalarSound(c, k, w);
    case Out(_, inner) => ScalarSound(inner, k, w);
    case _ =>
  }

  lemma ArenaSound(xs: seq<Site>, p: nat, s: Setup)
    requires Width(s.w) && p < s.size
    ensures var o := ArenaOrigin(xs, p, s); Sound(o, s.w) && (o.Of? ==> o.k < 8)
  {
    hide SeenAt, EncodedLen, ImageOrigin, CsumAt;
    SeenIs(xs, p, s);
    var x := SeenAt(xs, p, s);
    if x.Some? {
      ImageOriginIs(x.value.t, p - x.value.off, s.w);
    }
  }

  ghost predicate SameData(call: Call, s: Setup, a: Ctx, b: Ctx)
    requires Width(s.w)
  {
    forall o :: Datum(call, s, o) && Sound(o, s.w) ==> Yield(o, a, s.w) == Yield(o, b, s.w)
  }

  /** Two contexts give a call the same scalars and the same arena if and only if all its data are the same in them. */
  lemma GivenExact(call: Call, mem: seq<byte>, s: Setup, a: Ctx, b: Ctx)
    requires Width(s.w) && |mem| == s.size
    ensures Gives(call, a, mem, s) == Gives(call, b, mem, s) <==> SameData(call, s, a, b)
  {
    hide WriteAll, AllObjects, ScalarsOf, Yield, ArenaOrigin, ScalarOrigin, Sound, Received, AllSites;
    var xs, args := AllSites(Taken(call)), Received(call);
    AllLaid(Taken(call), a, s.w);
    AllLaid(Taken(call), b, s.w);
    var x, y := WriteAll(mem, s.fixed, LaidAll(xs, a, s.w)), WriteAll(mem, s.fixed, LaidAll(xs, b, s.w));
    hide LaidAll;
    ScalarDataExact(args, s.w, a, b);
    ArenaDataExact(mem, xs, s, a, b);
    DataSplit(call, s, a, b);
  }

  ghost predicate SameScalarData(args: seq<Arg>, w: nat, a: Ctx, b: Ctx)
    requires Width(w)
  {
    forall m :: 0 <= m < |args| ==> ScalarAgrees(args[m], a, b, w)
  }

  ghost predicate SameArenaData(xs: seq<Site>, s: Setup, a: Ctx, b: Ctx)
    requires Width(s.w)
  {
    forall p :: 0 <= p < s.size && Sound(ArenaOrigin(xs, p, s), s.w) ==>
      Yield(ArenaOrigin(xs, p, s), a, s.w) == Yield(ArenaOrigin(xs, p, s), b, s.w)
  }

  lemma ScalarDataExact(args: seq<Arg>, w: nat, a: Ctx, b: Ctx)
    requires Width(w)
    ensures ScalarsOf(args, a) == ScalarsOf(args, b) <==> SameScalarData(args, w, a, b)
  {
    hide ScalarsOf, ScalarOf, ScalarAgrees;
    LengthOfScalars(args, a);
    LengthOfScalars(args, b);
    forall m | 0 <= m < |args|
      ensures ScalarsOf(args, a)[m] == ScalarsOf(args, b)[m] <==> ScalarAgrees(args[m], a, b, w)
    {
      ScalarsAt(args, a, m);
      ScalarsAt(args, b, m);
      ScalarExact(args[m], a, b, w);
    }
  }

  lemma LengthOfScalars(args: seq<Arg>, ctx: Ctx)
    ensures |ScalarsOf(args, ctx)| == |args|
  {
  }

  lemma ArenaDataExact(mem: seq<byte>, xs: seq<Site>, s: Setup, a: Ctx, b: Ctx)
    requires Width(s.w) && |mem| == s.size
    ensures WriteAll(mem, s.fixed, LaidAll(xs, a, s.w)) == WriteAll(mem, s.fixed, LaidAll(xs, b, s.w))
       <==> SameArenaData(xs, s, a, b)
  {
    var x, y := WriteAll(mem, s.fixed, LaidAll(xs, a, s.w)), WriteAll(mem, s.fixed, LaidAll(xs, b, s.w));
    assert |x| == |y| == s.size;
    hide WriteAll, LaidAll, Yield, ArenaOrigin, Sound;
    forall p | 0 <= p < s.size
      ensures Sound(ArenaOrigin(xs, p, s), s.w)
      ensures x[p] == y[p] <==> Yield(ArenaOrigin(xs, p, s), a, s.w) == Yield(ArenaOrigin(xs, p, s), b, s.w)
    {
      ArenaByteExact(mem, xs, a, b, p, s);
    }
  }

  lemma DataSplit(call: Call, s: Setup, a: Ctx, b: Ctx)
    requires Width(s.w)
    ensures SameData(call, s, a, b)
       <==> SameScalarData(Received(call), s.w, a, b) && SameArenaData(AllSites(Taken(call)), s, a, b)
  {
    hide Yield, ArenaOrigin, ScalarOrigin, Received, AllSites, CsumAt;
    if SameData(call, s, a, b) {
      forall m | 0 <= m < |Received(call)| ensures ScalarAgrees(Received(call)[m], a, b, s.w) {
        forall k | 0 <= k < 8
          ensures Yield(ScalarOrigin(Received(call)[m], k), a, s.w) == Yield(ScalarOrigin(Received(call)[m], k), b, s.w)
        {
          ScalarSound(Received(call)[m], k, s.w);
          assert Datum(call, s, ScalarOrigin(Received(call)[m], k));
        }
      }
      forall p | 0 <= p < s.size && Sound(ArenaOrigin(AllSites(Taken(call)), p, s), s.w)
        ensures var o := ArenaOrigin(AllSites(Taken(call)), p, s); Yield(o, a, s.w) == Yield(o, b, s.w)
      {
        assert Datum(call, s, ArenaOrigin(AllSites(Taken(call)), p, s));
      }
    } else {
      var o :| Datum(call, s, o) && Sound(o, s.w) && Yield(o, a, s.w) != Yield(o, b, s.w);
      if m, k :| 0 <= m < |Received(call)| && 0 <= k < 8 && o == ScalarOrigin(Received(call)[m], k) {
        assert !ScalarAgrees(Received(call)[m], a, b, s.w);
      } else {
        var p :| 0 <= p < s.size && o == ArenaOrigin(AllSites(Taken(call)), p, s);
      }
    }
  }

  // ---- filling slots

  /** What a completed call leaves in the labelled slots; a label outside the arena changes nothing. */
  function Publish(ctx: Ctx, cs: seq<Copyout>, mem: seq<byte>): (r: Ctx)
  {
    if cs == [] then ctx
    else
      var n := |cs| - 1;
      var before := Publish(ctx, cs[..n], mem);
      var v := Scalar(mem, cs[n].off, cs[n].size);
      if v.Some? then before[cs[n].slot := v.value] else before
  }

  /** The context after a call has completed. */
  ghost function After(ctx: Ctx, call: Call, ret: u64, mem: seq<byte>, w: nat): (r: Ctx)
  {
    Publish(if call.res.Some? then ctx[call.res.value := ret] else ctx, AllCopyouts(Taken(call), w), mem)
  }

  /** The label that decides what a slot holds: the last one on it inside the arena. */
  ghost function LastLabel(cs: seq<Copyout>, slot: nat, size: nat): (c: Option<Copyout>)
    ensures c.Some? ==> c.value in cs && c.value.slot == slot && c.value.off + Clamp(c.value.size) <= size
  {
    if cs == [] then None
    else
      var n := |cs| - 1;
      if cs[n].slot == slot && cs[n].off + Clamp(cs[n].size) <= size then Some(cs[n])
      else LastLabel(cs[..n], slot, size)
  }

  lemma {:induction false} PublishAt(ctx: Ctx, cs: seq<Copyout>, mem: seq<byte>, slot: nat)
    ensures var c := LastLabel(cs, slot, |mem|);
            Held(Publish(ctx, cs, mem), slot)
            == if c.Some? then Scalar(mem, c.value.off, c.value.size) else Held(ctx, slot)
    decreases |cs|
  {
    hide Scalar;
    if cs != [] {
      var n := |cs| - 1;
      PublishAt(ctx, cs[..n], mem, slot);
      ScalarSome(mem, cs[n].off, cs[n].size);
    }
  }

  lemma ScalarSome(mem: seq<byte>, off: nat, size: nat)
    ensures Scalar(mem, off, size).Some? <==> off + Clamp(size) <= |mem|
  {
  }

  ghost function LabelOn(call: Call, slot: nat, s: Setup): (c: Option<Copyout>)
  {
    LastLabel(AllCopyouts(Taken(call), s.w), slot, s.size)
  }

  ghost predicate Fills(call: Call, slot: nat, s: Setup)
  {
    LabelOn(call, slot, s).Some? || call.res == Some(slot)
  }

  /** What a call leaves in a slot it fills. */
  ghost function FilledWith(call: Call, slot: nat, ret: u64, mem: seq<byte>, s: Setup): (x: Option<u64>)
  {
    var c := LabelOn(call, slot, s);
    if c.Some? then Scalar(mem, c.value.off, c.value.size) else Some(ret)
  }

  lemma AfterAt(ctx: Ctx, call: Call, ret: u64, mem: seq<byte>, s: Setup, slot: nat)
    requires |mem| == s.size
    ensures Held(After(ctx, call, ret, mem, s.w), slot)
         == if Fills(call, slot, s) then FilledWith(call, slot, ret, mem, s) else Held(ctx, slot)
  {
    hide Publish, AllCopyouts, LastLabel, Scalar;
    PublishAt(if call.res.Some? then ctx[call.res.value := ret] else ctx, AllCopyouts(Taken(call), s.w), mem, slot);
  }

  // ---- labels are four bytes

  lemma {:induction false} CollectedSizes(arg: Arg, base: nat, w: nat)
    ensures forall c :: c in CollectCopyouts(arg, base, w) ==> c.size == RES_WIDTH
    decreases arg, 0
  {
    match arg
    case Out(_, inner) => CollectedSizes(inner, base, w);
    case Struct(fs) => CollectedSizesIn(fs, base, w);
    case Array(fs) => CollectedSizesIn(fs, base, w);
    case Union(c) => CollectedSizes(c, base, w);
    case _ =>
  }

  lemma {:induction false} CollectedSizesIn(fs: seq<Arg>, base: nat, w: nat)
    ensures forall c :: c in CollectAll(fs, base, w) ==> c.size == RES_WIDTH
    decreases fs, 1
  {
    hide EncodedLen;
    if fs != [] {
      CollectedSizes(fs[0], base, w);
      CollectedSizesIn(fs[1..], base + EncodedLen(fs[0], w), w);
    }
  }

  lemma {:induction false} CopyoutSizes(args: seq<Arg>, w: nat)
    ensures forall c :: c in AllCopyouts(args, w) ==> c.size == RES_WIDTH
    decreases |args|
  {
    hide CollectCopyouts;
    if args != [] {
      var n := |args| - 1;
      CopyoutSizes(args[..n], w);
      if args[n].Ptr? && args[n].target.Some? {
        CollectedSizes(args[n].target.value, args[n].addr, w);
      }
    }
  }

  lemma LabelIs(call: Call, slot: nat, s: Setup)
    ensures var c := LabelOn(call, slot, s);
            c.Some? ==> c.value.size == RES_WIDTH && c.value.off + RES_WIDTH <= s.size
  {
    hide AllCopyouts;
    CopyoutSizes(Taken(call), s.w);
  }

  lemma LabelReads(mem: seq<byte>, off: nat)
    requires off + RES_WIDTH <= |mem|
    ensures Scalar(mem, off, RES_WIDTH) == Some(LeValue(mem[off..off + RES_WIDTH]))
    ensures Scalar(mem, off, RES_WIDTH).value <= U32_MAX
  {
    LeFits(mem[off..off + RES_WIDTH]);
  }

  // ---- runs

  /** What the kernel answers: each call's return value, and the arena when the next call is prepared. */
  datatype Kernel = Kernel(rets: seq<u64>, arenas: seq<seq<byte>>)

  predicate Answers(k: Kernel, n: nat, size: nat)
  {
    |k.rets| == |k.arenas| == n && forall i :: 0 <= i < n ==> |k.arenas[i]| == size
  }

  function Zeros(size: nat): (mem: seq<byte>)
    ensures |mem| == size
  {
    seq(size, _ => 0)
  }

  /** The arena a call is laid out in. */
  function Base(k: Kernel, j: nat, size: nat): (mem: seq<byte>)
    requires j <= |k.arenas|
  {
    if j == 0 then Zeros(size) else k.arenas[j - 1]
  }

  /** What the slots hold before call `j` when the flagged calls are not waited for. */
  ghost function ContextAt(calls: seq<Call>, j: nat, overlapped: seq<bool>, k: Kernel, s: Setup): (ctx: Ctx)
    requires j <= |calls| == |overlapped| && Answers(k, |calls|, s.size)
  {
    if j == 0 then map[]
    else
      var before := ContextAt(calls, j - 1, overlapped, k, s);
      if overlapped[j - 1] then before else After(before, calls[j - 1], k.rets[j - 1], k.arenas[j - 1], s.w)
  }

  /** A run: what each call is given. */
  ghost function Trace(calls: seq<Call>, overlapped: seq<bool>, k: Kernel, s: Setup): (t: seq<Given>)
    requires Width(s.w) && |calls| == |overlapped| && Answers(k, |calls|, s.size)
    ensures |t| == |calls|
  {
    seq(|calls|, j requires 0 <= j < |calls| =>
      Gives(calls[j], ContextAt(calls, j, overlapped, k, s), Base(k, j, s.size), s))
  }

  ghost function Waiting(n: nat): (s: seq<bool>)
    ensures |s| == n
  {
    seq(n, _ => false)
  }

  /** Every call is waited for. */
  ghost function SequentialTrace(calls: seq<Call>, k: Kernel, s: Setup): (t: seq<Given>)
    requires Width(s.w) && Answers(k, |calls|, s.size)
  {
    Trace(calls, Waiting(|calls|), k, s)
  }

  // ---- last writers

  /** The last call before `j` to fill a slot. */
  ghost function Writer(calls: seq<Call>, j: nat, overlapped: seq<bool>, slot: nat, s: Setup): (q: Option<nat>)
    requires j <= |calls| == |overlapped|
    ensures q.Some? ==> q.value < j && !overlapped[q.value] && Fills(calls[q.value], slot, s)
  {
    if j == 0 then None
    else if !overlapped[j - 1] && Fills(calls[j - 1], slot, s) then Some(j - 1)
    else Writer(calls, j - 1, overlapped, slot, s)
  }

  /** A slot holds what the last call to fill it left there, and nothing if there was none. */
  lemma {:induction false} ContextIs(calls: seq<Call>, j: nat, overlapped: seq<bool>, k: Kernel, s: Setup, slot: nat)
    requires j <= |calls| == |overlapped| && Answers(k, |calls|, s.size)
    ensures var q := Writer(calls, j, overlapped, slot, s);
            Held(ContextAt(calls, j, overlapped, k, s), slot)
            == if q.None? then None else FilledWith(calls[q.value], slot, k.rets[q.value], k.arenas[q.value], s)
    decreases j
  {
    hide After, Fills, FilledWith;
    if j > 0 {
      ContextIs(calls, j - 1, overlapped, k, s, slot);
      AfterAt(ContextAt(calls, j - 1, overlapped, k, s), calls[j - 1], k.rets[j - 1], k.arenas[j - 1], s, slot);
    }
  }

  ghost function KindOf(calls: seq<Call>, j: nat, overlapped: seq<bool>, slot: nat, s: Setup): (kind: Kind)
    requires j <= |calls| == |overlapped|
  {
    var q := Writer(calls, j, overlapped, slot, s);
    if q.None? then Nothing else if LabelOn(calls[q.value], slot, s).Some? then Label else Result
  }

  /** A slot holds what its kind allows. */
  lemma KindHolds(calls: seq<Call>, j: nat, overlapped: seq<bool>, k: Kernel, s: Setup, slot: nat)
    requires j <= |calls| == |overlapped| && Answers(k, |calls|, s.size)
    ensures Holdable(KindOf(calls, j, overlapped, slot, s), Held(ContextAt(calls, j, overlapped, k, s), slot))
  {
    hide ContextAt, LabelOn, Writer, Scalar, Held;
    ContextIs(calls, j, overlapped, k, s, slot);
    var q := Writer(calls, j, overlapped, slot, s);
    if q.Some? {
      WriterFills(calls, j, overlapped, slot, s);
      var c := LabelOn(calls[q.value], slot, s);
      LabelIs(calls[q.value], slot, s);
      if c.Some? {
        LabelReads(k.arenas[q.value], c.value.off);
      }
    }
  }

  lemma WriterFills(calls: seq<Call>, j: nat, overlapped: seq<bool>, slot: nat, s: Setup)
    requires j <= |calls| == |overlapped|
    ensures var q := Writer(calls, j, overlapped, slot, s);
            q.Some? ==> q.value < j && !overlapped[q.value] && Fills(calls[q.value], slot, s)
  {
  }
}

/**
  Running a program with overlapped calls (vock/src/fuzz/prog_exec.rs, `run_prog`;
  vock/src/fuzz/prog_decode.rs, `prepare_args`).
 */
module RunProg {
  import opened Prelude
  import opened SyzArena
  import opened SyzLayout
  import opened SyzCopyin
  import opened SyzPlacement
  import opened SyzNoteFixed
  import opened RunBytes
  import opened RunContexts
  import opened RunOverlap

  /** `prepare_args`. */
  method PrepareArgs(arena: Arena, call: Call, ctx: Ctx, w: nat) returns (scalars: seq<u64>, copyouts: seq<Copyout>)
    requires Width(w)
    modifies arena.mem
    ensures scalars == ScalarsOf(Taken(call), ctx) && copyouts == AllCopyouts(Taken(call), w)
    ensures arena.mem[..] == WriteAll(old(arena.mem[..]), arena.fixed, AllObjects(Taken(call), ctx, w))
  {
    hide ObjectsOf, ScalarOf, WriteAll, CollectCopyouts;
    var args := Taken(call);
    scalars, copyouts := [], [];
    WriteNothing(arena.mem[..], arena.fixed);
    for i := 0 to |args|
      invariant scalars == ScalarsOf(args[..i], ctx) && copyouts == AllCopyouts(args[..i], w)
      invariant arena.mem[..] == WriteAll(old(arena.mem[..]), arena.fixed, AllObjects(args[..i], ctx, w))
    {
      assert args[..i + 1][..i] == args[..i];
      WriteAllConcat(old(arena.mem[..]), arena.fixed, AllObjects(args[..i], ctx, w), ObjectsOf(args[i], ctx, w));
      var v := CopyIn(arena, args[i], ctx, w);
      scalars := scalars + [v];
      if args[i].Ptr? && args[i].target.Some? {
        copyouts := copyouts + CollectCopyouts(args[i].target.value, args[i].addr, w);
      }
    }
    assert args[..|args|] == args;
  }

  lemma WriteNothing(mem: seq<byte>, fixed: seq<nat>)
    ensures WriteAll(mem, fixed, []) == mem
  {
  }

  datatype CallResult = CallResult(index: nat, ret: u64, unfinished: bool)

  /** Calls before `i` are recorded in order; the overlapped ones are placeholders until joined. */
  ghost predicate Recorded(out: seq<CallResult>, i: nat, pending: seq<nat>, k: Kernel)
    requires i <= |k.rets|
  {
    && |out| == i && Ascending(pending) && (forall j :: j in pending ==> 0 <= j < i)
    && forall j :: 0 <= j < i ==>
         out[j].index == j && out[j].unfinished == (j in pending) && (j !in pending ==> out[j].ret == k.rets[j])
  }

  lemma RecordedPending(out: seq<CallResult>, i: nat, pending: seq<nat>, k: Kernel)
    requires i < |k.rets| && Recorded(out, i, pending, k)
    ensures Recorded(out + [CallResult(i, 0, true)], i + 1, pending + [i], k)
  {
    forall a | 0 <= a < |pending| ensures pending[a] < i {
      assert pending[a] in pending;
    }
    assert forall j :: j in pending + [i] <==> j in pending || j == i;
  }

  lemma RecordedDone(out: seq<CallResult>, i: nat, pending: seq<nat>, k: Kernel)
    requires i < |k.rets| && Recorded(out, i, pending, k)
    ensures Recorded(out + [CallResult(i, k.rets[i], false)], i + 1, pending, k)
  {
  }

  lemma RecordedJoined(out: seq<CallResult>, pending: seq<nat>, k: Kernel)
    requires |out| <= |k.rets| && pending != [] && Recorded(out, |out|, pending, k)
    ensures pending[0] < |out|
    ensures Recorded(out[pending[0] := CallResult(pending[0], k.rets[pending[0]], false)], |out|, pending[1..], k)
  {
    var i := pending[0];
    assert i in pending;
    assert pending == [i] + pending[1..];
    assert forall j :: j in pending <==> j in pending[1..] || j == i;
    assert i !in pending[1..];
  }

  /** Read the labelled fields of a completed call back out of the arena. */
  method CopyOut(arena: Arena, ctx0: Ctx, copyouts: seq<Copyout>) returns (ctx: Ctx)
    ensures ctx == Publish(ctx0, copyouts, arena.mem[..])
  {
    hide Scalar;
    ctx := ctx0;
    for i := 0 to |copyouts|
      invariant ctx == Publish(ctx0, copyouts[..i], arena.mem[..])
    {
      assert copyouts[..i + 1][..i] == copyouts[..i];
      var v := arena.ReadScalar(copyouts[i].off, copyouts[i].size);
      if v.Some? {
        ctx := ctx[copyouts[i].slot := v.value];
      }
    }
    assert copyouts[..|copyouts|] == copyouts;
  }

  /** What the kernel does to the arena. */
  method Leave(arena: Arena, mem: seq<byte>)
    requires |mem| == arena.mem.Length
    modifies arena.mem
    ensures arena.mem[..] == mem
  {
    forall p | 0 <= p < |mem| {
      arena.mem[p] := mem[p];
    }
  }

  /** One call: prepare it, let the kernel answer, and unless it is overlapped fill its slots. */
  method Step(arena: Arena, call: Call, ctx0: Ctx, w: nat, overlapped: bool, ret: u64, mem: seq<byte>)
    returns (given: Given, ctx: Ctx)
    requires Width(w) && |mem| == arena.mem.Length
    modifies arena.mem
    ensures given == Gives(call, ctx0, old(arena.mem[..]), Setup(arena.mem.Length, arena.fixed, w))
    ensures arena.mem[..] == mem && ctx == if overlapped then ctx0 else After(ctx0, call, ret, mem, w)
  {
    hide WriteAll, AllCopyouts, AllObjects, ScalarsOf, Publish, Received, Taken;
    ctx := ctx0;
    var scalars, copyouts := PrepareArgs(arena, call, ctx, w);
    ReceivedScalars(call, ctx);
    given := Given(scalars[..|Received(call)|], arena.mem[..]);
    Leave(arena, mem);
    if !overlapped {
      if call.res.Some? {
        ctx := ctx[call.res.value := ret];
      }
      ctx := CopyOut(arena, ctx, copyouts);
    }
  }

  lemma TraceStep(calls: seq<Call>, i: nat, flags: seq<bool>, k: Kernel, s: Setup)
    requires Width(s.w) && i < |calls| == |flags| && Answers(k, |calls|, s.size)
    ensures var ctx := ContextAt(calls, i, flags, k, s);
            && Trace(calls, flags, k, s)[..i] + [Gives(calls[i], ctx, Base(k, i, s.size), s)]
               == Trace(calls, flags, k, s)[..i + 1]
            && ContextAt(calls, i + 1, flags, k, s)
               == (if flags[i] then ctx else After(ctx, calls[i], k.rets[i], k.arenas[i], s.w))
            && Base(k, i + 1, s.size) == k.arenas[i]
  {
    hide Gives, After;
  }

  lemma Start(calls: seq<Call>, flags: seq<bool>, k: Kernel, s: Setup)
    requires Width(s.w) && |calls| == |flags| && Answers(k, |calls|, s.size)
    ensures ContextAt(calls, 0, flags, k, s) == map[] && Base(k, 0, s.size) == Zeros(s.size)
    ensures |Trace(calls, flags, k, s)| == |calls| && Trace(calls, flags, k, s)[..0] == []
  {
  }

  /**
    `run_prog` without timeouts: place the program, run the call loop with overlapped calls pending,
    join them all.  Every call ends finished with its own return value, the calls are given what
    `Trace` says, and therefore, when labels are quiet, exactly what a sequential run gives them.
   */
  method Run(arena: Arena, calls0: seq<Call>, w: nat, opts: Opts, k: Kernel)
    returns (calls: seq<Call>, out: seq<CallResult>, log: seq<Given>)
    requires arena.Valid() && arena.mem.Length < AUTO_ADDR && Width(w) && Answers(k, |calls0|, arena.mem.Length)
    modifies arena, arena.mem
    ensures arena.Valid() && SameCalls(calls0, calls) && |calls| == |calls0|
    ensures ArgsOf(calls) == Settled(ArgsOf(calls0), w, arena.mem.Length).args
    ensures var s := Setup(arena.mem.Length, arena.fixed, w);
            && log == Trace(calls, Flags(calls, opts), k, s)
            && (Quiet(calls, opts, s) ==> log == SequentialTrace(calls, k, s))
    ensures |out| == |calls| && forall i :: 0 <= i < |calls| ==> out[i] == CallResult(i, k.rets[i], false)
  {
    hide Settled, Quiet, ContentsAll, Trace, ContextAt, Gives, After, Base, Zeros, Overlaps, Recorded;
    arena.Reset();
    assert arena.mem[..] == Zeros(arena.mem.Length) by { BlankIsZeros(arena.mem[..]); }
    calls := NoteFixed(arena, calls0, w);
    ghost var s := Setup(arena.mem.Length, arena.fixed, w);
    ghost var flags := Flags(calls, opts);
    var ctx: Ctx := map[];
    var pending: seq<nat> := [];
    out, log := [], [];
    Start(calls, flags, k, s);
    RecordedNone(k);
    for i := 0 to |calls|
      invariant arena.Valid() && s == Setup(arena.mem.Length, arena.fixed, w)
      invariant ctx == ContextAt(calls, i, flags, k, s) && arena.mem[..] == Base(k, i, s.size)
      invariant log == Trace(calls, flags, k, s)[..i]
      invariant Recorded(out, i, pending, k)
    {
      TraceStep(calls, i, flags, k, s);
      var overlapped := Overlaps(calls, i, opts);
      var given;
      given, ctx := Step(arena, calls[i], ctx, w, overlapped, k.rets[i], k.arenas[i]);
      log := log + [given];
      if overlapped {
        RecordedPending(out, i, pending, k);
        pending := pending + [i];
        out := out + [CallResult(i, 0, true)];
      } else {
        RecordedDone(out, i, pending, k);
        out := out + [CallResult(i, k.rets[i], false)];
      }
    }
    assert log == Trace(calls, flags, k, s);
    RecordedSize(out, |calls|, pending, k);
    out := Join(out, pending, k);
    if Quiet(calls, opts, s) {
      OverlapInvisible(calls, opts, k, s);
    }
  }

  lemma BlankIsZeros(mem: seq<byte>)
    requires forall i :: 0 <= i < |mem| ==> mem[i] == 0
    ensures mem == Zeros(|mem|)
  {
  }

  lemma RecordedNone(k: Kernel)
    ensures Recorded([], 0, [], k)
  {
  }

  lemma RecordedSize(out: seq<CallResult>, i: nat, pending: seq<nat>, k: Kernel)
    requires i <= |k.rets| && Recorded(out, i, pending, k)
    ensures |out| == i
  {
  }

  lemma ReceivedScalars(call: Call, ctx: Ctx)
    ensures |Received(call)| <= |ScalarsOf(Taken(call), ctx)|
    ensures ScalarsOf(Taken(call), ctx)[..|Received(call)|] == ScalarsOf(Received(call), ctx)
  {
    hide ScalarOf;
    ScalarsPrefix(Taken(call), ctx, |Received(call)|);
    assert Taken(call)[..|Received(call)|] == Received(call);
  }

  /** The join loop: every placeholder gets its thread's result. */
  method Join(out0: seq<CallResult>, pending: seq<nat>, k: Kernel) returns (out: seq<CallResult>)
    requires |out0| == |k.rets| && Recorded(out0, |out0|, pending, k)
    ensures |out| == |out0|
    ensures forall i :: 0 <= i < |out| ==> out[i] == CallResult(i, k.rets[i], false)
  {
    out := out0;
    assert pending[0..] == pending;
    for n := 0 to |pending|
      invariant Recorded(out, |out0|, pending[n..], k)
    {
      var i := pending[n];
      RecordedJoined(out, pending[n..], k);
      assert pending[n..][1..] == pending[n + 1..];
      var j := 0;
      while j < |out| && out[j].index != i
        invariant j <= i
      {
        j := j + 1;
      }
      if j < |out| {
        out := out[j := CallResult(out[j].index, k.rets[i], false)];
      }
    }
  }
}

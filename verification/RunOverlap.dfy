/**
  When starting a call before the previous one is over can be seen (vock/src/fuzz/prog_exec.rs,
  `run_prog`, `result_used_later`, `references`).

  The scheduler looks at a call's result before it overlaps the call, not at its labels.  The overlapped
  run and the run that waits for every call are compared by what each call is given, its scalars and
  the arena, for every return value and every arena the kernel may leave.
 */
module RunOverlap {
  import opened Prelude
  import opened Checksum
  import opened SyzArena
  import opened SyzLayout
  import opened SyzCopyin
  import opened SyzNoteFixed
  import opened RunBytes
  import opened RunCarry
  import opened RunContexts

  // ---- the scheduler

  /** `references`. */
  predicate References(arg: Arg, slot: nat)
    decreases arg, 0
  {
    match arg
    case Res(idx, _, _) => idx == slot
    case Struct(fs) => AnyReferences(fs, slot)
    case Array(fs) => AnyReferences(fs, slot)
    case Union(c) => References(c, slot)
    case Out(_, inner) => References(inner, slot)
    case Ptr(_, Some(t)) => References(t, slot)
    case _ => false
  }

  predicate AnyReferences(fs: seq<Arg>, slot: nat)
    decreases fs, 1
  {
    fs != [] && (References(fs[0], slot) || AnyReferences(fs[1..], slot))
  }

  predicate CallsReference(calls: seq<Call>, slot: nat)
  {
    calls != [] && (AnyReferences(calls[0].args, slot) || CallsReference(calls[1..], slot))
  }

  /** `result_used_later`. */
  predicate ResultUsedLater(calls: seq<Call>, i: nat)
    requires i < |calls|
  {
    calls[i].res.Some? && CallsReference(calls[i + 1..], calls[i].res.value)
  }

  datatype Opts = Opts(collide: bool, threaded: bool)

  /** When `run_prog` starts the next call without waiting for this one. */
  predicate Overlaps(calls: seq<Call>, i: nat, opts: Opts)
    requires i < |calls|
  {
    && (calls[i].isAsync || (opts.collide && i % 2 == 1))
    && opts.threaded
    && !calls[i].pseudo
    && !ResultUsedLater(calls, i)
  }

  ghost function Flags(calls: seq<Call>, opts: Opts): (s: seq<bool>)
    ensures |s| == |calls|
  {
    seq(|calls|, i requires 0 <= i < |calls| => Overlaps(calls, i, opts))
  }

  // ---- whatever shows a slot refers to it

  lemma {:induction false} AnyReferencesAt(fs: seq<Arg>, k: nat, slot: nat)
    requires k < |fs| && References(fs[k], slot)
    ensures AnyReferences(fs, slot)
    decreases k
  {
    hide References;
    if k > 0 {
      AnyReferencesAt(fs[1..], k - 1, slot);
    }
  }

  lemma {:induction false} ImageRefers(arg: Arg, p: nat, w: nat)
    requires p < EncodedLen(arg, w)
    ensures var o := ImageOrigin(arg, p, w); o.Of? ==> References(arg, o.idx)
    decreases arg, 0
  {
    match arg
    case Union(c) => ImageRefers(c, p, w);
    case Out(_, inner) =>
      if p < EncodedLen(inner, RES_WIDTH) {
        ImageRefers(inner, p, RES_WIDTH);
      }
    case Struct(fs) => ImageRefersIn(fs, p, w);
    case Array(fs) => ImageRefersIn(fs, p, w);
    case _ =>
  }

  lemma {:induction false} ImageRefersIn(fs: seq<Arg>, p: nat, w: nat)
    requires p < EncodedLens(fs, w)
    ensures var o := ImageOriginIn(fs, p, w); o.Of? ==> AnyReferences(fs, o.idx)
    decreases fs, 1
  {
    hide EncodedLen;
    var n := EncodedLen(fs[0], w);
    if p < n {
      ImageRefers(fs[0], p, w);
    } else {
      ImageRefersIn(fs[1..], p - n, w);
    }
  }

  lemma {:induction false} SiteRefers(arg: Arg, x: Site, slot: nat)
    requires x in SitesOf(arg) && References(x.t, slot)
    ensures References(arg, slot)
    decreases arg, 0
  {
    match arg
    case Ptr(addr, Some(t)) =>
      if x in NestedSites(t) {
        NestedRefers(t, x, slot);
      }
    case Union(c) => SiteRefers(c, x, slot);
    case Out(_, inner) => SiteRefers(inner, x, slot);
  }

  lemma {:induction false} NestedRefers(arg: Arg, x: Site, slot: nat)
    requires x in NestedSites(arg) && References(x.t, slot)
    ensures References(arg, slot)
    decreases arg, 1
  {
    hide SitesOf;
    match arg
    case Ptr(_, _) => SiteRefers(arg, x, slot);
    case Union(c) => NestedRefers(c, x, slot);
    case Out(_, inner) => NestedRefers(inner, x, slot);
    case Struct(fs) =>
      assert fs[..|fs|] == fs;
      NestedRefersIn(fs, |fs|, x, slot);
    case Array(fs) =>
      assert fs[..|fs|] == fs;
      NestedRefersIn(fs, |fs|, x, slot);
  }

  lemma {:induction false} NestedRefersIn(fs: seq<Arg>, n: nat, x: Site, slot: nat)
    requires n <= |fs| && x in NestedSitesIn(fs[..n]) && References(x.t, slot)
    ensures AnyReferences(fs, slot)
    decreases fs, n
  {
    hide NestedSites, References;
    var m := n - 1;
    assert fs[..n][..m] == fs[..m] && fs[..n][m] == fs[m];
    if x in NestedSitesIn(fs[..m]) {
      NestedRefersIn(fs, m, x, slot);
    } else {
      NestedRefers(fs[m], x, slot);
      AnyReferencesAt(fs, m, slot);
    }
  }

  lemma {:induction false} SitesRefer(args: seq<Arg>, n: nat, x: Site, slot: nat)
    requires n <= |args| && x in AllSites(args[..n]) && References(x.t, slot)
    ensures AnyReferences(args, slot)
    decreases n
  {
    hide SitesOf, References;
    var m := n - 1;
    assert args[..n][..m] == args[..m] && args[..n][m] == args[m];
    if x in AllSites(args[..m]) {
      SitesRefer(args, m, x, slot);
    } else {
      SiteRefers(args[m], x, slot);
      AnyReferencesAt(args, m, slot);
    }
  }

  lemma {:induction false} ScalarRefers(arg: Arg, k: nat)
    ensures var o := ScalarOrigin(arg, k); o.Of? ==> References(arg, o.idx)
  {
    match arg
    case Union(c) => ScalarRefers(c, k);
    case Out(_, inner) => ScalarRefers(inner, k);
    case _ =>
  }

  /** A call's data come from slots it refers to, directly or through an object with a checksum. */
  lemma DatumRefers(call: Call, s: Setup, o: Origin)
    requires Datum(call, s, o)
    ensures o.Of? ==> AnyReferences(call.args, o.idx)
    ensures o.Sum? ==> forall slot: nat :: References(o.t, slot) ==> AnyReferences(call.args, slot)
  {
    hide AnyReferences, References, AllSites, SeenAt, ImageOrigin, EncodedLen, CsumAt, ScalarOrigin;
    if m, k :| 0 <= m < |Received(call)| && 0 <= k < 8 && o == ScalarOrigin(Received(call)[m], k) {
      ScalarRefers(Received(call)[m], k);
      ScalarSound(Received(call)[m], k, s.w);
      if o.Of? {
        AnyReferencesAt(call.args, m, o.idx);
      } else {
        ScalarNotSum(Received(call)[m], k);
      }
    } else {
      var p :| 0 <= p < s.size && o == ArenaOrigin(AllSites(Taken(call)), p, s);
      var xs := AllSites(Taken(call));
      SeenIs(xs, p, s);
      var x := SeenAt(xs, p, s);
      if x.Some? {
        ImageRefers(x.value.t, p - x.value.off, s.w);
        ImageNotSum(x.value.t, p - x.value.off, s.w);
        assert call.args[..|Taken(call)|] == Taken(call);
        forall slot: nat | References(x.value.t, slot) ensures AnyReferences(call.args, slot) {
          SitesRefer(call.args, |Taken(call)|, x.value, slot);
        }
      }
    }
  }

  lemma ScalarNotSum(arg: Arg, k: nat)
    ensures !ScalarOrigin(arg, k).Sum?
  {
  }

  lemma {:induction false} ImageNotSum(arg: Arg, p: nat, w: nat)
    requires p < EncodedLen(arg, w)
    ensures !ImageOrigin(arg, p, w).Sum?
    decreases arg, 0
  {
    match arg
    case Union(c) => ImageNotSum(c, p, w);
    case Out(_, inner) =>
      if p < EncodedLen(inner, RES_WIDTH) {
        ImageNotSum(inner, p, RES_WIDTH);
      }
    case Struct(fs) => ImageNotSumIn(fs, p, w);
    case Array(fs) => ImageNotSumIn(fs, p, w);
    case _ =>
  }

  lemma {:induction false} ImageNotSumIn(fs: seq<Arg>, p: nat, w: nat)
    requires p < EncodedLens(fs, w)
    ensures !ImageOriginIn(fs, p, w).Sum?
    decreases fs, 1
  {
    hide EncodedLen;
    var n := EncodedLen(fs[0], w);
    if p < n {
      ImageNotSum(fs[0], p, w);
    } else {
      ImageNotSumIn(fs[1..], p - n, w);
    }
  }

  lemma {:induction false} CallsReferenceAt(calls: seq<Call>, k: nat, slot: nat)
    requires k < |calls| && AnyReferences(calls[k].args, slot)
    ensures CallsReference(calls, slot)
    decreases k
  {
    hide AnyReferences;
    if k > 0 {
      CallsReferenceAt(calls[1..], k - 1, slot);
    }
  }

  /** The result of an overlapped call is nobody's concern. */
  lemma NotOwnResult(calls: seq<Call>, i: nat, j: nat, opts: Opts, slot: nat)
    requires i < j < |calls| && Overlaps(calls, i, opts) && AnyReferences(calls[j].args, slot)
    ensures calls[i].res != Some(slot)
  {
    hide AnyReferences, CallsReference;
    assert calls[i + 1..][j - i - 1] == calls[j];
    CallsReferenceAt(calls[i + 1..], j - i - 1, slot);
  }

  // ---- watched slots

  /** The last call to fill the slot, had every call been waited for, is an overlapped one. */
  ghost predicate Watched(calls: seq<Call>, j: nat, opts: Opts, s: Setup, slot: nat)
    requires j <= |calls|
  {
    Writer(calls, j, Flags(calls, opts), slot, s) != Writer(calls, j, Waiting(|calls|), slot, s)
  }

  lemma {:induction false} WatchedWriter(calls: seq<Call>, j: nat, opts: Opts, s: Setup, slot: nat) returns (i: nat)
    requires j <= |calls| && Watched(calls, j, opts, s, slot)
    ensures i < j && Writer(calls, j, Waiting(|calls|), slot, s) == Some(i)
    ensures Overlaps(calls, i, opts) && Fills(calls[i], slot, s)
    ensures var q := Writer(calls, j, Flags(calls, opts), slot, s);
            q.Some? ==> q.value < j && q.value != i && Fills(calls[q.value], slot, s)
    decreases j
  {
    hide Fills, Overlaps;
    WriterFills(calls, j, Flags(calls, opts), slot, s);
    if Fills(calls[j - 1], slot, s) {
      i := j - 1;
    } else {
      i := WatchedWriter(calls, j - 1, opts, s, slot);
    }
  }

  // ---- contexts the two runs can come to

  /** Call `q` with this return value and this arena accounts for the slots it was the last to fill. */
  ghost predicate LeftBy(ctx: Ctx, calls: seq<Call>, j: nat, overlapped: seq<bool>, s: Setup, q: nat, ret: u64,
                         mem: seq<byte>)
    requires q < j <= |calls| == |overlapped|
  {
    forall slot: nat :: Writer(calls, j, overlapped, slot, s) == Some(q) ==>
      Held(ctx, slot) == FilledWith(calls[q], slot, ret, mem, s)
  }

  ghost predicate Accounted(a: Ctx, b: Ctx, calls: seq<Call>, j: nat, opts: Opts, s: Setup, q: nat)
    requires q < j <= |calls|
  {
    exists ret: u64, mem: seq<byte> ::
      && |mem| == s.size && LeftBy(a, calls, j, Flags(calls, opts), s, q, ret, mem)
      && LeftBy(b, calls, j, Waiting(|calls|), s, q, ret, mem)
  }

  ghost predicate Filled(ctx: Ctx, calls: seq<Call>, j: nat, overlapped: seq<bool>, s: Setup)
    requires j <= |calls| == |overlapped|
  {
    forall slot: nat :: slot in ctx <==> Writer(calls, j, overlapped, slot, s).Some?
  }

  /** Contexts for call `j` in the overlapped and in the waiting run: the calls before it account for both. */
  ghost predicate Possible(a: Ctx, b: Ctx, calls: seq<Call>, j: nat, opts: Opts, s: Setup)
    requires j <= |calls|
  {
    && Filled(a, calls, j, Flags(calls, opts), s) && Filled(b, calls, j, Waiting(|calls|), s)
    && forall q :: 0 <= q < j ==> Accounted(a, b, calls, j, opts, s, q)
  }

  lemma ContextFilled(calls: seq<Call>, j: nat, overlapped: seq<bool>, k: Kernel, s: Setup)
    requires j <= |calls| == |overlapped| && Answers(k, |calls|, s.size)
    ensures Filled(ContextAt(calls, j, overlapped, k, s), calls, j, overlapped, s)
  {
    hide ContextAt, Writer, FilledWith;
    forall slot: nat
      ensures slot in ContextAt(calls, j, overlapped, k, s) <==> Writer(calls, j, overlapped, slot, s).Some?
    {
      ContextIs(calls, j, overlapped, k, s, slot);
      KindHolds(calls, j, overlapped, k, s, slot);
      hide LabelOn;
    }
  }

  lemma ContextLeft(calls: seq<Call>, j: nat, overlapped: seq<bool>, k: Kernel, s: Setup, q: nat)
    requires q < j <= |calls| == |overlapped| && Answers(k, |calls|, s.size)
    ensures LeftBy(ContextAt(calls, j, overlapped, k, s), calls, j, overlapped, s, q, k.rets[q], k.arenas[q])
  {
    hide ContextAt, Writer, FilledWith, Held;
    forall slot: nat | Writer(calls, j, overlapped, slot, s) == Some(q)
      ensures Held(ContextAt(calls, j, overlapped, k, s), slot) == FilledWith(calls[q], slot, k.rets[q], k.arenas[q], s)
    {
      ContextIs(calls, j, overlapped, k, s, slot);
    }
  }

  lemma RunsPossible(calls: seq<Call>, j: nat, opts: Opts, k: Kernel, s: Setup)
    requires j <= |calls| && Answers(k, |calls|, s.size)
    ensures Possible(ContextAt(calls, j, Flags(calls, opts), k, s), ContextAt(calls, j, Waiting(|calls|), k, s),
                     calls, j, opts, s)
  {
    hide ContextAt, Filled, LeftBy, Flags;
    var a, b := ContextAt(calls, j, Flags(calls, opts), k, s), ContextAt(calls, j, Waiting(|calls|), k, s);
    ContextFilled(calls, j, Flags(calls, opts), k, s);
    ContextFilled(calls, j, Waiting(|calls|), k, s);
    forall q | 0 <= q < j ensures Accounted(a, b, calls, j, opts, s, q) {
      ContextLeft(calls, j, Flags(calls, opts), k, s, q);
      ContextLeft(calls, j, Waiting(|calls|), k, s, q);
    }
  }

  /** The answers of a call that account for two contexts. */
  ghost function Account(a: Ctx, b: Ctx, calls: seq<Call>, j: nat, opts: Opts, s: Setup, q: nat): (r: (u64, seq<byte>))
    requires q < j <= |calls| && Accounted(a, b, calls, j, opts, s, q)
    ensures |r.1| == s.size && LeftBy(a, calls, j, Flags(calls, opts), s, q, r.0, r.1)
    ensures LeftBy(b, calls, j, Waiting(|calls|), s, q, r.0, r.1)
  {
    var ret: u64, mem: seq<byte> :|
      && |mem| == s.size && LeftBy(a, calls, j, Flags(calls, opts), s, q, ret, mem)
      && LeftBy(b, calls, j, Waiting(|calls|), s, q, ret, mem);
    (ret, mem)
  }

  lemma SameMaps(a: Ctx, b: Ctx)
    requires forall slot: nat :: Held(a, slot) == Held(b, slot)
    ensures a == b
  {
    forall slot: nat ensures (slot in a <==> slot in b) && (slot in a ==> a[slot] == b[slot]) {
      assert Held(a, slot) == Held(b, slot);
    }
  }

  lemma AccountedContext(ctx: Ctx, calls: seq<Call>, j: nat, overlapped: seq<bool>, k: Kernel, s: Setup)
    requires j <= |calls| == |overlapped| && Answers(k, |calls|, s.size) && Filled(ctx, calls, j, overlapped, s)
    requires forall q :: 0 <= q < j ==> LeftBy(ctx, calls, j, overlapped, s, q, k.rets[q], k.arenas[q])
    ensures ContextAt(calls, j, overlapped, k, s) == ctx
  {
    hide ContextAt, Writer, FilledWith;
    var c := ContextAt(calls, j, overlapped, k, s);
    forall slot: nat ensures Held(c, slot) == Held(ctx, slot) {
      ContextIs(calls, j, overlapped, k, s, slot);
      WriterFills(calls, j, overlapped, slot, s);
      var q := Writer(calls, j, overlapped, slot, s);
      if q.Some? {
        assert LeftBy(ctx, calls, j, overlapped, s, q.value, k.rets[q.value], k.arenas[q.value]);
      }
    }
    SameMaps(c, ctx);
  }

  /** Some kernel brings the two runs to any pair of possible contexts. */
  lemma PossibleReached(a: Ctx, b: Ctx, calls: seq<Call>, j: nat, opts: Opts, s: Setup) returns (k: Kernel)
    requires j <= |calls| && Possible(a, b, calls, j, opts, s)
    ensures Answers(k, |calls|, s.size)
    ensures ContextAt(calls, j, Flags(calls, opts), k, s) == a && ContextAt(calls, j, Waiting(|calls|), k, s) == b
  {
    hide ContextAt, Filled, LeftBy, Flags, Accounted;
    assert |Zeros(s.size)| == s.size;
    var rets: seq<u64> := seq(|calls|, q requires 0 <= q => if q < j then Account(a, b, calls, j, opts, s, q).0 else 0);
    var arenas: seq<seq<byte>> := seq(|calls|, q requires 0 <= q =>
      if q < j then Account(a, b, calls, j, opts, s, q).1 else Zeros(s.size));
    k := Kernel(rets, arenas);
    forall q | 0 <= q < |calls|
      ensures |arenas[q]| == s.size
      ensures q < j ==> LeftBy(a, calls, j, Flags(calls, opts), s, q, rets[q], arenas[q])
      ensures q < j ==> LeftBy(b, calls, j, Waiting(|calls|), s, q, rets[q], arenas[q])
    {
    }
    AccountedContext(a, calls, j, Flags(calls, opts), k, s);
    AccountedContext(b, calls, j, Waiting(|calls|), k, s);
  }

  // ---- the condition

  /**
    A byte a call is given can be told from that of the waiting run: it is a byte of a reference to a
    watched slot that some value changes, or a byte of a checksum over such references.
   */
  ghost predicate Told(o: Origin, calls: seq<Call>, j: nat, opts: Opts, s: Setup)
    requires Width(s.w) && Sound(o, s.w) && j <= |calls|
  {
    match o
    case Constant => false
    case Of(idx, div, add, k) =>
      Watched(calls, j, opts, s, idx) && Tells(KindOf(calls, j, Flags(calls, opts), idx, s), div, add, k)
    case Sum(t, high) =>
      exists a, b :: Possible(a, b, calls, j, opts, s) && SumByte(t, a, s.w, high) != SumByte(t, b, s.w, high)
  }

  /** No byte any call is given can be told. */
  ghost predicate Quiet(calls: seq<Call>, opts: Opts, s: Setup)
    requires Width(s.w)
  {
    forall j, o :: 0 <= j < |calls| && Datum(calls[j], s, o) && Sound(o, s.w) ==> !Told(o, calls, j, opts, s)
  }

  lemma UnwatchedSame(calls: seq<Call>, j: nat, opts: Opts, k: Kernel, s: Setup, slot: nat)
    requires j <= |calls| && Answers(k, |calls|, s.size) && !Watched(calls, j, opts, s, slot)
    ensures Held(ContextAt(calls, j, Flags(calls, opts), k, s), slot)
         == Held(ContextAt(calls, j, Waiting(|calls|), k, s), slot)
  {
    hide ContextAt, Writer, FilledWith, Held, Flags;
    ContextIs(calls, j, Flags(calls, opts), k, s, slot);
    ContextIs(calls, j, Waiting(|calls|), k, s, slot);
  }

  /** In the waiting run a watched slot that is referred to holds four bytes of the arena. */
  lemma WatchedKind(calls: seq<Call>, j: nat, opts: Opts, s: Setup, slot: nat)
    requires j < |calls| && Watched(calls, j, opts, s, slot) && AnyReferences(calls[j].args, slot)
    ensures KindOf(calls, j, Waiting(|calls|), slot, s) == Label
  {
    hide AnyReferences, Overlaps, LabelOn, Watched, Writer;
    var i := WatchedWriter(calls, j, opts, s, slot);
    NotOwnResult(calls, i, j, opts, slot);
  }

  lemma ReferenceYield(o: Origin, ctx: Ctx, w: nat)
    requires Width(w) && o.Of?
    ensures Yield(o, ctx, w) == ByteOf(Reading(Held(ctx, o.idx), o.div, o.add), o.k)
  {
    ResolveReads(ctx, o.idx, o.div, o.add);
  }

  lemma UntoldReads(calls: seq<Call>, j: nat, opts: Opts, k: Kernel, s: Setup, o: Origin)
    requires Width(s.w) && j < |calls| && Answers(k, |calls|, s.size)
    requires o.Of? && o.k < 8 && AnyReferences(calls[j].args, o.idx) && !Told(o, calls, j, opts, s)
    ensures Yield(o, ContextAt(calls, j, Flags(calls, opts), k, s), s.w)
         == Yield(o, ContextAt(calls, j, Waiting(|calls|), k, s), s.w)
  {
    hide ContextAt, Flags, ByteOf, Resolve, Tells, Watched, KindOf, AnyReferences, Reading;
    var a, b := ContextAt(calls, j, Flags(calls, opts), k, s), ContextAt(calls, j, Waiting(|calls|), k, s);
    ReferenceYield(o, a, s.w);
    ReferenceYield(o, b, s.w);
    if Watched(calls, j, opts, s, o.idx) {
      WatchedKind(calls, j, opts, s, o.idx);
      KindHolds(calls, j, Flags(calls, opts), k, s, o.idx);
      KindHolds(calls, j, Waiting(|calls|), k, s, o.idx);
      SilentSame(KindOf(calls, j, Flags(calls, opts), o.idx, s), o.div, o.add, o.k, Held(a, o.idx), Held(b, o.idx).value);
    } else {
      UnwatchedSame(calls, j, opts, k, s, o.idx);
    }
  }

  lemma QuietDatum(calls: seq<Call>, j: nat, opts: Opts, k: Kernel, s: Setup, o: Origin)
    requires Width(s.w) && j < |calls| && Answers(k, |calls|, s.size)
    requires Datum(calls[j], s, o) && Sound(o, s.w) && !Told(o, calls, j, opts, s)
    ensures Yield(o, ContextAt(calls, j, Flags(calls, opts), k, s), s.w)
         == Yield(o, ContextAt(calls, j, Waiting(|calls|), k, s), s.w)
  {
    hide ContextAt, Datum, Flags, Possible, SumByte, ByteOf, Resolve, Tells, Watched, KindOf, AnyReferences;
    DatumSound(calls[j], s, o);
    DatumRefers(calls[j], s, o);
    match o
    case Constant =>
    case Of(_, _, _, _) => UntoldReads(calls, j, opts, k, s, o);
    case Sum(_, _) => RunsPossible(calls, j, opts, k, s);
  }

  /**
    When labels are quiet, for every answer of the kernel the overlapped run gives each call the same
    scalars and the same arena as the run that waits for every call.
   */
  lemma OverlapInvisible(calls: seq<Call>, opts: Opts, k: Kernel, s: Setup)
    requires Width(s.w) && Answers(k, |calls|, s.size) && Quiet(calls, opts, s)
    ensures Trace(calls, Flags(calls, opts), k, s) == SequentialTrace(calls, k, s)
  {
    hide ContextAt, Datum, Told, Gives, Flags, Yield, Sound;
    forall j | 0 <= j < |calls|
      ensures Trace(calls, Flags(calls, opts), k, s)[j] == SequentialTrace(calls, k, s)[j]
    {
      var a, b := ContextAt(calls, j, Flags(calls, opts), k, s), ContextAt(calls, j, Waiting(|calls|), k, s);
      forall o | Datum(calls[j], s, o) && Sound(o, s.w) ensures Yield(o, a, s.w) == Yield(o, b, s.w) {
        QuietDatum(calls, j, opts, k, s, o);
      }
      GivenExact(calls[j], Base(k, j, s.size), s, a, b);
    }
  }

  // ---- and only then

  /** An arena that is zero but for a four-byte number. */
  ghost function Put(size: nat, off: nat, v: nat): (mem: seq<byte>)
    ensures |mem| == size
  {
    seq(size, p => if off <= p < off + RES_WIDTH then LeBytes(v, RES_WIDTH)[p - off] else 0)
  }

  lemma PutReads(size: nat, off: nat, v: u64)
    requires off + RES_WIDTH <= size && v <= U32_MAX
    ensures Scalar(Put(size, off, v), off, RES_WIDTH) == Some(v)
  {
    hide LeBytes, LeValue, Pow256;
    var mem := Put(size, off, v);
    LabelReads(mem, off);
    assert mem[off..off + RES_WIDTH] == LeBytes(v, RES_WIDTH) by {
      LeSize(v, RES_WIDTH);
    }
    FourBytes();
    LeRoundTrip(v, RES_WIDTH);
  }

  lemma FourBytes()
    ensures Pow256(RES_WIDTH) == U32_MAX + 1
  {
    assert Pow256(4) == 0x1_0000_0000;
  }

  /** What a call answers to leave `x` in a slot it fills. */
  lemma AnswerWith(call: Call, slot: nat, x: u64, s: Setup) returns (ret: u64, mem: seq<byte>)
    requires Fills(call, slot, s) && (LabelOn(call, slot, s).Some? ==> x <= U32_MAX)
    ensures |mem| == s.size && FilledWith(call, slot, ret, mem, s) == Some(x)
  {
    hide LabelOn, Scalar, Put;
    var c := LabelOn(call, slot, s);
    ret, mem := x, Zeros(s.size);
    if c.Some? {
      LabelIs(call, slot, s);
      mem := Put(s.size, c.value.off, x);
      PutReads(s.size, c.value.off, x);
    }
  }

  /** Answers that are zero but for two calls. */
  ghost function Aimed(n: nat, size: nat, i: nat, x: (u64, seq<byte>), q: nat, y: (u64, seq<byte>)): (k: Kernel)
    requires |x.1| == |y.1| == size
    ensures Answers(k, n, size)
    ensures i < n ==> k.rets[i] == x.0 && k.arenas[i] == x.1
    ensures q < n && q != i ==> k.rets[q] == y.0 && k.arenas[q] == y.1
  {
    assert |Zeros(size)| == size;
    var arenas := seq(n, m => if m == i then x.1 else if m == q then y.1 else Zeros(size));
    assert forall m :: 0 <= m < n ==> |arenas[m]| == size;
    Kernel(seq(n, m => if m == i then x.0 else if m == q then y.0 else 0), arenas)
  }

  /** A watched slot can be made to hold any two values its kinds allow. */
  lemma WatchedHolds(calls: seq<Call>, j: nat, opts: Opts, s: Setup, slot: nat, x: Option<u64>, y: u64)
    returns (k: Kernel)
    requires j < |calls| && Watched(calls, j, opts, s, slot) && AnyReferences(calls[j].args, slot)
    requires Holdable(KindOf(calls, j, Flags(calls, opts), slot, s), x) && y <= U32_MAX
    ensures Answers(k, |calls|, s.size)
    ensures Held(ContextAt(calls, j, Flags(calls, opts), k, s), slot) == x
    ensures Held(ContextAt(calls, j, Waiting(|calls|), k, s), slot) == Some(y)
  {
    hide ContextAt, AnyReferences, Overlaps, LabelOn, Writer, Fills, Aimed, FilledWith, Held, Flags;
    var i := WatchedWriter(calls, j, opts, s, slot);
    var ret, mem := AnswerWith(calls[i], slot, y, s);
    var q := Writer(calls, j, Flags(calls, opts), slot, s);
    if q.Some? {
      var ret', mem' := AnswerWith(calls[q.value], slot, x.value, s);
      k := Aimed(|calls|, s.size, i, (ret, mem), q.value, (ret', mem'));
    } else {
      k := Aimed(|calls|, s.size, i, (ret, mem), i, (ret, mem));
    }
    ContextIs(calls, j, Flags(calls, opts), k, s, slot);
    ContextIs(calls, j, Waiting(|calls|), k, s, slot);
  }

  /** A byte that can be told is told by some kernel. */
  lemma ToldShows(calls: seq<Call>, j: nat, opts: Opts, s: Setup, o: Origin) returns (k: Kernel)
    requires Width(s.w) && j < |calls| && Datum(calls[j], s, o) && Sound(o, s.w) && Told(o, calls, j, opts, s)
    ensures Answers(k, |calls|, s.size)
    ensures Yield(o, ContextAt(calls, j, Flags(calls, opts), k, s), s.w)
         != Yield(o, ContextAt(calls, j, Waiting(|calls|), k, s), s.w)
  {
    hide ContextAt, Datum, Flags, Possible, SumByte, ByteOf, Resolve, Tells, Watched, KindOf, AnyReferences, Reading;
    DatumSound(calls[j], s, o);
    DatumRefers(calls[j], s, o);
    match o
    case Of(idx, div, add, n) =>
      var x, y := TellsShows(KindOf(calls, j, Flags(calls, opts), idx, s), div, add, n);
      k := WatchedHolds(calls, j, opts, s, idx, x, y);
      ReferenceYield(o, ContextAt(calls, j, Flags(calls, opts), k, s), s.w);
      ReferenceYield(o, ContextAt(calls, j, Waiting(|calls|), k, s), s.w);
    case Sum(t, high) =>
      var a, b :| Possible(a, b, calls, j, opts, s) && SumByte(t, a, s.w, high) != SumByte(t, b, s.w, high);
      k := PossibleReached(a, b, calls, j, opts, s);
  }

  lemma NotQuietShows(calls: seq<Call>, opts: Opts, s: Setup) returns (k: Kernel)
    requires Width(s.w) && !Quiet(calls, opts, s)
    ensures Answers(k, |calls|, s.size) && Trace(calls, Flags(calls, opts), k, s) != SequentialTrace(calls, k, s)
  {
    hide ContextAt, Datum, Told, Gives, Flags, Yield, Sound;
    var j, o :| 0 <= j < |calls| && Datum(calls[j], s, o) && Sound(o, s.w) && Told(o, calls, j, opts, s);
    k := ToldShows(calls, j, opts, s, o);
    var a, b := ContextAt(calls, j, Flags(calls, opts), k, s), ContextAt(calls, j, Waiting(|calls|), k, s);
    GivenExact(calls[j], Base(k, j, s.size), s, a, b);
    assert Trace(calls, Flags(calls, opts), k, s)[j] != SequentialTrace(calls, k, s)[j];
  }

  /** No kernel can tell the overlapped run from the waiting one if and only if labels are quiet. */
  lemma OverlapExact(calls: seq<Call>, opts: Opts, s: Setup)
    requires Width(s.w)
    ensures (forall k :: Answers(k, |calls|, s.size) ==>
               Trace(calls, Flags(calls, opts), k, s) == SequentialTrace(calls, k, s))
            <==> Quiet(calls, opts, s)
  {
    hide Trace, Quiet, Flags;
    if Quiet(calls, opts, s) {
      forall k | Answers(k, |calls|, s.size)
        ensures Trace(calls, Flags(calls, opts), k, s) == SequentialTrace(calls, k, s)
      {
        OverlapInvisible(calls, opts, k, s);
      }
    } else {
      var k := NotQuietShows(calls, opts, s);
    }
  }

  // ---- checksums tell only what their object's bytes would

  /** A byte of an image that goes into the checksum. */
  ghost predicate Counted(t: Arg, p: nat, w: nat)
  {
    p < EncodedLen(t, w) && CsumAt(t, w).Some? && p != CsumAt(t, w).value && p != CsumAt(t, w).value + 1
  }

  ghost predicate ByteTold(t: Arg, p: nat, calls: seq<Call>, j: nat, opts: Opts, s: Setup)
    requires Width(s.w) && j <= |calls|
  {
    p < EncodedLen(t, s.w) && ImageOrigin(t, p, s.w).Of? && Told(ImageOrigin(t, p, s.w), calls, j, opts, s)
  }

  lemma CountedDecide(t: Arg, a: Ctx, b: Ctx, w: nat)
    requires Width(w) && CsumAt(t, w).Some?
    requires forall p: nat :: Counted(t, p, w) ==>
               p < |Encode(t, a, w)| && p < |Encode(t, b, w)| && Encode(t, a, w)[p] == Encode(t, b, w)[p]
    ensures SumOf(t, a, w) == SumOf(t, b, w)
  {
    var x, y := Encode(t, a, w), Encode(t, b, w);
    EncodeLength(t, a, w);
    EncodeLength(t, b, w);
    hide Encode, EncodedLen, CsumAt, CsumSpec;
    var m := CsumAt(t, w).value;
    CsumFits(t, w);
    forall p: nat | p < |x| && p != m && p != m + 1 ensures x[p] == y[p] {
      assert Counted(t, p, w);
    }
    assert Cleared(x, m) == Cleared(y, m);
  }

  lemma CsumFits(t: Arg, w: nat)
    ensures CsumAt(t, w).Some? ==> CsumAt(t, w).value + 2 <= EncodedLen(t, w)
  {
    hide EncodedLen, CsumOffset;
  }

  lemma UntoldImage(t: Arg, p: nat, calls: seq<Call>, j: nat, opts: Opts, s: Setup, k: Kernel)
    requires Width(s.w) && j < |calls| && Answers(k, |calls|, s.size) && p < EncodedLen(t, s.w)
    requires !ByteTold(t, p, calls, j, opts, s)
    requires forall slot: nat :: References(t, slot) ==> AnyReferences(calls[j].args, slot)
    ensures var a := ContextAt(calls, j, Flags(calls, opts), k, s);
            var b := ContextAt(calls, j, Waiting(|calls|), k, s);
            p < |Encode(t, a, s.w)| && p < |Encode(t, b, s.w)| && Encode(t, a, s.w)[p] == Encode(t, b, s.w)[p]
  {
    hide ContextAt, Flags, Told, AnyReferences, References, Encode, ImageOrigin, ByteOf, Resolve, EncodedLen;
    var a, b := ContextAt(calls, j, Flags(calls, opts), k, s), ContextAt(calls, j, Waiting(|calls|), k, s);
    var o := ImageOrigin(t, p, s.w);
    ImageComes(t, a, b, p, s.w);
    ImageOriginIs(t, p, s.w);
    if o.Of? {
      ImageRefers(t, p, s.w);
      UntoldReads(calls, j, opts, k, s, o);
    }
  }

  /** A checksum can be told only if one of the bytes it sums could be. */
  lemma SumNeedsByte(calls: seq<Call>, j: nat, opts: Opts, s: Setup, t: Arg, high: bool)
    requires Width(s.w) && j < |calls| && Datum(calls[j], s, Sum(t, high)) && Sound(Sum(t, high), s.w)
    requires Told(Sum(t, high), calls, j, opts, s)
    ensures exists p: nat :: Counted(t, p, s.w) && ByteTold(t, p, calls, j, opts, s)
  {
    hide ContextAt, Datum, Flags, Possible, ByteTold, CsumAt, SumOf, AnyReferences, References, EncodedLen;
    var a, b :| Possible(a, b, calls, j, opts, s) && SumByte(t, a, s.w, high) != SumByte(t, b, s.w, high);
    var k := PossibleReached(a, b, calls, j, opts, s);
    DatumRefers(calls[j], s, Sum(t, high));
    if forall p: nat :: Counted(t, p, s.w) ==> !ByteTold(t, p, calls, j, opts, s) {
      forall p: nat | Counted(t, p, s.w)
        ensures p < |Encode(t, a, s.w)| && p < |Encode(t, b, s.w)| && Encode(t, a, s.w)[p] == Encode(t, b, s.w)[p]
      {
        UntoldImage(t, p, calls, j, opts, s, k);
      }
      CountedDecide(t, a, b, s.w);
    }
  }

  /** Programs that refer to no watched slot are quiet. */
  lemma UnwatchedIsQuiet(calls: seq<Call>, opts: Opts, s: Setup)
    requires Width(s.w)
    requires forall j, slot: nat :: 0 <= j < |calls| && AnyReferences(calls[j].args, slot) ==> !Watched(calls, j, opts, s, slot)
    ensures Quiet(calls, opts, s)
  {
    hide Datum, Possible, SumByte, Tells, Watched, KindOf, AnyReferences, References, EncodedLen, CsumAt, ImageOrigin;
    forall j, o | 0 <= j < |calls| && Datum(calls[j], s, o) && Sound(o, s.w) ensures !Told(o, calls, j, opts, s) {
      DatumRefers(calls[j], s, o);
      if o.Sum? && Told(o, calls, j, opts, s) {
        SumNeedsByte(calls, j, opts, s, o.t, o.high);
        var p: nat :| Counted(o.t, p, s.w) && ByteTold(o.t, p, calls, j, opts, s);
        ImageRefers(o.t, p, s.w);
      }
    }
  }
}

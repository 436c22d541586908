/**
  `FuncTable::find` (vock/src/dwarf/unit.rs): the innermost function at an address, from the sorted
  spans of the walk. Main results: `LookBackExact`, when the four-span look-back suffices, and
  `FindInnermost`, which takes a tree of entries through the walk and the lookup to the entry the
  tree itself calls innermost.
 */
module DwarfFind {
  import opened Prelude
  import opened DwarfTree
  import opened DwarfWalk

  predicate Contains(r: Range, pc: nat)
  {
    r.start <= pc < r.end
  }

  // ---- the lookup

  /** How many spans, in start order, start at or before `pc`. */
  ghost function Reach(spans: seq<Span>, pc: nat): (n: nat)
    ensures n <= |spans|
  {
    if spans == [] || spans[|spans| - 1].range.start <= pc then |spans| else Reach(spans[..|spans| - 1], pc)
  }

  /** The last span of `lo..hi` that contains `pc`. */
  ghost function Latest(spans: seq<Span>, pc: nat, lo: nat, hi: nat): (k: Option<nat>)
    requires hi <= |spans|
    ensures k.Some? ==> lo <= k.value < hi && Contains(spans[k.value].range, pc)
    ensures forall j :: (if k.Some? then k.value else lo - 1) < j < hi ==> !Contains(spans[j].range, pc)
    decreases hi
  {
    if hi <= lo then None
    else if Contains(spans[hi - 1].range, pc) then Some(hi - 1)
    else Latest(spans, pc, lo, hi - 1)
  }

  function SaturatingSub(x: nat, y: nat): (r: nat)
  {
    if x < y then 0 else x - y
  }

  ghost function Chosen(spans: seq<Span>, pc: nat): (k: Option<nat>)
  {
    Latest(spans, pc, SaturatingSub(Reach(spans, pc), 4), Reach(spans, pc))
  }

  /** The deepest inlined call containing `pc`, the first of several; `acc` if none beats it. */
  ghost function Deepest(xs: seq<Inl>, pc: nat, acc: Option<Inl>): (r: Option<Inl>)
    decreases |xs|
  {
    if xs == [] then acc
    else if Contains(xs[0].range, pc) && (acc.None? || xs[0].depth > acc.value.depth)
    then Deepest(xs[1..], pc, Some(xs[0]))
    else Deepest(xs[1..], pc, acc)
  }

  ghost function InnerName(s: Sub, pc: nat): (n: Name)
  {
    match Deepest(s.inlines, pc, None)
    case None => s.name
    case Some(x) => x.name
  }

  ghost function Lookup(t: Table, pc: nat): (r: Option<Name>)
  {
    match Chosen(t.spans, pc)
    case None => None
    case Some(k) =>
      var i := t.spans[k].idx;
      if i < |t.subs| then Some(InnerName(t.subs[i], pc)) else None
  }

  method PartitionPoint(spans: seq<Span>, pc: nat) returns (i: nat)
    requires SortedSpans(spans)
    ensures i == Reach(spans, pc)
  {
    var lo, hi := 0, |spans|;
    while lo < hi
      invariant 0 <= lo <= hi <= |spans|
      invariant forall j :: 0 <= j < lo ==> spans[j].range.start <= pc
      invariant forall j :: hi <= j < |spans| ==> spans[j].range.start > pc
    {
      var mid := (lo + hi) / 2;
      if spans[mid].range.start <= pc {
        lo := mid + 1;
      } else {
        hi := mid;
      }
    }
    i := lo;
    ReachIs(spans, pc, i);
  }

  lemma {:induction false} ReachIs(spans: seq<Span>, pc: nat, i: nat)
    requires i <= |spans|
    requires forall j :: 0 <= j < i ==> spans[j].range.start <= pc
    requires forall j :: i <= j < |spans| ==> spans[j].range.start > pc
    ensures Reach(spans, pc) == i
    decreases |spans|
  {
    if i < |spans| {
      ReachIs(spans[..|spans| - 1], pc, i);
    }
  }

  method Find(t: Table, pc: nat) returns (r: Option<Name>)
    requires SortedSpans(t.spans)
    ensures r == Lookup(t, pc)
  {
    hide SortedSpans, Reach, Deepest;
    var i := PartitionPoint(t.spans, pc);
    var best: Option<Sub> := None;
    var lo := SaturatingSub(i, 4);
    var j := i;
    while j > lo
      invariant lo <= j <= i
      invariant Latest(t.spans, pc, lo, j) == Chosen(t.spans, pc)
      invariant best == None
    {
      j := j - 1;
      var s := t.spans[j];
      if Contains(s.range, pc) {
        if s.idx < |t.subs| {
          best := Some(t.subs[s.idx]);
        }
        assert Chosen(t.spans, pc) == Some(j);
        break;
      }
    }
    if best.None? {
      return None;
    }
    var name := Innermost(best.value, pc);
    r := Some(name);
  }

  method Innermost(s: Sub, pc: nat) returns (n: Name)
    ensures n == InnerName(s, pc)
  {
    var inner: Option<Inl> := None;
    for k := 0 to |s.inlines|
      invariant Deepest(s.inlines[k..], pc, inner) == Deepest(s.inlines, pc, None)
    {
      var x := s.inlines[k];
      assert s.inlines[k..][1..] == s.inlines[k + 1..];
      if Contains(x.range, pc) && (inner.None? || x.depth > inner.value.depth) {
        inner := Some(x);
      }
    }
    n := if inner.Some? then inner.value.name else s.name;
  }

  // ---- how far back is far enough

  lemma {:induction false} ReachBeyond(spans: seq<Span>, pc: nat, k: nat)
    requires k < |spans| && spans[k].range.start <= pc
    ensures k < Reach(spans, pc)
    decreases |spans|
  {
    if spans[|spans| - 1].range.start > pc {
      ReachBeyond(spans[..|spans| - 1], pc, k);
    }
  }

  /** The last span holding `pc` is found exactly when at most three later ones start by then. */
  lemma LookBackExact(spans: seq<Span>, pc: nat, k: nat)
    requires k < |spans| && Contains(spans[k].range, pc)
    requires forall j :: k < j < |spans| ==> !Contains(spans[j].range, pc)
    ensures Chosen(spans, pc) == if Reach(spans, pc) <= k + 4 then Some(k) else None
  {
    ReachBeyond(spans, pc, k);
    hide Reach;
    var n := Reach(spans, pc);
    var r := Latest(spans, pc, SaturatingSub(n, 4), n);
    if r.Some? {
      assert r.value == k;
    }
  }

  lemma NothingChosen(spans: seq<Span>, pc: nat)
    requires forall j :: 0 <= j < |spans| ==> !Contains(spans[j].range, pc)
    ensures Chosen(spans, pc) == None
  {
  }

  ghost predicate Apart(r: Range, s: Range)
  {
    r.end <= s.start || s.end <= r.start
  }

  /** Function ranges as compilers emit them: none empty, no two sharing an address. */
  ghost predicate DisjointSpans(m: multiset<Span>)
  {
    && (forall x :: x in m ==> m[x] == 1 && x.range.start < x.range.end)
    && forall x, y :: x in m && y in m && x != y ==> Apart(x.range, y.range)
  }

  lemma SeenTwice(spans: seq<Span>, a: nat, b: nat)
    requires a < b < |spans| && spans[a] == spans[b]
    ensures multiset(spans)[spans[b]] >= 2
  {
    assert spans == spans[..b] + [spans[b]] + spans[b + 1..];
    assert spans[..b][a] == spans[b];
  }

  lemma DisjointApart(spans: seq<Span>, a: nat, b: nat)
    requires DisjointSpans(multiset(spans)) && a < b < |spans|
    ensures spans[a].range.start < spans[a].range.end && spans[b].range.start < spans[b].range.end
    ensures Apart(spans[a].range, spans[b].range)
  {
    assert spans[a] in multiset(spans) && spans[b] in multiset(spans);
    if spans[a] == spans[b] {
      SeenTwice(spans, a, b);
      assert false;
    }
  }

  /** With disjoint spans the span holding `pc` is the last one to start by then. */
  lemma DisjointChosen(spans: seq<Span>, pc: nat, k: nat)
    requires SortedSpans(spans) && DisjointSpans(multiset(spans))
    requires k < |spans| && Contains(spans[k].range, pc)
    ensures Chosen(spans, pc) == Some(k)
  {
    hide DisjointSpans, Chosen, Reach;
    forall j | k < j < |spans| ensures spans[j].range.start > pc {
      DisjointApart(spans, k, j);
    }
    forall j | 0 <= j < k + 1 ensures spans[j].range.start <= pc {
    }
    ReachIs(spans, pc, k + 1);
    LookBackExact(spans, pc, k);
  }

  // ---- what the tree calls innermost

  ghost predicate Holds(ranges: seq<Range>, pc: nat)
  {
    exists i :: 0 <= i < |ranges| && Contains(ranges[i], pc)
  }

  /** The innermost inlined call at `pc` among those below `d` that belong to the function around it. */
  ghost function InlineAt(d: Die, scopes: seq<string>, q: bool, pc: nat): (r: Option<Name>)
    ensures r.Some? <==> Hit(d, pc)
    decreases d
  {
    if Opener(d.info) then None
    else
      var below := if d.info.children then InlineAtOf(d.kids, InnerScopes(d.info, scopes, q), q, pc) else None;
      if below.Some? then below
      else if d.info.tag == Inlined && Holds(d.info.ranges, pc) then Some(Resolved(d.info, scopes))
      else None
  }

  ghost function InlineAtOf(ds: seq<Die>, scopes: seq<string>, q: bool, pc: nat): (r: Option<Name>)
    ensures r.Some? <==> HitAny(ds, pc)
    decreases ds
  {
    if ds == [] then None
    else
      var r := InlineAt(ds[0], scopes, q, pc);
      if r.Some? then r else InlineAtOf(ds[1..], scopes, q, pc)
  }

  ghost predicate Hit(d: Die, pc: nat)
    decreases d
  {
    && !Opener(d.info)
    && ((d.info.tag == Inlined && Holds(d.info.ranges, pc)) || (d.info.children && HitAny(d.kids, pc)))
  }

  ghost predicate HitAny(ds: seq<Die>, pc: nat)
    decreases ds
  {
    ds != [] && (Hit(ds[0], pc) || HitAny(ds[1..], pc))
  }

  /** At `pc`, inlined calls nest: a call lies within the call around it, and siblings do not overlap. */
  ghost predicate Laminar(d: Die, pc: nat)
    decreases d
  {
    || Opener(d.info)
    || (d.info.children ==>
          LaminarAll(d.kids, pc) && (d.info.tag == Inlined && HitAny(d.kids, pc) ==> Holds(d.info.ranges, pc)))
  }

  ghost predicate LaminarAll(ds: seq<Die>, pc: nat)
    decreases ds
  {
    ds == [] || (Laminar(ds[0], pc) && LaminarAll(ds[1..], pc) && !(Hit(ds[0], pc) && HitAny(ds[1..], pc)))
  }

  /** Inlining is nowhere so deep that its sixteen-bit depth wraps. */
  ghost predicate Fits(d: Die, level: nat)
    decreases d
  {
    level < 0xffff && (d.info.children ==> FitAll(d.kids, InnerLevel(d.info, level)))
  }

  ghost predicate FitAll(ds: seq<Die>, level: nat)
    decreases ds
  {
    ds == [] || (Fits(ds[0], level) && FitAll(ds[1..], level))
  }

  /** The innermost entry of the tree at `pc`: an inlined call, or the function itself. */
  ghost function Answer(d: Die, scopes: seq<string>, q: bool, pc: nat): (r: Option<Name>)
    decreases d
  {
    var inner := InnerScopes(d.info, scopes, q);
    if d.info.tag == Subprogram && Holds(d.info.ranges, pc) then
      var below := if d.info.children then InlineAtOf(d.kids, inner, q, pc) else None;
      if below.Some? then below else Some(Resolved(d.info, scopes))
    else if d.info.children then AnswerOf(d.kids, inner, q, pc)
    else None
  }

  ghost function AnswerOf(ds: seq<Die>, scopes: seq<string>, q: bool, pc: nat): (r: Option<Name>)
    decreases ds
  {
    if ds == [] then None
    else
      var r := Answer(ds[0], scopes, q, pc);
      if r.Some? then r else AnswerOf(ds[1..], scopes, q, pc)
  }

  // ---- the deepest record is the innermost call

  lemma {:induction false} DeepestAppend(x: seq<Inl>, y: seq<Inl>, pc: nat, acc: Option<Inl>)
    ensures Deepest(x + y, pc, acc) == Deepest(y, pc, Deepest(x, pc, acc))
    decreases |x|
  {
    if x == [] {
      assert x + y == y;
    } else {
      assert (x + y)[1..] == x[1..] + y;
      DeepestAppend(x[1..], y, pc,
                    if Contains(x[0].range, pc) && (acc.None? || x[0].depth > acc.value.depth) then Some(x[0]) else acc);
    }
  }

  /** Several ranges of one call: all records have the same depth, so the first that holds stays. */
  lemma {:induction false} DeepestSame(xs: seq<Inl>, pc: nat, acc: Option<Inl>, depth: nat, name: Name)
    requires forall i :: 0 <= i < |xs| ==> xs[i].depth == depth && xs[i].name == name
    requires acc.Some? ==> acc.value.depth < depth || (acc.value.depth == depth && acc.value.name == name)
    ensures var r := Deepest(xs, pc, acc);
            if acc.Some? && acc.value.depth == depth then r == acc
            else if exists i :: 0 <= i < |xs| && Contains(xs[i].range, pc)
            then r.Some? && r.value.depth == depth && r.value.name == name
            else r == acc
    decreases |xs|
  {
    if xs != [] {
      var next := if Contains(xs[0].range, pc) && (acc.None? || xs[0].depth > acc.value.depth) then Some(xs[0]) else acc;
      DeepestSame(xs[1..], pc, next, depth, name);
      if i :| 0 <= i < |xs| && Contains(xs[i].range, pc) {
        assert i > 0 ==> xs[1..][i - 1] == xs[i];
      }
    }
  }

  lemma DeepestOwn(x: Info, scopes: seq<string>, level: nat, pc: nat, acc: Option<Inl>)
    requires level < 0xffff && (acc.Some? ==> acc.value.depth <= level)
    ensures var r := Deepest(OwnInlines(x, scopes, level), pc, acc);
            if x.tag == Inlined && Holds(x.ranges, pc)
            then r.Some? && r.value.depth == level + 1 && r.value.name == Resolved(x, scopes)
            else r == acc
  {
    hide Resolved;
    var own := OwnInlines(x, scopes, level);
    assert Depth(level) == level + 1;
    DeepestSame(own, pc, acc, level + 1, Resolved(x, scopes));
    if x.tag == Inlined {
      if i :| 0 <= i < |x.ranges| && Contains(x.ranges[i], pc) {
        assert Contains(own[i].range, pc);
      }
      if i :| 0 <= i < |own| && Contains(own[i].range, pc) {
        assert Contains(x.ranges[i], pc);
      }
    }
  }

  lemma {:induction false} DeepestMiss(d: Die, scopes: seq<string>, level: nat, q: bool, pc: nat, acc: Option<Inl>)
    requires !Hit(d, pc)
    ensures Deepest(Inlines(d, scopes, level, q), pc, acc) == acc
    decreases d
  {
    if !Opener(d.info) {
      var own := OwnInlines(d.info, scopes, level);
      assert Deepest(own, pc, acc) == acc by { OwnMiss(d.info, scopes, level, pc, acc); }
      if d.info.children {
        var inner, deeper := InnerScopes(d.info, scopes, q), InnerLevel(d.info, level);
        DeepestAppend(own, InlinesOf(d.kids, inner, deeper, q), pc, acc);
        DeepestMissAll(d.kids, inner, deeper, q, pc, acc);
      } else {
        assert own + [] == own;
      }
    }
  }

  lemma OwnMiss(x: Info, scopes: seq<string>, level: nat, pc: nat, acc: Option<Inl>)
    requires x.tag == Inlined ==> !Holds(x.ranges, pc)
    ensures Deepest(OwnInlines(x, scopes, level), pc, acc) == acc
  {
    hide Resolved;
    var own := OwnInlines(x, scopes, level);
    forall i | 0 <= i < |own| ensures !Contains(own[i].range, pc) {
      assert own[i].range == x.ranges[i];
    }
    AllMiss(own, pc, acc);
  }

  lemma {:induction false} AllMiss(xs: seq<Inl>, pc: nat, acc: Option<Inl>)
    requires forall i :: 0 <= i < |xs| ==> !Contains(xs[i].range, pc)
    ensures Deepest(xs, pc, acc) == acc
    decreases |xs|
  {
    if xs != [] {
      AllMiss(xs[1..], pc, acc);
    }
  }

  lemma {:induction false} DeepestMissAll(ds: seq<Die>, scopes: seq<string>, level: nat, q: bool, pc: nat,
                                          acc: Option<Inl>)
    requires !HitAny(ds, pc)
    ensures Deepest(InlinesOf(ds, scopes, level, q), pc, acc) == acc
    decreases ds
  {
    if ds != [] {
      DeepestAppend(Inlines(ds[0], scopes, level, q), InlinesOf(ds[1..], scopes, level, q), pc, acc);
      DeepestMiss(ds[0], scopes, level, q, pc, acc);
      DeepestMissAll(ds[1..], scopes, level, q, pc, acc);
    }
  }

  ghost predicate Found(r: Option<Inl>, acc: Option<Inl>, want: Option<Name>)
  {
    match want
    case None => r == acc
    case Some(n) => r.Some? && r.value.name == n
  }

  lemma {:induction false} DeepestDie(d: Die, scopes: seq<string>, level: nat, q: bool, pc: nat, acc: Option<Inl>)
    requires Laminar(d, pc) && Fits(d, level) && (acc.Some? ==> acc.value.depth <= level)
    ensures Found(Deepest(Inlines(d, scopes, level, q), pc, acc), acc, InlineAt(d, scopes, q, pc))
    decreases d
  {
    hide InnerScopes, Resolved, OwnInlines, Holds;
    var x := d.info;
    if !Opener(x) {
      var own := OwnInlines(x, scopes, level);
      DeepestOwn(x, scopes, level, pc, acc);
      var mid := Deepest(own, pc, acc);
      if x.children {
        var inner, deeper := InnerScopes(x, scopes, q), InnerLevel(x, level);
        DeepestAppend(own, InlinesOf(d.kids, inner, deeper, q), pc, acc);
        DeepestDies(d.kids, inner, deeper, q, pc, mid);
      } else {
        assert own + [] == own;
      }
    }
  }

  lemma {:induction false} DeepestDies(ds: seq<Die>, scopes: seq<string>, level: nat, q: bool, pc: nat,
                                       acc: Option<Inl>)
    requires LaminarAll(ds, pc) && FitAll(ds, level) && (acc.Some? ==> acc.value.depth <= level)
    ensures Found(Deepest(InlinesOf(ds, scopes, level, q), pc, acc), acc, InlineAtOf(ds, scopes, q, pc))
    decreases ds
  {
    if ds != [] {
      DeepestAppend(Inlines(ds[0], scopes, level, q), InlinesOf(ds[1..], scopes, level, q), pc, acc);
      DeepestDie(ds[0], scopes, level, q, pc, acc);
      if Hit(ds[0], pc) {
        DeepestMissAll(ds[1..], scopes, level, q, pc, Deepest(Inlines(ds[0], scopes, level, q), pc, acc));
      } else {
        DeepestDies(ds[1..], scopes, level, q, pc, acc);
      }
    }
  }

  // ---- from the tree to the answer

  /** Inlined calls nest properly at `pc` in every function of the tree. */
  ghost predicate LaminarTree(d: Die, pc: nat)
    decreases d
  {
    d.info.children ==> (Opener(d.info) ==> LaminarAll(d.kids, pc)) && LaminarTrees(d.kids, pc)
  }

  ghost predicate LaminarTrees(ds: seq<Die>, pc: nat)
    decreases ds
  {
    ds == [] || (LaminarTree(ds[0], pc) && LaminarTrees(ds[1..], pc))
  }

  ghost function FirstFunc(fs: seq<Func>, pc: nat): (k: Option<nat>)
    ensures k.Some? ==> k.value < |fs| && Holds(fs[k.value].ranges, pc)
    ensures k.None? ==> forall i :: 0 <= i < |fs| ==> !Holds(fs[i].ranges, pc)
    decreases |fs|
  {
    if fs == [] then None
    else if Holds(fs[0].ranges, pc) then Some(0)
    else
      var r := FirstFunc(fs[1..], pc);
      assert forall i :: 0 < i < |fs| ==> fs[1..][i - 1] == fs[i];
      if r.Some? then Some(r.value + 1) else None
  }

  ghost function FuncAnswer(fs: seq<Func>, pc: nat): (r: Option<Name>)
  {
    var k := FirstFunc(fs, pc);
    if k.None? then None else Some(InnerName(Sub(fs[k.value].name, fs[k.value].inlines), pc))
  }

  lemma {:induction false} FuncAnswerAppend(f: seq<Func>, g: seq<Func>, pc: nat)
    ensures FuncAnswer(f + g, pc) == if FuncAnswer(f, pc).Some? then FuncAnswer(f, pc) else FuncAnswer(g, pc)
    decreases |f|
  {
    hide InnerName, Holds;
    if f == [] {
      assert f + g == g;
    } else {
      assert (f + g)[1..] == f[1..] + g;
      FuncAnswerAppend(f[1..], g, pc);
    }
  }

  lemma FuncAnswerOne(f: Func, pc: nat)
    ensures FuncAnswer([f], pc) == if Holds(f.ranges, pc) then Some(InnerName(Sub(f.name, f.inlines), pc)) else None
  {
    hide InnerName, Holds;
  }

  lemma {:induction false} AnswerIs(d: Die, scopes: seq<string>, level: nat, q: bool, pc: nat)
    requires LaminarTree(d, pc) && Fits(d, level)
    ensures Answer(d, scopes, q, pc) == FuncAnswer(Funcs(d, scopes, level, q), pc)
    decreases d
  {
    hide FuncAnswer, Resolved, InnerScopes, Holds;
    var x := d.info;
    var inner, deeper := InnerScopes(x, scopes, q), InnerLevel(x, level);
    var rest := if x.children then FuncsOf(d.kids, inner, deeper, q) else [];
    if x.children {
      AnswerOfIs(d.kids, inner, deeper, q, pc);
    } else {
      NoAnswer(pc);
    }
    if x.tag == Subprogram && x.ranges != [] {
      var f := Func(x.ranges, Resolved(x, scopes), if x.children then InlinesOf(d.kids, inner, deeper, q) else []);
      assert Funcs(d, scopes, level, q) == [f] + rest;
      FuncAnswerAppend([f], rest, pc);
      FuncAnswerOne(f, pc);
      if x.children {
        DeepestDies(d.kids, inner, deeper, q, pc, None);
      }
    } else {
      assert Funcs(d, scopes, level, q) == rest;
      NothingHeld(x.ranges, pc);
    }
  }

  lemma NothingHeld(ranges: seq<Range>, pc: nat)
    ensures ranges == [] ==> !Holds(ranges, pc)
  {
  }

  lemma NoAnswer(pc: nat)
    ensures FuncAnswer([], pc) == None
  {
  }

  lemma {:induction false} AnswerOfIs(ds: seq<Die>, scopes: seq<string>, level: nat, q: bool, pc: nat)
    requires LaminarTrees(ds, pc) && FitAll(ds, level)
    ensures AnswerOf(ds, scopes, q, pc) == FuncAnswer(FuncsOf(ds, scopes, level, q), pc)
    decreases ds
  {
    hide FuncAnswer;
    if ds == [] {
      NoAnswer(pc);
    } else {
      AnswerIs(ds[0], scopes, level, q, pc);
      AnswerOfIs(ds[1..], scopes, level, q, pc);
      FuncAnswerAppend(Funcs(ds[0], scopes, level, q), FuncsOf(ds[1..], scopes, level, q), pc);
    }
  }

  lemma {:induction false} SpanOf(fs: seq<Func>, base: nat, n: nat, i: nat)
    requires n < |fs| && i < |fs[n].ranges|
    ensures Span(fs[n].ranges[i], base + n) in AllSpans(fs, base)
    decreases |fs|
  {
    if n == 0 {
      assert Spans(fs[0].ranges, base)[i] == Span(fs[0].ranges[i], base);
    } else {
      SpanOf(fs[1..], base + 1, n - 1, i);
    }
  }

  lemma {:induction false} SpanFrom(fs: seq<Func>, base: nat, x: Span) returns (n: nat, i: nat)
    requires x in AllSpans(fs, base)
    ensures n < |fs| && i < |fs[n].ranges| && x == Span(fs[n].ranges[i], base + n)
    decreases |fs|
  {
    if x in Spans(fs[0].ranges, base) {
      i :| 0 <= i < |fs[0].ranges| && Spans(fs[0].ranges, base)[i] == x;
      n := 0;
    } else {
      n, i := SpanFrom(fs[1..], base + 1, x);
      n := n + 1;
    }
  }

  lemma TableOfIs(fs: seq<Func>)
    ensures TableOf(fs).spans == AllSpans(fs, 0) && |TableOf(fs).subs| == |fs|
    ensures forall n :: 0 <= n < |fs| ==> TableOf(fs).subs[n] == Sub(fs[n].name, fs[n].inlines)
  {
    hide AllSpans;
  }

  lemma Elsewhere(s: seq<Span>, t: seq<Span>, x: Span) returns (k: nat)
    requires multiset(s) == multiset(t) && x in s
    ensures k < |t| && t[k] == x
  {
    assert x in multiset(s);
    k :| 0 <= k < |t| && t[k] == x;
  }

  lemma ChosenHit(fs: seq<Func>, spans: seq<Span>, pc: nat, n: nat)
    requires multiset(spans) == multiset(AllSpans(fs, 0)) && SortedSpans(spans) && DisjointSpans(multiset(spans))
    requires n < |fs| && Holds(fs[n].ranges, pc)
    ensures var k := Chosen(spans, pc); k.Some? && spans[k.value].idx == n
  {
    hide SortedSpans, DisjointSpans, Chosen, AllSpans;
    var i :| 0 <= i < |fs[n].ranges| && Contains(fs[n].ranges[i], pc);
    SpanOf(fs, 0, n, i);
    var k := Elsewhere(AllSpans(fs, 0), spans, Span(fs[n].ranges[i], n));
    DisjointChosen(spans, pc, k);
  }

  lemma ChosenMiss(fs: seq<Func>, spans: seq<Span>, pc: nat)
    requires multiset(spans) == multiset(AllSpans(fs, 0))
    requires forall n :: 0 <= n < |fs| ==> !Holds(fs[n].ranges, pc)
    ensures Chosen(spans, pc) == None
  {
    hide Chosen, AllSpans;
    forall j | 0 <= j < |spans| ensures !Contains(spans[j].range, pc) {
      var k := Elsewhere(spans, AllSpans(fs, 0), spans[j]);
      var n, i := SpanFrom(fs, 0, AllSpans(fs, 0)[k]);
      assert !Holds(fs[n].ranges, pc);
      assert !Contains(fs[n].ranges[i], pc);
    }
    NothingChosen(spans, pc);
  }

  /** A table of disjoint functions, however its spans are ordered by start, answers from the right one. */
  lemma LookupOfFuncs(fs: seq<Func>, t: Table, pc: nat)
    requires t.subs == TableOf(fs).subs && multiset(t.spans) == multiset(TableOf(fs).spans)
    requires SortedSpans(t.spans) && DisjointSpans(multiset(t.spans))
    ensures Lookup(t, pc) == FuncAnswer(fs, pc)
  {
    hide SortedSpans, DisjointSpans, Chosen, InnerName, TableOf, AllSpans, Holds, FirstFunc;
    TableOfIs(fs);
    var first := FirstFunc(fs, pc);
    if first.Some? {
      ChosenHit(fs, t.spans, pc, first.value);
    } else {
      ChosenMiss(fs, t.spans, pc);
    }
  }

  /**
    Walk a unit and look up an address: the result is the innermost function or inlined call that
    the tree of entries has there, and nothing where it has none.
   */
  lemma FindInnermost(root: Die, tail: seq<Item>, q: bool, t: Table, pc: nat)
    requires root.info.children && Tidy(root) && LaminarTree(root, pc) && Fits(root, 0)
    requires var r := Pass(Start(), Flat(root) + tail, q);
             t.subs == r.table.subs && SortedSpans(t.spans) && multiset(t.spans) == multiset(r.table.spans)
    requires DisjointSpans(multiset(t.spans))
    ensures Lookup(t, pc) == Answer(root, [], q, pc)
  {
    hide Pass, Flat, Funcs, Answer, Tidy, LaminarTree, Fits, SortedSpans, DisjointSpans, Lookup, FuncAnswer, TableOf;
    WalkExact(root, tail, q);
    LookupOfFuncs(Funcs(root, [], 0, q), t, pc);
    AnswerIs(root, [], 0, q, pc);
  }

  // ---- a function nested in another

  /** A function with a nested function and then an inlined call. */
  ghost function Nesting(nested: Info, call: Info, outer: Info): (d: Die)
  {
    Die(outer, [Die(nested, []), Die(call, [])])
  }

  lemma NestingUnfolds(nested: Info, call: Info, outer: Info, q: bool, pc: nat)
    requires Opener(nested) && Opener(outer) && call.tag == Inlined && call.ranges != [] && !call.children
    requires Holds(call.ranges, pc) && Holds(outer.ranges, pc)
    ensures var d := Nesting(nested, call, outer);
            && !Tidy(d) && LaminarTree(d, pc) && Fits(d, 0)
            && Answer(d, [], q, pc) == Some(Resolved(call, []))
            && FuncAnswer(KeptFuncs(d, [], 0, q), pc) == Some(Resolved(outer, []))
  {
    hide Resolved, Holds, FuncAnswer, OwnInlines;
    var n, c := Die(nested, []), Die(call, []);
    var kids := [n, c];
    var d := Nesting(nested, call, outer);
    assert kids[1..] == [c] && [c][1..] == [];
    assert HasOpener(n) && HaveInline([c]) && !PromptAll(kids);
    assert Kept(n, [], 0, q) == [] && KeptOf(kids, [], 0, q) == [];
    var f := Func(outer.ranges, Resolved(outer, []), []);
    var rest := KeptFuncsOf(kids, [], 0, q);
    assert KeptFuncs(d, [], 0, q) == [f] + rest;
    FuncAnswerAppend([f], rest, pc);
    FuncAnswerOne(f, pc);
    assert InlineAt(c, [], q, pc) == Some(Resolved(call, []));
    assert InlineAtOf([c], [], q, pc) == Some(Resolved(call, []));
    assert InlineAt(n, [], q, pc) == None;
    assert LaminarAll([c], pc) && LaminarAll(kids, pc);
    assert LaminarTree(c, pc) && LaminarTree(n, pc) && LaminarTrees([c], pc);
    assert Fits(c, 0) && Fits(n, 0) && FitAll([c], 0);
  }

  /** A unit holding just that function. */
  ghost function NestingUnit(nested: Info, call: Info, outer: Info): (d: Die)
  {
    Die(Info(0, Other, None, Absent, Absent, [], true), [Nesting(nested, call, outer)])
  }

  /** The unit's answers are its function's. */
  lemma UnitUnfolds(d: Die, q: bool, pc: nat)
    requires !Tidy(d) && LaminarTree(d, pc) && Fits(d, 0)
    ensures var u := Die(Info(0, Other, None, Absent, Absent, [], true), [d]);
            && !Tidy(u) && LaminarTree(u, pc) && Fits(u, 0)
            && KeptFuncs(u, [], 0, q) == KeptFuncs(d, [], 0, q)
            && Answer(u, [], q, pc) == Answer(d, [], q, pc)
  {
    var u := Die(Info(0, Other, None, Absent, Absent, [], true), [d]);
    assert [d][1..] == [];
    hide Holds;
    assert !TidyAll([d]) && LaminarTrees([d], pc) && FitAll([d], 0);
    assert AnswerOf([d], [], q, pc) == Answer(d, [], q, pc);
    assert KeptFuncsOf([d], [], 0, q) == KeptFuncs(d, [], 0, q) + KeptFuncsOf([], [], 0, q);
    assert KeptFuncs(u, [], 0, q) == [] + KeptFuncsOf([d], [], 0, q);
  }

  lemma NestingSpans(nested: Info, call: Info, outer: Info, q: bool)
    requires Opener(nested) && Opener(outer) && call.tag == Inlined && !call.children
    requires |nested.ranges| == 1 && |outer.ranges| == 1
    ensures TableOf(KeptFuncs(Nesting(nested, call, outer), [], 0, q)).spans
         == [Span(outer.ranges[0], 0), Span(nested.ranges[0], 1)]
  {
    hide Resolved, OwnInlines, Kept;
    var n, c := Die(nested, []), Die(call, []);
    var kids := [n, c];
    var d := Nesting(nested, call, outer);
    assert kids[1..] == [c] && [c][1..] == [];
    assert KeptFuncs(c, [], 0, q) == [] && KeptFuncsOf([c], [], 0, q) == [] + KeptFuncsOf([], [], 0, q);
    var g := Func(nested.ranges, Resolved(nested, []), KeptOf([], [], 0, q));
    assert KeptFuncs(n, [], 0, q) == [g] + KeptFuncsOf([], [], 0, q);
    assert KeptFuncsOf(kids, [], 0, q) == [g] + [];
    var f := Func(outer.ranges, Resolved(outer, []), KeptOf(kids, [], 0, q));
    assert KeptFuncs(d, [], 0, q) == [f] + [g];
    assert [f, g][1..] == [g] && [g][1..] == [];
    assert AllSpans([g], 1) == Spans(g.ranges, 1) + AllSpans([], 2);
    assert AllSpans([f, g], 0) == Spans(f.ranges, 0) + AllSpans([g], 1);
    TableOfIs([f, g]);
  }

  /**
    A nested function hides the inlined calls that follow it: walked and looked up, this unit names the
    outer function where its tree has an inlined call.
   */
  lemma NestedFunctionHides(tail: seq<Item>, t: Table)
    requires var nested := Info(20, Subprogram, Some("g"), Absent, Absent, [Range(200, 300)], true);
             var call := Info(30, Inlined, Some("i"), Absent, Absent, [Range(10, 20)], false);
             var outer := Info(10, Subprogram, Some("f"), Absent, Absent, [Range(0, 100)], true);
             var r := Pass(Start(), Flat(NestingUnit(nested, call, outer)) + tail, false);
             t.subs == r.table.subs && SortedSpans(t.spans) && multiset(t.spans) == multiset(r.table.spans)
    ensures var nested := Info(20, Subprogram, Some("g"), Absent, Absent, [Range(200, 300)], true);
            var call := Info(30, Inlined, Some("i"), Absent, Absent, [Range(10, 20)], false);
            var outer := Info(10, Subprogram, Some("f"), Absent, Absent, [Range(0, 100)], true);
            var unit := NestingUnit(nested, call, outer);
            && !Tidy(unit) && LaminarTree(unit, 15) && Fits(unit, 0) && DisjointSpans(multiset(t.spans))
            && Answer(unit, [], false, 15) == Some(Direct("i"))
            && Lookup(t, 15) == Some(Direct("f"))
  {
    hide FuncAnswer, KeptFuncs, Answer, LaminarTree, Fits, Tidy, Nesting, Pass, Flat, Lookup, TableOf, SortedSpans;
    var nested := Info(20, Subprogram, Some("g"), Absent, Absent, [Range(200, 300)], true);
    var call := Info(30, Inlined, Some("i"), Absent, Absent, [Range(10, 20)], false);
    var outer := Info(10, Subprogram, Some("f"), Absent, Absent, [Range(0, 100)], true);
    var unit := NestingUnit(nested, call, outer);
    assert Contains(call.ranges[0], 15) && Contains(outer.ranges[0], 15);
    assert Holds(call.ranges, 15) && Holds(outer.ranges, 15);
    NestingUnfolds(nested, call, outer, false, 15);
    UnitUnfolds(Nesting(nested, call, outer), false, 15);
    assert Prefix([]) + "i" == "i" && Prefix([]) + "f" == "f";
    WalkOfTree(unit, tail, false);
    NestingSpans(nested, call, outer, false);
    TwoApart(t.spans, Span(outer.ranges[0], 0), Span(nested.ranges[0], 1));
    LookupOfFuncs(KeptFuncs(unit, [], 0, false), t, 15);
  }

  lemma TwoApart(spans: seq<Span>, x: Span, y: Span)
    requires multiset(spans) == multiset([x, y]) && x != y && Apart(x.range, y.range)
    requires x.range.start < x.range.end && y.range.start < y.range.end
    ensures DisjointSpans(multiset(spans))
  {
    assert multiset([x, y]) == multiset{x, y};
  }

  // ---- too many functions back

  /** Four functions inside a fifth, all started before the address, and it is not found. */
  lemma LookBackMisses()
    ensures var spans := [Span(Range(0, 100), 0), Span(Range(1, 2), 1), Span(Range(2, 3), 2), Span(Range(3, 4), 3),
                          Span(Range(4, 5), 4)];
            SortedSpans(spans) && Contains(spans[0].range, 50) && Chosen(spans, 50) == None
  {
    var spans := [Span(Range(0, 100), 0), Span(Range(1, 2), 1), Span(Range(2, 3), 2), Span(Range(3, 4), 3),
                  Span(Range(4, 5), 4)];
    ReachIs(spans, 50, 5);
    LookBackExact(spans, 50, 0);
  }
}

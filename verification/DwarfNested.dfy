/**
  `FuncTable::find` (vock/src/dwarf/unit.rs) where functions nest: the span looked up is that of the
  innermost function at the address, as far back as the look-back goes. Main result: `FindNested`, from
  the tree of entries through the walk to the lookup.
 */
module DwarfNested {
  import opened Prelude
  import opened DwarfTree
  import opened DwarfWalk
  import opened DwarfFind

  /** The last function in the order of entries to hold `pc`: functions come after those around them. */
  ghost function LastFunc(fs: seq<Func>, pc: nat): (k: Option<nat>)
    ensures k.Some? ==> k.value < |fs| && Holds(fs[k.value].ranges, pc)
    ensures forall i :: (if k.Some? then k.value else -1) < i < |fs| ==> !Holds(fs[i].ranges, pc)
  {
    if fs == [] then None
    else if Holds(fs[|fs| - 1].ranges, pc) then Some(|fs| - 1)
    else LastFunc(fs[..|fs| - 1], pc)
  }

  ghost function LastAnswer(fs: seq<Func>, pc: nat): (r: Option<Name>)
  {
    var k := LastFunc(fs, pc);
    if k.None? then None else Some(InnerName(Sub(fs[k.value].name, fs[k.value].inlines), pc))
  }

  lemma {:induction false} LastAnswerAppend(f: seq<Func>, g: seq<Func>, pc: nat)
    ensures LastAnswer(f + g, pc) == if LastAnswer(g, pc).Some? then LastAnswer(g, pc) else LastAnswer(f, pc)
    decreases |g|
  {
    hide InnerName, Holds;
    if g == [] {
      assert f + g == f;
    } else {
      assert (f + g)[..|f + g| - 1] == f + g[..|g| - 1];
      LastAnswerAppend(f, g[..|g| - 1], pc);
    }
  }

  lemma LastAnswerOne(f: Func, pc: nat)
    ensures LastAnswer([f], pc) == if Holds(f.ranges, pc) then Some(InnerName(Sub(f.name, f.inlines), pc)) else None
  {
    hide InnerName, Holds;
    assert [f][..0] == [];
  }

  lemma NoLastAnswer(pc: nat)
    ensures LastAnswer([], pc) == None
  {
  }

  // ---- the innermost function of a tree

  /** The innermost entry of the tree at `pc` when functions may lie within functions. */
  ghost function Deep(d: Die, scopes: seq<string>, q: bool, pc: nat): (r: Option<Name>)
    decreases d
  {
    var inner := InnerScopes(d.info, scopes, q);
    var within := if d.info.children then DeepOf(d.kids, inner, q, pc) else None;
    if within.Some? then within
    else if d.info.tag == Subprogram && Holds(d.info.ranges, pc) then
      var call := if d.info.children then InlineAtOf(d.kids, inner, q, pc) else None;
      if call.Some? then call else Some(Resolved(d.info, scopes))
    else None
  }

  ghost function DeepOf(ds: seq<Die>, scopes: seq<string>, q: bool, pc: nat): (r: Option<Name>)
    decreases ds
  {
    if ds == [] then None
    else
      var later := DeepOf(ds[1..], scopes, q, pc);
      if later.Some? then later else Deep(ds[0], scopes, q, pc)
  }

  lemma {:induction false} DeepIs(d: Die, scopes: seq<string>, level: nat, q: bool, pc: nat)
    requires LaminarTree(d, pc) && Fits(d, level)
    ensures Deep(d, scopes, q, pc) == LastAnswer(Funcs(d, scopes, level, q), pc)
    decreases d
  {
    hide LastAnswer, Resolved, InnerScopes, Holds;
    var x := d.info;
    var inner, deeper := InnerScopes(x, scopes, q), InnerLevel(x, level);
    var rest := if x.children then FuncsOf(d.kids, inner, deeper, q) else [];
    if x.children {
      DeepOfIs(d.kids, inner, deeper, q, pc);
    } else {
      NoLastAnswer(pc);
    }
    if x.tag == Subprogram && x.ranges != [] {
      var f := Func(x.ranges, Resolved(x, scopes), if x.children then InlinesOf(d.kids, inner, deeper, q) else []);
      assert Funcs(d, scopes, level, q) == [f] + rest;
      LastAnswerAppend([f], rest, pc);
      LastAnswerOne(f, pc);
      if x.children {
        DeepestDies(d.kids, inner, deeper, q, pc, None);
      }
    } else {
      assert Funcs(d, scopes, level, q) == rest;
      NothingHeld(x.ranges, pc);
    }
  }

  lemma {:induction false} DeepOfIs(ds: seq<Die>, scopes: seq<string>, level: nat, q: bool, pc: nat)
    requires LaminarTrees(ds, pc) && FitAll(ds, level)
    ensures DeepOf(ds, scopes, q, pc) == LastAnswer(FuncsOf(ds, scopes, level, q), pc)
    decreases ds
  {
    hide LastAnswer;
    if ds == [] {
      NoLastAnswer(pc);
    } else {
      DeepIs(ds[0], scopes, level, q, pc);
      DeepOfIs(ds[1..], scopes, level, q, pc);
      LastAnswerAppend(Funcs(ds[0], scopes, level, q), FuncsOf(ds[1..], scopes, level, q), pc);
    }
  }

  // ---- from the tree to the lookup

  /** At `pc`, a function within another one starts after it. */
  ghost predicate NestedAt(fs: seq<Func>, pc: nat)
  {
    forall n, m, i, k ::
      (&& 0 <= n < m < |fs| && 0 <= i < |fs[n].ranges| && 0 <= k < |fs[m].ranges|
       && Contains(fs[n].ranges[i], pc) && Contains(fs[m].ranges[k], pc)) ==>
      fs[n].ranges[i].start < fs[m].ranges[k].start
  }

  /** The last span holding `pc` is that of the last function holding it. */
  lemma LastSpan(fs: seq<Func>, spans: seq<Span>, pc: nat, k: nat)
    requires multiset(spans) == multiset(AllSpans(fs, 0)) && SortedSpans(spans) && NestedAt(fs, pc)
    requires k < |spans| && Contains(spans[k].range, pc)
    requires forall j :: k < j < |spans| ==> !Contains(spans[j].range, pc)
    ensures LastFunc(fs, pc) == Some(spans[k].idx)
  {
    hide AllSpans, LastFunc;
    var at := Elsewhere(spans, AllSpans(fs, 0), spans[k]);
    var n, i := SpanFrom(fs, 0, AllSpans(fs, 0)[at]);
    assert Holds(fs[n].ranges, pc);
    LastIs(fs, pc, n);
    var m := LastFunc(fs, pc).value;
    if m > n {
      var r :| 0 <= r < |fs[m].ranges| && Contains(fs[m].ranges[r], pc);
      SpanOf(fs, 0, m, r);
      var other := Elsewhere(AllSpans(fs, 0), spans, Span(fs[m].ranges[r], m));
    }
  }

  lemma LastIs(fs: seq<Func>, pc: nat, n: nat)
    requires n < |fs| && Holds(fs[n].ranges, pc)
    ensures var k := LastFunc(fs, pc); k.Some? && n <= k.value < |fs| && Holds(fs[k.value].ranges, pc)
  {
    hide Holds;
  }

  /** The answer, if the span it comes from is among the last four to start by `pc`. */
  ghost function InReach(spans: seq<Span>, pc: nat, answer: Option<Name>): (r: Option<Name>)
  {
    var k := Latest(spans, pc, 0, |spans|);
    if k.Some? && Reach(spans, pc) <= k.value + 4 then answer else None
  }

  /** A table of nested functions answers from the innermost one exactly when the look-back reaches it. */
  lemma LookupOfNested(fs: seq<Func>, t: Table, pc: nat)
    requires t.subs == TableOf(fs).subs && multiset(t.spans) == multiset(TableOf(fs).spans)
    requires SortedSpans(t.spans) && NestedAt(fs, pc)
    ensures Lookup(t, pc) == InReach(t.spans, pc, LastAnswer(fs, pc))
  {
    hide SortedSpans, InnerName, TableOf, AllSpans, Holds, LastFunc, NestedAt, Reach;
    TableOfIs(fs);
    var k := Latest(t.spans, pc, 0, |t.spans|);
    if k.Some? {
      LookBackExact(t.spans, pc, k.value);
      LastSpan(fs, t.spans, pc, k.value);
      LastInside(fs, pc);
    } else {
      NothingChosen(t.spans, pc);
    }
  }

  lemma LastInside(fs: seq<Func>, pc: nat)
    ensures LastFunc(fs, pc).Some? ==> LastFunc(fs, pc).value < |fs|
  {
    hide Holds;
  }

  /**
    Walk a unit and look up an address where functions may nest: the result is the innermost function
    or inlined call that the tree of entries has there, exactly when at most three later spans start
    by then.
   */
  lemma FindNested(root: Die, tail: seq<Item>, q: bool, t: Table, pc: nat)
    requires root.info.children && Tidy(root) && LaminarTree(root, pc) && Fits(root, 0)
    requires NestedAt(Funcs(root, [], 0, q), pc)
    requires var r := Pass(Start(), Flat(root) + tail, q);
             t.subs == r.table.subs && SortedSpans(t.spans) && multiset(t.spans) == multiset(r.table.spans)
    ensures Lookup(t, pc) == InReach(t.spans, pc, Deep(root, [], q, pc))
  {
    hide Pass, Flat, Funcs, Deep, Tidy, LaminarTree, Fits, SortedSpans, Lookup, LastAnswer, TableOf, InReach, NestedAt;
    WalkExact(root, tail, q);
    LookupOfNested(Funcs(root, [], 0, q), t, pc);
    DeepIs(root, [], 0, q, pc);
  }
}

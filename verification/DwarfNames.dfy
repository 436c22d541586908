/**
  The names `FuncTable::find` answers with (vock/src/dwarf/unit.rs): an entry's own name behind the names
  of the scopes around it, else its abstract origin, else its specification, as far as the walk and the
  lookup.
 */
module DwarfNames {
  import opened Prelude
  import opened DwarfTree
  import opened DwarfWalk
  import opened DwarfFind

  /** An entry with a name goes by it, one without by its origin, or by its specification if it has no origin. */
  lemma NameOrder(x: Info, scopes: seq<string>)
    ensures x.name.Some? ==> exists p :: Resolved(x, scopes) == Direct(p + x.name.value)
    ensures x.name.None? && x.origin.Ref? ==> Resolved(x, scopes) == At(x.origin.off)
    ensures x.name.None? && x.origin.Absent? && x.spec.Ref? ==> Resolved(x, scopes) == At(x.spec.off)
    ensures x.name.None? && (x.origin.Unusable? || (x.origin.Absent? && !x.spec.Ref?)) ==> Resolved(x, scopes) == NoName
  {
    if x.name.Some? {
      assert Resolved(x, scopes) == Direct(Prefix(scopes) + x.name.value);
    }
  }

  /** Scopes come outermost first. */
  lemma ScopesInOrder(x: Info, a: string, b: string)
    requires x.name.Some?
    ensures Resolved(x, []) == Direct(x.name.value)
    ensures Resolved(x, [a]) == Direct(a + "::" + x.name.value)
    ensures Resolved(x, [a, b]) == Direct(a + "::" + b + "::" + x.name.value)
  {
    assert [a][..0] == [] && [a, b][..1] == [a];
    assert Prefix([]) == "" && Prefix([a]) == "" + a + "::";
    assert "" + a == a && "" + x.name.value == x.name.value;
    assert Prefix([a, b]) == Prefix([a]) + b + "::";
  }

  ghost function UnitOf(d: Die): (u: Die)
  {
    Die(Info(0, Other, None, Absent, Absent, [], true), [d])
  }

  /** What a walk of the unit, sorted, may leave. */
  ghost predicate Walked(d: Die, tail: seq<Item>, q: bool, t: Table)
  {
    var r := Pass(Start(), Flat(UnitOf(d)) + tail, q);
    && t.subs == r.table.subs && SortedSpans(t.spans) && multiset(t.spans) == multiset(r.table.spans)
    && DisjointSpans(multiset(t.spans))
  }

  lemma UnitAnswers(d: Die, tail: seq<Item>, q: bool, t: Table, pc: nat)
    requires Tidy(d) && LaminarTree(d, pc) && Fits(d, 0) && Walked(d, tail, q, t)
    ensures Lookup(t, pc) == Answer(d, [], q, pc)
  {
    hide Pass, Flat, Lookup, SortedSpans, DisjointSpans;
    UnitIs(d, q, pc);
    FindInnermost(UnitOf(d), tail, q, t, pc);
  }

  lemma UnitIs(d: Die, q: bool, pc: nat)
    requires Tidy(d) && LaminarTree(d, pc) && Fits(d, 0)
    ensures var u := UnitOf(d);
            && Tidy(u) && LaminarTree(u, pc) && Fits(u, 0) && u.info.children
            && Answer(u, [], q, pc) == Answer(d, [], q, pc)
  {
    hide Holds;
    assert [d][1..] == [];
    assert TidyAll([]) && LaminarTrees([], pc) && FitAll([], 0);
    assert TidyAll([d]) && LaminarTrees([d], pc) && FitAll([d], 0);
    assert AnswerOf([d], [], q, pc) == Answer(d, [], q, pc);
  }

  // ---- inlined calls

  lemma CallTree(fn: Info, x: Info, q: bool, pc: nat)
    requires fn.tag == Subprogram && fn.children && Holds(fn.ranges, pc)
    requires x.tag == Inlined && !x.children && Holds(x.ranges, pc)
    ensures var d := Die(fn, [Die(x, [])]);
            Tidy(d) && LaminarTree(d, pc) && Fits(d, 0) && Answer(d, [], q, pc) == Some(Resolved(x, []))
  {
    hide Holds, Resolved;
    var c := Die(x, []);
    assert [c][1..] == [];
    assert !HasOpener(c) && !HaveOpener([c]) && PromptAll([c]) && Tidy(c) && TidyAll([c]);
    assert Laminar(c, pc) && LaminarAll([c], pc) && LaminarTree(c, pc) && LaminarTrees([c], pc);
    assert Fits(c, 0) && FitAll([c], 0);
    assert InlineAt(c, [], q, pc) == Some(Resolved(x, []));
    assert InlineAtOf([c], [], q, pc) == Some(Resolved(x, []));
  }

  /** An inlined call without a name is answered by the function it is an instance of. */
  lemma InlinedByOrigin(fn: Info, x: Info, o: nat, tail: seq<Item>, q: bool, t: Table, pc: nat)
    requires fn.tag == Subprogram && fn.children && Holds(fn.ranges, pc)
    requires x.tag == Inlined && !x.children && Holds(x.ranges, pc) && x.name == None && x.origin == Ref(o)
    requires Walked(Die(fn, [Die(x, [])]), tail, q, t)
    ensures Lookup(t, pc) == Some(At(o))
  {
    hide Walked, Holds, Lookup, Answer, Tidy, LaminarTree, Fits;
    CallTree(fn, x, q, pc);
    UnitAnswers(Die(fn, [Die(x, [])]), tail, q, t, pc);
    NameOrder(x, []);
  }

  // ---- functions in scopes

  lemma ScopeTree(scope: Info, fn: Info, q: bool, pc: nat)
    requires scope.tag == Scope && scope.children
    requires fn.tag == Subprogram && !fn.children && Holds(fn.ranges, pc)
    ensures var d := Die(scope, [Die(fn, [])]);
            && Tidy(d) && LaminarTree(d, pc) && Fits(d, 0)
            && Answer(d, [], q, pc) == Some(Resolved(fn, if q then [Plain(scope)] else []))
  {
    hide Holds, Resolved, Plain;
    var f := Die(fn, []);
    assert [f][1..] == [];
    assert Tidy(f) && TidyAll([f]) && LaminarTree(f, pc) && LaminarTrees([f], pc) && Fits(f, 0) && FitAll([f], 0);
    var inner := InnerScopes(scope, [], q);
    assert inner == if q then [Plain(scope)] else [];
    assert Answer(f, inner, q, pc) == Some(Resolved(fn, inner));
    assert AnswerOf([f], inner, q, pc) == Some(Resolved(fn, inner));
  }

  /** A function in a scope is answered by both names where the language has scopes, and a nameless scope shows. */
  lemma ScopedName(scope: Info, fn: Info, tail: seq<Item>, q: bool, t: Table, pc: nat)
    requires scope.tag == Scope && scope.children
    requires fn.tag == Subprogram && !fn.children && Holds(fn.ranges, pc) && fn.name.Some?
    requires Walked(Die(scope, [Die(fn, [])]), tail, q, t)
    ensures !q ==> Lookup(t, pc) == Some(Direct(fn.name.value))
    ensures q && scope.name.Some? ==> Lookup(t, pc) == Some(Direct(scope.name.value + "::" + fn.name.value))
    ensures q && scope.name.None? ==> Lookup(t, pc) == Some(Direct("{anon}::" + fn.name.value))
  {
    hide Walked, Holds, Lookup, Answer, Tidy, LaminarTree, Fits, Resolved;
    ScopeTree(scope, fn, q, pc);
    UnitAnswers(Die(scope, [Die(fn, [])]), tail, q, t, pc);
    ScopesInOrder(fn, Plain(scope), "");
    assert "{anon}" + "::" == "{anon}::";
  }
}

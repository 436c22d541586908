/**
  `Unit::walk` (vock/src/dwarf/unit.rs): one pass over a unit's entries in file order, with a nesting
  counter, a stack of scopes, a stack of inlined calls and a single slot for the current function.
  Main result: `WalkOfTree`, what the pass records for any tree of entries.
 */
module DwarfWalk {
  import opened Prelude
  import opened DwarfTree

  /** An entry as it is met in the file, or the null entry that closes a list of children. */
  datatype Item = Entry(info: Info) | Close

  datatype Sub = Sub(name: Name, inlines: seq<Inl>)

  datatype Span = Span(range: Range, idx: nat)

  datatype Table = Table(spans: seq<Span>, subs: seq<Sub>)

  datatype Mark = Mark(depth: int, name: string)

  datatype Cur = Cur(idx: nat, depth: int)

  datatype State = State(depth: int, scopes: seq<Mark>, cur: Option<Cur>, stack: seq<int>, table: Table,
                         names: map<nat, string>, done: bool)

  function Start(): (s: State)
  {
    State(0, [], None, [], Table([], []), map[], false)
  }

  // ---- one step of the pass

  ghost function PopScopes(scopes: seq<Mark>, depth: int): (r: seq<Mark>)
  {
    if scopes != [] && scopes[|scopes| - 1].depth >= depth then PopScopes(scopes[..|scopes| - 1], depth) else scopes
  }

  ghost function PopStack(stack: seq<int>, depth: int): (r: seq<int>)
  {
    if stack != [] && stack[|stack| - 1] >= depth then PopStack(stack[..|stack| - 1], depth) else stack
  }

  ghost function ScopeNames(scopes: seq<Mark>): (r: seq<string>)
    ensures |r| == |scopes|
  {
    seq(|scopes|, i requires 0 <= i < |scopes| => scopes[i].name)
  }

  /** Append to the inlined calls of the current function, if there is one. */
  ghost function Own(t: Table, cur: Option<Cur>, xs: seq<Inl>): (r: Table)
    ensures |r.subs| == |t.subs| && r.spans == t.spans
  {
    if cur.Some? && cur.value.idx < |t.subs|
    then var i := cur.value.idx; t.(subs := t.subs[i := t.subs[i].(inlines := t.subs[i].inlines + xs)])
    else t
  }

  ghost function Spans(ranges: seq<Range>, idx: nat): (r: seq<Span>)
  {
    seq(|ranges|, i requires 0 <= i < |ranges| => Span(ranges[i], idx))
  }

  ghost function AllSpans(fs: seq<Func>, base: nat): (r: seq<Span>)
  {
    if fs == [] then [] else Spans(fs[0].ranges, base) + AllSpans(fs[1..], base + 1)
  }

  ghost function Subs(fs: seq<Func>): (r: seq<Sub>)
  {
    seq(|fs|, i requires 0 <= i < |fs| => Sub(fs[i].name, fs[i].inlines))
  }

  /** Append functions to the table. */
  ghost function Add(t: Table, fs: seq<Func>): (r: Table)
    ensures |r.subs| == |t.subs| + |fs|
  {
    Table(t.spans + AllSpans(fs, |t.subs|), t.subs + Subs(fs))
  }

  ghost function StepClose(s: State): (r: State)
  {
    var depth := s.depth - 1;
    if depth <= 0 then s.(depth := depth, done := true)
    else s.(depth := depth, scopes := PopScopes(s.scopes, depth), stack := PopStack(s.stack, depth),
            cur := if s.cur.Some? && s.cur.value.depth >= depth then None else s.cur)
  }

  ghost function StepEntry(s: State, x: Info, q: bool): (r: State)
  {
    var sc := ScopeNames(s.scopes);
    var t :=
      match x.tag
      case Subprogram =>
        var named := s.(names := s.names + OwnName(x, sc));
        if x.ranges == [] then named
        else named.(table := Add(s.table, [Func(x.ranges, Resolved(x, sc), [])]),
                    cur := if x.children then Some(Cur(|s.table.subs|, s.depth)) else s.cur)
      case Inlined =>
        s.(table := Own(s.table, s.cur, OwnInlines(x, sc, |s.stack|)),
           stack := if x.children then s.stack + [s.depth] else s.stack)
      case Scope =>
        if q && x.children then s.(scopes := s.scopes + [Mark(s.depth, Plain(x))]) else s
      case Other => s;
    if x.children then t.(depth := s.depth + 1) else t
  }

  ghost function Step(s: State, item: Item, q: bool): (r: State)
  {
    match item
    case Close => StepClose(s)
    case Entry(x) => StepEntry(s, x, q)
  }

  ghost function Pass(s: State, items: seq<Item>, q: bool): (r: State)
    decreases |items|
  {
    if s.done || items == [] then s else Pass(Step(s, items[0], q), items[1..], q)
  }

  // ---- a tree in file order

  ghost function Flat(d: Die): (r: seq<Item>)
    decreases d
  {
    [Entry(d.info)] + (if d.info.children then Flats(d.kids) + [Close] else [])
  }

  ghost function Flats(ds: seq<Die>): (r: seq<Item>)
    decreases ds
  {
    if ds == [] then [] else Flat(ds[0]) + Flats(ds[1..])
  }

  // ---- what the pass has to keep in order to nest properly

  ghost predicate Below(s: State)
  {
    && (forall i :: 0 <= i < |s.scopes| ==> s.scopes[i].depth < s.depth)
    && (forall i :: 0 <= i < |s.stack| ==> s.stack[i] < s.depth)
    && (s.cur.Some? ==> s.cur.value.depth < s.depth && s.cur.value.idx < |s.table.subs|)
  }

  /** The state after all of `d`: only the tables have grown, and nested functions empty the slot. */
  ghost function After(s: State, d: Die, q: bool): (r: State)
  {
    var sc, n := ScopeNames(s.scopes), |s.stack|;
    s.(table := Add(Own(s.table, s.cur, Kept(d, sc, n, q)), KeptFuncs(d, sc, n, q)),
       names := s.names + Names(d, sc, q),
       cur := if HasOpener(d) then None else s.cur)
  }

  ghost function AfterAll(s: State, ds: seq<Die>, q: bool): (r: State)
  {
    var sc, n := ScopeNames(s.scopes), |s.stack|;
    s.(table := Add(Own(s.table, s.cur, KeptOf(ds, sc, n, q)), KeptFuncsOf(ds, sc, n, q)),
       names := s.names + NamesOf(ds, sc, q),
       cur := if HaveOpener(ds) then None else s.cur)
  }

  // ---- algebra of the tables

  lemma {:induction false} AllSpansAppend(f: seq<Func>, g: seq<Func>, base: nat)
    ensures AllSpans(f + g, base) == AllSpans(f, base) + AllSpans(g, base + |f|)
    decreases |f|
  {
    if f == [] {
      assert f + g == g;
    } else {
      assert (f + g)[1..] == f[1..] + g;
      AllSpansAppend(f[1..], g, base + 1);
    }
  }

  lemma Assoc<T>(x: seq<T>, y: seq<T>, z: seq<T>)
    ensures (x + y) + z == x + (y + z)
  {
  }

  lemma SubsAppend(f: seq<Func>, g: seq<Func>)
    ensures Subs(f + g) == Subs(f) + Subs(g) && |Subs(f)| == |f|
  {
  }

  lemma AddAdd(t: Table, f: seq<Func>, g: seq<Func>)
    ensures Add(Add(t, f), g) == Add(t, f + g)
  {
    hide AllSpans, Subs;
    SubsAppend(f, g);
    AllSpansAppend(f, g, |t.subs|);
    Assoc(t.subs, Subs(f), Subs(g));
    Assoc(t.spans, AllSpans(f, |t.subs|), AllSpans(g, |t.subs| + |f|));
  }

  lemma OwnAdd(t: Table, cur: Option<Cur>, xs: seq<Inl>, fs: seq<Func>)
    requires cur.Some? ==> cur.value.idx < |t.subs|
    ensures Own(Add(t, fs), cur, xs) == Add(Own(t, cur, xs), fs)
  {
    if cur.Some? {
      var i := cur.value.idx;
      var x := t.subs[i].(inlines := t.subs[i].inlines + xs);
      assert (t.subs + Subs(fs))[i := x] == t.subs[i := x] + Subs(fs);
    }
  }

  lemma OwnOwn(t: Table, cur: Option<Cur>, xs: seq<Inl>, ys: seq<Inl>)
    ensures Own(Own(t, cur, xs), cur, ys) == Own(t, cur, xs + ys)
  {
    if cur.Some? && cur.value.idx < |t.subs| {
      var had := t.subs[cur.value.idx].inlines;
      assert (had + xs) + ys == had + (xs + ys);
      assert Own(Own(t, cur, xs), cur, ys).subs == Own(t, cur, xs + ys).subs;
    }
  }

  lemma OwnNothing(t: Table, cur: Option<Cur>)
    ensures Own(t, cur, []) == t
  {
    if cur.Some? && cur.value.idx < |t.subs| {
      var i := cur.value.idx;
      assert t.subs[i].inlines + [] == t.subs[i].inlines;
      assert t.subs[i := t.subs[i]] == t.subs;
    }
  }

  lemma AddNothing(t: Table)
    ensures Add(t, []) == t
  {
  }

  lemma OwnNew(t: Table, ranges: seq<Range>, name: Name, depth: int, xs: seq<Inl>)
    ensures Own(Add(t, [Func(ranges, name, [])]), Some(Cur(|t.subs|, depth)), xs) == Add(t, [Func(ranges, name, xs)])
  {
    var f, g := Func(ranges, name, []), Func(ranges, name, xs);
    assert AllSpans([f], |t.subs|) == AllSpans([g], |t.subs|);
    var n := |t.subs|;
    assert Subs([f]) == [Sub(name, [])] && Subs([g]) == [Sub(name, xs)];
    assert (t.subs + [Sub(name, [])])[n := Sub(name, xs)] == t.subs + [Sub(name, xs)];
    assert [] + xs == xs;
  }

  /** Two stretches of siblings, the second starting from what the first left in the slot. */
  lemma TablesJoin(t: Table, cur: Option<Cur>, x: seq<Inl>, f: seq<Func>, y: seq<Inl>, g: seq<Func>, nested: bool)
    requires cur.Some? ==> cur.value.idx < |t.subs|
    ensures Add(Own(Add(Own(t, cur, x), f), if nested then None else cur, y), g)
         == Add(Own(t, cur, x + (if nested then [] else y)), f + g)
  {
    hide Own, Add;
    var t1 := Own(t, cur, x);
    if nested {
      assert x + [] == x;
      OwnNone(Add(t1, f), y);
      AddAdd(t1, f, g);
    } else {
      OwnAdd(t1, cur, y, f);
      OwnOwn(t, cur, x, y);
      AddAdd(Own(t, cur, x + y), f, g);
    }
  }

  lemma OwnNone(t: Table, xs: seq<Inl>)
    ensures Own(t, None, xs) == t
  {
  }

  // ---- one entry, its children, its closing null

  lemma PopScopesDown(scopes: seq<Mark>, depth: int)
    requires forall i :: 0 <= i < |scopes| ==> scopes[i].depth < depth
    ensures PopScopes(scopes, depth) == scopes
    ensures forall x: string :: PopScopes(scopes + [Mark(depth, x)], depth) == scopes
  {
    forall x: string ensures PopScopes(scopes + [Mark(depth, x)], depth) == scopes {
      assert (scopes + [Mark(depth, x)])[..|scopes|] == scopes;
    }
  }

  lemma PopStackDown(stack: seq<int>, depth: int)
    requires forall i :: 0 <= i < |stack| ==> stack[i] < depth
    ensures PopStack(stack, depth) == stack && PopStack(stack + [depth], depth) == stack
  {
    assert (stack + [depth])[..|stack|] == stack;
  }

  /** Entering an entry with children keeps the marks below the new depth. */
  lemma EntryBelow(s: State, x: Info, q: bool)
    requires Below(s) && x.children
    ensures var t := StepEntry(s, x, q);
            && Below(t) && t.depth == s.depth + 1 && t.done == s.done
            && ScopeNames(t.scopes) == InnerScopes(x, ScopeNames(s.scopes), q)
            && |t.stack| == InnerLevel(x, |s.stack|)
  {
    hide Resolved, OwnInlines, OwnName;
  }

  /** Closing it restores scopes, stack and depth, and empties the slot if the entry had filled it. */
  lemma CloseRestores(s: State, x: Info, q: bool, t: State)
    requires Below(s) && s.depth >= 1 && x.children
    requires var e := StepEntry(s, x, q); t.depth == e.depth && t.scopes == e.scopes && t.stack == e.stack
    requires t.cur == StepEntry(s, x, q).cur || t.cur == None
    ensures StepClose(t) == t.(depth := s.depth, scopes := s.scopes, stack := s.stack,
                               cur := if Opener(x) then None else t.cur)
  {
    hide Resolved, OwnInlines, OwnName, Own, Add;
    PopScopesDown(s.scopes, s.depth);
    PopStackDown(s.stack, s.depth);
  }

  /** What an entry itself adds. */
  lemma EntryAdds(s: State, x: Info, q: bool)
    ensures var e, sc := StepEntry(s, x, q), ScopeNames(s.scopes);
            && e.names == s.names + OwnName(x, sc)
            && e.cur == (if Opener(x) then Some(Cur(|s.table.subs|, s.depth)) else s.cur)
            && e.table == if x.tag == Subprogram && x.ranges != []
                          then Add(s.table, [Func(x.ranges, Resolved(x, sc), [])])
                          else Own(s.table, s.cur, OwnInlines(x, sc, |s.stack|))
  {
    hide Resolved, Own, Add, ScopeNames;
    NoNameAdded(s.names);
    OwnNothing(s.table, s.cur);
  }

  /** The tables after an entry with children, from the tables after its children. */
  lemma EntryTables(s: State, d: Die, q: bool)
    requires Below(s) && d.info.children
    ensures AfterAll(StepEntry(s, d.info, q), d.kids, q).table == After(s, d, q).table
    ensures AfterAll(StepEntry(s, d.info, q), d.kids, q).names == After(s, d, q).names
  {
    hide StepEntry, Own, Add, ScopeNames, Resolved, OwnInlines, OwnName, InnerScopes, InnerLevel, Below;
    var x, sc, n := d.info, ScopeNames(s.scopes), |s.stack|;
    EntryBelow(s, x, q);
    EntryAdds(s, x, q);
    var e := StepEntry(s, x, q);
    var inner, deeper := InnerScopes(x, sc, q), InnerLevel(x, n);
    var k, f := KeptOf(d.kids, inner, deeper, q), KeptFuncsOf(d.kids, inner, deeper, q);
    assert AfterAll(e, d.kids, q).table == Add(Own(e.table, e.cur, k), f);
    NamesAssoc(s.names, OwnName(x, sc), NamesOf(d.kids, inner, q));
    if Opener(x) {
      assert KeptFuncs(d, sc, n, q) == [Func(x.ranges, Resolved(x, sc), k)] + f;
      EntryTablesOpener(s.table, s.cur, x.ranges, Resolved(x, sc), s.depth, k, f);
    } else {
      assert KeptFuncs(d, sc, n, q) == f;
      EntryTablesOther(s.table, s.cur, OwnInlines(x, sc, n), k, f);
    }
  }

  lemma NamesAssoc(x: map<nat, string>, y: map<nat, string>, z: map<nat, string>)
    ensures (x + y) + z == x + (y + z)
  {
  }

  lemma NoNameAdded(m: map<nat, string>)
    ensures m + map[] == m
  {
  }

  lemma EntryTablesOpener(t: Table, cur: Option<Cur>, ranges: seq<Range>, name: Name, depth: int, k: seq<Inl>,
                          f: seq<Func>)
    ensures Add(Own(Add(t, [Func(ranges, name, [])]), Some(Cur(|t.subs|, depth)), k), f)
         == Add(Own(t, cur, []), [Func(ranges, name, k)] + f)
  {
    hide Own, Add;
    OwnNew(t, ranges, name, depth, k);
    OwnNothing(t, cur);
    AddAdd(t, [Func(ranges, name, k)], f);
  }

  lemma EntryTablesOther(t: Table, cur: Option<Cur>, own: seq<Inl>, k: seq<Inl>, f: seq<Func>)
    ensures Add(Own(Own(t, cur, own), cur, k), f) == Add(Own(t, cur, own + k), f)
  {
    hide Own, Add;
    OwnOwn(t, cur, own, k);
  }

  /** An entry without children. */
  lemma LeafStep(s: State, d: Die, q: bool)
    requires !d.info.children
    ensures StepEntry(s, d.info, q) == After(s, d, q)
  {
    hide Own, Add, ScopeNames, Resolved, OwnName, Kept, KeptFuncs;
    var x, sc, n := d.info, ScopeNames(s.scopes), |s.stack|;
    EntryAdds(s, x, q);
    LeafAdds(d, sc, n, q);
    OwnNothing(s.table, s.cur);
    AddNothing(Own(s.table, s.cur, OwnInlines(x, sc, n)));
    assert s.names + Names(d, sc, q) == s.names + OwnName(x, sc);
  }

  lemma LeafAdds(d: Die, sc: seq<string>, n: nat, q: bool)
    requires !d.info.children
    ensures Kept(d, sc, n, q) == OwnInlines(d.info, sc, n) && Names(d, sc, q) == OwnName(d.info, sc)
    ensures KeptFuncs(d, sc, n, q) == if d.info.tag == Subprogram && d.info.ranges != []
                                      then [Func(d.info.ranges, Resolved(d.info, sc), [])] else []
  {
    hide Resolved, OwnInlines;
    assert OwnInlines(d.info, sc, n) + [] == OwnInlines(d.info, sc, n);
    NoNameAdded(OwnName(d.info, sc));
  }

  lemma AfterBelow(s: State, d: Die, q: bool)
    requires Below(s)
    ensures Below(After(s, d, q))
  {
    hide Kept, KeptFuncs, Names, HasOpener;
  }

  lemma AfterJoin(s: State, d: Die, ds: seq<Die>, q: bool)
    requires Below(s)
    ensures AfterAll(After(s, d, q), ds, q) == AfterAll(s, [d] + ds, q)
  {
    hide Kept, KeptFuncs, Names, HasOpener, Own, Add;
    var sc, n := ScopeNames(s.scopes), |s.stack|;
    assert ([d] + ds)[0] == d && ([d] + ds)[1..] == ds;
    TablesJoin(s.table, s.cur, Kept(d, sc, n, q), KeptFuncs(d, sc, n, q), KeptOf(ds, sc, n, q),
               KeptFuncsOf(ds, sc, n, q), HasOpener(d));
    NamesAssoc(s.names, Names(d, sc, q), NamesOf(ds, sc, q));
  }

  lemma PassStep(s: State, item: Item, tail: seq<Item>, q: bool)
    requires !s.done
    ensures Pass(s, [item] + tail, q) == Pass(Step(s, item, q), tail, q)
  {
    assert ([item] + tail)[1..] == tail;
    hide Step;
  }

  /** Passing over all of `d` is one jump, wherever `d` stands and whatever follows. */
  lemma {:induction false} PassDie(s: State, d: Die, tail: seq<Item>, q: bool)
    requires Below(s) && s.depth >= 1 && !s.done
    ensures Pass(s, Flat(d) + tail, q) == Pass(After(s, d, q), tail, q)
    decreases d
  {
    hide Below, After, AfterAll, StepEntry, StepClose, Pass, InnerScopes;
    var x := d.info;
    var e := StepEntry(s, x, q);
    if x.children {
      assert Flat(d) + tail == [Entry(x)] + (Flats(d.kids) + ([Close] + tail));
      PassStep(s, Entry(x), Flats(d.kids) + ([Close] + tail), q);
      EntryBelow(s, x, q);
      PassDies(e, d.kids, [Close] + tail, q);
      var t := AfterAll(e, d.kids, q);
      AfterAllKeeps(e, d.kids, q);
      PassStep(t, Close, tail, q);
      CloseRestores(s, x, q, t);
      EntryTables(s, d, q);
      CloseIsAfter(s, d, q, t);
    } else {
      assert Flat(d) + tail == [Entry(x)] + tail;
      PassStep(s, Entry(x), tail, q);
      LeafStep(s, d, q);
    }
  }

  lemma AfterAllKeeps(s: State, ds: seq<Die>, q: bool)
    ensures var t := AfterAll(s, ds, q);
            && t.depth == s.depth && t.scopes == s.scopes && t.stack == s.stack && t.done == s.done
            && t.cur == if HaveOpener(ds) then None else s.cur
  {
  }

  lemma CloseIsAfter(s: State, d: Die, q: bool, t: State)
    requires d.info.children && t == AfterAll(StepEntry(s, d.info, q), d.kids, q) && t.done == s.done
    requires t.table == After(s, d, q).table && t.names == After(s, d, q).names
    requires t.cur == if HaveOpener(d.kids) then None else StepEntry(s, d.info, q).cur
    ensures t.(depth := s.depth, scopes := s.scopes, stack := s.stack, cur := if Opener(d.info) then None else t.cur)
         == After(s, d, q)
  {
    hide AfterAll, Kept, KeptFuncs, Names, Own, Add, OwnName, OwnInlines, Resolved, ScopeNames;
  }

  lemma {:induction false} PassDies(s: State, ds: seq<Die>, tail: seq<Item>, q: bool)
    requires Below(s) && s.depth >= 1 && !s.done
    ensures Pass(s, Flats(ds) + tail, q) == Pass(AfterAll(s, ds, q), tail, q)
    decreases ds
  {
    hide Below, After, AfterAll, Pass;
    if ds == [] {
      assert Flats(ds) + tail == tail;
      AfterNone(s, q);
    } else {
      assert Flats(ds) + tail == Flat(ds[0]) + (Flats(ds[1..]) + tail);
      PassDie(s, ds[0], Flats(ds[1..]) + tail, q);
      AfterBelow(s, ds[0], q);
      AfterKeeps(s, ds[0], q);
      PassDies(After(s, ds[0], q), ds[1..], tail, q);
      assert ds == [ds[0]] + ds[1..];
      AfterJoin(s, ds[0], ds[1..], q);
    }
  }

  lemma AfterKeeps(s: State, d: Die, q: bool)
    ensures After(s, d, q).depth == s.depth && After(s, d, q).done == s.done
  {
  }

  lemma AfterNone(s: State, q: bool)
    ensures AfterAll(s, [], q) == s
  {
    OwnNothing(s.table, s.cur);
    AddNothing(s.table);
    NoNameAdded(s.names);
  }

  // ---- the whole unit

  ghost function TableOf(fs: seq<Func>): (t: Table)
  {
    Add(Table([], []), fs)
  }

  /**
    For any unit whose root has children, whatever bytes follow it: the pass records every function
    with code, in document order, and every name, and for each function the inlined calls that come
    before any function nested in it.
   */
  lemma WalkOfTree(root: Die, tail: seq<Item>, q: bool)
    requires root.info.children
    ensures Pass(Start(), Flat(root) + tail, q).table == TableOf(KeptFuncs(root, [], 0, q))
    ensures Pass(Start(), Flat(root) + tail, q).names == Names(root, [], q)
  {
    hide StepEntry, After, AfterAll, Pass, Own, Add, KeptFuncs, Names, Kept;
    var s, x := Start(), root.info;
    var e := StepEntry(s, x, q);
    assert Flat(root) + tail == [Entry(x)] + (Flats(root.kids) + ([Close] + tail));
    PassStep(s, Entry(x), Flats(root.kids) + ([Close] + tail), q);
    EntryBelow(s, x, q);
    PassDies(e, root.kids, [Close] + tail, q);
    var t := AfterAll(e, root.kids, q);
    AfterAllKeeps(e, root.kids, q);
    PassStep(t, Close, tail, q);
    PassDone(StepClose(t), tail, q);
    EntryTables(s, root, q);
    FromStart(root, q);
  }

  lemma PassDone(s: State, items: seq<Item>, q: bool)
    requires s.done
    ensures Pass(s, items, q) == s
  {
  }

  lemma FromStart(root: Die, q: bool)
    ensures After(Start(), root, q).table == TableOf(KeptFuncs(root, [], 0, q))
    ensures After(Start(), root, q).names == Names(root, [], q)
  {
    hide KeptFuncs, Kept, Names;
    assert ScopeNames(Start().scopes) == [];
    assert map[] + Names(root, [], q) == Names(root, [], q);
  }

  /** That is everything there is exactly when no function has an inlined call after a nested one. */
  lemma WalkExact(root: Die, tail: seq<Item>, q: bool)
    requires root.info.children
    ensures Pass(Start(), Flat(root) + tail, q).table == TableOf(Funcs(root, [], 0, q)) <==> Tidy(root)
  {
    hide Pass, KeptFuncs, Funcs, Tidy, Flat;
    WalkOfTree(root, tail, q);
    KeptFuncsExact(root, [], 0, q);
    TableOfInjective(KeptFuncs(root, [], 0, q), Funcs(root, [], 0, q));
  }

  lemma TableOfInjective(f: seq<Func>, g: seq<Func>)
    requires |f| == |g| && forall i :: 0 <= i < |g| ==> f[i].ranges == g[i].ranges
    ensures TableOf(f) == TableOf(g) ==> f == g
  {
    hide AllSpans;
    if TableOf(f) == TableOf(g) {
      assert Subs(f) == Subs(g) by { assert [] + Subs(f) == Subs(f) && [] + Subs(g) == Subs(g); }
      forall i | 0 <= i < |f| ensures f[i] == g[i] {
        assert Subs(f)[i] == Subs(g)[i];
      }
    }
  }

  // ---- the pass as the source runs it

  method CloseScopes(scopes: seq<Mark>, depth: int) returns (r: seq<Mark>)
    ensures r == PopScopes(scopes, depth)
  {
    r := scopes;
    while r != [] && r[|r| - 1].depth >= depth
      invariant PopScopes(r, depth) == PopScopes(scopes, depth)
      decreases |r|
    {
      r := r[..|r| - 1];
    }
  }

  method CloseInlined(stack: seq<int>, depth: int) returns (r: seq<int>)
    ensures r == PopStack(stack, depth)
  {
    r := stack;
    while r != [] && r[|r| - 1] >= depth
      invariant PopStack(r, depth) == PopStack(stack, depth)
      decreases |r|
    {
      r := r[..|r| - 1];
    }
  }

  /** The printed name: qualified where the language has scopes worth printing. */
  method Qualified(x: Info, scopes: seq<Mark>, q: bool) returns (direct: Option<string>, resolved: Name)
    requires !q ==> scopes == []
    ensures direct == DirectName(x, ScopeNames(scopes)) && resolved == Resolved(x, ScopeNames(scopes))
  {
    direct := None;
    if x.name.Some? {
      var text := "";
      if q && scopes != [] {
        ghost var names := ScopeNames(scopes);
        for i := 0 to |scopes|
          invariant text == Prefix(names[..i])
        {
          assert names[..i + 1][..i] == names[..i];
          text := text + scopes[i].name + "::";
        }
        assert names[..|scopes|] == names;
      }
      direct := Some(text + x.name.value);
    }
    resolved := NoName;
    if direct.Some? {
      resolved := Direct(direct.value);
    } else if x.origin.Ref? {
      resolved := At(x.origin.off);
    } else if x.origin.Absent? && x.spec.Ref? {
      resolved := At(x.spec.off);
    }
  }

  method PushSpans(spans: seq<Span>, ranges: seq<Range>, idx: nat) returns (r: seq<Span>)
    ensures r == spans + Spans(ranges, idx)
  {
    r := spans;
    for i := 0 to |ranges|
      invariant r == spans + Spans(ranges[..i], idx)
    {
      assert Spans(ranges[..i + 1], idx) == Spans(ranges[..i], idx) + [Span(ranges[i], idx)];
      r := r + [Span(ranges[i], idx)];
    }
    assert ranges[..|ranges|] == ranges;
  }

  method PushInlines(subs: seq<Sub>, idx: nat, x: Info, level: nat, name: Name, ghost scopes: seq<string>)
    returns (r: seq<Sub>)
    requires idx < |subs| && x.tag == Inlined && name == Resolved(x, scopes)
    ensures r == subs[idx := subs[idx].(inlines := subs[idx].inlines + OwnInlines(x, scopes, level))]
  {
    hide Resolved;
    r := subs;
    ghost var own := OwnInlines(x, scopes, level);
    assert subs[idx].inlines + own[..0] == subs[idx].inlines;
    for i := 0 to |x.ranges|
      invariant |r| == |subs| && r == subs[idx := subs[idx].(inlines := subs[idx].inlines + own[..i])]
    {
      var entry := Inl(x.ranges[i], Depth(level), name);
      assert own[..i + 1] == own[..i] + [entry];
      Assoc(subs[idx].inlines, own[..i], [entry]);
      r := r[idx := r[idx].(inlines := r[idx].inlines + [entry])];
    }
    assert own[..|x.ranges|] == own;
  }

  predicate SortedSpans(spans: seq<Span>)
  {
    forall i, j :: 0 <= i < j < |spans| ==> spans[i].range.start <= spans[j].range.start
  }

  method InsertSpan(spans: seq<Span>, x: Span) returns (r: seq<Span>)
    requires SortedSpans(spans)
    ensures SortedSpans(r) && multiset(r) == multiset(spans) + multiset{x}
  {
    hide SortedSpans;
    var k := |spans|;
    while k > 0 && spans[k - 1].range.start > x.range.start
      invariant 0 <= k <= |spans|
      invariant k < |spans| ==> spans[k].range.start > x.range.start
    {
      k := k - 1;
    }
    InsertedSorted(spans, x, k);
    InsertedMembers(spans, x, k);
    r := spans[..k] + [x] + spans[k..];
  }

  lemma InsertedSorted(spans: seq<Span>, x: Span, k: nat)
    requires SortedSpans(spans) && k <= |spans|
    requires k > 0 ==> spans[k - 1].range.start <= x.range.start
    requires k < |spans| ==> spans[k].range.start > x.range.start
    ensures SortedSpans(spans[..k] + [x] + spans[k..])
  {
    var r := spans[..k] + [x] + spans[k..];
    forall i | 0 <= i < |r| ensures r[i] == if i < k then spans[i] else if i == k then x else spans[i - 1] {
    }
  }

  lemma InsertedMembers(spans: seq<Span>, x: Span, k: nat)
    requires k <= |spans|
    ensures multiset(spans[..k] + [x] + spans[k..]) == multiset(spans) + multiset{x}
  {
    assert spans == spans[..k] + spans[k..];
  }

  method SortSpans(spans: seq<Span>) returns (r: seq<Span>)
    ensures SortedSpans(r) && multiset(r) == multiset(spans)
  {
    hide SortedSpans;
    r := [];
    assert SortedSpans(r) by { NoSpans(); }
    for i := 0 to |spans|
      invariant SortedSpans(r) && multiset(r) == multiset(spans[..i])
    {
      assert spans[..i + 1] == spans[..i] + [spans[i]];
      r := InsertSpan(r, spans[i]);
    }
    assert spans[..|spans|] == spans;
  }

  lemma NoSpans()
    ensures SortedSpans([])
  {
  }

  /** `walk`, from the decoded entries of a unit; the spans end up ordered by where they start. */
  method Walk(items: seq<Item>, q: bool) returns (table: Table, names: map<nat, string>)
    ensures var r := Pass(Start(), items, q);
            && table.subs == r.table.subs && names == r.names
            && SortedSpans(table.spans) && multiset(table.spans) == multiset(r.table.spans)
  {
    hide Step, Pass, SortedSpans, StepEntry;
    var spans: seq<Span>, subs: seq<Sub> := [], [];
    names := map[];
    var depth: int := 0;
    var scopes: seq<Mark> := [];
    var cur: Option<Cur> := None;
    var stack: seq<int> := [];
    ghost var s := Start();
    ghost var r := Pass(s, items, q);
    assert items[0..] == items;
    var k := 0;
    while k < |items|
      invariant k <= |items| && Pass(s, items[k..], q) == r
      invariant s == State(depth, scopes, cur, stack, Table(spans, subs), names, false)
      invariant !q ==> scopes == []
      invariant cur.Some? ==> cur.value.idx < |subs|
    {
      var item := items[k];
      assert items[k..] == [item] + items[k + 1..];
      PassStep(s, item, items[k + 1..], q);
      StepIs(s, item, q);
      k := k + 1;
      match item {
        case Close =>
          depth := depth - 1;
          if depth <= 0 {
            PassDone(StepClose(s), items[k..], q);
            break;
          }
          scopes := CloseScopes(scopes, depth);
          stack := CloseInlined(stack, depth);
          if cur.Some? && cur.value.depth >= depth {
            cur := None;
          }
          s := StepClose(s);
          NoScopes(s.scopes);
        case Entry(x) =>
          spans, subs, names, cur := EnterTables(x, depth, scopes, stack, spans, subs, names, cur, q);
          if x.tag == Inlined && x.children {
            stack := stack + [depth];
          }
          if x.tag == Scope && q && x.children {
            scopes := scopes + [Mark(depth, Plain(x))];
          }
          if x.children {
            depth := depth + 1;
          }
          EntryMoves(s, x, q);
          s := StepEntry(s, x, q);
      }
    }
    PassNone(s, q);
    assert k == |items| ==> items[k..] == [];
    assert Table(spans, subs) == r.table && names == r.names;
    spans := SortSpans(spans);
    table := Table(spans, subs);
  }

  /** The tables and the current-function slot after one entry. */
  method EnterTables(x: Info, depth: int, scopes: seq<Mark>, stack: seq<int>, spans: seq<Span>, subs: seq<Sub>,
                     names: map<nat, string>, cur: Option<Cur>, q: bool)
    returns (spans': seq<Span>, subs': seq<Sub>, names': map<nat, string>, cur': Option<Cur>)
    requires !q ==> scopes == []
    requires cur.Some? ==> cur.value.idx < |subs|
    ensures var e := StepEntry(State(depth, scopes, cur, stack, Table(spans, subs), names, false), x, q);
            && Table(spans', subs') == e.table && names' == e.names && cur' == e.cur
    ensures cur'.Some? ==> cur'.value.idx < |subs'|
  {
    hide Resolved, OwnInlines, ScopeNames;
    spans', subs', names', cur' := spans, subs, names, cur;
    var direct, resolved := Qualified(x, scopes, q);
    if x.tag == Subprogram {
      if direct.Some? {
        names' := names'[x.off := direct.value];
      }
      assert names' == names + OwnName(x, ScopeNames(scopes));
      if x.ranges != [] {
        var idx := |subs|;
        subs' := subs + [Sub(resolved, [])];
        spans' := PushSpans(spans, x.ranges, idx);
        AddOne(Table(spans, subs), x.ranges, resolved);
        if x.children {
          cur' := Some(Cur(idx, depth));
        }
      }
    } else if x.tag == Inlined {
      if cur.Some? {
        subs' := PushInlines(subs, cur.value.idx, x, |stack|, resolved, ScopeNames(scopes));
      }
    }
  }

  lemma AddOne(t: Table, ranges: seq<Range>, name: Name)
    ensures Add(t, [Func(ranges, name, [])]) == Table(t.spans + Spans(ranges, |t.subs|), t.subs + [Sub(name, [])])
  {
    var f := [Func(ranges, name, [])];
    assert AllSpans(f, |t.subs|) == Spans(ranges, |t.subs|) + AllSpans(f[1..], |t.subs| + 1);
  }

  lemma EntryMoves(s: State, x: Info, q: bool)
    ensures var e := StepEntry(s, x, q);
            && e.depth == (if x.children then s.depth + 1 else s.depth) && e.done == s.done
            && e.scopes == (if x.tag == Scope && q && x.children then s.scopes + [Mark(s.depth, Plain(x))] else s.scopes)
            && e.stack == if x.tag == Inlined && x.children then s.stack + [s.depth] else s.stack
  {
    hide Resolved, OwnInlines, OwnName, ScopeNames, Add, Own;
  }

  lemma StepIs(s: State, item: Item, q: bool)
    ensures item.Close? ==> Step(s, item, q) == StepClose(s)
    ensures item.Entry? ==> Step(s, item, q) == StepEntry(s, item.info, q)
  {
  }

  lemma NoScopes(scopes: seq<Mark>)
    ensures scopes == [] ==> forall d: int :: PopScopes(scopes, d) == []
  {
  }

  lemma PassNone(s: State, q: bool)
    ensures Pass(s, [], q) == s
  {
  }
}

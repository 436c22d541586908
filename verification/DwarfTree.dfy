/**
  The functions of a compilation unit, as its tree of debugging entries describes them
  (vock/src/dwarf/unit.rs). Nothing here mentions the flat order, the nesting counter or the stacks
  the walk works with; `DwarfWalk` shows what the walk makes of the same tree.
 */
module DwarfTree {
  import opened Prelude

  datatype Tag = Subprogram | Inlined | Scope | Other

  /** A `DW_AT_abstract_origin` or `DW_AT_specification` value. */
  datatype Link = Absent | Ref(off: nat) | Unusable

  datatype Name = NoName | Direct(text: string) | At(off: nat)

  datatype Range = Range(start: nat, end: nat)

  /** What one debugging entry says, its attributes already read. */
  datatype Info = Info(off: nat, tag: Tag, name: Option<string>, origin: Link, spec: Link, ranges: seq<Range>,
                       children: bool)

  datatype Die = Die(info: Info, kids: seq<Die>)

  datatype Inl = Inl(range: Range, depth: nat, name: Name)

  /** A function with code: where it is, what it is called, what is inlined into it. */
  datatype Func = Func(ranges: seq<Range>, name: Name, inlines: seq<Inl>)

  // ---- names

  /** `a::b::` for the enclosing scopes `[a, b]`. */
  function Prefix(scopes: seq<string>): (p: string)
  {
    if scopes == [] then "" else Prefix(scopes[..|scopes| - 1]) + scopes[|scopes| - 1] + "::"
  }

  function DirectName(x: Info, scopes: seq<string>): (n: Option<string>)
  {
    match x.name
    case None => None
    case Some(s) => Some(Prefix(scopes) + s)
  }

  function Resolved(x: Info, scopes: seq<string>): (n: Name)
  {
    match DirectName(x, scopes)
    case Some(d) => Direct(d)
    case None =>
      if x.origin.Ref? then At(x.origin.off)
      else if x.origin.Absent? && x.spec.Ref? then At(x.spec.off)
      else NoName
  }

  function Plain(x: Info): (s: string)
  {
    match x.name
    case None => "{anon}"
    case Some(s) => s
  }

  // ---- what an entry is to its children

  /** A function with code and children: the entries below belong to it. */
  predicate Opener(x: Info)
  {
    x.tag == Subprogram && x.ranges != [] && x.children
  }

  function InnerScopes(x: Info, scopes: seq<string>, qualify: bool): (r: seq<string>)
  {
    if x.tag == Scope && qualify && x.children then scopes + [Plain(x)] else scopes
  }

  function InnerLevel(x: Info, level: nat): (r: nat)
  {
    if x.tag == Inlined && x.children then level + 1 else level
  }

  /** The sixteen-bit depth recorded for an inlined call with `level` inlined calls around it. */
  function Depth(level: nat): (d: nat)
  {
    (level + 1) % 0x1_0000
  }

  function OwnInlines(x: Info, scopes: seq<string>, level: nat): (r: seq<Inl>)
  {
    if x.tag == Inlined
    then seq(|x.ranges|, i requires 0 <= i < |x.ranges| => Inl(x.ranges[i], Depth(level), Resolved(x, scopes)))
    else []
  }

  // ---- the intended tables

  /** The inlined calls below `d` that belong to the function around it. */
  ghost function Inlines(d: Die, scopes: seq<string>, level: nat, q: bool): (r: seq<Inl>)
    decreases d
  {
    if Opener(d.info) then []
    else OwnInlines(d.info, scopes, level)
         + (if d.info.children
            then InlinesOf(d.kids, InnerScopes(d.info, scopes, q), InnerLevel(d.info, level), q)
            else [])
  }

  ghost function InlinesOf(ds: seq<Die>, scopes: seq<string>, level: nat, q: bool): (r: seq<Inl>)
    decreases ds
  {
    if ds == [] then [] else Inlines(ds[0], scopes, level, q) + InlinesOf(ds[1..], scopes, level, q)
  }

  /** The functions with code in `d`, in document order, each with all its inlined calls. */
  ghost function Funcs(d: Die, scopes: seq<string>, level: nat, q: bool): (r: seq<Func>)
    decreases d
  {
    var inner, deeper := InnerScopes(d.info, scopes, q), InnerLevel(d.info, level);
    (if d.info.tag == Subprogram && d.info.ranges != []
     then [Func(d.info.ranges, Resolved(d.info, scopes),
                if d.info.children then InlinesOf(d.kids, inner, deeper, q) else [])]
     else [])
    + (if d.info.children then FuncsOf(d.kids, inner, deeper, q) else [])
  }

  ghost function FuncsOf(ds: seq<Die>, scopes: seq<string>, level: nat, q: bool): (r: seq<Func>)
    decreases ds
  {
    if ds == [] then [] else Funcs(ds[0], scopes, level, q) + FuncsOf(ds[1..], scopes, level, q)
  }

  /** The qualified name of every named function entry. */
  ghost function Names(d: Die, scopes: seq<string>, q: bool): (r: map<nat, string>)
    decreases d
  {
    OwnName(d.info, scopes)
    + (if d.info.children then NamesOf(d.kids, InnerScopes(d.info, scopes, q), q) else map[])
  }

  ghost function NamesOf(ds: seq<Die>, scopes: seq<string>, q: bool): (r: map<nat, string>)
    decreases ds
  {
    if ds == [] then map[] else Names(ds[0], scopes, q) + NamesOf(ds[1..], scopes, q)
  }

  function OwnName(x: Info, scopes: seq<string>): (r: map<nat, string>)
  {
    if x.tag == Subprogram && x.name.Some? then map[x.off := Prefix(scopes) + x.name.value] else map[]
  }

  // ---- what a single current-function slot keeps

  ghost predicate HasOpener(d: Die)
    decreases d
  {
    Opener(d.info) || (d.info.children && HaveOpener(d.kids))
  }

  ghost predicate HaveOpener(ds: seq<Die>)
    decreases ds
  {
    ds != [] && (HasOpener(ds[0]) || HaveOpener(ds[1..]))
  }

  /** The inlined calls met before the first nested function closes. */
  ghost function Kept(d: Die, scopes: seq<string>, level: nat, q: bool): (r: seq<Inl>)
    decreases d
  {
    if Opener(d.info) then []
    else OwnInlines(d.info, scopes, level)
         + (if d.info.children
            then KeptOf(d.kids, InnerScopes(d.info, scopes, q), InnerLevel(d.info, level), q)
            else [])
  }

  ghost function KeptOf(ds: seq<Die>, scopes: seq<string>, level: nat, q: bool): (r: seq<Inl>)
    decreases ds
  {
    if ds == [] then []
    else Kept(ds[0], scopes, level, q) + (if HasOpener(ds[0]) then [] else KeptOf(ds[1..], scopes, level, q))
  }

  ghost function KeptFuncs(d: Die, scopes: seq<string>, level: nat, q: bool): (r: seq<Func>)
    decreases d
  {
    var inner, deeper := InnerScopes(d.info, scopes, q), InnerLevel(d.info, level);
    (if d.info.tag == Subprogram && d.info.ranges != []
     then [Func(d.info.ranges, Resolved(d.info, scopes),
                if d.info.children then KeptOf(d.kids, inner, deeper, q) else [])]
     else [])
    + (if d.info.children then KeptFuncsOf(d.kids, inner, deeper, q) else [])
  }

  ghost function KeptFuncsOf(ds: seq<Die>, scopes: seq<string>, level: nat, q: bool): (r: seq<Func>)
    decreases ds
  {
    if ds == [] then [] else KeptFuncs(ds[0], scopes, level, q) + KeptFuncsOf(ds[1..], scopes, level, q)
  }

  // ---- when nothing is lost

  /** Some inlined call with code, belonging to the function around `d`. */
  ghost predicate HasInline(d: Die)
    decreases d
  {
    !Opener(d.info) && ((d.info.tag == Inlined && d.info.ranges != []) || (d.info.children && HaveInline(d.kids)))
  }

  ghost predicate HaveInline(ds: seq<Die>)
    decreases ds
  {
    ds != [] && (HasInline(ds[0]) || HaveInline(ds[1..]))
  }

  /** No inlined call of the surrounding function comes after a function nested in it. */
  ghost predicate Prompt(d: Die)
    decreases d
  {
    Opener(d.info) || (d.info.children ==> PromptAll(d.kids))
  }

  ghost predicate PromptAll(ds: seq<Die>)
    decreases ds
  {
    ds == [] || (Prompt(ds[0]) && (if HasOpener(ds[0]) then !HaveInline(ds[1..]) else PromptAll(ds[1..])))
  }

  /** So it is in every function of the tree. */
  ghost predicate Tidy(d: Die)
    decreases d
  {
    d.info.children ==> (Opener(d.info) ==> PromptAll(d.kids)) && TidyAll(d.kids)
  }

  ghost predicate TidyAll(ds: seq<Die>)
    decreases ds
  {
    ds == [] || (Tidy(ds[0]) && TidyAll(ds[1..]))
  }

  lemma {:induction false} InlinesEmpty(d: Die, scopes: seq<string>, level: nat, q: bool)
    ensures Inlines(d, scopes, level, q) != [] <==> HasInline(d)
    decreases d
  {
    if !Opener(d.info) && d.info.children {
      InlinesOfEmpty(d.kids, InnerScopes(d.info, scopes, q), InnerLevel(d.info, level), q);
    }
  }

  lemma {:induction false} InlinesOfEmpty(ds: seq<Die>, scopes: seq<string>, level: nat, q: bool)
    ensures InlinesOf(ds, scopes, level, q) != [] <==> HaveInline(ds)
    decreases ds
  {
    if ds != [] {
      InlinesEmpty(ds[0], scopes, level, q);
      InlinesOfEmpty(ds[1..], scopes, level, q);
    }
  }

  /** What is kept is the beginning of what there is, and all of it exactly when nothing comes late. */
  lemma {:induction false} KeptIsPrefix(d: Die, scopes: seq<string>, level: nat, q: bool)
    ensures Kept(d, scopes, level, q) <= Inlines(d, scopes, level, q)
    ensures Kept(d, scopes, level, q) == Inlines(d, scopes, level, q) <==> Prompt(d)
    ensures !HasOpener(d) ==> Prompt(d)
    decreases d
  {
    if !Opener(d.info) && d.info.children {
      var inner, deeper := InnerScopes(d.info, scopes, q), InnerLevel(d.info, level);
      KeptOfIsPrefix(d.kids, inner, deeper, q);
      var own, kept, all := OwnInlines(d.info, scopes, level), KeptOf(d.kids, inner, deeper, q),
          InlinesOf(d.kids, inner, deeper, q);
      assert own + all == (own + kept) + all[|kept|..];
      assert own + kept == own + all <==> kept == all by {
        assert (own + kept)[|own|..] == kept && (own + all)[|own|..] == all;
      }
    }
  }

  lemma {:induction false} KeptOfIsPrefix(ds: seq<Die>, scopes: seq<string>, level: nat, q: bool)
    ensures KeptOf(ds, scopes, level, q) <= InlinesOf(ds, scopes, level, q)
    ensures KeptOf(ds, scopes, level, q) == InlinesOf(ds, scopes, level, q) <==> PromptAll(ds)
    ensures !HaveOpener(ds) ==> PromptAll(ds)
    decreases ds
  {
    if ds != [] {
      KeptIsPrefix(ds[0], scopes, level, q);
      KeptOfIsPrefix(ds[1..], scopes, level, q);
      InlinesOfEmpty(ds[1..], scopes, level, q);
      var k, a := Kept(ds[0], scopes, level, q), Inlines(ds[0], scopes, level, q);
      var ks, rest := KeptOf(ds[1..], scopes, level, q), InlinesOf(ds[1..], scopes, level, q);
      if HasOpener(ds[0]) {
        assert KeptOf(ds, scopes, level, q) == k;
        assert |k| == |a| + |rest| <==> k == a && rest == [];
      } else {
        assert k == a;
        assert a + rest == (a + ks) + rest[|ks|..];
        assert (a + ks)[|a|..] == ks && (a + rest)[|a|..] == rest;
      }
    }
  }

  /** The walk's table is the intended one exactly for tidy trees. */
  lemma {:induction false} KeptFuncsExact(d: Die, scopes: seq<string>, level: nat, q: bool)
    ensures |KeptFuncs(d, scopes, level, q)| == |Funcs(d, scopes, level, q)|
    ensures KeptFuncs(d, scopes, level, q) == Funcs(d, scopes, level, q) <==> Tidy(d)
    ensures forall i :: 0 <= i < |Funcs(d, scopes, level, q)| ==>
              KeptFuncs(d, scopes, level, q)[i].ranges == Funcs(d, scopes, level, q)[i].ranges
    decreases d
  {
    if d.info.children {
      var inner, deeper := InnerScopes(d.info, scopes, q), InnerLevel(d.info, level);
      KeptFuncsOfExact(d.kids, inner, deeper, q);
      KeptOfIsPrefix(d.kids, inner, deeper, q);
      var ks, fs := KeptFuncsOf(d.kids, inner, deeper, q), FuncsOf(d.kids, inner, deeper, q);
      if Opener(d.info) {
        var k, f := KeptFuncs(d, scopes, level, q), Funcs(d, scopes, level, q);
        assert k[1..] == ks && f[1..] == fs;
        assert k == [k[0]] + ks && f == [f[0]] + fs;
      } else {
        assert KeptFuncs(d, scopes, level, q) == ks && Funcs(d, scopes, level, q) == fs;
      }
    }
  }

  lemma {:induction false} KeptFuncsOfExact(ds: seq<Die>, scopes: seq<string>, level: nat, q: bool)
    ensures |KeptFuncsOf(ds, scopes, level, q)| == |FuncsOf(ds, scopes, level, q)|
    ensures KeptFuncsOf(ds, scopes, level, q) == FuncsOf(ds, scopes, level, q) <==> TidyAll(ds)
    ensures forall i :: 0 <= i < |FuncsOf(ds, scopes, level, q)| ==>
              KeptFuncsOf(ds, scopes, level, q)[i].ranges == FuncsOf(ds, scopes, level, q)[i].ranges
    decreases ds
  {
    if ds != [] {
      KeptFuncsExact(ds[0], scopes, level, q);
      KeptFuncsOfExact(ds[1..], scopes, level, q);
      var k, f := KeptFuncs(ds[0], scopes, level, q), Funcs(ds[0], scopes, level, q);
      var ks, fs := KeptFuncsOf(ds[1..], scopes, level, q), FuncsOf(ds[1..], scopes, level, q);
      assert (k + ks)[..|k|] == k && (k + ks)[|k|..] == ks;
      assert (f + fs)[..|f|] == f && (f + fs)[|f|..] == fs;
    }
  }
}

/**
  The edge-signal corpus (vock/src/fuzz/signal_edge.rs): which programs are kept, which edges they
  cover, and how minimisation drops the programs that contribute nothing.
 */
module SignalCorpus {
  import opened Prelude

  const MAP_SIZE: nat := 0x1_0000

  /** Fold the high bits of a word onto the low ones. */
  function Folded(h: bv64): (r: bv64)
  {
    h ^ (h >> 33)
  }

  function Spread(h: bv64): (r: bv64)
  {
    h * 0xff51afd7ed558ccd
  }

  function SpreadAgain(h: bv64): (r: bv64)
  {
    h * 0xc4ceb9fe1a85ec53
  }

  /** The mixing of `edge_hash`, before it is cut to the map. */
  function Mixed(x: bv64): (h: bv64)
  {
    Folded(SpreadAgain(Folded(Spread(Folded(x)))))
  }

  function Bucket(h: bv64): (e: nat)
    ensures e < MAP_SIZE
  {
    ((h & 0xffff) as bv16) as nat
  }

  /** Mix `pc ^ prev` and reduce it to an edge bucket. */
  function EdgeHash(pc: bv64, prev: bv64): (e: nat)
    ensures e < MAP_SIZE
  {
    Bucket(Mixed(pc ^ prev))
  }

  // ---- a program's signal

  ghost function EdgeAt(pcs: seq<bv64>, i: nat): (e: nat)
    requires i < |pcs|
  {
    EdgeHash(pcs[i], if i == 0 then 0 else pcs[i - 1])
  }

  /** The edges of a trace: one per consecutive pair of PCs, the first pairing with zero. */
  ghost function EdgesOf(pcs: seq<bv64>): (s: set<nat>)
    ensures forall e :: e in s <==> exists i :: 0 <= i < |pcs| && e == EdgeAt(pcs, i)
  {
    set i | 0 <= i < |pcs| :: EdgeAt(pcs, i)
  }

  /** A signal as `edge_signal_from_pcs` produces it: ascending bucket numbers. */
  ghost predicate IsSignal(edges: seq<nat>)
  {
    Ascending(edges) && forall i :: 0 <= i < |edges| ==> edges[i] < MAP_SIZE
  }

  type Octet = w: seq<bool> | |w| == 8 witness seq(8, _ => false)

  function NoBits(): Octet
  {
    seq(8, _ => false)
  }

  /** The bits set in a byte map. */
  ghost predicate Seen(bits: seq<Octet>, edges: seq<nat>)
  {
    && |bits| == MAP_SIZE / 8 + 1
    && forall e: nat :: e < MAP_SIZE ==> (bits[e / 8][e % 8] <==> e in edges)
  }

  lemma SeenStep(bits: seq<Octet>, edges: seq<nat>, e: nat)
    requires Seen(bits, edges) && e < MAP_SIZE
    ensures Seen(bits[e / 8 := bits[e / 8][e % 8 := true]], edges + [e])
  {
  }

  /** `edge_signal_from_pcs`: every edge of the trace once, in ascending order. */
  method EdgeSignalFromPcs(pcs: seq<bv64>) returns (edges: seq<nat>)
    ensures IsSignal(edges)
    ensures forall e :: e in edges <==> e in EdgesOf(pcs)
  {
    hide EdgeHash, EdgesOf;
    var seen: seq<Octet> := seq(MAP_SIZE / 8 + 1, _ => NoBits());
    var found: seq<nat> := [];
    var prev: bv64 := 0;
    for i := 0 to |pcs|
      invariant Seen(seen, found)
      invariant i > 0 ==> prev == pcs[i - 1]
      invariant i == 0 ==> prev == 0
      invariant forall e :: e in found ==> e < MAP_SIZE
      invariant forall e :: e in found <==> exists k :: 0 <= k < i && e == EdgeAt(pcs, k)
    {
      var edge := EdgeHash(pcs[i], prev);
      assert edge == EdgeAt(pcs, i);
      prev := pcs[i];
      if !seen[edge / 8][edge % 8] {
        SeenStep(seen, found, edge);
        seen := seen[edge / 8 := seen[edge / 8][edge % 8 := true]];
        found := found + [edge];
      }
    }
    edges := Sort(found);
    forall i | 0 <= i < |edges| ensures edges[i] < MAP_SIZE {
      assert edges[i] in edges;
    }
  }

  method Sort(found: seq<nat>) returns (edges: seq<nat>)
    ensures Ascending(edges) && forall e :: e in edges <==> e in found
  {
    edges := [];
    for i := 0 to |found|
      invariant Ascending(edges) && forall e :: e in edges <==> e in found[..i]
    {
      InsertUniqueSorted(edges, found[i]);
      assert found[..i + 1] == found[..i] + [found[i]];
      edges := InsertUnique(edges, found[i]);
    }
    assert found[..|found|] == found;
  }

  // ---- coverage

  datatype Entry = Entry(progId: int, edges: seq<nat>, unique: nat)

  /** How many entries have edge `e`. */
  ghost function Owners(es: seq<Entry>, e: nat): (n: nat)
    ensures n <= |es|
  {
    if es == [] then 0 else Owners(es[..|es| - 1], e) + (if e in es[|es| - 1].edges then 1 else 0)
  }

  lemma {:induction false} OwnersConcat(a: seq<Entry>, b: seq<Entry>, e: nat)
    ensures Owners(a + b, e) == Owners(a, e) + Owners(b, e)
    decreases |b|
  {
    if b == [] {
      assert a + b == a;
    } else {
      assert (a + b)[..|a + b| - 1] == a + b[..|b| - 1];
      OwnersConcat(a, b[..|b| - 1], e);
    }
  }

  lemma {:induction false} OwnersWitness(es: seq<Entry>, e: nat)
    ensures Owners(es, e) > 0 <==> exists k :: 0 <= k < |es| && e in es[k].edges
  {
    if es != [] {
      var n := |es| - 1;
      OwnersWitness(es[..n], e);
      if k :| 0 <= k < n && e in es[..n][k].edges {
        assert e in es[k].edges;
      }
      if k :| 0 <= k < |es| && e in es[k].edges {
        assert k < n ==> e in es[..n][k].edges;
      }
    }
  }

  /** An edge with a single owner belongs to no other entry. */
  lemma OwnersUnique(es: seq<Entry>, e: nat, j: nat, k: nat)
    requires j < k < |es| && e in es[j].edges && e in es[k].edges
    ensures Owners(es, e) >= 2
  {
    assert es == es[..j + 1] + es[j + 1..];
    OwnersConcat(es[..j + 1], es[j + 1..], e);
    assert es[..j + 1][..j] == es[..j];
    assert es[j + 1..][k - j - 1] == es[k];
    OwnersWitness(es[j + 1..], e);
  }

  function SwapRemove(es: seq<Entry>, i: nat): (r: seq<Entry>)
    requires i < |es|
    ensures |r| == |es| - 1
  {
    var n := |es| - 1;
    if i == n then es[..n] else es[..i] + [es[n]] + es[i + 1..n]
  }

  /** The last entry takes the place of the removed one, and the others stay where they are. */
  lemma SwapRemoveAt(es: seq<Entry>, i: nat, k: nat)
    requires i < |es| && k < |es| - 1
    ensures SwapRemove(es, i)[k] == if k == i then es[|es| - 1] else es[k]
  {
  }

  lemma OwnersSwapRemove(es: seq<Entry>, i: nat, e: nat)
    requires i < |es|
    ensures Owners(SwapRemove(es, i), e) == Owners(es, e) - (if e in es[i].edges then 1 else 0)
  {
    hide Owners;
    var n := |es| - 1;
    if i == n {
      assert es == es[..n] + [es[n]];
      OwnersConcat(es[..n], [es[n]], e);
      OwnersOne(es[n], e);
    } else {
      var a, b := es[..i], es[i + 1..n];
      assert es == a + [es[i]] + b + [es[n]];
      OwnersConcat(a + [es[i]] + b, [es[n]], e);
      OwnersConcat(a + [es[i]], b, e);
      OwnersConcat(a, [es[i]], e);
      OwnersConcat(a + [es[n]], b, e);
      OwnersConcat(a, [es[n]], e);
      OwnersOne(es[i], e);
      OwnersOne(es[n], e);
    }
  }

  lemma OwnersOne(x: Entry, e: nat)
    ensures Owners([x], e) == if e in x.edges then 1 else 0
  {
    assert [x][..0] == [];
  }

  lemma SwapRemoveMembers(es: seq<Entry>, i: nat)
    requires i < |es|
    ensures multiset(SwapRemove(es, i)) == multiset(es) - multiset{es[i]}
  {
    var n := |es| - 1;
    if i == n {
      assert es == es[..n] + [es[n]];
    } else {
      assert es == es[..i] + [es[i]] + es[i + 1..n] + [es[n]];
    }
  }

  // ---- minimisation

  const REF_MAX: nat := 0xffff

  ghost predicate Signals(es: seq<Entry>)
  {
    forall k :: 0 <= k < |es| ==> IsSignal(es[k].edges)
  }

  /** The sixteen-bit, saturating count of the programs owning each edge. */
  ghost function Refs(es: seq<Entry>): (r: seq<int>)
  {
    seq(MAP_SIZE, e requires 0 <= e => if Owners(es, e) < REF_MAX then Owners(es, e) else REF_MAX)
  }

  ghost function Dropped(refs: seq<int>, edges: seq<nat>): (r: seq<int>)
  {
    seq(|refs|, e requires 0 <= e < |refs| => if e in edges then refs[e] - 1 else refs[e])
  }

  ghost predicate HasUnique(refs: seq<int>, edges: seq<nat>)
  {
    exists k :: 0 <= k < |edges| && edges[k] < |refs| && refs[edges[k]] == 1
  }

  datatype Swept = Swept(entries: seq<Entry>, refs: seq<int>)

  /** The sweep of `minimize` from position `i` on. */
  ghost function Sweep(es: seq<Entry>, refs: seq<int>, i: nat): (r: Swept)
    decreases |es| - i
  {
    if i >= |es| then Swept(es, refs)
    else if HasUnique(refs, es[i].edges) then Sweep(es, refs, i + 1)
    else Sweep(SwapRemove(es, i), Dropped(refs, es[i].edges), i)
  }

  lemma SweepStep(es: seq<Entry>, refs: seq<int>, i: nat)
    requires i <= |es|
    ensures Sweep(es, refs, i) ==
            if i == |es| then Swept(es, refs)
            else if HasUnique(refs, es[i].edges) then Sweep(es, refs, i + 1)
            else Sweep(SwapRemove(es, i), Dropped(refs, es[i].edges), i)
  {
  }

  /** A count per edge that is positive exactly for owned edges and never above the true count. */
  ghost predicate Counts(es: seq<Entry>, refs: seq<int>)
  {
    && |refs| == MAP_SIZE
    && forall e: nat :: e < MAP_SIZE ==>
         0 <= refs[e] <= Owners(es, e) && (Owners(es, e) > 0 ==> refs[e] > 0)
  }

  lemma CountDropped(es: seq<Entry>, refs: seq<int>, i: nat, e: nat)
    requires Counts(es, refs) && i < |es| && e < MAP_SIZE && !HasUnique(refs, es[i].edges)
    ensures var left, r := SwapRemove(es, i), Dropped(refs, es[i].edges);
            && 0 <= r[e] <= Owners(left, e) && (Owners(left, e) > 0 ==> r[e] > 0)
            && (Owners(left, e) > 0 <==> Owners(es, e) > 0)
  {
    hide Owners, SwapRemove;
    OwnersSwapRemove(es, i, e);
    var edges := es[i].edges;
    if e in edges {
      OwnersWitness(es, e);
      var k :| 0 <= k < |edges| && edges[k] == e;
      assert refs[edges[k]] != 1;
    }
  }

  lemma CountsDropped(es: seq<Entry>, refs: seq<int>, i: nat)
    requires Counts(es, refs) && i < |es| && !HasUnique(refs, es[i].edges)
    ensures |Dropped(refs, es[i].edges)| == MAP_SIZE && Counts(SwapRemove(es, i), Dropped(refs, es[i].edges))
    ensures forall e: nat :: e < MAP_SIZE ==> (Owners(SwapRemove(es, i), e) > 0 <==> Owners(es, e) > 0)
  {
    hide Owners, SwapRemove, HasUnique;
    forall e: nat | e < MAP_SIZE
      ensures var left, r := SwapRemove(es, i), Dropped(refs, es[i].edges);
              && 0 <= r[e] <= Owners(left, e) && (Owners(left, e) > 0 ==> r[e] > 0)
              && (Owners(left, e) > 0 <==> Owners(es, e) > 0)
    {
      CountDropped(es, refs, i, e);
    }
  }

  lemma SignalsLeft(es: seq<Entry>, i: nat)
    requires Signals(es) && i < |es|
    ensures Signals(SwapRemove(es, i))
  {
    hide IsSignal;
  }

  /**
    Minimisation loses no edge, whatever the order of the entries, however the sixteen-bit counts
    saturate; no count goes below zero; and the survivors are among the programs it started from.
   */
  lemma {:induction false} SweepKeepsCoverage(es: seq<Entry>, refs: seq<int>, i: nat)
    requires Counts(es, refs) && Signals(es) && i <= |es|
    ensures var r := Sweep(es, refs, i);
            && Counts(r.entries, r.refs) && Signals(r.entries)
            && multiset(r.entries) <= multiset(es) && |r.entries| <= |es|
            && forall e: nat :: e < MAP_SIZE ==> (Owners(r.entries, e) > 0 <==> Owners(es, e) > 0)
    decreases |es| - i
  {
    hide Counts, Signals, Owners, HasUnique;
    if i < |es| {
      if HasUnique(refs, es[i].edges) {
        SweepKeepsCoverage(es, refs, i + 1);
      } else {
        CountsDropped(es, refs, i);
        SignalsLeft(es, i);
        SwapRemoveMembers(es, i);
        SweepKeepsCoverage(SwapRemove(es, i), Dropped(refs, es[i].edges), i);
      }
    }
  }

  /** Some edge of the program at `k` is covered by no other program. */
  ghost predicate Essential(es: seq<Entry>, k: nat)
    requires k < |es|
  {
    exists e :: e in es[k].edges && Owners(es, e) == 1
  }

  ghost predicate Exact(es: seq<Entry>, refs: seq<int>)
  {
    |refs| == MAP_SIZE && forall e: nat :: e < MAP_SIZE ==> refs[e] == Owners(es, e)
  }

  lemma EssentialKept(es: seq<Entry>, i: nat, j: nat)
    requires j < i < |es| && Essential(es, j)
    ensures Essential(SwapRemove(es, i), j)
  {
    hide Owners;
    var e :| e in es[j].edges && Owners(es, e) == 1;
    if e in es[i].edges {
      OwnersUnique(es, e, j, i);
    }
    OwnersSwapRemove(es, i, e);
    assert e in SwapRemove(es, i)[j].edges;
  }

  lemma ExactDropped(es: seq<Entry>, refs: seq<int>, i: nat)
    requires Exact(es, refs) && Signals(es) && i < |es|
    ensures Exact(SwapRemove(es, i), Dropped(refs, es[i].edges)) && Signals(SwapRemove(es, i))
  {
    hide Ascending, Owners;
    forall e: nat | e < MAP_SIZE
      ensures Owners(SwapRemove(es, i), e) == Owners(es, e) - (if e in es[i].edges then 1 else 0)
    {
      OwnersSwapRemove(es, i, e);
    }
  }

  lemma EssentialFound(es: seq<Entry>, refs: seq<int>, i: nat)
    requires Exact(es, refs) && Signals(es) && i < |es| && HasUnique(refs, es[i].edges)
    ensures Essential(es, i)
  {
    hide Owners;
    var edges := es[i].edges;
    var k :| 0 <= k < |edges| && edges[k] < |refs| && refs[edges[k]] == 1;
    assert edges[k] in edges;
  }

  /** Unless a count saturated, every survivor covers some edge alone: no further program can go. */
  lemma {:induction false} SweepIrredundant(es: seq<Entry>, refs: seq<int>, i: nat)
    requires Exact(es, refs) && Signals(es) && i <= |es|
    requires forall k :: 0 <= k < i ==> Essential(es, k)
    ensures var r := Sweep(es, refs, i);
            Exact(r.entries, r.refs) && forall k :: 0 <= k < |r.entries| ==> Essential(r.entries, k)
    decreases |es| - i
  {
    hide Exact, Signals, Owners, HasUnique, Essential;
    if i < |es| {
      if HasUnique(refs, es[i].edges) {
        EssentialFound(es, refs, i);
        SweepIrredundant(es, refs, i + 1);
      } else {
        ExactDropped(es, refs, i);
        forall k | 0 <= k < i ensures Essential(SwapRemove(es, i), k) {
          EssentialKept(es, i, k);
        }
        SweepIrredundant(SwapRemove(es, i), Dropped(refs, es[i].edges), i);
      }
    }
  }

  lemma RefsCount(es: seq<Entry>)
    ensures |Refs(es)| == MAP_SIZE && Counts(es, Refs(es))
    ensures (forall e: nat :: e < MAP_SIZE ==> Owners(es, e) <= REF_MAX) ==> Exact(es, Refs(es))
  {
    hide Owners;
  }

  // ---- where saturation shows

  ghost function Wide(): (x: Entry)
  {
    Entry(0, seq(MAP_SIZE, e requires 0 <= e => e), 0)
  }

  ghost function Pair(k: nat): (x: Entry)
  {
    Entry(0, if k == 0 then [0] else [0, k], 0)
  }

  /** As many programs as there are edges: all share edge zero, each adds one edge, the last has all. */
  ghost function Crowd(): (es: seq<Entry>)
  {
    seq(REF_MAX, k requires 0 <= k => Pair(k)) + [Wide()]
  }

  lemma {:induction false} PairOwners(n: nat, e: nat)
    requires n <= REF_MAX
    ensures Owners(seq(n, k requires 0 <= k => Pair(k)), e) == if e == 0 then n else if e < n then 1 else 0
    decreases n
  {
    var es := seq(n, k requires 0 <= k => Pair(k));
    if n > 0 {
      PairOwners(n - 1, e);
      assert es[..n - 1] == seq(n - 1, k requires 0 <= k => Pair(k));
      assert es[n - 1] == Pair(n - 1);
      assert e in Pair(n - 1).edges <==> e == 0 || e == n - 1;
    }
  }

  lemma CrowdRefs(e: nat)
    requires e < MAP_SIZE
    ensures Refs(Crowd())[e] == if e == 0 then REF_MAX else if e < REF_MAX then 2 else 1
  {
    hide Owners;
    PairOwners(REF_MAX, e);
    OwnersConcat(seq(REF_MAX, k requires 0 <= k => Pair(k)), [Wide()], e);
    OwnersOne(Wide(), e);
    assert Wide().edges[e] == e;
  }

  ghost predicate PairsOf(pairs: seq<Entry>, refs: seq<int>)
  {
    && |refs| == MAP_SIZE && |pairs| > 0 && refs[0] == |pairs|
    && (forall j :: 0 <= j < |pairs| ==>
          |pairs[j].edges| == 2 && pairs[j].edges[0] == 0 && 0 < pairs[j].edges[1] < MAP_SIZE
          && refs[pairs[j].edges[1]] == 2)
    && forall j, k :: 0 <= j < k < |pairs| ==> pairs[j].edges[1] != pairs[k].edges[1]
  }

  lemma PairsLeft(pairs: seq<Entry>, refs: seq<int>)
    requires PairsOf(pairs, refs) && |pairs| > 1
    ensures PairsOf(SwapRemove(pairs, 0), Dropped(refs, pairs[0].edges))
    ensures !HasUnique(refs, pairs[0].edges)
  {
    var left, r := SwapRemove(pairs, 0), Dropped(refs, pairs[0].edges);
    assert pairs[0].edges == [0, pairs[0].edges[1]];
    forall j | 0 <= j < |left| ensures exists k :: 0 < k < |pairs| && left[j] == pairs[k] {
      assert left[j] == pairs[if j == 0 then |pairs| - 1 else j];
    }
  }

  lemma {:induction false} SweepPairs(first: Entry, pairs: seq<Entry>, refs: seq<int>)
    requires PairsOf(pairs, refs)
    ensures var r := Sweep([first] + pairs, refs, 1).entries;
            |r| == 2 && r[0] == first && r[1] in pairs
    decreases |pairs|
  {
    var es := [first] + pairs;
    assert es[1] == pairs[0];
    if |pairs| == 1 {
      assert refs[pairs[0].edges[0]] == 1;
      assert HasUnique(refs, es[1].edges);
      assert Sweep(es, refs, 2) == Swept(es, refs);
    } else {
      PairsLeft(pairs, refs);
      assert SwapRemove(es, 1) == [first] + SwapRemove(pairs, 0);
      SweepPairs(first, SwapRemove(pairs, 0), Dropped(refs, pairs[0].edges));
    }
  }

  lemma CrowdPairs() returns (pairs: seq<Entry>, refs: seq<int>)
    ensures pairs == Crowd()[1..REF_MAX] && refs == Dropped(Refs(Crowd()), [0])
    ensures PairsOf(pairs, refs) && |refs| == MAP_SIZE && refs[REF_MAX] == 1
    ensures !HasUnique(Refs(Crowd()), [0])
    ensures forall j :: 0 <= j < |pairs| ==> forall e :: e in pairs[j].edges ==> e < MAP_SIZE
  {
    hide Refs, Owners, Wide;
    var es, all := Crowd(), Refs(Crowd());
    RefsCount(es);
    forall e: nat | e < MAP_SIZE
      ensures all[e] == if e == 0 then REF_MAX else if e < REF_MAX then 2 else 1
    {
      CrowdRefs(e);
    }
    hide Counts, Exact;
    pairs, refs := es[1..REF_MAX], Dropped(all, [0]);
    forall j | 0 <= j < |pairs| ensures pairs[j] == Pair(j + 1) {
    }
  }

  lemma CrowdStart() returns (pairs: seq<Entry>, refs: seq<int>)
    ensures Sweep(Crowd(), Refs(Crowd()), 0) == Sweep([Wide()] + pairs, refs, 1)
    ensures PairsOf(pairs, refs)
    ensures forall j :: 0 <= j < |pairs| ==> forall e :: e in pairs[j].edges ==> e < MAP_SIZE
  {
    hide Refs, Owners, PairsOf, Dropped, Sweep;
    var es, all := Crowd(), Refs(Crowd());
    pairs, refs := CrowdPairs();
    assert es[0].edges == [0];
    var left := [Wide()] + pairs;
    assert SwapRemove(es, 0) == left;
    SweepStep(es, all, 0);
    assert Sweep(es, all, 0) == Sweep(left, refs, 0);
    assert Wide().edges[REF_MAX] == REF_MAX && refs[REF_MAX] == 1;
    assert HasUnique(refs, left[0].edges);
    SweepStep(left, refs, 0);
  }

  /**
    Every program of `Crowd` adds an edge, so all of them are accepted in turn; the count of the edge
    they share saturates, and the sweep ends with a program whose every edge another one covers.
   */
  lemma SaturationKeepsRedundant()
    ensures |Crowd()| == MAP_SIZE
    ensures forall k: nat :: k < |Crowd()| ==> k in Crowd()[k].edges && Owners(Crowd()[..k], k) == 0
    ensures var r := Sweep(Crowd(), Refs(Crowd()), 0).entries; |r| == 2 && !Essential(r, 1)
  {
    hide Sweep, Refs;
    var es := Crowd();
    forall k: nat | k < |es| ensures k in es[k].edges && Owners(es[..k], k) == 0 {
      PairOwners(k, k);
      assert es[..k] == seq(k, j requires 0 <= j => Pair(j));
      assert k < REF_MAX ==> es[k] == Pair(k);
      assert Wide().edges[k] == k;
      assert k == 0 ==> es[..k] == [];
    }
    var pairs, refs := CrowdStart();
    SweepPairs(Wide(), pairs, refs);
    var r := Sweep(es, Refs(es), 0).entries;
    forall e | e in r[1].edges ensures Owners(r, e) == 2 {
      assert e < MAP_SIZE;
      assert Wide().edges[e] == e;
      assert r == [r[0]] + [r[1]];
      OwnersConcat([r[0]], [r[1]], e);
      OwnersOne(r[0], e);
      OwnersOne(r[1], e);
    }
  }

  // ---- what saturation changes

  ghost predicate OwnsAll(x: Entry)
  {
    forall e: nat :: e < MAP_SIZE ==> e in x.edges
  }

  /** Some edge has more owners than its count can tell. */
  ghost predicate Saturated(es: seq<Entry>)
  {
    exists s: nat :: s < MAP_SIZE && Owners(es, s) > REF_MAX
  }

  /** ... and one program has every edge. */
  ghost predicate Crowded(es: seq<Entry>)
  {
    Saturated(es) && exists k :: 0 <= k < |es| && OwnsAll(es[k])
  }

  /** ... and the sweep comes down to two programs. */
  ghost predicate Misread(es: seq<Entry>)
  {
    Saturated(es) && |Sweep(es, Refs(es), 0).entries| == 2
  }

  /** The program at `k` has an edge that none before it has. */
  ghost predicate Adds(es: seq<Entry>, k: nat)
    requires k < |es|
  {
    exists e :: e in es[k].edges && forall j :: 0 <= j < k ==> e !in es[j].edges
  }

  ghost predicate Staggered(es: seq<Entry>)
  {
    forall k :: 0 <= k < |es| ==> Adds(es, k)
  }

  lemma StaggeredMore(es: seq<Entry>, x: Entry)
    requires Staggered(es) && exists k :: 0 <= k < |x.edges| && Owners(es, x.edges[k]) == 0
    ensures Staggered(es + [x])
  {
    hide Owners;
    var k :| 0 <= k < |x.edges| && Owners(es, x.edges[k]) == 0;
    OwnersWitness(es, x.edges[k]);
    forall m | 0 <= m < |es + [x]| ensures Adds(es + [x], m) {
      if m < |es| {
        assert Adds(es, m);
        var e :| e in es[m].edges && forall j :: 0 <= j < m ==> e !in es[j].edges;
        assert e in (es + [x])[m].edges;
      } else {
        assert x.edges[k] in (es + [x])[m].edges;
      }
    }
  }

  lemma EssentialsStagger(es: seq<Entry>)
    requires forall k :: 0 <= k < |es| ==> Essential(es, k)
    ensures Staggered(es)
  {
    hide Owners;
    forall k | 0 <= k < |es| ensures Adds(es, k) {
      assert Essential(es, k);
      var e :| e in es[k].edges && Owners(es, e) == 1;
      forall j | 0 <= j < k ensures e !in es[j].edges {
        if e in es[j].edges {
          OwnersUnique(es, e, j, k);
        }
      }
    }
  }

  lemma Bounded(es: seq<Entry>, k: nat, e: nat)
    requires Signals(es) && k < |es| && e in es[k].edges
    ensures e < MAP_SIZE
  {
    assert IsSignal(es[k].edges);
  }

  /** Where every program adds an edge, one that owns them all came last and owns its own alone. */
  lemma OwnerIsLast(es: seq<Entry>, k: nat) returns (e: nat)
    requires Staggered(es) && Signals(es) && k < |es| && OwnsAll(es[k])
    ensures e < MAP_SIZE && e in es[k].edges && Owners(es, e) == 1
  {
    hide Owners, Signals;
    if k + 1 < |es| {
      assert Adds(es, k + 1);
      var f :| f in es[k + 1].edges && forall j :: 0 <= j < k + 1 ==> f !in es[j].edges;
      Bounded(es, k + 1, f);
    }
    assert Adds(es, k);
    e :| e in es[k].edges && forall j :: 0 <= j < k ==> e !in es[j].edges;
    Bounded(es, k, e);
    OwnersWitness(es[..k], e);
    OwnersOne(es[k], e);
    OwnersConcat(es[..k], [es[k]], e);
    assert es == es[..k] + [es[k]];
  }

  /** Counts that are exact but for edges all programs own, `s` among them, which may be one short. */
  ghost predicate Lacking(es: seq<Entry>, refs: seq<int>, s: nat)
  {
    && s < MAP_SIZE == |refs| && |es| >= 2 && Owners(es, s) == |es| && refs[s] == |es| - 1
    && forall e: nat :: e < MAP_SIZE ==>
         refs[e] == Owners(es, e) || (Owners(es, e) == |es| && refs[e] == |es| - 1)
  }

  lemma LackingStart(es: seq<Entry>, s: nat)
    requires |es| == MAP_SIZE && s < MAP_SIZE && Owners(es, s) == |es|
    ensures Lacking(es, Refs(es), s)
  {
    forall e: nat | e < MAP_SIZE ensures Owners(es, e) <= |es| {
    }
    hide Owners;
  }

  lemma LackingAt(es: seq<Entry>, refs: seq<int>, i: nat, s: nat, e: nat)
    requires Lacking(es, refs, s) && |es| > 2 && i < |es| && e < MAP_SIZE
    ensures var left, r := SwapRemove(es, i), Dropped(refs, es[i].edges);
            && (refs[e] == Owners(es, e) ==> r[e] == Owners(left, e))
            && (Owners(es, e) == |es| ==> Owners(left, e) == |left| && r[e] == refs[e] - 1)
  {
    hide Owners, SwapRemove;
    OwnersSwapRemove(es, i, e);
    OwnersAll(es, e);
  }

  lemma LackingDropped(es: seq<Entry>, refs: seq<int>, i: nat, s: nat)
    requires Lacking(es, refs, s) && |es| > 2 && i < |es|
    ensures Lacking(SwapRemove(es, i), Dropped(refs, es[i].edges), s)
  {
    hide Owners, SwapRemove;
    forall e: nat | e < MAP_SIZE
      ensures var left, r := SwapRemove(es, i), Dropped(refs, es[i].edges);
              && (refs[e] == Owners(es, e) ==> r[e] == Owners(left, e))
              && (Owners(es, e) == |es| ==> Owners(left, e) == |left| && r[e] == refs[e] - 1)
    {
      LackingAt(es, refs, i, s, e);
    }
  }

  /** With more than two programs left the short counts mislead nobody; with two they keep both. */
  lemma LackingUnique(es: seq<Entry>, refs: seq<int>, i: nat, s: nat)
    requires Lacking(es, refs, s) && Signals(es) && i < |es|
    ensures HasUnique(refs, es[i].edges) <==> |es| == 2 || Essential(es, i)
  {
    hide Owners, Signals;
    OwnersAll(es, s);
    var edges := es[i].edges;
    if HasUnique(refs, edges) {
      var k :| 0 <= k < |edges| && edges[k] < |refs| && refs[edges[k]] == 1;
      assert edges[k] in edges;
    } else {
      var k :| 0 <= k < |edges| && edges[k] == s;
      assert refs[edges[k]] != 1;
      forall e | e in edges ensures Owners(es, e) != 1 {
        Bounded(es, i, e);
        var m :| 0 <= m < |edges| && edges[m] == e;
        assert refs[edges[m]] != 1;
      }
    }
  }

  lemma {:induction false} SweepLacking(es: seq<Entry>, refs: seq<int>, i: nat, s: nat)
    requires Lacking(es, refs, s) && Signals(es) && i <= |es|
    requires |es| > 2 ==> forall k :: 0 <= k < i ==> Essential(es, k)
    ensures var r := Sweep(es, refs, i);
            && Lacking(r.entries, r.refs, s)
            && (|r.entries| > 2 ==> forall k :: 0 <= k < |r.entries| ==> Essential(r.entries, k))
    decreases |es| - i
  {
    hide Signals, Owners, HasUnique, Essential, SwapRemove;
    if i < |es| {
      LackingUnique(es, refs, i, s);
      if HasUnique(refs, es[i].edges) {
        SweepLacking(es, refs, i + 1, s);
      } else {
        LackingDropped(es, refs, i, s);
        SignalsLeft(es, i);
        forall k | 0 <= k < i ensures Essential(SwapRemove(es, i), k) {
          EssentialKept(es, i, k);
        }
        SweepLacking(SwapRemove(es, i), Dropped(refs, es[i].edges), i, s);
      }
    }
  }

  /** Of two programs that cover everything, both are needed unless one has every edge. */
  lemma PairEssential(r: seq<Entry>, k: nat)
    requires |r| == 2 && k < 2 && (forall e: nat :: e < MAP_SIZE ==> Owners(r, e) > 0)
    ensures Essential(r, k) || OwnsAll(r[1 - k])
  {
    hide Owners;
    var other := r[1 - k];
    if !Essential(r, k) {
      forall e: nat | e < MAP_SIZE ensures e in other.edges {
        OwnersWitness(r, e);
        OwnersPair(r, e);
        assert Owners(r, e) > 0;
        assert e in r[k].edges ==> Owners(r, e) != 1;
      }
    }
  }

  lemma OwnersPair(r: seq<Entry>, e: nat)
    requires |r| == 2
    ensures Owners(r, e) == (if e in r[0].edges then 1 else 0) + (if e in r[1].edges then 1 else 0)
  {
    hide Owners;
    assert r == [r[0]] + [r[1]];
    OwnersConcat([r[0]], [r[1]], e);
    OwnersOne(r[0], e);
    OwnersOne(r[1], e);
  }

  lemma OwnerLeavesNone(r: seq<Entry>, j: nat, k: nat)
    requires Signals(r) && j < |r| && k < |r| && j != k && OwnsAll(r[k])
    ensures !Essential(r, j)
  {
    hide Owners, Signals;
    forall e | e in r[j].edges ensures Owners(r, e) >= 2 {
      Bounded(r, j, e);
      OwnersUnique(r, e, if j < k then j else k, if j < k then k else j);
    }
  }

  /** Only its owner can keep an edge covered. */
  lemma OwnerSurvives(es: seq<Entry>, r: seq<Entry>, k: nat, e: nat) returns (j: nat)
    requires k < |es| && e in es[k].edges && Owners(es, e) == 1
    requires multiset(r) <= multiset(es) && Owners(r, e) > 0
    ensures j < |r| && r[j] == es[k]
  {
    hide Owners;
    OwnersWitness(r, e);
    j :| 0 <= j < |r| && e in r[j].edges;
    assert r[j] in multiset(r);
    var m :| 0 <= m < |es| && es[m] == r[j];
    if m != k {
      OwnersUnique(es, e, if m < k then m else k, if m < k then k else m);
    }
  }

  /** The recorded counts mark exactly the edges with a single owner. */
  ghost predicate Marks(es: seq<Entry>, refs: seq<int>)
  {
    |refs| == MAP_SIZE && forall e: nat :: e < MAP_SIZE ==> (refs[e] == 1 <==> Owners(es, e) == 1)
  }

  lemma ExactMarks(es: seq<Entry>, refs: seq<int>)
    requires Exact(es, refs)
    ensures Marks(es, refs)
  {
    hide Owners;
  }

  lemma LackingMarks(es: seq<Entry>, refs: seq<int>, s: nat)
    requires Lacking(es, refs, s) && |es| > 2
    ensures Marks(es, refs)
  {
    hide Owners;
  }

  /** What the sweep starts from: a corpus that is staggered and complete if a count saturated. */
  ghost predicate Sweepable(es: seq<Entry>)
  {
    && Signals(es) && 2 <= |es| <= MAP_SIZE
    && (Saturated(es) ==> Staggered(es) && forall e: nat :: e < MAP_SIZE ==> Owners(es, e) > 0)
  }

  lemma UnsaturatedSweep(es: seq<Entry>)
    requires Signals(es) && !Saturated(es)
    ensures var r := Sweep(es, Refs(es), 0);
            Marks(r.entries, r.refs) && forall k :: 0 <= k < |r.entries| ==> Essential(r.entries, k)
  {
    hide Owners, Sweep, Refs, Signals, Essential, Marks, Exact, Counts;
    RefsCount(es);
    SweepIrredundant(es, Refs(es), 0);
    var r := Sweep(es, Refs(es), 0);
    ExactMarks(r.entries, r.refs);
  }

  lemma SaturatedSweep(es: seq<Entry>) returns (s: nat)
    requires Sweepable(es) && Saturated(es)
    ensures var r := Sweep(es, Refs(es), 0);
            && Lacking(r.entries, r.refs, s) && Signals(r.entries) && multiset(r.entries) <= multiset(es)
            && (|r.entries| > 2 ==> forall k :: 0 <= k < |r.entries| ==> Essential(r.entries, k))
            && forall e: nat :: e < MAP_SIZE ==> Owners(r.entries, e) > 0
  {
    s :| s < MAP_SIZE && Owners(es, s) > REF_MAX;
    assert Owners(es, s) <= |es|;
    hide Owners, Sweep, Refs, Signals, Essential, Lacking, Counts, Exact, Staggered;
    RefsCount(es);
    LackingStart(es, s);
    SweepLacking(es, Refs(es), 0, s);
    SweepKeepsCoverage(es, Refs(es), 0);
  }

  /** The sweep leaves only programs that are needed, if and only if the corpus was not crowded. */
  lemma SweepExact(es: seq<Entry>)
    requires Sweepable(es)
    ensures var r := Sweep(es, Refs(es), 0).entries;
            && ((forall k :: 0 <= k < |r| ==> Essential(r, k)) <==> !Crowded(es))
            && (Crowded(es) ==> |r| == 2)
  {
    hide Owners, Sweep, Refs, Signals, Essential, Saturated, OwnsAll, Staggered, Lacking, Marks;
    if !Saturated(es) {
      UnsaturatedSweep(es);
    } else {
      var s := SaturatedSweep(es);
      var q := Sweep(es, Refs(es), 0);
      var r := q.entries;
      LackingSize(r, q.refs, s);
      if k :| 0 <= k < |es| && OwnsAll(es[k]) {
        var e := OwnerIsLast(es, k);
        var j := OwnerSurvives(es, r, k, e);
        OwnerLeavesNone(r, if j == 0 then 1 else 0, j);
      } else if |r| == 2 {
        forall k | 0 <= k < |r| ensures Essential(r, k) {
          PairEssential(r, k);
          assert r[1 - k] in multiset(r);
          var m :| 0 <= m < |es| && es[m] == r[1 - k];
          assert !OwnsAll(es[m]);
        }
      }
    }
  }

  lemma LackingSize(es: seq<Entry>, refs: seq<int>, s: nat)
    requires Lacking(es, refs, s)
    ensures |es| >= 2
  {
    hide Owners;
  }

  // ---- the corpus object

  /** How many of `edges` no program of `es` owns. */
  ghost function NewEdges(es: seq<Entry>, edges: seq<nat>): (n: nat)
    ensures n <= |edges|
    ensures n > 0 <==> exists k :: 0 <= k < |edges| && Owners(es, edges[k]) == 0
  {
    if edges == [] then 0
    else
      var m := |edges| - 1;
      assert Owners(es, edges[m]) == 0 || forall k :: 0 <= k < m ==> edges[k] == edges[..m][k];
      NewEdges(es, edges[..m]) + (if Owners(es, edges[m]) == 0 then 1 else 0)
  }

  /** How many of `edges` have a count of exactly one. */
  ghost function Singles(refs: seq<int>, edges: seq<nat>): (n: nat)
    ensures n <= |edges|
  {
    if edges == [] then 0
    else
      var m := |edges| - 1;
      Singles(refs, edges[..m]) + (if edges[m] < |refs| && refs[edges[m]] == 1 then 1 else 0)
  }

  ghost function Recounted(es: seq<Entry>, refs: seq<int>): (r: seq<Entry>)
  {
    seq(|es|, k requires 0 <= k < |es| => es[k].(unique := Singles(refs, es[k].edges)))
  }

  ghost function NonZero(hits: seq<nat>): (n: nat)
    ensures n <= |hits|
  {
    if hits == [] then 0 else NonZero(hits[..|hits| - 1]) + (if hits[|hits| - 1] > 0 then 1 else 0)
  }

  lemma {:induction false} NonZeroBump(hits: seq<nat>, e: nat, v: nat)
    requires e < |hits| && v > 0
    ensures NonZero(hits[e := v]) == NonZero(hits) + (if hits[e] == 0 then 1 else 0)
    decreases |hits|
  {
    var n := |hits| - 1;
    if e == n {
      assert hits[e := v][..n] == hits[..n];
    } else {
      NonZeroBump(hits[..n], e, v);
      assert hits[e := v][..n] == hits[..n][e := v];
    }
  }

  /** The hit map holds a positive count exactly for the covered edges. */
  ghost predicate Covers(hits: seq<nat>, es: seq<Entry>)
  {
    && |hits| == MAP_SIZE && (forall e :: 0 <= e < |hits| ==> hits[e] <= 255)
    && forall e: nat :: e < MAP_SIZE ==> (hits[e] > 0 <==> Owners(es, e) > 0)
  }

  class Corpus {
    var entries: seq<Entry>
    var hits: seq<nat>
    var totalEdges: nat

    ghost predicate Valid()
      reads this
    {
      && Signals(entries) && Covers(hits, entries)
      && totalEdges == NonZero(hits) && |entries| <= totalEdges
      && (Staggered(entries) || |entries| < totalEdges == MAP_SIZE)
    }

    constructor ()
      ensures Valid() && entries == [] && totalEdges == 0
    {
      entries, hits, totalEdges := [], seq(MAP_SIZE, _ => 0), 0;
      new;
      NonZeroNone(hits);
    }

    method NewCount(edges: seq<nat>) returns (n: nat)
      requires Valid() && IsSignal(edges)
      ensures n == NewEdges(entries, edges)
    {
      hide Signals, NonZero, Owners;
      n := 0;
      for k := 0 to |edges|
        invariant n == NewEdges(entries, edges[..k])
      {
        assert edges[..k + 1][..k] == edges[..k];
        if hits[edges[k]] == 0 {
          n := n + 1;
        }
      }
      assert edges[..|edges|] == edges;
    }

    /** `add` accepts exactly the programs that own an edge nobody has, and counts what is new. */
    method Add(progId: int, edges: seq<nat>) returns (added: bool)
      requires Valid() && IsSignal(edges)
      modifies this
      ensures Valid()
      ensures added <==> exists k :: 0 <= k < |edges| && Owners(old(entries), edges[k]) == 0
      ensures !added ==> entries == old(entries) && hits == old(hits) && totalEdges == old(totalEdges)
      ensures added ==>
                var gain := NewEdges(old(entries), edges);
                && entries == old(entries) + [Entry(progId, edges, gain)]
                && totalEdges == old(totalEdges) + gain && hits == Bumped(old(hits), edges)
    {
      hide Signals, Covers, NonZero, Owners, Bumped, IsSignal, Staggered;
      var newEdges := NewCount(edges);
      if newEdges == 0 {
        return false;
      }
      Bump(edges);
      BumpedCovers(old(hits), entries, Entry(progId, edges, newEdges));
      SignalsMore(entries, Entry(progId, edges, newEdges));
      BumpedSize(old(hits), entries, edges);
      StaggeredMore(entries, Entry(progId, edges, newEdges));
      entries := entries + [Entry(progId, edges, newEdges)];
      added := true;
    }

    method Bump(edges: seq<nat>)
      requires Valid() && IsSignal(edges)
      modifies `hits, `totalEdges
      ensures hits == Bumped(old(hits), edges)
      ensures totalEdges == NonZero(hits) == old(totalEdges) + NewEdges(entries, edges)
    {
      hide Signals, NonZero, Owners, Covers, IsSignal, Bumped;
      ghost var before := hits;
      assert |hits| == MAP_SIZE && Bumped(hits, edges[..0]) == hits by {
        BumpedNone(hits, entries);
      }
      for k := 0 to |edges|
        invariant hits == Bumped(before, edges[..k])
        invariant totalEdges == NonZero(hits) == old(totalEdges) + NewEdges(entries, edges[..k])
      {
        var e := edges[k];
        assert edges[..k + 1][..k] == edges[..k];
        BumpedStep(before, entries, edges, k);
        var bumped := if hits[e] < 255 then hits[e] + 1 else hits[e];
        NonZeroBump(hits, e, bumped);
        hits := hits[e := bumped];
        if hits[e] == 1 {
          totalEdges := totalEdges + 1;
        }
      }
      assert edges[..|edges|] == edges;
    }

    /**
      `minimize` keeps every covered edge covered, and only ever drops programs. Each survivor covers
      some edge alone if and only if the corpus was not crowded, and the unique counts say how many
      unless a count saturated and two programs are left.
     */
    method Minimize() returns (removed: nat)
      requires Valid()
      modifies `entries
      ensures Valid()
      ensures removed == |old(entries)| - |entries|
      ensures |old(entries)| <= 1 ==> entries == old(entries)
      ensures |old(entries)| > 1 ==>
                var r := Sweep(old(entries), Refs(old(entries)), 0);
                && entries == Recounted(r.entries, r.refs) && multiset(r.entries) <= multiset(old(entries))
      ensures forall e: nat :: e < MAP_SIZE ==> (Owners(entries, e) > 0 <==> Owners(old(entries), e) > 0)
      ensures (forall k :: 0 <= k < |entries| ==> Essential(entries, k)) <==> !Crowded(old(entries))
      ensures |old(entries)| > 1 && !Saturated(old(entries)) ==>
                forall k :: 0 <= k < |entries| ==> entries[k].unique == Lone(entries, entries[k].edges)
      ensures |old(entries)| > 1 ==>
                ((forall k :: 0 <= k < |entries| ==> entries[k].unique == Lone(entries, entries[k].edges))
                 <==> !Misread(old(entries)))
    {
      hide Signals, Covers, NonZero, Owners, Sweep, Refs, Counts, Exact, Essential, Recounted, HasUnique;
      hide Staggered, Saturated, Crowded;
      if |entries| <= 1 {
        FewNotCrowded(entries);
        if |entries| == 1 {
          OneIsEssential(hits, entries);
        }
        return 0;
      }
      ghost var before := entries;
      var refs := CountRefs(entries);
      RefsCount(entries);
      SweepKeepsCoverage(entries, refs, 0);
      ghost var r := Sweep(entries, refs, 0);
      var i := 0;
      removed := 0;
      while i < |entries|
        invariant i <= |entries| && |refs| == MAP_SIZE && Signals(entries) && Counts(entries, refs)
        invariant Sweep(entries, refs, i) == r
        invariant removed + |entries| == |before|
        decreases |entries| - i
      {
        SweepStep(entries, refs, i);
        var hasUnique := AnyUnique(refs, entries, i);
        if !hasUnique {
          CountsDropped(entries, refs, i);
          SignalsLeft(entries, i);
          refs := DropEdges(refs, entries, i);
          entries := SwapRemove(entries, i);
          removed := removed + 1;
        } else {
          i := i + 1;
        }
      }
      SweepStep(entries, refs, i);
      assert entries == r.entries && refs == r.refs;
      ghost var swept := entries;
      entries := Recount(entries, refs);
      RecountedSame(swept, refs);
      CoversSame(hits, before, entries);
      ValidSweepable(hits, before);
      SweepExact(before);
      RecountedExact(swept, refs);
      SweepUnique(before);
      MinimizedStagger(hits, before, entries);
    }
  }

  lemma {:induction false} NonZeroSome(hits: seq<nat>) returns (e: nat)
    requires NonZero(hits) > 0
    ensures e < |hits| && hits[e] > 0
  {
    var n := |hits| - 1;
    if hits[n] > 0 {
      e := n;
    } else {
      e := NonZeroSome(hits[..n]);
    }
  }

  lemma OneIsEssential(hits: seq<nat>, es: seq<Entry>)
    requires Covers(hits, es) && |es| == 1 <= NonZero(hits)
    ensures Essential(es, 0)
  {
    hide NonZero;
    var e := NonZeroSome(hits);
    OwnersOne(es[0], e);
    assert es == [es[0]];
  }

  lemma {:induction false} OwnersAll(es: seq<Entry>, e: nat)
    ensures Owners(es, e) == |es| <==> forall k :: 0 <= k < |es| ==> e in es[k].edges
  {
    if es != [] {
      var n := |es| - 1;
      OwnersAll(es[..n], e);
      if forall k :: 0 <= k < n ==> e in es[..n][k].edges {
        assert forall k :: 0 <= k < n ==> e in es[k].edges;
      } else {
        var k :| 0 <= k < n && e !in es[..n][k].edges;
        assert e !in es[k].edges;
      }
    }
  }

  /** In a valid corpus a count saturates only when there are as many programs as edges and all own this one. */
  lemma SaturatesOnlyFull(hits: seq<nat>, es: seq<Entry>, e: nat)
    requires Covers(hits, es) && |es| <= NonZero(hits)
    ensures Owners(es, e) > REF_MAX <==> |es| == MAP_SIZE && forall k :: 0 <= k < |es| ==> e in es[k].edges
  {
    hide Owners, NonZero;
    OwnersAll(es, e);
  }

  // ---- the loops of `minimize`

  method CountRefs(es: seq<Entry>) returns (refs: seq<int>)
    requires Signals(es)
    ensures refs == Refs(es)
  {
    hide IsSignal;
    refs := seq(MAP_SIZE, _ => 0);
    for k := 0 to |es|
      invariant refs == Refs(es[..k])
    {
      assert es[..k + 1][..k] == es[..k];
      refs := CountEntry(refs, es[k].edges);
    }
    assert es[..|es|] == es;
  }

  ghost function Raised(refs: seq<int>, edges: seq<nat>): (r: seq<int>)
  {
    seq(|refs|, e requires 0 <= e < |refs| => if e in edges && refs[e] < REF_MAX then refs[e] + 1 else refs[e])
  }

  method CountEntry(refs: seq<int>, edges: seq<nat>) returns (r: seq<int>)
    requires |refs| == MAP_SIZE && IsSignal(edges)
    ensures r == Raised(refs, edges)
  {
    r := refs;
    for k := 0 to |edges|
      invariant r == Raised(refs, edges[..k])
    {
      var e := edges[k];
      assert edges[..k + 1] == edges[..k] + [e];
      assert e !in edges[..k];
      if r[e] < REF_MAX {
        r := r[e := r[e] + 1];
      }
    }
    assert edges[..|edges|] == edges;
  }

  method AnyUnique(refs: seq<int>, es: seq<Entry>, i: nat) returns (found: bool)
    requires |refs| == MAP_SIZE && i < |es| && Signals(es)
    ensures found <==> HasUnique(refs, es[i].edges)
  {
    assert IsSignal(es[i].edges);
    for k := 0 to |es[i].edges|
      invariant forall j :: 0 <= j < k ==> refs[es[i].edges[j]] != 1
    {
      if refs[es[i].edges[k]] == 1 {
        return true;
      }
    }
    return false;
  }

  method DropEdges(refs: seq<int>, es: seq<Entry>, i: nat) returns (r: seq<int>)
    requires |refs| == MAP_SIZE && i < |es| && Signals(es)
    ensures r == Dropped(refs, es[i].edges)
  {
    var edges := es[i].edges;
    assert IsSignal(edges);
    r := refs;
    for k := 0 to |edges|
      invariant r == Dropped(refs, edges[..k])
    {
      var e := edges[k];
      assert edges[..k + 1] == edges[..k] + [e];
      assert e !in edges[..k];
      r := r[e := r[e] - 1];
    }
    assert edges[..|edges|] == edges;
  }

  method Recount(es: seq<Entry>, refs: seq<int>) returns (r: seq<Entry>)
    requires |refs| == MAP_SIZE && Signals(es)
    ensures r == Recounted(es, refs)
  {
    hide Signals;
    r := es;
    for k := 0 to |es|
      invariant |r| == |es| && r[..k] == Recounted(es, refs)[..k] && r[k..] == es[k..]
    {
      assert r[k] == es[k];
      var unique := CountSingles(refs, es, k);
      r := r[k := es[k].(unique := unique)];
    }
  }

  method CountSingles(refs: seq<int>, es: seq<Entry>, i: nat) returns (n: nat)
    requires |refs| == MAP_SIZE && i < |es| && Signals(es)
    ensures n == Singles(refs, es[i].edges)
  {
    var edges := es[i].edges;
    assert IsSignal(edges);
    n := 0;
    for k := 0 to |edges|
      invariant n == Singles(refs, edges[..k])
    {
      assert edges[..k + 1][..k] == edges[..k];
      if refs[edges[k]] == 1 {
        n := n + 1;
      }
    }
    assert edges[..|edges|] == edges;
  }

  // ---- what the loops keep

  ghost function Bumped(hits: seq<nat>, edges: seq<nat>): (r: seq<nat>)
  {
    seq(|hits|, e requires 0 <= e < |hits| => if e in edges && hits[e] < 255 then hits[e] + 1 else hits[e])
  }

  lemma BumpedSize(hits: seq<nat>, es: seq<Entry>, edges: seq<nat>)
    requires Covers(hits, es)
    ensures NonZero(Bumped(hits, edges)) <= MAP_SIZE
  {
  }

  lemma BumpedNone(hits: seq<nat>, es: seq<Entry>)
    requires Covers(hits, es)
    ensures |hits| == MAP_SIZE && Bumped(hits, []) == hits
  {
    hide Owners;
  }

  lemma BumpedStep(hits: seq<nat>, es: seq<Entry>, edges: seq<nat>, k: nat)
    requires Covers(hits, es) && IsSignal(edges) && k < |edges|
    ensures var b, e := Bumped(hits, edges[..k]), edges[k];
            && |b| == MAP_SIZE && e < MAP_SIZE && b[e] == hits[e] <= 255
            && (b[e] == 0 <==> Owners(es, e) == 0)
            && Bumped(hits, edges[..k + 1]) == b[e := if b[e] < 255 then b[e] + 1 else b[e]]
  {
    hide Owners;
    assert edges[..k + 1] == edges[..k] + [edges[k]];
    assert edges[k] !in edges[..k];
  }

  lemma BumpedCovers(hits: seq<nat>, es: seq<Entry>, x: Entry)
    requires Covers(hits, es)
    ensures Covers(Bumped(hits, x.edges), es + [x])
  {
    forall e: nat | e < MAP_SIZE
      ensures Owners(es + [x], e) > 0 <==> Owners(es, e) > 0 || e in x.edges
    {
      OwnersConcat(es, [x], e);
      OwnersOne(x, e);
    }
    hide Owners;
  }

  lemma SignalsMore(es: seq<Entry>, x: Entry)
    requires Signals(es) && IsSignal(x.edges)
    ensures Signals(es + [x])
  {
  }

  lemma {:induction false} RecountedOwners(es: seq<Entry>, refs: seq<int>, e: nat)
    ensures Owners(Recounted(es, refs), e) == Owners(es, e)
  {
    if es != [] {
      var n := |es| - 1;
      RecountedOwners(es[..n], refs, e);
      assert Recounted(es, refs)[..n] == Recounted(es[..n], refs);
    }
  }

  lemma RecountedSame(es: seq<Entry>, refs: seq<int>)
    ensures |Recounted(es, refs)| == |es|
    ensures forall e: nat :: Owners(Recounted(es, refs), e) == Owners(es, e)
    ensures Signals(es) ==> Signals(Recounted(es, refs))
  {
    forall e: nat ensures Owners(Recounted(es, refs), e) == Owners(es, e) {
      RecountedOwners(es, refs, e);
    }
  }

  lemma CoversSame(hits: seq<nat>, es: seq<Entry>, fs: seq<Entry>)
    requires Covers(hits, es)
    requires forall e: nat :: e < MAP_SIZE ==> (Owners(fs, e) > 0 <==> Owners(es, e) > 0)
    ensures Covers(hits, fs)
  {
    hide Owners;
  }

  /** How many of `edges` a single program owns. */
  ghost function Lone(es: seq<Entry>, edges: seq<nat>): (n: nat)
  {
    if edges == [] then 0
    else Lone(es, edges[..|edges| - 1]) + (if Owners(es, edges[|edges| - 1]) == 1 then 1 else 0)
  }

  lemma {:induction false} SinglesLone(es: seq<Entry>, fs: seq<Entry>, refs: seq<int>, edges: seq<nat>)
    requires Marks(es, refs) && forall e: nat :: Owners(fs, e) == Owners(es, e)
    requires forall k :: 0 <= k < |edges| ==> edges[k] < MAP_SIZE
    ensures Singles(refs, edges) == Lone(fs, edges)
    decreases |edges|
  {
    hide Owners;
    if edges != [] {
      SinglesLone(es, fs, refs, edges[..|edges| - 1]);
    }
  }

  /** With two programs left, the short counts pass for unique edges. */
  lemma {:induction false} SinglesAbove(es: seq<Entry>, fs: seq<Entry>, refs: seq<int>, s: nat, edges: seq<nat>)
    requires Lacking(es, refs, s) && |es| == 2 && forall e: nat :: Owners(fs, e) == Owners(es, e)
    requires forall k :: 0 <= k < |edges| ==> edges[k] < MAP_SIZE
    ensures Singles(refs, edges) >= Lone(fs, edges) && (s in edges ==> Singles(refs, edges) > Lone(fs, edges))
    decreases |edges|
  {
    hide Owners;
    if edges != [] {
      var n := |edges| - 1;
      SinglesAbove(es, fs, refs, s, edges[..n]);
      assert edges == edges[..n] + [edges[n]];
    }
  }

  lemma RecountedExact(es: seq<Entry>, refs: seq<int>)
    ensures var r := Recounted(es, refs);
            |r| == |es| && forall k :: 0 <= k < |es| ==> (Essential(r, k) <==> Essential(es, k))
  {
    hide Owners, Singles;
    RecountedSame(es, refs);
  }

  lemma RecountedUnique(es: seq<Entry>, refs: seq<int>)
    requires Marks(es, refs) && Signals(es)
    ensures var r := Recounted(es, refs);
            forall k :: 0 <= k < |r| ==> r[k].unique == Lone(r, r[k].edges)
  {
    hide Owners, Lone, Singles, Marks;
    var r := Recounted(es, refs);
    RecountedSame(es, refs);
    forall k | 0 <= k < |r| ensures r[k].unique == Lone(r, r[k].edges) {
      assert IsSignal(es[k].edges);
      SinglesLone(es, r, refs, es[k].edges);
    }
  }

  lemma RecountedAbove(es: seq<Entry>, refs: seq<int>, s: nat)
    requires Lacking(es, refs, s) && |es| == 2 && Signals(es)
    ensures var r := Recounted(es, refs);
            |r| == 2 && r[0].unique != Lone(r, r[0].edges)
  {
    hide Owners, Lone, Singles;
    var r := Recounted(es, refs);
    RecountedSame(es, refs);
    assert IsSignal(es[0].edges);
    OwnersAll(es, s);
    SinglesAbove(es, r, refs, s, es[0].edges);
  }

  /** The recomputed unique counts are right, unless a count saturated and two programs are left. */
  lemma SweepUnique(es: seq<Entry>)
    requires Sweepable(es)
    ensures var q := Sweep(es, Refs(es), 0);
            var r := Recounted(q.entries, q.refs);
            (forall k :: 0 <= k < |r| ==> r[k].unique == Lone(r, r[k].edges)) <==> !Misread(es)
  {
    hide Owners, Sweep, Refs, Signals, Essential, Saturated, OwnsAll, Staggered, Lacking, Marks, Lone, Recounted;
    var q := Sweep(es, Refs(es), 0);
    RecountedSame(q.entries, q.refs);
    if !Saturated(es) {
      UnsaturatedSweep(es);
      SweptSignals(es);
      RecountedUnique(q.entries, q.refs);
    } else {
      var s := SaturatedSweep(es);
      LackingSize(q.entries, q.refs, s);
      if |q.entries| == 2 {
        RecountedAbove(q.entries, q.refs, s);
      } else {
        LackingMarks(q.entries, q.refs, s);
        RecountedUnique(q.entries, q.refs);
      }
    }
  }

  lemma SweptSignals(es: seq<Entry>)
    requires Signals(es)
    ensures Signals(Sweep(es, Refs(es), 0).entries)
  {
    hide Owners, Sweep, Refs, Signals, Counts, Exact;
    RefsCount(es);
    SweepKeepsCoverage(es, Refs(es), 0);
  }

  lemma {:induction false} NonZeroFull(hits: seq<nat>)
    requires NonZero(hits) == |hits|
    ensures forall e :: 0 <= e < |hits| ==> hits[e] > 0
  {
    if hits != [] {
      NonZeroFull(hits[..|hits| - 1]);
    }
  }

  lemma FewNotCrowded(es: seq<Entry>)
    requires |es| <= REF_MAX
    ensures !Saturated(es) && !Crowded(es)
  {
    forall s: nat ensures Owners(es, s) <= |es| {
    }
    hide Owners;
  }

  /** A valid corpus of at least two programs is one the sweep can start from. */
  lemma ValidSweepable(hits: seq<nat>, es: seq<Entry>)
    requires Signals(es) && Covers(hits, es) && 2 <= |es| <= NonZero(hits)
    requires Staggered(es) || |es| < NonZero(hits) == MAP_SIZE
    ensures Sweepable(es)
  {
    hide Signals, Owners, Staggered, Saturated;
    assert NonZero(hits) <= |hits| == MAP_SIZE;
    if |es| < MAP_SIZE {
      FewNotCrowded(es);
    } else {
      NonZeroFull(hits);
    }
  }

  /** What is left is staggered again, or covers everything, so that nothing will be added. */
  lemma MinimizedStagger(hits: seq<nat>, es: seq<Entry>, r: seq<Entry>)
    requires Covers(hits, es) && |es| <= NonZero(hits) && |r| <= |es|
    requires (forall k :: 0 <= k < |r| ==> Essential(r, k)) <==> !Crowded(es)
    requires Crowded(es) ==> |r| == 2
    ensures Staggered(r) || |r| < NonZero(hits) == MAP_SIZE
  {
    hide Owners, Staggered, Essential, Crowded, Saturated;
    assert NonZero(hits) <= |hits| == MAP_SIZE;
    if Crowded(es) {
      if |es| < MAP_SIZE {
        FewNotCrowded(es);
      }
    } else {
      EssentialsStagger(r);
    }
  }

  lemma {:induction false} NonZeroNone(hits: seq<nat>)
    requires forall e :: 0 <= e < |hits| ==> hits[e] == 0
    ensures NonZero(hits) == 0
  {
    if hits != [] {
      NonZeroNone(hits[..|hits| - 1]);
    }
  }

  // ---- whole runs

  datatype Op = Offer(progId: int, pcs: seq<bv64>) | Shrink

  /** Every edge of every trace offered so far. */
  ghost function Offered(ops: seq<Op>): (s: set<nat>)
  {
    if ops == [] then {}
    else
      var n := |ops| - 1;
      Offered(ops[..n]) + (if ops[n].Offer? then EdgesOf(ops[n].pcs) else {})
  }

  ghost function Positive(hits: seq<nat>): (s: set<nat>)
  {
    set e: nat | e < |hits| && hits[e] > 0
  }

  lemma {:induction false} NonZeroCounts(hits: seq<nat>)
    ensures NonZero(hits) == |Positive(hits)|
    decreases |hits|
  {
    if hits == [] {
      assert Positive(hits) == {};
    } else {
      var n := |hits| - 1;
      NonZeroCounts(hits[..n]);
      assert Positive(hits) == Positive(hits[..n]) + (if hits[n] > 0 then {n} else {});
    }
  }

  lemma {:induction false} OfferedBounded(ops: seq<Op>, e: nat)
    requires e in Offered(ops)
    ensures e < MAP_SIZE
    decreases |ops|
  {
    hide EdgeHash;
    var n := |ops| - 1;
    if e in Offered(ops[..n]) {
      OfferedBounded(ops[..n], e);
    }
  }

  /** A corpus covers a set of edges, no more and no less. */
  ghost predicate CoversExactly(es: seq<Entry>, s: set<nat>)
  {
    forall e: nat :: e < MAP_SIZE ==> (Owners(es, e) > 0 <==> e in s)
  }

  /** Whether it was accepted or not, a signal that has been offered is covered. */
  lemma AddCovers(es: seq<Entry>, x: Entry, s: set<nat>, edges: set<nat>, added: bool)
    requires CoversExactly(es, s) && IsSignal(x.edges) && forall e :: e in x.edges <==> e in edges
    requires added <==> exists k :: 0 <= k < |x.edges| && Owners(es, x.edges[k]) == 0
    ensures CoversExactly(if added then es + [x] else es, s + edges)
  {
    hide Owners, Ascending;
    forall e: nat | e < MAP_SIZE
      ensures Owners(if added then es + [x] else es, e) > 0 <==> e in s + edges
    {
      if added {
        OwnersConcat(es, [x], e);
        OwnersOne(x, e);
      } else if e in x.edges {
        var k :| 0 <= k < |x.edges| && x.edges[k] == e;
        assert Owners(es, x.edges[k]) != 0;
      }
    }
  }

  lemma CoveredCount(hits: seq<nat>, es: seq<Entry>, ops: seq<Op>)
    requires Covers(hits, es) && CoversExactly(es, Offered(ops))
    ensures NonZero(hits) == |Offered(ops)|
  {
    hide Owners, Offered, NonZero;
    NonZeroCounts(hits);
    forall e: nat | e in Offered(ops) ensures e in Positive(hits) {
      OfferedBounded(ops, e);
    }
    assert Positive(hits) == Offered(ops);
  }

  /**
    Any run of offers and minimisations: the kept programs cover exactly the edges of all traces ever
    offered, the edge total is their number, and the corpus is no larger than that.
   */
  method Replay(ops: seq<Op>) returns (c: Corpus)
    ensures fresh(c) && c.Valid()
    ensures CoversExactly(c.entries, Offered(ops))
    ensures c.totalEdges == |Offered(ops)| && |c.entries| <= |Offered(ops)|
  {
    hide Owners, NonZero, Covers, Signals, IsSignal, EdgesOf, Sweep, Refs, Essential, Bumped;
    c := new Corpus();
    for i := 0 to |ops|
      invariant fresh(c) && c.Valid() && CoversExactly(c.entries, Offered(ops[..i]))
    {
      assert ops[..i + 1][..i] == ops[..i];
      match ops[i] {
        case Offer(progId, pcs) =>
          var edges := EdgeSignalFromPcs(pcs);
          ghost var before := c.entries;
          var added := c.Add(progId, edges);
          AddCovers(before, Entry(progId, edges, NewEdges(before, edges)), Offered(ops[..i]), EdgesOf(pcs), added);
        case Shrink =>
          var removed := c.Minimize();
      }
    }
    assert ops[..|ops|] == ops;
    CoveredCount(c.hits, c.entries, ops);
  }
}

/**
  The streaming report (vock/src/report/mod.rs): every address of the log gets a line with its source
  location, though each distinct address is looked up once, when it first appears. Main results:
  `Report.Stream` with `CompleteText`, and `TextReadsBack`: the annotated log is again a log.
 */
module SourceCoverage {
  import opened Prelude
  import opened LogReader

  type Place = seq<byte>

  // ---- lines of the annotated log

  function HexDigit(d: nat): (c: byte)
    requires d < 16
    ensures DigitValue(c) == Some(d) && !Blank(c) && c != NEWLINE
  {
    if d < 10 then 48 + d else 97 + (d - 10)
  }

  function HexText(v: nat): (s: seq<byte>)
    ensures |s| > 0
    decreases v
  {
    if v < 16 then [HexDigit(v)] else HexText(v / 16) + [HexDigit(v % 16)]
  }

  /** `0x<pc> <place>`, or two question marks where there is no place. */
  function Line(pc: nat, place: Option<Place>): (s: seq<byte>)
  {
    [48, 120] + HexText(pc) + [32] + (if place.Some? then place.value else [63, 63]) + [NEWLINE]
  }

  // ---- what the loop remembers

  ghost predicate Distinct(s: seq<nat>)
  {
    forall i, j :: 0 <= i < j < |s| ==> s[i] != s[j]
  }

  /** The addresses of `pcs` not in `known`, once each, in order of first appearance. */
  ghost function Fresh(pcs: seq<nat>, known: seq<nat>): (r: seq<nat>)
    decreases |pcs|
  {
    if pcs == [] then []
    else
      var r, pc := Fresh(pcs[..|pcs| - 1], known), pcs[|pcs| - 1];
      if pc in known || pc in r then r else r + [pc]
  }

  lemma {:induction false} FreshMembers(pcs: seq<nat>, known: seq<nat>)
    ensures Distinct(known) ==> Distinct(known + Fresh(pcs, known))
    ensures forall x :: x in Fresh(pcs, known) <==> x in pcs && x !in known
    decreases |pcs|
  {
    if pcs != [] {
      var n := |pcs| - 1;
      FreshMembers(pcs[..n], known);
      assert pcs == pcs[..n] + [pcs[n]];
      var r := Fresh(pcs[..n], known);
      assert known + (r + [pcs[n]]) == (known + r) + [pcs[n]];
    }
  }

  lemma {:induction false} FreshAppend(a: seq<nat>, b: seq<nat>, known: seq<nat>)
    ensures Fresh(a + b, known) == Fresh(a, known) + Fresh(b, known + Fresh(a, known))
    decreases |b|
  {
    if b == [] {
      assert a + b == a;
    } else {
      var n := |b| - 1;
      FreshAppend(a, b[..n], known);
      assert (a + b)[..|a + b| - 1] == a + b[..n];
    }
  }

  /** The place remembered for `pc`. */
  ghost function PlaceOf(uniq: seq<nat>, places: seq<Option<Place>>, pc: nat): (r: Option<Place>)
    requires |places| == |uniq|
  {
    if uniq == [] then None
    else if uniq[0] == pc then places[0]
    else PlaceOf(uniq[1..], places[1..], pc)
  }

  lemma {:induction false} PlaceAt(uniq: seq<nat>, places: seq<Option<Place>>, i: nat)
    requires |places| == |uniq| && Distinct(uniq) && i < |uniq|
    ensures PlaceOf(uniq, places, uniq[i]) == places[i]
    decreases |uniq|
  {
    if i > 0 {
      PlaceAt(uniq[1..], places[1..], i - 1);
    }
  }

  /** Later additions never change what an address already has. */
  lemma {:induction false} PlaceKept(uniq: seq<nat>, places: seq<Option<Place>>, u: seq<nat>, p: seq<Option<Place>>,
                                     pc: nat)
    requires |places| == |uniq| && |p| == |u| && pc in uniq
    ensures PlaceOf(uniq + u, places + p, pc) == PlaceOf(uniq, places, pc)
    decreases |uniq|
  {
    if uniq[0] != pc {
      assert (uniq + u)[1..] == uniq[1..] + u && (places + p)[1..] == places[1..] + p;
      PlaceKept(uniq[1..], places[1..], u, p, pc);
    }
  }

  ghost function Text(pcs: seq<nat>, uniq: seq<nat>, places: seq<Option<Place>>): (s: seq<byte>)
    requires |places| == |uniq|
    decreases |pcs|
  {
    if pcs == [] then []
    else Text(pcs[..|pcs| - 1], uniq, places) + Line(pcs[|pcs| - 1], PlaceOf(uniq, places, pcs[|pcs| - 1]))
  }

  lemma {:induction false} TextKept(pcs: seq<nat>, uniq: seq<nat>, places: seq<Option<Place>>, u: seq<nat>,
                                    p: seq<Option<Place>>)
    requires |places| == |uniq| && |p| == |u| && forall x :: x in pcs ==> x in uniq
    ensures Text(pcs, uniq + u, places + p) == Text(pcs, uniq, places)
    decreases |pcs|
  {
    hide Line;
    if pcs != [] {
      TextKept(pcs[..|pcs| - 1], uniq, places, u, p);
      PlaceKept(uniq, places, u, p, pcs[|pcs| - 1]);
    }
  }

  lemma {:induction false} TextAppend(a: seq<nat>, b: seq<nat>, uniq: seq<nat>, places: seq<Option<Place>>)
    requires |places| == |uniq|
    ensures Text(a + b, uniq, places) == Text(a, uniq, places) + Text(b, uniq, places)
    decreases |b|
  {
    hide Line, PlaceOf;
    if b == [] {
      assert a + b == a;
    } else {
      var n := |b| - 1;
      TextAppend(a, b[..n], uniq, places);
      assert (a + b)[..|a + b| - 1] == a + b[..n];
      Joined(Text(a, uniq, places), Text(b[..n], uniq, places), Line(b[n], PlaceOf(uniq, places, b[n])));
    }
  }

  // ---- the resolver

  function Unslid(pc: nat, off: nat): (a: nat)
  {
    (pc - off) % U64
  }

  /** A lookup that answers for the first `answered` addresses; the rest are padded. */
  ghost function Answers(novel: seq<nat>, answered: nat, resolve: nat -> Option<Place>, off: nat)
    : (r: seq<Option<Place>>)
    ensures |r| == |novel|
  {
    seq(|novel|, i requires 0 <= i < |novel| => if i < answered then resolve(Unslid(novel[i], off)) else None)
  }

  datatype Memory = Memory(uniq: seq<nat>, places: seq<Option<Place>>)

  /** What is remembered after the blocks, the `k`-th lookup answering for `answered[k]` addresses. */
  ghost function Remembered(blocks: seq<seq<byte>>, answered: seq<nat>, resolve: nat -> Option<Place>, off: nat)
    : (m: Memory)
    requires |answered| == |blocks|
    ensures |m.uniq| == |m.places|
    decreases |blocks|
  {
    if blocks == [] then Memory([], [])
    else
      var n := |blocks| - 1;
      var m := Remembered(blocks[..n], answered[..n], resolve, off);
      var novel := Fresh(Pcs(blocks[n]), m.uniq);
      Memory(m.uniq + novel, m.places + Answers(novel, answered[n], resolve, off))
  }

  lemma {:induction false} PcsOfLast(blocks: seq<seq<byte>>)
    requires blocks != []
    ensures PcsOf(blocks) == PcsOf(blocks[..|blocks| - 1]) + Pcs(blocks[|blocks| - 1])
  {
    hide Pcs;
    var n := |blocks| - 1;
    assert blocks == blocks[..n] + [blocks[n]];
    PcsOfAppend(blocks[..n], [blocks[n]]);
    var last := [blocks[n]];
    assert last[1..] == [];
    assert PcsOf(last) == Pcs(blocks[n]) + [];
  }

  /** Every distinct address is looked up exactly once, in order of first appearance. */
  lemma {:induction false} RememberedOnce(blocks: seq<seq<byte>>, answered: seq<nat>, resolve: nat -> Option<Place>,
                                          off: nat)
    requires |answered| == |blocks|
    ensures var m := Remembered(blocks, answered, resolve, off);
            m.uniq == Fresh(PcsOf(blocks), []) && Distinct(m.uniq)
    decreases |blocks|
  {
    hide Pcs, Fresh;
    if blocks == [] {
      NothingFresh();
    } else {
      var n := |blocks| - 1;
      RememberedOnce(blocks[..n], answered[..n], resolve, off);
      PcsOfLast(blocks);
      FreshAppend(PcsOf(blocks[..n]), Pcs(blocks[n]), []);
      var u := Remembered(blocks[..n], answered[..n], resolve, off).uniq;
      assert [] + u == u;
      FreshMembers(Pcs(blocks[n]), u);
    }
  }

  lemma NothingFresh()
    ensures Fresh([], []) == []
  {
  }

  /** The whole output, from what is remembered at the end. */
  ghost function Output(blocks: seq<seq<byte>>, answered: seq<nat>, resolve: nat -> Option<Place>, off: nat)
    : (s: seq<byte>)
    requires |answered| == |blocks|
  {
    var m := Remembered(blocks, answered, resolve, off);
    Text(PcsOf(blocks), m.uniq, m.places)
  }

  /** Lines written for early blocks already say what the final memory says. */
  lemma OutputGrows(blocks: seq<seq<byte>>, answered: seq<nat>, resolve: nat -> Option<Place>, off: nat)
    requires |answered| == |blocks| > 0
    ensures var n := |blocks| - 1;
            var m := Remembered(blocks, answered, resolve, off);
            Output(blocks, answered, resolve, off)
            == Output(blocks[..n], answered[..n], resolve, off) + Text(Pcs(blocks[n]), m.uniq, m.places)
  {
    hide Pcs, PcsOf, Fresh, Text;
    var n := |blocks| - 1;
    var m, before := Remembered(blocks, answered, resolve, off), Remembered(blocks[..n], answered[..n], resolve, off);
    var all := PcsOf(blocks[..n]);
    PcsOfLast(blocks);
    TextAppend(all, Pcs(blocks[n]), m.uniq, m.places);
    RememberedOnce(blocks[..n], answered[..n], resolve, off);
    FreshMembers(all, []);
    var novel := Fresh(Pcs(blocks[n]), before.uniq);
    TextKept(all, before.uniq, before.places, novel, Answers(novel, answered[n], resolve, off));
  }

  // ---- a resolver that always answers

  ghost function PlainText(pcs: seq<nat>, resolve: nat -> Option<Place>, off: nat): (s: seq<byte>)
    decreases |pcs|
  {
    if pcs == [] then []
    else PlainText(pcs[..|pcs| - 1], resolve, off) + Line(pcs[|pcs| - 1], resolve(Unslid(pcs[|pcs| - 1], off)))
  }

  ghost predicate Complete(m: Memory, resolve: nat -> Option<Place>, off: nat)
  {
    |m.places| == |m.uniq| && forall i :: 0 <= i < |m.uniq| ==> m.places[i] == resolve(Unslid(m.uniq[i], off))
  }

  lemma {:induction false} RememberedComplete(blocks: seq<seq<byte>>, answered: seq<nat>,
                                              resolve: nat -> Option<Place>, off: nat)
    requires |answered| == |blocks|
    requires forall k :: 0 <= k < |blocks| ==> answered[k] >= |Pcs(blocks[k])|
    ensures Complete(Remembered(blocks, answered, resolve, off), resolve, off)
    decreases |blocks|
  {
    hide Pcs, Fresh, Unslid;
    if blocks != [] {
      var n := |blocks| - 1;
      RememberedComplete(blocks[..n], answered[..n], resolve, off);
      FreshShort(Pcs(blocks[n]), Remembered(blocks[..n], answered[..n], resolve, off).uniq);
    }
  }

  lemma {:induction false} FreshShort(pcs: seq<nat>, known: seq<nat>)
    ensures |Fresh(pcs, known)| <= |pcs|
    decreases |pcs|
  {
    if pcs != [] {
      FreshShort(pcs[..|pcs| - 1], known);
    }
  }

  lemma {:induction false} TextComplete(pcs: seq<nat>, m: Memory, resolve: nat -> Option<Place>, off: nat)
    requires Complete(m, resolve, off) && Distinct(m.uniq) && forall x :: x in pcs ==> x in m.uniq
    ensures Text(pcs, m.uniq, m.places) == PlainText(pcs, resolve, off)
    decreases |pcs|
  {
    hide Line, Unslid, PlaceOf, Distinct;
    if pcs != [] {
      var pc := pcs[|pcs| - 1];
      TextComplete(pcs[..|pcs| - 1], m, resolve, off);
      assert pc in pcs;
      var i :| 0 <= i < |m.uniq| && m.uniq[i] == pc;
      PlaceAt(m.uniq, m.places, i);
    }
  }

  /**
    When every lookup answers, the output is each address of the log, in order, with its own place:
    the same text however the log was cut into blocks.
   */
  lemma CompleteText(blocks: seq<seq<byte>>, answered: seq<nat>, resolve: nat -> Option<Place>, off: nat)
    requires |answered| == |blocks|
    requires forall k :: 0 <= k < |blocks| ==> answered[k] >= |Pcs(blocks[k])|
    ensures Output(blocks, answered, resolve, off) == PlainText(PcsOf(blocks), resolve, off)
  {
    hide Pcs, PcsOf, Fresh, Text, PlainText, Complete, Remembered;
    var m := Remembered(blocks, answered, resolve, off);
    RememberedComplete(blocks, answered, resolve, off);
    RememberedOnce(blocks, answered, resolve, off);
    FreshMembers(PcsOf(blocks), []);
    TextComplete(PcsOf(blocks), m, resolve, off);
  }

  // ---- the loop

  class Report {
    var seen: map<nat, nat>
    var uniq: seq<nat>
    var places: seq<Option<Place>>
    var out: seq<byte>
    var written: seq<byte>
    var total: nat

    /** `seen` gives the position of each remembered address. */
    ghost predicate Valid()
      reads this
    {
      && |places| == |uniq| && Indexed(seen, uniq)
    }

    constructor ()
      ensures Valid() && uniq == [] && places == [] && out == [] && written == [] && total == 0
    {
      seen, uniq, places, out, written, total := map[], [], [], [], [], 0;
    }

    /** Remember the new addresses of a block. */
    method Note(pcs: seq<nat>) returns (novel: seq<nat>)
      requires Valid()
      modifies `seen, `uniq
      ensures Indexed(seen, uniq)
      ensures novel == Fresh(pcs, old(uniq)) && uniq == old(uniq) + novel
    {
      hide Indexed, Fresh;
      ghost var known := uniq;
      novel := [];
      NoneFresh(known);
      assert uniq + [] == uniq;
      for i := 0 to |pcs|
        invariant Indexed(seen, uniq)
        invariant novel == Fresh(pcs[..i], known) && uniq == known + novel
      {
        var pc := pcs[i];
        IndexedHas(seen, uniq, pc);
        FreshStep(pcs, known, i);
        if pc !in seen {
          IndexedMore(seen, uniq, pc);
          seen := seen[pc := |uniq|];
          assert (known + novel) + [pc] == known + (novel + [pc]);
          uniq := uniq + [pc];
          novel := novel + [pc];
        }
      }
      assert pcs[..|pcs|] == pcs;
    }

    /** One block: look up what is new, pad what the lookup left out, write a line per address. */
    method Take(pcs: seq<nat>, answered: nat, resolve: nat -> Option<Place>, off: nat)
      requires Valid()
      modifies this
      ensures Valid()
      ensures var novel := Fresh(pcs, old(uniq));
              uniq == old(uniq) + novel && places == old(places) + Answers(novel, answered, resolve, off)
      ensures written + out == old(written + out) + Text(pcs, uniq, places)
      ensures total == old(total) + |pcs|
    {
      hide Fresh, Indexed, Text;
      var novel := Note(pcs);
      ghost var had := places;
      if novel != [] {
        var results := Symbolize(novel, answered, resolve, off);
        for i := 0 to |results|
          invariant places == had + results[..i]
          invariant uniq == old(uniq) + novel && Indexed(seen, uniq)
          invariant written == old(written) && out == old(out) && total == old(total)
        {
          places := places + [results[i]];
        }
        assert results[..|results|] == results;
        while |places| < |uniq|
          invariant Padded(places, had, results, |novel|)
          invariant uniq == old(uniq) + novel && Indexed(seen, uniq)
          invariant written == old(written) && out == old(out) && total == old(total)
          decreases |uniq| - |places|
        {
          places := places + [None];
        }
        assert places == had + Answers(novel, answered, resolve, off);
      } else {
        assert had + [] == had && uniq + [] == uniq;
      }
      FreshMembers(pcs, old(uniq));
      WriteLines(pcs);
    }

    /** Append a line per address, handing the buffer to the writer whenever it is full. */
    method WriteLines(pcs: seq<nat>)
      requires Valid() && forall x :: x in pcs ==> x in uniq
      modifies `out, `written, `total
      ensures written + out == old(written + out) + Text(pcs, uniq, places)
      ensures total == old(total) + |pcs|
    {
      hide Line, Indexed;
      ghost var start := written + out;
      assert start + [] == start;
      for i := 0 to |pcs|
        invariant written + out == start + Text(pcs[..i], uniq, places)
        invariant total == old(total) + i
      {
        var pc := pcs[i];
        assert pc in pcs;
        assert pcs[..i + 1][..i] == pcs[..i];
        IndexedHas(seen, uniq, pc);
        IndexedDistinct(seen, uniq);
        PlaceAt(uniq, places, seen[pc]);
        total := total + 1;
        var line := Line(pc, places[seen[pc]]);
        Joined(start, Text(pcs[..i], uniq, places), line);
        Joined(written, out, line);
        out := out + line;
        if |out| >= 0x10_0000 {
          assert (written + out) + [] == written + out;
          written := written + out;
          out := [];
        }
      }
      assert pcs[..|pcs|] == pcs;
    }

    /** `run_streaming` from the first block to the last write. */
    method Stream(blocks: seq<seq<byte>>, answered: seq<nat>, resolve: nat -> Option<Place>, off: nat)
      requires Valid() && uniq == [] && out == [] && written == [] && total == 0
      requires |answered| == |blocks|
      modifies this
      ensures written == Output(blocks, answered, resolve, off)
      ensures uniq == Fresh(PcsOf(blocks), []) && total == |PcsOf(blocks)|
    {
      hide Pcs, Fresh, Text, Indexed, Output, Remembered;
      StreamNothing(resolve, off);
      for k := 0 to |blocks|
        invariant Valid()
        invariant Memory(uniq, places) == Remembered(blocks[..k], answered[..k], resolve, off)
        invariant written + out == Output(blocks[..k], answered[..k], resolve, off)
        invariant total == |PcsOf(blocks[..k])|
      {
        ghost var bs, as_ := blocks[..k + 1], answered[..k + 1];
        assert bs[..k] == blocks[..k] && as_[..k] == answered[..k];
        PcsOfLast(bs);
        OutputGrows(bs, as_, resolve, off);
        RememberedLast(bs, as_, resolve, off);
        var pcs := ParsePcs(blocks[k], []);
        assert pcs == Pcs(blocks[k]);
        if pcs == [] {
          StreamEmpty(uniq, places, answered[k], resolve, off);
          continue;
        }
        Take(pcs, answered[k], resolve, off);
      }
      assert blocks[..|blocks|] == blocks && answered[..|answered|] == answered;
      RememberedOnce(blocks, answered, resolve, off);
      if out != [] {
        written := written + out;
        out := [];
      } else {
        assert written + [] == written;
      }
    }
  }

  /** The external lookup: answers in order, possibly for only the first few. */
  method Symbolize(novel: seq<nat>, answered: nat, resolve: nat -> Option<Place>, off: nat)
    returns (r: seq<Option<Place>>)
    ensures |r| <= |novel| && Padded(r, [], r, |novel|)
    ensures forall had: seq<Option<Place>>, p: seq<Option<Place>> ::
              Padded(p, had, r, |novel|) && |p| == |had| + |novel| ==> p == had + Answers(novel, answered, resolve, off)
  {
    r := [];
    var n := if answered < |novel| then answered else |novel|;
    for i := 0 to n
      invariant |r| == i && forall j :: 0 <= j < i ==> r[j] == resolve(Unslid(novel[j], off))
    {
      r := r + [resolve(Unslid(novel[i], off))];
    }
  }

  /** `p` is `had`, then the results, then nothing but padding, of at most `n` in all. */
  ghost predicate Padded(p: seq<Option<Place>>, had: seq<Option<Place>>, results: seq<Option<Place>>, n: nat)
  {
    && |had| + |results| <= |p| <= |had| + n
    && p[..|had|] == had && p[|had|..|had| + |results|] == results
    && forall i :: |had| + |results| <= i < |p| ==> p[i] == None
  }

  // ---- the index

  ghost predicate Indexed(seen: map<nat, nat>, uniq: seq<nat>)
  {
    && (forall i :: 0 <= i < |uniq| ==> uniq[i] in seen && seen[uniq[i]] == i)
    && forall pc :: pc in seen ==> seen[pc] < |uniq| && uniq[seen[pc]] == pc
  }

  lemma IndexedHas(seen: map<nat, nat>, uniq: seq<nat>, pc: nat)
    requires Indexed(seen, uniq)
    ensures pc in seen <==> pc in uniq
    ensures pc in seen ==> seen[pc] < |uniq| && uniq[seen[pc]] == pc
  {
  }

  lemma IndexedDistinct(seen: map<nat, nat>, uniq: seq<nat>)
    requires Indexed(seen, uniq)
    ensures Distinct(uniq)
  {
    forall i, j | 0 <= i < j < |uniq| ensures uniq[i] != uniq[j] {
      assert seen[uniq[i]] == i && seen[uniq[j]] == j;
    }
  }

  lemma IndexedMore(seen: map<nat, nat>, uniq: seq<nat>, pc: nat)
    requires Indexed(seen, uniq) && pc !in seen
    ensures Indexed(seen[pc := |uniq|], uniq + [pc])
  {
  }

  lemma FreshStep(pcs: seq<nat>, known: seq<nat>, i: nat)
    requires i < |pcs|
    ensures var r := Fresh(pcs[..i], known);
            Fresh(pcs[..i + 1], known) == if pcs[i] in known || pcs[i] in r then r else r + [pcs[i]]
  {
    assert pcs[..i + 1][..i] == pcs[..i];
  }

  lemma NoneFresh(known: seq<nat>)
    ensures Fresh([], known) == []
  {
  }

  lemma RememberedLast(blocks: seq<seq<byte>>, answered: seq<nat>, resolve: nat -> Option<Place>, off: nat)
    requires |answered| == |blocks| > 0
    ensures var n := |blocks| - 1;
            var m := Remembered(blocks[..n], answered[..n], resolve, off);
            var novel := Fresh(Pcs(blocks[n]), m.uniq);
            Remembered(blocks, answered, resolve, off)
            == Memory(m.uniq + novel, m.places + Answers(novel, answered[n], resolve, off))
  {
    hide Pcs, Fresh;
  }

  lemma StreamNothing(resolve: nat -> Option<Place>, off: nat)
    ensures Remembered([], [], resolve, off) == Memory([], []) && Output([], [], resolve, off) == []
    ensures PcsOf([]) == []
  {
  }

  /** A block without addresses changes nothing. */
  lemma StreamEmpty(uniq: seq<nat>, places: seq<Option<Place>>, answered: nat, resolve: nat -> Option<Place>, off: nat)
    requires |places| == |uniq|
    ensures Fresh([], uniq) == [] && uniq + [] == uniq
    ensures places + Answers([], answered, resolve, off) == places && Text([], uniq, places) == []
  {
  }

  // ---- reading the annotated log back

  lemma {:induction false} HexReadsBack(v: nat)
    ensures HexValue(HexText(v)) == Some(v)
    ensures forall i :: 0 <= i < |HexText(v)| ==> !Blank(HexText(v)[i]) && HexText(v)[i] != NEWLINE
    decreases v
  {
    var s := HexText(v);
    if v < 16 {
      assert s[..0] == [];
      assert HexValue(s[..0]) == Some(0);
    } else {
      HexReadsBack(v / 16);
      assert s[..|s| - 1] == HexText(v / 16);
      assert v == v / 16 * 16 + v % 16;
    }
  }

  ghost function Pow16(k: nat): (p: nat)
    ensures p > 0
  {
    if k == 0 then 1 else 16 * Pow16(k - 1)
  }

  lemma {:induction false} HexLength(v: nat, k: nat)
    requires k > 0 && v < Pow16(k)
    ensures |HexText(v)| <= k
    decreases k
  {
    if v >= 16 {
      assert k > 1;
      assert v / 16 < Pow16(k - 1);
      HexLength(v / 16, k - 1);
    }
  }

  lemma SixteenDigits()
    ensures Pow16(16) == U64
  {
    assert Pow16(4) == 0x1_0000;
    assert Pow16(8) == 0x1_0000_0000;
    assert Pow16(12) == 0x1_0000_0000_0000;
  }

  lemma {:induction false} TokenStops(s: seq<byte>, rest: seq<byte>)
    requires (forall i :: 0 <= i < |s| ==> !Blank(s[i])) && |rest| > 0 && Blank(rest[0])
    ensures TokenLength(s + rest) == |s|
    decreases |s|
  {
    if s == [] {
      assert s + rest == rest;
    } else {
      assert (s + rest)[1..] == s[1..] + rest;
      TokenStops(s[1..], rest);
    }
  }

  lemma LeadingToken(tok: seq<byte>, rest: seq<byte>)
    requires tok != [] && (forall i :: 0 <= i < |tok| ==> !Blank(tok[i])) && |rest| > 0 && Blank(rest[0])
    ensures var pc := ParseHex(StripPrefix(tok));
            LinePcs(tok + rest) == if pc.Some? then [pc.value] else []
  {
    hide ParseHex, StripPrefix, Blank;
    TokenStops(tok, rest);
    var line := tok + rest;
    assert !Blank(line[0]) && SkipBlanks(line) == line;
    assert line[..|tok|] == tok;
  }

  lemma HexParses(pc: nat)
    requires pc < U64
    ensures ParseHex(HexText(pc)) == Some(pc)
  {
    hide HexText, HexValue, Pow16;
    HexReadsBack(pc);
    SixteenDigits();
    HexLength(pc, 16);
  }

  lemma TokenReadsBack(pc: nat, rest: seq<byte>)
    requires pc < U64 && |rest| > 0 && Blank(rest[0])
    ensures LinePcs(([48, 120] + HexText(pc)) + rest) == [pc]
  {
    hide HexText, LinePcs, ParseHex, HexValue;
    HexReadsBack(pc);
    HexParses(pc);
    var tok: seq<byte> := [48, 120] + HexText(pc);
    forall i | 0 <= i < |tok| ensures !Blank(tok[i]) {
      assert i >= 2 ==> tok[i] == HexText(pc)[i - 2];
    }
    LeadingToken(tok, rest);
    assert tok[2..] == HexText(pc);
  }

  ghost predicate OneLine(place: Option<Place>)
  {
    place.Some? ==> forall i :: 0 <= i < |place.value| ==> place.value[i] != NEWLINE
  }

  ghost predicate AllOneLine(places: seq<Option<Place>>)
  {
    forall i :: 0 <= i < |places| ==> OneLine(places[i])
  }

  lemma LineReadsBack(pc: nat, place: Option<Place>)
    requires pc < U64 && OneLine(place)
    ensures Pcs(Line(pc, place)) == [pc] && WholeLines(Line(pc, place))
  {
    hide HexText, LinePcs, Pcs;
    HexReadsBack(pc);
    var tok: seq<byte> := [48, 120] + HexText(pc);
    var rest: seq<byte> := [32] + (if place.Some? then place.value else [63, 63]);
    var text := tok + rest;
    assert Line(pc, place) == text + [NEWLINE];
    forall i | 0 <= i < |text| ensures text[i] != NEWLINE {
      if 2 <= i < |tok| {
        assert text[i] == HexText(pc)[i - 2];
      } else if i >= |tok| {
        assert text[i] == rest[i - |tok|];
      }
    }
    TokenReadsBack(pc, rest);
    EndedLine(text);
    OneLinePcs(text);
  }

  lemma OneLinePcs(text: seq<byte>)
    requires forall i :: 0 <= i < |text| ==> text[i] != NEWLINE
    ensures Pcs(text) == LinePcs(text)
  {
    hide LinePcs, FirstNewline;
    FirstNewlineIs(text, |text|);
    assert text[..|text|] == text;
    assert LinePcs(text) + [] == LinePcs(text);
  }

  lemma {:induction false} PlaceOneLine(uniq: seq<nat>, places: seq<Option<Place>>, pc: nat)
    requires |places| == |uniq| && AllOneLine(places)
    ensures OneLine(PlaceOf(uniq, places, pc))
    decreases |uniq|
  {
    hide OneLine;
    if uniq == [] {
      NoPlace();
    } else if uniq[0] != pc {
      PlaceOneLine(uniq[1..], places[1..], pc);
    }
  }

  lemma NoPlace()
    ensures OneLine(None)
  {
  }

  /** The annotated log is again a log: reading it yields the very addresses it was written for. */
  lemma {:induction false} TextReadsBack(pcs: seq<nat>, uniq: seq<nat>, places: seq<Option<Place>>)
    requires |places| == |uniq| && (forall i :: 0 <= i < |pcs| ==> pcs[i] < U64)
    requires AllOneLine(places)
    ensures Pcs(Text(pcs, uniq, places)) == pcs && WholeLines(Text(pcs, uniq, places))
    decreases |pcs|
  {
    hide Line, Pcs, PlaceOf, OneLine, AllOneLine, WholeLines, Text;
    if pcs == [] {
      NoText(uniq, places);
    } else {
      var n := |pcs| - 1;
      var line := Line(pcs[n], PlaceOf(uniq, places, pcs[n]));
      var text := Text(pcs[..n], uniq, places);
      assert Text(pcs, uniq, places) == text + line by { TextLast(pcs, uniq, places); }
      TextReadsBack(pcs[..n], uniq, places);
      PlaceOneLine(uniq, places, pcs[n]);
      LineReadsBack(pcs[n], PlaceOf(uniq, places, pcs[n]));
      PcsAppend(text, line);
      WholeJoin(text, line);
      assert pcs == pcs[..n] + [pcs[n]];
    }
  }

  lemma NoText(uniq: seq<nat>, places: seq<Option<Place>>)
    requires |places| == |uniq|
    ensures Text([], uniq, places) == [] && Pcs([]) == [] && WholeLines([])
  {
    NoBytes();
  }

  lemma TextLast(pcs: seq<nat>, uniq: seq<nat>, places: seq<Option<Place>>)
    requires |places| == |uniq| && pcs != []
    ensures var n := |pcs| - 1;
            Text(pcs, uniq, places) == Text(pcs[..n], uniq, places) + Line(pcs[n], PlaceOf(uniq, places, pcs[n]))
  {
    hide Line, PlaceOf;
  }

  lemma WholeJoin(a: seq<byte>, b: seq<byte>)
    requires WholeLines(a) && WholeLines(b)
    ensures WholeLines(a + b)
  {
  }

  lemma {:induction false} HexBound(s: seq<byte>)
    ensures HexValue(s).Some? ==> HexValue(s).value < Pow16(|s|)
    decreases |s|
  {
    if s != [] {
      HexBound(s[..|s| - 1]);
    }
  }

  lemma {:induction false} Pow16Monotone(j: nat, k: nat)
    requires j <= k
    ensures Pow16(j) <= Pow16(k)
    decreases k
  {
    if j < k {
      Pow16Monotone(j, k - 1);
    }
  }

  /** Addresses read from a log are 64-bit. */
  lemma {:induction false} PcsBounded(data: seq<byte>)
    ensures forall i :: 0 <= i < |Pcs(data)| ==> Pcs(data)[i] < U64
    decreases |data|
  {
    hide LinePcs, FirstNewline;
    var k := FirstNewline(data);
    LineBounded(data[..k]);
    if k < |data| {
      PcsBounded(data[k + 1..]);
    }
  }

  lemma LineBounded(line: seq<byte>)
    ensures forall i :: 0 <= i < |LinePcs(line)| ==> LinePcs(line)[i] < U64
  {
    hide HexValue, Pow16, SkipBlanks, TokenLength;
    var body := SkipBlanks(line);
    var hex := StripPrefix(body[..TokenLength(body)]);
    if |hex| <= 16 {
      HexBound(hex);
      Pow16Monotone(|hex|, 16);
      SixteenDigits();
    }
  }

  lemma {:induction false} PcsOfBounded(blocks: seq<seq<byte>>)
    ensures forall i :: 0 <= i < |PcsOf(blocks)| ==> PcsOf(blocks)[i] < U64
    decreases |blocks|
  {
    hide Pcs;
    if blocks != [] {
      PcsBounded(blocks[0]);
      PcsOfBounded(blocks[1..]);
    }
  }

  lemma {:induction false} RememberedOneLine(blocks: seq<seq<byte>>, answered: seq<nat>,
                                             resolve: nat -> Option<Place>, off: nat)
    requires |answered| == |blocks| && forall a :: OneLine(resolve(a))
    ensures AllOneLine(Remembered(blocks, answered, resolve, off).places)
    decreases |blocks|
  {
    hide Pcs, Fresh, OneLine, Answers;
    if blocks != [] {
      var n := |blocks| - 1;
      RememberedOneLine(blocks[..n], answered[..n], resolve, off);
      AnswersOneLine(Fresh(Pcs(blocks[n]), Remembered(blocks[..n], answered[..n], resolve, off).uniq), answered[n],
                     resolve, off);
    }
  }

  lemma AnswersOneLine(novel: seq<nat>, answered: nat, resolve: nat -> Option<Place>, off: nat)
    requires forall a :: OneLine(resolve(a))
    ensures AllOneLine(Answers(novel, answered, resolve, off))
  {
    hide OneLine, Unslid;
    NoPlace();
    var r := Answers(novel, answered, resolve, off);
    forall i | 0 <= i < |r| ensures OneLine(r[i]) {
      assert OneLine(resolve(Unslid(novel[i], off)));
    }
  }

  /**
    From files to report and back: for terminated, calmly read logs the report holds a line for every
    address of every log, in order, so reading the report gives what reading the logs gives.
   */
  lemma ReportReadsBack(files: seq<File>, answered: seq<nat>, resolve: nat -> Option<Place>, off: nat)
    requires AllCalm(files) && NoTailPcs(files)
    requires |answered| == |AllBlocks(files)| && forall a :: OneLine(resolve(a))
    ensures Pcs(Output(AllBlocks(files), answered, resolve, off)) == ReadAll(files)
  {
    hide Pcs, PcsOf, Text, AllOneLine, AllCalm, NoTailPcs, Streamed, ReadAll, AllBlocks, Remembered;
    var blocks := AllBlocks(files);
    var m := Remembered(blocks, answered, resolve, off);
    StreamedIsReadAll(files);
    StreamedBlocks(files);
    PcsOfBounded(blocks);
    RememberedOneLine(blocks, answered, resolve, off);
    TextReadsBack(PcsOf(blocks), m.uniq, m.places);
  }
}

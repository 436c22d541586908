/**
  The edge hash of vock/src/fuzz/signal_edge.rs: the mixing loses nothing, so buckets collide only where
  the map's sixteen bits are cut off.
 */
module SignalHash {
  import opened Prelude
  import opened SignalCorpus

  // ---- every step can be undone

  lemma FoldedIs(h: bv64)
    ensures Folded(h) == h ^ (h >> 33) && Folded(h ^ (h >> 33)) == h
  {
  }

  lemma FoldedTwice(h: bv64)
    ensures Folded(Folded(h)) == h
  {
    hide Folded;
    FoldedIs(h);
  }

  function Gathered(h: bv64): (r: bv64)
  {
    h * 0x4f74430c22a54005
  }

  function GatheredAgain(h: bv64): (r: bv64)
  {
    h * 0x9cb4b2f8129337db
  }

  lemma SpreadIs(h: bv64)
    ensures Spread(h) == h * 0xff51afd7ed558ccd && Gathered(h * 0xff51afd7ed558ccd) == h
    ensures Gathered(h) == h * 0x4f74430c22a54005 && Spread(h * 0x4f74430c22a54005) == h
  {
  }

  lemma SpreadAgainIs(h: bv64)
    ensures SpreadAgain(h) == h * 0xc4ceb9fe1a85ec53 && GatheredAgain(h * 0xc4ceb9fe1a85ec53) == h
    ensures GatheredAgain(h) == h * 0x9cb4b2f8129337db && SpreadAgain(h * 0x9cb4b2f8129337db) == h
  {
  }

  lemma SpreadBack(h: bv64)
    ensures Gathered(Spread(h)) == h && Spread(Gathered(h)) == h
  {
    hide Spread, Gathered;
    SpreadIs(h);
  }

  lemma SpreadAgainBack(h: bv64)
    ensures GatheredAgain(SpreadAgain(h)) == h && SpreadAgain(GatheredAgain(h)) == h
  {
    hide SpreadAgain, GatheredAgain;
    SpreadAgainIs(h);
  }

  // ---- and so can the mixing

  function Unmixed(h: bv64): (x: bv64)
  {
    Folded(Gathered(Folded(GatheredAgain(Folded(h)))))
  }

  /** Every word is mixed from exactly one word. */
  lemma MixedBack(x: bv64)
    ensures Unmixed(Mixed(x)) == x && Mixed(Unmixed(x)) == x
  {
    hide Folded, Spread, SpreadAgain, Gathered, GatheredAgain;
    var a := Spread(Folded(x));
    var b := SpreadAgain(Folded(a));
    FoldedTwice(b);
    SpreadAgainBack(Folded(a));
    FoldedTwice(a);
    SpreadBack(Folded(x));
    FoldedTwice(x);
    var c := GatheredAgain(Folded(x));
    var d := Gathered(Folded(c));
    FoldedTwice(d);
    SpreadBack(Folded(c));
    FoldedTwice(c);
    SpreadAgainBack(Folded(x));
  }

  /** Two edges get the same word if and only if their ends differ in the same bits. */
  lemma MixedInjective(pc: bv64, prev: bv64, pc': bv64, prev': bv64)
    ensures Mixed(pc ^ prev) == Mixed(pc' ^ prev') <==> pc ^ prev == pc' ^ prev'
  {
    WordsApart(pc ^ prev, pc' ^ prev');
  }

  lemma WordsApart(x: bv64, y: bv64)
    ensures Mixed(x) == Mixed(y) <==> x == y
  {
    hide Mixed, Unmixed;
    MixedBack(x);
    MixedBack(y);
  }

  /** An edge and its reverse share a bucket. */
  lemma ReverseEdge(pc: bv64, prev: bv64)
    ensures EdgeHash(pc, prev) == EdgeHash(prev, pc)
  {
    hide Mixed;
    assert pc ^ prev == prev ^ pc;
  }

  /** One word and one bucket by number. */
  lemma FirstBucket()
    ensures Mixed(1) == 0xb456bcfc34c2cb2c && EdgeHash(1, 0) == 0xcb2c
  {
    hide Folded, Spread, SpreadAgain;
    FoldedIs(1);
    SpreadIs(1);
    FoldedIs(0xff51afd7ed558ccd);
    SpreadAgainIs(0xff51afd792fd5b26);
    FoldedIs(0xb456bcfc6ee99552);
    assert 1 ^ 0 == 1 as bv64;
  }
}

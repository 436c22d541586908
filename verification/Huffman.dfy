/**
  Canonical Huffman codes in puff's counts/symbols form (vock/src/fuzz/inflate.rs, `Huffman`).

  The reference definition is the one of section 3.2.2 of RFC 1951: codes of one length are
  consecutive, in symbol order, and each length starts where the shorter ones end.  The table built
  by `NewTable` and walked by `Decode` is proved to invert that assignment.
 */
module Huffman {
  import opened Prelude
  import opened BitReaders

  const MAX_BITS: nat := 15

  /** How many symbols have code length `l`. */
  ghost function Count(s: seq<nat>, l: nat): (c: nat)
    ensures c <= |s|
  {
    if s == [] then 0 else Count(s[..|s| - 1], l) + (if s[|s| - 1] == l then 1 else 0)
  }

  /** The first code of length `l` (`next_code` of RFC 1951). */
  ghost function First(s: seq<nat>, l: nat): (c: nat)
    decreases l, s
  {
    if l <= 1 then 0 else 2 * (First(s, l - 1) + Count(s, l - 1))
  }

  /** How many symbols have a nonzero length below `l`. */
  ghost function Index(s: seq<nat>, l: nat): (c: nat)
    decreases l, s
  {
    if l <= 1 then 0 else Index(s, l - 1) + Count(s, l - 1)
  }

  /** How many smaller symbols share `sym`'s length. */
  ghost function Rank(s: seq<nat>, sym: nat): (c: nat)
    requires sym < |s|
  {
    Count(s[..sym], s[sym])
  }

  /** The canonical code of a symbol. */
  ghost function Code(s: seq<nat>, sym: nat): (c: nat)
    requires sym < |s|
  {
    First(s, s[sym]) + Rank(s, sym)
  }

  /** Some symbol's canonical code is a prefix of `bits`. */
  ghost predicate Matches(s: seq<nat>, sym: nat, bits: seq<bit>)
  {
    sym < |s| && 1 <= s[sym] <= |bits| && FromMsb(bits[..s[sym]]) == Code(s, sym)
  }

  // ---- counting

  lemma {:induction false} CountSplit(s: seq<nat>, t: seq<nat>, l: nat)
    ensures Count(s + t, l) == Count(s, l) + Count(t, l)
  {
    if t == [] {
      assert s + t == s;
    } else {
      var n := |t| - 1;
      assert (s + t)[..|s + t| - 1] == s + t[..n];
      CountSplit(s, t[..n], l);
    }
  }

  lemma {:induction false} RankBelowCount(s: seq<nat>, sym: nat)
    requires sym < |s|
    ensures Rank(s, sym) < Count(s, s[sym])
  {
    assert s == s[..sym + 1] + s[sym + 1..];
    CountSplit(s[..sym + 1], s[sym + 1..], s[sym]);
    assert s[..sym + 1][..sym] == s[..sym];
  }

  /** Every rank below the count is taken by a symbol of that length. */
  lemma {:induction false} SymbolOfRank(s: seq<nat>, l: nat, k: nat) returns (sym: nat)
    requires k < Count(s, l)
    ensures sym < |s| && s[sym] == l && Rank(s, sym) == k
  {
    var n := |s| - 1;
    if s[n] == l && Count(s[..n], l) == k {
      sym := n;
    } else {
      sym := SymbolOfRank(s[..n], l, k);
      assert s[..n][..sym] == s[..sym];
    }
  }

  /** Symbols of one length have different ranks. */
  lemma {:induction false} RankInjective(s: seq<nat>, a: nat, b: nat)
    requires a < b < |s| && s[a] == s[b]
    ensures Rank(s, a) < Rank(s, b)
  {
    assert s[..b][..a] == s[..a];
    RankBelowCount(s[..b], a);
  }

  lemma {:induction false} IndexStep(s: seq<nat>, n: nat, l: nat)
    requires n + 1 == |s|
    ensures Index(s, l) == Index(s[..n], l) + (if 1 <= s[n] < l then 1 else 0)
    decreases l
  {
    if l > 1 {
      IndexStep(s, n, l - 1);
    }
  }

  /** The symbol runs of all lengths fit the symbol table. */
  lemma {:induction false} IndexBound(s: seq<nat>, l: nat)
    ensures Index(s, l) <= |s|
  {
    if s == [] {
      IndexOfNothing(l);
    } else {
      IndexBound(s[..|s| - 1], l);
      IndexStep(s, |s| - 1, l);
    }
  }

  lemma {:induction false} IndexOfNothing(l: nat)
    ensures Index([], l) == 0
  {
    if l > 1 {
      IndexOfNothing(l - 1);
    }
  }

  lemma {:induction false} IndexMonotone(s: seq<nat>, a: nat, b: nat)
    requires 1 <= a < b
    ensures Index(s, a) + Count(s, a) <= Index(s, b)
    decreases b
  {
    if a + 1 < b {
      IndexMonotone(s, a, b - 1);
    }
  }

  /** A symbol's place in the symbol table. */
  ghost function Slot(s: seq<nat>, sym: nat): (i: nat)
    requires sym < |s| && s[sym] >= 1
    ensures i < |s|
  {
    RankBelowCount(s, sym);
    IndexBound(s, s[sym] + 1);
    Index(s, s[sym]) + Rank(s, sym)
  }

  lemma {:induction false} SlotInjective(s: seq<nat>, a: nat, b: nat)
    requires a < |s| && b < |s| && a != b && s[a] >= 1 && s[b] >= 1
    ensures Slot(s, a) != Slot(s, b)
  {
    RankBelowCount(s, a);
    RankBelowCount(s, b);
    if s[a] < s[b] {
      IndexMonotone(s, s[a], s[b]);
    } else if s[b] < s[a] {
      IndexMonotone(s, s[b], s[a]);
    } else if a < b {
      RankInjective(s, a, b);
    } else {
      RankInjective(s, b, a);
    }
  }

  // ---- prefix codes

  lemma {:induction false} FromMsbPrefix(bits: seq<bit>, m: nat, n: nat)
    requires m <= n <= |bits|
    ensures Shl(FromMsb(bits[..m]), n - m) <= FromMsb(bits[..n]) < Shl(FromMsb(bits[..m]) + 1, n - m)
    decreases n
  {
    if m < n {
      FromMsbPrefix(bits, m, n - 1);
      assert bits[..n][..n - 1] == bits[..n - 1];
    }
  }

  /** Longer codes start beyond every shorter one. */
  lemma {:induction false} FirstGrows(s: seq<nat>, a: nat, b: nat)
    requires 1 <= a < b
    ensures Shl(First(s, a) + Count(s, a), b - a) <= First(s, b)
    decreases b
  {
    if a + 1 < b {
      FirstGrows(s, a, b - 1);
    }
  }

  /** For any length vector whatever, at most one symbol's code is a prefix of the input. */
  lemma {:induction false} MatchUnique(s: seq<nat>, a: nat, b: nat, bits: seq<bit>)
    requires Matches(s, a, bits) && Matches(s, b, bits)
    ensures a == b
  {
    RankBelowCount(s, a);
    RankBelowCount(s, b);
    if s[a] == s[b] {
      if a < b { RankInjective(s, a, b); } else if b < a { RankInjective(s, b, a); }
    } else if s[a] < s[b] {
      ShorterExcludesLonger(s, a, b, bits);
    } else {
      ShorterExcludesLonger(s, b, a, bits);
    }
  }

  lemma {:induction false} ShorterExcludesLonger(s: seq<nat>, a: nat, b: nat, bits: seq<bit>)
    requires a < |s| && b < |s| && s[a] < s[b]
    requires Matches(s, a, bits)
    ensures !Matches(s, b, bits)
  {
    if s[b] <= |bits| {
      var m, n := s[a], s[b];
      RankBelowCount(s, a);
      FirstGrows(s, m, n);
      FromMsbPrefix(bits, m, n);
      ShlMonotone(FromMsb(bits[..m]) + 1, First(s, m) + Count(s, m), n - m);
    }
  }

  /** The one symbol whose canonical code is a prefix of the input. */
  ghost function ReadSymbol(s: seq<nat>, bits: seq<bit>): (r: Option<(nat, seq<bit>)>)
    ensures r.Some? ==> r.value.0 < |s| && |r.value.1| < |bits|
  {
    if exists sym: nat :: Matches(s, sym, bits) then
      var sym: nat :| Matches(s, sym, bits);
      Some((sym, bits[s[sym]..]))
    else
      None
  }

  lemma ReadSymbolIs(s: seq<nat>, sym: nat, bits: seq<bit>)
    requires Matches(s, sym, bits)
    ensures ReadSymbol(s, bits) == Some((sym, bits[s[sym]..]))
  {
    var other: nat :| Matches(s, other, bits) && ReadSymbol(s, bits) == Some((other, bits[s[other]..]));
    MatchUnique(s, sym, other, bits);
  }

  // ---- Kraft

  /** The Kraft sum of the lengths 1..l, in units of 2^-15. */
  ghost function KraftUpTo(s: seq<nat>, l: nat): (k: nat)
    requires l <= 15
    decreases l, s
  {
    if l == 0 then 0 else KraftUpTo(s, l - 1) + Shl(Count(s, l), 15 - l)
  }

  /** The lengths do not over-subscribe the code space. */
  ghost predicate Kraft(s: seq<nat>)
  {
    KraftUpTo(s, 15) <= 32768
  }

  lemma {:induction false} KraftIsFirst(s: seq<nat>, l: nat)
    requires 1 <= l <= 15
    ensures Shl(First(s, l) + Count(s, l), 15 - l) == KraftUpTo(s, l)
    decreases l
  {
    if l > 1 {
      KraftIsFirst(s, l - 1);
      ShlOut(First(s, l - 1) + Count(s, l - 1), 15 - l);
    } else {
      assert KraftUpTo(s, 0) == 0;
    }
    ShlAdd(First(s, l), Count(s, l), 15 - l);
  }

  lemma {:induction false} KraftMonotone(s: seq<nat>, a: nat, b: nat)
    requires a <= b <= 15
    ensures KraftUpTo(s, a) <= KraftUpTo(s, b)
    decreases b
  {
    if a < b {
      KraftMonotone(s, a, b - 1);
    }
  }

  /** Under Kraft every canonical code fits its length. */
  lemma CodeFits(s: seq<nat>, sym: nat)
    requires Kraft(s) && sym < |s| && 1 <= s[sym] <= 15
    ensures Code(s, sym) < Pow2(s[sym])
  {
    var l := s[sym];
    RankBelowCount(s, sym);
    KraftIsFirst(s, l);
    KraftMonotone(s, l, 15);
    ShlPow2(l, 15 - l);
    Pow2Values();
    if First(s, l) + Count(s, l) > Pow2(l) {
      ShlStrict(Pow2(l), First(s, l) + Count(s, l), 15 - l);
    }
  }

  /** The canonical code of `sym` as it appears in the stream. */
  ghost function CodeBits(s: seq<nat>, sym: nat): (bits: seq<bit>)
    requires sym < |s|
    ensures |bits| == s[sym]
  {
    MsbBits(Code(s, sym), s[sym])
  }

  /** Under Kraft a symbol's own code, whatever follows it, selects that symbol. */
  lemma CodeMatches(s: seq<nat>, sym: nat, tail: seq<bit>)
    requires Kraft(s) && sym < |s| && 1 <= s[sym] <= 15
    ensures Matches(s, sym, CodeBits(s, sym) + tail)
  {
    CodeFits(s, sym);
    MsbRoundTrip(Code(s, sym), s[sym]);
    assert (CodeBits(s, sym) + tail)[..s[sym]] == CodeBits(s, sym);
  }

  // ---- the table

  datatype Table = Table(counts: seq<nat>, symbols: seq<nat>)

  ghost predicate Represents(h: Table, s: seq<nat>)
  {
    && |h.counts| == MAX_BITS + 1
    && h.counts[0] == 0
    && |h.symbols| == |s|
    && (forall l :: 1 <= l <= 15 ==> h.counts[l] == Count(s, l))
    && (forall sym :: 0 <= sym < |s| && s[sym] >= 1 ==> h.symbols[Slot(s, sym)] == sym)
  }

  /** Two distinct tables never stand for one length vector, up to the unused tail. */
  lemma RepresentsUnique(h: Table, k: Table, s: seq<nat>, i: nat)
    requires Represents(h, s) && Represents(k, s) && i < Index(s, 16)
    ensures i < |s| && h.symbols[i] == k.symbols[i]
  {
    IndexBound(s, 16);
    var sym := SymbolOfSlot(s, i, 16);
  }

  lemma {:induction false} SymbolOfSlot(s: seq<nat>, i: nat, l: nat) returns (sym: nat)
    requires i < Index(s, l)
    ensures sym < |s| && 1 <= s[sym] < l && Slot(s, sym) == i
    decreases l
  {
    if i < Index(s, l - 1) {
      sym := SymbolOfSlot(s, i, l - 1);
    } else {
      sym := SymbolOfRank(s, l - 1, i - Index(s, l - 1));
    }
  }

  /** The first `n` symbols sit in their slots. */
  ghost predicate Filled(s: seq<nat>, n: nat, symbols: seq<nat>)
    requires n <= |s|
  {
    |symbols| == |s| && forall t :: 0 <= t < n && s[t] >= 1 ==> symbols[Slot(s, t)] == t
  }

  /** The next free place of every run, after `n` symbols. */
  ghost predicate RunsAt(s: seq<nat>, n: nat, offs: seq<nat>)
    requires n <= |s|
  {
    |offs| == MAX_BITS + 2 && forall l :: 1 <= l <= 15 ==> offs[l] == Index(s, l) + Count(s[..n], l)
  }

  lemma FilledStep(s: seq<nat>, n: nat, symbols: seq<nat>)
    requires n < |s| && Filled(s, n, symbols)
    ensures s[n] >= 1 ==> Filled(s, n + 1, symbols[Slot(s, n) := n])
    ensures s[n] == 0 ==> Filled(s, n + 1, symbols)
  {
    if s[n] >= 1 {
      forall t | 0 <= t < n && s[t] >= 1
        ensures Slot(s, t) != Slot(s, n)
      {
        SlotInjective(s, t, n);
      }
    }
  }

  lemma RunsStep(s: seq<nat>, n: nat, offs: seq<nat>)
    requires n < |s| && s[n] <= 15 && RunsAt(s, n, offs)
    ensures s[n] >= 1 ==> offs[s[n]] == Slot(s, n) && RunsAt(s, n + 1, offs[s[n] := offs[s[n]] + 1])
    ensures s[n] == 0 ==> RunsAt(s, n + 1, offs)
  {
    assert s[..n + 1][..n] == s[..n];
  }

  /**
    `Huffman::new`: count the lengths, turn the counts into run offsets, and drop every symbol with
    a nonzero length into its run.  The counters are 16 bits wide, hence the bound on the alphabet.
   */
  method NewTable(lengths: seq<nat>) returns (h: Table)
    requires |lengths| <= 0xFFFF
    requires forall i :: 0 <= i < |lengths| ==> lengths[i] <= 15
    ensures Represents(h, lengths)
  {
    var counts := CountLengths(lengths);
    var offs := RunOffsets(counts, lengths);
    var symbols: seq<nat> := seq(|lengths|, _ => 0);
    for sym := 0 to |lengths|
      invariant RunsAt(lengths, sym, offs) && Filled(lengths, sym, symbols)
    {
      var l := lengths[sym];
      RunsStep(lengths, sym, offs);
      FilledStep(lengths, sym, symbols);
      if l != 0 {
        var slot := offs[l];
        if slot < |symbols| {
          symbols := symbols[slot := sym];
        }
        offs := offs[l := offs[l] + 1];
      }
    }
    h := Table(counts, symbols);
  }

  method RunOffsets(counts: seq<nat>, ghost s: seq<nat>) returns (r: seq<nat>)
    requires |counts| == MAX_BITS + 1 && forall l :: 1 <= l <= 15 ==> counts[l] == Count(s, l)
    ensures RunsAt(s, 0, r)
  {
    hide Count;
    var offs := new nat[MAX_BITS + 2](_ => 0);
    for l := 1 to MAX_BITS
      invariant forall k :: 1 <= k <= l ==> offs[k] == Index(s, k)
    {
      offs[l + 1] := offs[l] + counts[l];
    }
    r := offs[..];
  }

  method CountLengths(lengths: seq<nat>) returns (r: seq<nat>)
    requires forall i :: 0 <= i < |lengths| ==> lengths[i] <= 15
    ensures |r| == MAX_BITS + 1 && r[0] == 0
    ensures forall l :: 1 <= l <= 15 ==> r[l] == Count(lengths, l)
  {
    var counts := new nat[MAX_BITS + 1](_ => 0);
    for i := 0 to |lengths|
      invariant forall l :: 0 <= l <= 15 ==> counts[l] == Count(lengths[..i], l)
    {
      assert lengths[..i + 1][..i] == lengths[..i];
      counts[lengths[i]] := counts[lengths[i]] + 1;
    }
    assert lengths[..|lengths|] == lengths;
    counts[0] := 0;
    r := counts[..];
  }

  /** No code of length at most `l` is a prefix of `bits`. */
  ghost predicate NoMatchUpTo(s: seq<nat>, l: nat, bits: seq<bit>)
  {
    forall sym :: 0 <= sym < |s| && s[sym] <= l ==> !Matches(s, sym, bits)
  }

  lemma NoMatchAtAll(s: seq<nat>, l: nat, bits: seq<bit>)
    requires NoMatchUpTo(s, l, bits)
    requires |bits| <= l || forall i :: 0 <= i < |s| ==> s[i] <= l
    ensures forall sym :: !Matches(s, sym, bits)
  {
  }

  /** The walk's registers before it reads the bit at position `l - 1`. */
  ghost predicate Walking(s: seq<nat>, l: nat, bits: seq<bit>, code: int, first: int, index: int)
    requires 1 <= l <= |bits| + 1
  {
    && code == 2 * FromMsb(bits[..l - 1]) && first == First(s, l) && index == Index(s, l)
    && code >= first
    && NoMatchUpTo(s, l - 1, bits)
  }

  /** One miss: the registers move on to the next length. */
  lemma WalkMiss(s: seq<nat>, l: nat, bits: seq<bit>, code: int, first: int, index: int, b: nat)
    requires 1 <= l <= |bits| && Walking(s, l, bits, code, first, index)
    requires b == FromLsb(bits[l - 1..][..1]) && code + b >= first + Count(s, l)
    ensures Walking(s, l + 1, bits, 2 * (code + b), 2 * (first + Count(s, l)), index + Count(s, l))
  {
    NextBit(bits, l, b);
    forall sym | 0 <= sym < |s| && s[sym] == l
      ensures !Matches(s, sym, bits)
    {
      RankBelowCount(s, sym);
    }
  }

  /** One hit: the table entry is in range and is the symbol whose code was read. */
  lemma WalkHit(h: Table, s: seq<nat>, l: nat, bits: seq<bit>, code: int, first: int, index: int, b: nat)
    requires 1 <= l <= |bits| && l <= 15 && Walking(s, l, bits, code, first, index)
    requires Represents(h, s)
    requires b == FromLsb(bits[l - 1..][..1]) && code + b < first + Count(s, l)
    ensures 0 <= index + (code + b - first) < |h.symbols|
    ensures var sym := h.symbols[index + (code + b - first)]; Matches(s, sym, bits) && s[sym] == l
  {
    NextBit(bits, l, b);
    var sym := SymbolOfRank(s, l, code + b - first);
    assert Slot(s, sym) == index + (code + b - first);
  }

  /**
    `Huffman::decode`.  For any length vector, over-subscribed or incomplete ones included, the
    symbol returned is the one whose canonical code is a prefix of the input and exactly that code
    is consumed; `None` means that no symbol's code is.
   */
  method Decode(h: Table, br: BitReader, ghost s: seq<nat>) returns (r: Option<nat>)
    requires br.Valid() && Represents(h, s)
    requires forall i :: 0 <= i < |s| ==> s[i] <= 15
    modifies br`pos, br`buf, br`cnt
    ensures r.None? <==> ReadSymbol(s, old(br.Rest())).None?
    ensures r.Some? ==> br.Valid() && ReadSymbol(s, old(br.Rest())) == Some((r.value, br.Rest()))
    ensures r.Some? ==> Matches(s, r.value, old(br.Rest())) && br.Rest() == old(br.Rest())[s[r.value]..]
    ensures r.None? ==> forall sym :: !Matches(s, sym, old(br.Rest()))
  {
    hide LsbBits, FromLsb, Stream, Count, Code, Slot;
    ghost var bits := br.Rest();
    var code: int, first: int, index: int := 0, 0, 0;
    for l := 1 to MAX_BITS + 1
      invariant br.Valid() && l - 1 <= |bits| && br.Rest() == bits[l - 1..]
      invariant Walking(s, l, bits, code, first, index)
    {
      var b := br.Bits(1);
      if b.None? {
        NoMatchAtAll(s, |bits|, bits);
        return None;
      }
      var count: int := h.counts[l];
      if code + b.value - count < first {
        WalkHit(h, s, l, bits, code, first, index, b.value);
        var sym := h.symbols[index + (code + b.value - first)];
        ReadSymbolIs(s, sym, bits);
        return Some(sym);
      }
      WalkMiss(s, l, bits, code, first, index, b.value);
      index := index + count;
      first := 2 * (first + count);
      code := 2 * (code + b.value);
    }
    NoMatchAtAll(s, MAX_BITS, bits);
    r := None;
  }

  lemma NextBit(bits: seq<bit>, l: nat, b: nat)
    requires 1 <= l <= |bits| && b == FromLsb(bits[l - 1..][..1])
    ensures FromMsb(bits[..l]) == 2 * FromMsb(bits[..l - 1]) + b
    ensures bits[l - 1..][1..] == bits[l..]
  {
    assert bits[..l][..l - 1] == bits[..l - 1];
    assert bits[l - 1..][..1] == [bits[l - 1]];
    assert FromLsb([bits[l - 1]]) == bits[l - 1] + 2 * FromLsb([]);
  }
}

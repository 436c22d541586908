/**
  Vocabulary shared by the component models: optional results, machine bytes and powers of two.
 */
module Prelude {

  /** Rust's `Option`: `None` is also what the `?` operator propagates. */
  datatype Option<+T> = None | Some(value: T) {
    predicate IsFailure() { None? }
    function PropagateFailure<U>(): Option<U> requires None? { None }
    function Extract(): T requires Some? { value }
  }

  type byte = x: int | 0 <= x < 256

  type bit = x: int | 0 <= x < 2

  const U64: int := 0x1_0000_0000_0000_0000

  type u64 = x: int | 0 <= x < U64

  function Pow2(n: nat): (p: nat)
    ensures p > 0
  {
    if n == 0 then 1 else 2 * Pow2(n - 1)
  }

  lemma Pow2Values()
    ensures Pow2(1) == 2 && Pow2(2) == 4 && Pow2(3) == 8 && Pow2(4) == 16 && Pow2(5) == 32 && Pow2(7) == 128
    ensures Pow2(8) == 256 && Pow2(15) == 32768 && Pow2(16) == 65536
  {
    assert Pow2(12) == 4096;
  }

  lemma {:induction false} Pow2Add(m: nat, n: nat)
    ensures Pow2(m + n) == Pow2(m) * Pow2(n)
  {
    if m > 0 {
      Pow2Add(m - 1, n);
      assert Pow2(m) * Pow2(n) == 2 * (Pow2(m - 1) * Pow2(n));
    }
  }

  lemma {:induction false} Pow2Monotone(m: nat, n: nat)
    requires m <= n
    ensures Pow2(m) <= Pow2(n)
  {
    Pow2Add(m, n - m);
    assert Pow2(m) * Pow2(n - m) >= Pow2(m) * 1;
  }

  /** `v >> n` on a natural number. */
  function Shr(v: nat, n: nat): (r: nat)
    decreases n, v
  {
    if n == 0 then v else Shr(v / 2, n - 1)
  }

  /** `v << n`. */
  function Shl(v: nat, n: nat): (r: nat)
  {
    if n == 0 then v else 2 * Shl(v, n - 1)
  }

  /** `v & ((1 << n) - 1)`. */
  function Low(v: nat, n: nat): (r: nat)
    ensures r < Pow2(n)
    decreases n, v
  {
    if n == 0 then 0 else v % 2 + 2 * Low(v / 2, n - 1)
  }

  lemma {:induction false} ShlMonotone(x: nat, y: nat, n: nat)
    requires x <= y
    ensures Shl(x, n) <= Shl(y, n)
  {
    if n > 0 { ShlMonotone(x, y, n - 1); }
  }

  lemma {:induction false} ShlStrict(x: nat, y: nat, n: nat)
    requires x < y
    ensures Shl(x, n) < Shl(y, n)
  {
    if n > 0 { ShlStrict(x, y, n - 1); }
  }

  lemma {:induction false} ShlAdd(x: nat, y: nat, n: nat)
    ensures Shl(x + y, n) == Shl(x, n) + Shl(y, n)
  {
    if n > 0 { ShlAdd(x, y, n - 1); }
  }

  lemma {:induction false} ShlOut(x: nat, n: nat)
    ensures Shl(2 * x, n) == Shl(x, n + 1)
  {
    if n > 0 { ShlOut(x, n - 1); }
  }

  lemma {:induction false} ShlPow2(m: nat, n: nat)
    ensures Shl(Pow2(m), n) == Pow2(m + n)
  {
    if n > 0 { ShlPow2(m, n - 1); }
  }

  /** Little-endian value of a byte string. */
  function LeValue(s: seq<byte>): (v: nat)
    ensures v < Pow256(|s|)
  {
    if s == [] then 0 else s[0] + 256 * LeValue(s[1..])
  }

  function Pow256(n: nat): (p: nat)
    ensures p > 0
  {
    if n == 0 then 1 else 256 * Pow256(n - 1)
  }

  /** The low `n` bytes of `v`, least significant first. */
  function LeBytes(v: nat, n: nat): (s: seq<byte>)
    ensures |s| == n
    decreases n, v
  {
    if n == 0 then [] else [v % 256] + LeBytes(v / 256, n - 1)
  }

  lemma {:induction false} LeRoundTrip(v: nat, n: nat)
    requires v < Pow256(n)
    ensures LeValue(LeBytes(v, n)) == v
    decreases n
  {
    if n > 0 {
      LeRoundTrip(v / 256, n - 1);
      assert LeBytes(v, n)[1..] == LeBytes(v / 256, n - 1);
    }
  }

  lemma LeSize(v: nat, n: nat)
    ensures |LeBytes(v, n)| == n
  {
  }

  lemma {:induction false} LeZeros(n: nat)
    ensures LeBytes(0, n) == seq(n, _ => 0)
    decreases n
  {
    if n > 0 {
      LeZeros(n - 1);
      assert LeBytes(0, n) == [0] + LeBytes(0, n - 1);
    }
  }

  /** A byte string is the bytes of its value. */
  lemma {:induction false} LeWrittenBack(s: seq<byte>)
    ensures LeBytes(LeValue(s), |s|) == s
  {
    if s != [] {
      LeWrittenBack(s[1..]);
      assert LeValue(s) % 256 == s[0] && LeValue(s) / 256 == LeValue(s[1..]);
      assert s == [s[0]] + s[1..];
    }
  }

  lemma {:induction false} LeTruncates(v: nat, n: nat)
    ensures LeValue(LeBytes(v, n)) == v % Pow256(n)
    decreases n
  {
    if n > 0 {
      LeTruncates(v / 256, n - 1);
      assert LeBytes(v, n)[1..] == LeBytes(v / 256, n - 1);
      ModStep(v, Pow256(n - 1));
    }
  }

  // ---- quotients and remainders

  lemma QuotientsOrdered(d: nat, a: nat, b: nat, r: nat, s: nat)
    requires r < d && s < d && d * a + r <= d * b + s
    ensures a <= b
  {
    assert a > b ==> d * a >= d * (b + 1);
  }

  lemma RemainderIs(x: nat, d: nat, q: nat, r: nat)
    requires r < d && x == d * q + r
    ensures x % d == r && x / d == q
  {
    assert x == d * (x / d) + x % d;
    QuotientsOrdered(d, x / d, q, x % d, r);
    QuotientsOrdered(d, q, x / d, r, x % d);
  }

  lemma ModStep(x: nat, r: nat)
    requires r > 0
    ensures x % (256 * r) == 256 * (x / 256 % r) + x % 256
  {
    var y := x / 256;
    assert y == r * (y / r) + y % r;
    assert 256 * r * (y / r) == 256 * (r * (y / r));
    RemainderIs(x, 256 * r, y / r, 256 * (y % r) + x % 256);
  }

  // ---- ascending lists

  ghost predicate Ascending(s: seq<nat>)
  {
    forall i, j :: 0 <= i < j < |s| ==> s[i] < s[j]
  }

  /** Insert into an ascending list, once. */
  function InsertUnique(s: seq<nat>, a: nat): (r: seq<nat>)
  {
    if s == [] || a < s[0] then [a] + s
    else if a == s[0] then s
    else [s[0]] + InsertUnique(s[1..], a)
  }

  lemma {:induction false} InsertUniqueSorted(s: seq<nat>, a: nat)
    requires Ascending(s)
    ensures Ascending(InsertUnique(s, a))
    ensures forall x :: x in InsertUnique(s, a) <==> x == a || x in s
  {
    if s == [] || a < s[0] {
    } else if a == s[0] {
    } else {
      InsertUniqueSorted(s[1..], a);
      var t := InsertUnique(s[1..], a);
      forall j | 0 <= j < |t| ensures s[0] < t[j] {
        assert t[j] in t;
      }
      forall x ensures x in InsertUnique(s, a) <==> x == a || x in s {
        assert x in s <==> x == s[0] || x in s[1..];
      }
    }
  }
}

/**
  The Internet checksum of checksum fields (vock/src/fuzz/prog_decode.rs, `csum_inet` and the
  patching half of `fix_csums`), against the definition of section 1 of RFC 1071.
 */
module Checksum {
  import opened Prelude

  /** The unbounded sum of the little-endian 16-bit words, an odd last byte padded with zero. */
  ghost function WordSum(s: seq<byte>): (n: nat)
  {
    if s == [] then 0 else WordSum(s[..|s| - 1]) + Weighted(|s| - 1, s[|s| - 1])
  }

  /** A byte's contribution: even positions are low halves, odd positions high halves. */
  ghost function Weighted(i: nat, b: byte): (n: nat)
  {
    if i % 2 == 0 then b else 256 * b
  }

  /** The one's-complement value of an unbounded sum: end-around carries until 16 bits remain. */
  ghost function OnesComplement(n: nat): (r: nat)
    ensures r <= 0xffff
  {
    if n == 0 then 0 else 1 + (n - 1) % 0xffff
  }

  ghost function CsumSpec(s: seq<byte>): (c: nat)
    ensures c <= 0xffff
  {
    0xffff - OnesComplement(WordSum(s))
  }

  /** One end-around carry keeps the one's-complement value. */
  lemma FoldKeeps(acc: nat)
    requires acc > 0xffff
    ensures OnesComplement(acc % 0x10000 + acc / 0x10000) == OnesComplement(acc)
    ensures 0 < acc % 0x10000 + acc / 0x10000 < acc
  {
    var hi, lo := acc / 0x10000, acc % 0x10000;
    assert acc - 1 == 0xffff * hi + (lo + hi - 1);
    ModShift(lo + hi - 1, hi);
  }

  lemma ModShift(x: nat, k: nat)
    ensures (0xffff * k + x) % 0xffff == x % 0xffff
  {
  }

  lemma SmallIsItself(n: nat)
    requires n <= 0xffff
    ensures OnesComplement(n) == n
  {
  }

  /** Adding to a sum may be done before or after folding it. */
  lemma AddFolded(n: nat, k: nat)
    ensures OnesComplement(OnesComplement(n) + k) == OnesComplement(n + k)
  {
    if n > 0 {
      var q := Quotient(n);
      ModShift(OnesComplement(n) + k - 1, q);
    }
  }

  method Fold(acc0: nat) returns (acc: nat)
    ensures acc == OnesComplement(acc0)
  {
    acc := acc0;
    while acc > 0xffff
      invariant OnesComplement(acc) == OnesComplement(acc0)
    {
      FoldKeeps(acc);
      acc := acc % 0x10000 + acc / 0x10000;
    }
    SmallIsItself(acc);
  }

  lemma WordSumStep(s: seq<byte>, i: nat)
    requires i < |s|
    ensures WordSum(s[..i + 1]) == WordSum(s[..i]) + Weighted(i, s[i])
  {
    assert s[..i + 1][..i] == s[..i];
  }

  lemma EmptySum()
    ensures OnesComplement(WordSum([])) == 0
  {
  }

  /** The loop body's word, folded into the sum so far. */
  lemma WordStep(s: seq<byte>, i: nat)
    requires i % 2 == 0 && i + 1 < |s|
    ensures OnesComplement(OnesComplement(WordSum(s[..i])) + (s[i] as int + 256 * s[i + 1] as int))
         == OnesComplement(WordSum(s[..i + 2]))
  {
    hide OnesComplement, WordSum;
    WordSumStep(s, i);
    WordSumStep(s, i + 1);
    var lo: nat, hi: nat := s[i], s[i + 1];
    AddFolded(WordSum(s[..i]), lo + 256 * hi);
  }

  lemma LastByte(s: seq<byte>, i: nat)
    requires i % 2 == 0 && i < |s|
    ensures OnesComplement(OnesComplement(WordSum(s[..i])) + s[i] as int) == OnesComplement(WordSum(s[..i + 1]))
  {
    hide OnesComplement, WordSum;
    WordSumStep(s, i);
    AddFolded(WordSum(s[..i]), s[i]);
  }

  /**
    `csum_inet`: folding inside the loop, so that the 32-bit accumulator never exceeds 0x1fffe,
    computes the complement of the one's-complement sum of buffers of any length.
   */
  method CsumInet(data: seq<byte>) returns (c: nat)
    ensures c == CsumSpec(data)
  {
    hide OnesComplement, WordSum;
    EmptySum();
    var acc: nat, i: nat := 0, 0;
    while i + 1 < |data|
      invariant i <= |data| && i % 2 == 0
      invariant acc == OnesComplement(WordSum(data[..i]))
    {
      WordStep(data, i);
      var lo: nat, hi: nat := data[i], data[i + 1];
      acc := acc + (lo + 256 * hi);
      acc := Fold(acc);
      i := i + 2;
    }
    if i < |data| {
      assert data[..i + 1] == data;
      LastByte(data, i);
      acc := acc + data[i];
    } else {
      assert data[..i] == data;
      SmallIsItself(acc);
    }
    acc := Fold(acc);
    c := 0xffff - acc;
  }

  // ---- patching

  /** The buffer with the two bytes at `off` cleared. */
  ghost function Cleared(s: seq<byte>, off: nat): (r: seq<byte>)
    requires off + 2 <= |s|
    ensures |r| == |s|
  {
    s[off := 0][off + 1 := 0]
  }

  /** The buffer with its own checksum stored at `off`, low byte first. */
  ghost function Patched(s: seq<byte>, off: nat): (r: seq<byte>)
    requires off + 2 <= |s|
    ensures |r| == |s|
  {
    var c := CsumSpec(Cleared(s, off));
    s[off := c % 256][off + 1 := c / 256]
  }

  /** Clear the field, checksum the buffer, store the sum: the in-place half of `fix_csums`. */
  method PatchCsum(bytes: array<byte>, off: nat)
    requires off + 2 <= bytes.Length
    modifies bytes
    ensures bytes[..] == Patched(old(bytes[..]), off)
  {
    bytes[off] := 0;
    bytes[off + 1] := 0;
    assert bytes[..] == Cleared(old(bytes[..]), off);
    var sum := CsumInet(bytes[..]);
    bytes[off] := sum % 256;
    bytes[off + 1] := sum / 256;
  }

  lemma {:induction false} WordSumUpdate(s: seq<byte>, i: nat, b: byte)
    requires i < |s|
    ensures WordSum(s[i := b]) == WordSum(s) - Weighted(i, s[i]) + Weighted(i, b)
    decreases |s|
  {
    var n := |s| - 1;
    if i < n {
      WordSumUpdate(s[..n], i, b);
      assert s[i := b][..n] == s[..n][i := b];
    } else {
      assert s[i := b][..n] == s[..n];
    }
  }

  lemma PatchedSum(s: seq<byte>, off: nat)
    requires off + 2 <= |s|
    ensures var z := Cleared(s, off);
            var c := CsumSpec(z);
            WordSum(Patched(s, off)) == WordSum(z) + (if off % 2 == 0 then c else 256 * (c % 256) + c / 256)
  {
    hide WordSum, OnesComplement;
    var z := Cleared(s, off);
    var c := CsumSpec(z);
    var lo: byte, hi: byte := c % 256, c / 256;
    WordSumUpdate(z, off, lo);
    var y: seq<byte> := z[off := lo];
    WordSumUpdate(y, off + 1, hi);
    assert y[off + 1 := hi] == Patched(s, off);
  }

  /** A checksum of zero means a positive multiple of 0xffff. */
  lemma ZeroMeans(n: nat)
    ensures OnesComplement(n) == 0xffff <==> n > 0 && n % 0xffff == 0
  {
  }

  /** The complement completes a sum to a positive multiple of 0xffff. */
  lemma Completes(n: nat)
    ensures n + (0xffff - OnesComplement(n)) > 0 && (n + (0xffff - OnesComplement(n))) % 0xffff == 0
  {
    if n > 0 {
      var q := Quotient(n);
      ModShift(0, q + 1);
    }
  }

  /** Stored with its halves swapped, the complement completes a sum only if 257 divides it. */
  lemma SwappedCompletes(n: nat)
    ensures var c := 0xffff - OnesComplement(n);
            var t := n + 256 * (c % 256) + c / 256;
            t > 0 && (t % 0xffff == 0 <==> n % 257 == 0)
  {
    var v := OnesComplement(n);
    var q := Quotient(n);
    SwapHalves(0xffff - v);
    var c := 0xffff - v;
    var m := q + 256 - c / 256;
    DividesSwapped(m, v, n + 256 * (c % 256) + c / 256);
    Mod257(q, v);
  }

  lemma Quotient(n: nat) returns (q: nat)
    ensures n == 0xffff * q + OnesComplement(n)
  {
    q := if n == 0 then 0 else (n - 1) / 0xffff;
  }

  lemma SwapHalves(c: nat)
    ensures 256 * (c % 256) + c / 256 == 256 * c - 0xffff * (c / 256)
  {
  }

  lemma Mod257(q: nat, v: nat)
    ensures (0xffff * q + v) % 257 == v % 257
  {
    assert 0xffff * q + v == 257 * (255 * q) + v;
  }

  lemma DividesSwapped(m: int, v: nat, t: nat)
    requires t == 0xffff * m - 255 * v
    ensures t % 0xffff == 0 <==> v % 257 == 0
  {
    var k, r := v / 257, v % 257;
    assert 255 * v == 0xffff * k + 255 * r;
    assert t == 0xffff * (m - k) - 255 * r;
  }

  /**
    After patching, the checksum of the whole buffer is zero exactly when the field sits at an even
    offset or the rest of the buffer happens to sum to a multiple of 257.
   */
  lemma PatchedChecks(s: seq<byte>, off: nat)
    requires off + 2 <= |s|
    ensures CsumSpec(Patched(s, off)) == 0 <==> off % 2 == 0 || WordSum(Cleared(s, off)) % 257 == 0
  {
    hide WordSum, OnesComplement;
    var n := WordSum(Cleared(s, off));
    PatchedSum(s, off);
    ZeroMeans(WordSum(Patched(s, off)));
    Completes(n);
    SwappedCompletes(n);
  }

  /** An odd checksum field really can leave a buffer that does not check. */
  lemma OddFieldFails()
    ensures CsumSpec(Patched([1, 0, 0], 1)) != 0
  {
    var s: seq<byte> := [1, 0, 0];
    assert Cleared(s, 1) == s;
    WordSumStep(s, 0);
    WordSumStep(s, 1);
    WordSumStep(s, 2);
    assert s[..0] == [] && s[..3] == s;
    PatchedChecks(s, 1);
  }
}

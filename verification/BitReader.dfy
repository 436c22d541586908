/**
  The LSB-first bit reader of the DEFLATE decoder (vock/src/fuzz/inflate.rs, `BitReader`).

  A reader is abstracted by the sequence of bits it has still to deliver: the low `cnt` bits of
  the shift buffer, then the bits of every unread byte, least significant first.
 */
module BitReaders {
  import opened Prelude

  /** The low `n` bits of `v`, least significant first (section 3.1.1 of RFC 1951). */
  ghost function LsbBits(v: nat, n: nat): (s: seq<bit>)
    ensures |s| == n
    decreases n, v
  {
    if n == 0 then [] else [v % 2] + LsbBits(v / 2, n - 1)
  }

  ghost function FromLsb(s: seq<bit>): (v: nat)
  {
    if s == [] then 0 else s[0] + 2 * FromLsb(s[1..])
  }

  /** The low `n` bits of `v`, most significant first: how Huffman codes are packed. */
  ghost function MsbBits(v: nat, n: nat): (s: seq<bit>)
    ensures |s| == n
    decreases n, v
  {
    if n == 0 then [] else MsbBits(v / 2, n - 1) + [v % 2]
  }

  ghost function FromMsb(s: seq<bit>): (v: nat)
    ensures v < Pow2(|s|)
  {
    if s == [] then 0 else 2 * FromMsb(s[..|s| - 1]) + s[|s| - 1]
  }

  /** All bits of a byte string in delivery order. */
  ghost function Stream(data: seq<byte>): (s: seq<bit>)
    ensures |s| == 8 * |data|
  {
    if data == [] then [] else LsbBits(data[0], 8) + Stream(data[1..])
  }

  lemma {:induction false} LsbRoundTrip(v: nat, n: nat)
    requires v < Pow2(n)
    ensures FromLsb(LsbBits(v, n)) == v
    decreases n
  {
    if n > 0 {
      LsbRoundTrip(v / 2, n - 1);
      assert LsbBits(v, n)[1..] == LsbBits(v / 2, n - 1);
    }
  }

  lemma {:induction false} MsbRoundTrip(v: nat, n: nat)
    requires v < Pow2(n)
    ensures FromMsb(MsbBits(v, n)) == v
    decreases n
  {
    if n > 0 {
      MsbRoundTrip(v / 2, n - 1);
      assert MsbBits(v, n)[..n - 1] == MsbBits(v / 2, n - 1);
    }
  }

  /** Refilling: a byte shifted in above `m` buffered bits is delivered after them. */
  lemma {:induction false} LsbAppend(a: nat, m: nat, b: nat, n: nat)
    requires a < Pow2(m)
    ensures LsbBits(a + Shl(b, m), m + n) == LsbBits(a, m) + LsbBits(b, n)
    ensures b < Pow2(n) ==> a + Shl(b, m) < Pow2(m + n)
    decreases m
  {
    if m > 0 {
      assert (a + Shl(b, m)) % 2 == a % 2 && (a + Shl(b, m)) / 2 == a / 2 + Shl(b, m - 1);
      LsbAppend(a / 2, m - 1, b, n);
    }
  }

  /** Consuming: masking takes the first `n` buffered bits, shifting leaves the others. */
  lemma {:induction false} LsbSplit(v: nat, m: nat, n: nat)
    requires n <= m && v < Pow2(m)
    ensures FromLsb(LsbBits(v, m)[..n]) == Low(v, n)
    ensures LsbBits(v, m)[n..] == LsbBits(Shr(v, n), m - n)
    ensures Shr(v, n) < Pow2(m - n)
    decreases n
  {
    if n > 0 {
      var s := LsbBits(v, m);
      LsbSplit(v / 2, m - 1, n - 1);
      assert s[1..] == LsbBits(v / 2, m - 1);
      assert s[..n][1..] == s[1..][..n - 1];
      assert s[n..] == s[1..][n - 1..];
    }
  }

  /** The value of the next `n` bits, and the bits after them. */
  ghost function Take(bits: seq<bit>, n: nat): (r: Option<(nat, seq<bit>)>)
    ensures r.Some? ==> |r.value.1| == |bits| - n
  {
    if |bits| < n then None else Some((FromLsb(bits[..n]), bits[n..]))
  }

  /** One refill leaves the abstract stream as it was. */
  lemma Refill(data: seq<byte>, pos: nat, buf: nat, cnt: nat)
    requires pos < |data| && buf < Pow2(cnt)
    ensures LsbBits(buf + Shl(data[pos], cnt), cnt + 8) + Stream(data[pos + 1..])
         == LsbBits(buf, cnt) + Stream(data[pos..])
    ensures buf + Shl(data[pos], cnt) < Pow2(cnt + 8)
  {
    hide LsbBits, Shl, Pow2;
    Pow2Values();
    LsbAppend(buf, cnt, data[pos], 8);
    assert data[pos..][1..] == data[pos + 1..];
  }

  class BitReader {
    const data: seq<byte>
    var pos: nat
    var buf: nat
    var cnt: nat

    ghost predicate Valid()
      reads this
    {
      pos <= |data| && cnt <= 7 && buf < Pow2(cnt)
    }

    /** The bits still to be delivered. */
    ghost function Rest(): (s: seq<bit>)
      reads this
      requires pos <= |data|
    {
      LsbBits(buf, cnt) + Stream(data[pos..])
    }

    constructor (data: seq<byte>)
      ensures this.data == data && Valid() && Rest() == Stream(data)
    {
      this.data := data;
      pos, buf, cnt := 0, 0, 0;
      new;
      assert data[0..] == data;
    }

    /**
      Read `n` bits.  The result is their LSB-first value, or `None` exactly when fewer than `n`
      bits are left; fewer than eight bits stay buffered between reads, and the shift buffer never
      needs more than 24 of its 32 bits.
     */
    method Bits(n: nat) returns (r: Option<nat>)
      requires Valid() && n <= 16
      modifies this`pos, this`buf, this`cnt
      ensures r.None? <==> |old(Rest())| < n
      ensures r.Some? ==> Valid() && r.value < Pow2(n)
      ensures r.Some? ==> Take(old(Rest()), n) == Some((r.value, Rest()))
    {
      hide LsbBits, Stream, Low, Shl, Shr;
      if n == 0 {
        assert Rest()[..0] == [] && Rest()[0..] == Rest();
        return Some(0);
      }
      ghost var rest := Rest();
      while cnt < n
        invariant pos <= |data| && buf < Pow2(cnt) && Rest() == rest
        invariant cnt <= 23 && cnt < n + 8
        decreases n - cnt
      {
        if pos >= |data| {
          assert |Rest()| == cnt;
          return None;
        }
        var b := data[pos];
        Refill(data, pos, buf, cnt);
        pos := pos + 1;
        buf := buf + Shl(b, cnt);  // `buf |= b << cnt`: the two halves share no bit
        cnt := cnt + 8;
      }
      Shift(n, rest);
      var out := Low(buf, n);
      buf := Shr(buf, n);
      cnt := cnt - n;
      r := Some(out);
    }

    /** What masking off and shifting out `n` buffered bits does to the abstract stream. */
    ghost method Shift(n: nat, rest: seq<bit>)
      requires pos <= |data| && n <= cnt && buf < Pow2(cnt) && Rest() == rest
      ensures FromLsb(rest[..n]) == Low(buf, n)
      ensures rest[n..] == LsbBits(Shr(buf, n), cnt - n) + Stream(data[pos..])
      ensures Shr(buf, n) < Pow2(cnt - n)
    {
      LsbSplit(buf, cnt, n);
      assert rest[..n] == LsbBits(buf, cnt)[..n];
      assert rest[n..] == LsbBits(buf, cnt)[n..] + Stream(data[pos..]);
    }

    /** Drop the rest of a partly read byte: whole bytes remain. */
    method AlignByte()
      requires Valid()
      modifies this`buf, this`cnt
      ensures Valid()
      ensures Rest() == old(Rest())[|old(Rest())| % 8..]
      ensures |Rest()| % 8 == 0
    {
      hide LsbBits, FromLsb;
      var drop := cnt % 8;
      assert drop == |Rest()| % 8;
      Shift(drop, Rest());
      buf := Shr(buf, drop);
      cnt := cnt - drop;
    }
  }
}

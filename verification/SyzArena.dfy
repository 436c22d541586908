/**
  The data arena and its granule bitmap allocator (vock/src/fuzz/prog_decode.rs, `Arena`).
 */
module SyzArena {
  import opened Prelude

  const GRANULE: nat := 64
  const ARENA_SIZE: nat := 0x100_0000

  /** One 64-bit word of the bitmap. */
  type Word = w: seq<bool> | |w| == 64 witness seq(64, _ => false)

  function Blank(): Word
  {
    seq(64, _ => false)
  }

  function CeilDiv(n: nat): (r: nat)
    ensures n <= 64 * r < n + 64
  {
    (n + 63) / 64
  }

  /** `size.div_ceil(GRANULE).max(1)`. */
  function Need(size: nat): (r: nat)
    ensures r >= 1
  {
    if size == 0 then 1 else CeilDiv(size)
  }

  // ---- first fit

  /** `need` consecutive granules starting at `start` are free and inside the arena. */
  ghost predicate FreeRun(used: set<nat>, start: nat, need: nat, total: nat)
  {
    start + need <= total && forall g :: start <= g < start + need ==> g !in used
  }

  /** `start` is the lowest free run. */
  ghost predicate LowestRun(used: set<nat>, start: nat, need: nat, total: nat)
  {
    FreeRun(used, start, need, total) && forall s :: 0 <= s < start ==> !FreeRun(used, s, need, total)
  }

  ghost predicate HasRun(used: set<nat>, need: nat, total: nat)
  {
    exists s: nat :: FreeRun(used, s, need, total)
  }

  /** The granules an object of `size` bytes at `off` touches. */
  ghost function Span(off: nat, size: nat): (s: set<nat>)
  {
    Range(off / 64, CeilDiv(off + size))
  }

  ghost function Range(a: nat, b: nat): (s: set<nat>)
    ensures forall g :: g in s <==> a <= g < b
    decreases b
  {
    if a >= b then {} else Range(a, b - 1) + {b - 1}
  }

  // ---- clipping

  /** The first recorded address above `off`. */
  function NextAbove(fixed: seq<nat>, off: nat): (r: Option<nat>)
    ensures r.None? ==> forall i :: 0 <= i < |fixed| ==> fixed[i] <= off
    ensures r.Some? ==> r.value in fixed && r.value > off
  {
    if fixed == [] then None else if fixed[0] > off then Some(fixed[0]) else NextAbove(fixed[1..], off)
  }

  lemma {:induction false} NextAboveLeast(fixed: seq<nat>, off: nat, a: nat)
    requires Ascending(fixed) && a in fixed && a > off
    ensures NextAbove(fixed, off).Some? && NextAbove(fixed, off).value <= a
  {
    if fixed[0] <= off {
      assert a in fixed[1..];
      NextAboveLeast(fixed[1..], off, a);
    }
  }

  /** How many of `n` bytes a write at `off` keeps. */
  function Clip(fixed: seq<nat>, off: nat, n: nat): (r: nat)
    ensures r <= n
  {
    match NextAbove(fixed, off)
    case None => n
    case Some(next) => if n < next - off then n else next - off
  }

  class Arena {
    const mem: array<byte>
    var used: seq<Word>
    var fixed: seq<nat>

    /** Whole granules, and a bitmap with a word to spare. */
    ghost predicate Valid()
      reads this
    {
      mem.Length % 64 == 0 && |used| == mem.Length / 64 / 64 + 1
    }

    predicate Bit(g: nat)
      reads this
      requires g / 64 < |used|
    {
      used[g / 64][g % 64]
    }

    ghost function Granules(): (s: set<nat>)
      reads this
    {
      set g: nat | g < 64 * |used| && used[g / 64][g % 64]
    }

    constructor ()
      ensures Valid() && fresh(mem) && mem.Length == 16 * 1024 * 1024 && fixed == [] && Granules() == {}
      ensures forall i :: 0 <= i < mem.Length ==> mem[i] == 0
    {
      mem := new byte[ARENA_SIZE](_ => 0);
      used := seq(ARENA_SIZE / GRANULE / 64 + 1, _ => Blank());
      fixed := [];
    }

    /** Zero the memory and free every granule. */
    method Reset()
      requires Valid()
      modifies this`used, mem
      ensures Valid() && Granules() == {}
      ensures forall i :: 0 <= i < mem.Length ==> mem[i] == 0
    {
      forall i | 0 <= i < mem.Length {
        mem[i] := 0;
      }
      used := seq(|used|, _ => Blank());
    }

    predicate InRange(off: nat, size: nat)
    {
      off + size <= mem.Length
    }

    /** `note_alloc`: mark the granules of an object that lies inside the arena; ignore any other. */
    method NoteAlloc(off: nat, size: nat)
      requires Valid()
      modifies this`used
      ensures Valid()
      ensures Granules() == old(Granules()) + (if InRange(off, size) then Span(off, size) else {})
    {
      if !InRange(off, size) {
        return;
      }
      var first := off / GRANULE;
      var last := CeilDiv(off + size);
      for g := first to last
        invariant Valid()
        invariant Granules() == old(Granules()) + Range(first, g)
      {
        MarkOne(g);
      }
    }

    method MarkOne(g: nat)
      requires Valid() && g < 64 * |used|
      modifies this`used
      ensures Valid() && Granules() == old(Granules()) + {g}
    {
      used := used[g / 64 := used[g / 64][g % 64 := true]];
    }

    /**
      `alloc`: the skipping search returns the lowest free run that is long enough and marks exactly
      the object's granules, none for an empty object; without one it returns 0 and marks nothing.
     */
    method Alloc(size: nat) returns (off: nat)
      requires Valid()
      modifies this`used
      ensures Valid()
      ensures HasRun(old(Granules()), Need(size), mem.Length / 64) ==>
                && off % 64 == 0 && LowestRun(old(Granules()), off / 64, Need(size), mem.Length / 64)
                && Granules() == old(Granules()) + Span(off, size)
      ensures !HasRun(old(Granules()), Need(size), mem.Length / 64) ==> off == 0 && Granules() == old(Granules())
    {
      var need := Need(size);
      var total := mem.Length / GRANULE;
      var start := 0;
      ghost var free := Granules();
      while start + need <= total
        invariant Valid() && Granules() == free
        invariant forall s :: 0 <= s < start ==> !FreeRun(free, s, need, total)
        decreases total - start
      {
        var g := start;
        while g < start + need && !Bit(g)
          invariant start <= g <= start + need
          invariant forall h :: start <= h < g ==> h !in free
        {
          g := g + 1;
        }
        if g == start + need {
          off := start * GRANULE;
          assert FreeRun(free, start, need, total);
          NoteAlloc(off, size);
          return;
        }
        assert g in free;
        forall s | start <= s <= g ensures !FreeRun(free, s, need, total) {
          assert s <= g < s + need;
        }
        start := g + 1;
      }
      off := 0;
    }

    /** `set_fixed`: sort and deduplicate. */
    method SetFixed(addrs: seq<nat>)
      modifies this`fixed
      ensures Ascending(fixed) && forall a :: a in fixed <==> a in addrs
    {
      var s: seq<nat> := [];
      for i := 0 to |addrs|
        invariant Ascending(s) && forall a :: a in s <==> a in addrs[..i]
      {
        InsertUniqueSorted(s, addrs[i]);
        assert addrs[..i + 1] == addrs[..i] + [addrs[i]];
        s := InsertUnique(s, addrs[i]);
      }
      assert addrs[..|addrs|] == addrs;
      fixed := s;
    }

    /** `write`: copy, clipped at the next recorded address; nothing if that leaves the arena. */
    method Write(off: nat, bytes: seq<byte>)
      modifies mem
      ensures mem[..] == Written(old(mem[..]), fixed, off, bytes)
    {
      var n := Clip(fixed, off, |bytes|);
      if n == 0 || !InRange(off, n) {
        return;
      }
      forall i | 0 <= i < n {
        mem[off + i] := bytes[i];
      }
    }

    /** `read_scalar`: between one and eight bytes as a little-endian number, if they lie in the arena. */
    method ReadScalar(off: nat, size: nat) returns (r: Option<u64>)
      ensures r == Scalar(mem[..], off, size)
    {
      var n := Clamp(size);
      if !InRange(off, n) {
        return None;
      }
      var buf := new byte[8](_ => 0);
      forall i | 0 <= i < n {
        buf[i] := mem[off + i];
      }
      assert buf[..n] == mem[..][off..off + n] && buf[..] == buf[..n] + seq(8 - n, _ => 0);
      LePadded(buf[..n], 8 - n);
      r := Some(LeValue(buf[..]));
    }
  }

  function Clamp(size: nat): (n: nat)
    ensures 1 <= n <= 8
  {
    if size < 1 then 1 else if size > 8 then 8 else size
  }

  /** What is read back from the arena; nothing from outside it. */
  function Scalar(mem: seq<byte>, off: nat, size: nat): (r: Option<u64>)
    ensures r.Some? <==> off + Clamp(size) <= |mem|
  {
    var n := Clamp(size);
    if off + n > |mem| then None
    else
      LeFits(mem[off..off + n]);
      Some(LeValue(mem[off..off + n]))
  }

  lemma LeFits(s: seq<byte>)
    requires |s| <= 8
    ensures LeValue(s) < U64
    ensures |s| <= 4 ==> LeValue(s) < 0x1_0000_0000
  {
    assert Pow256(4) == 0x1_0000_0000;
    assert Pow256(8) == U64;
    Pow256Monotone(|s|, 8);
    if |s| <= 4 {
      Pow256Monotone(|s|, 4);
    }
  }

  lemma {:induction false} Pow256Monotone(m: nat, n: nat)
    requires m <= n
    ensures Pow256(m) <= Pow256(n)
    decreases n
  {
    if m < n {
      Pow256Monotone(m, n - 1);
    }
  }

  lemma {:induction false} LePadded(s: seq<byte>, n: nat)
    ensures LeValue(s + seq(n, _ => 0)) == LeValue(s)
    decreases |s| + n
  {
    var zeros: seq<byte> := seq(n, _ => 0);
    if s != [] {
      assert (s + zeros)[1..] == s[1..] + zeros;
      LePadded(s[1..], n);
    } else if n > 0 {
      var fewer: seq<byte> := seq(n - 1, _ => 0);
      assert s + zeros == zeros && zeros[1..] == s + fewer;
      LePadded(s, n - 1);
    }
  }

  /** The memory after one clipped write. */
  ghost function Written(mem: seq<byte>, fixed: seq<nat>, off: nat, bytes: seq<byte>): (r: seq<byte>)
    ensures |r| == |mem|
  {
    var n := Clip(fixed, off, |bytes|);
    if n == 0 || off + n > |mem| then mem else mem[..off] + bytes[..n] + mem[off + n..]
  }
}

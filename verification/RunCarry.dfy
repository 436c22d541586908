/**
  Which bytes of a reference the value of its slot can change (vock/src/fuzz/prog_decode.rs,
  `Ctx::resolve`): the value is divided, then a constant is added with wrap-around, so a byte changes
  exactly when the largest quotient carries into it.
 */
module RunCarry {
  import opened Prelude
  import opened SyzLayout
  import opened RunBytes

  /** The divisor that is used: zero stands for one. */
  function Divisor(div: u64): (d: u64)
    ensures d > 0
  {
    if div == 0 then 1 else div
  }

  /** What a reference reads when its slot holds `x`, or nothing. */
  function Reading(x: Option<u64>, div: u64, add: u64): (v: u64)
  {
    if x.None? then ALL_ONES else Resolve(map[0 := x.value], 0, div, add)
  }

  function Held(ctx: Ctx, slot: nat): (x: Option<u64>)
  {
    if slot in ctx then Some(ctx[slot]) else None
  }

  lemma ResolveReads(ctx: Ctx, idx: nat, div: u64, add: u64)
    ensures Resolve(ctx, idx, div, add) == Reading(Held(ctx, idx), div, add)
  {
  }

  // ---- quotients and remainders

  lemma QuotientMonotone(x: nat, y: nat, d: nat)
    requires d > 0 && x <= y
    ensures 0 <= x / d <= y / d
  {
    assert x == d * (x / d) + x % d && y == d * (y / d) + y % d;
    QuotientsOrdered(d, x / d, y / d, x % d, y % d);
  }

  /** A quotient within reach is that of some value. */
  lemma Multiple(q: nat, d: nat, top: nat) returns (x: nat)
    requires d > 0 && q <= top / d
    ensures x <= top && x / d == q
  {
    assert top == d * (top / d) + top % d;
    assert d * q <= d * (top / d);
    RemainderIs(d * q, d, q, 0);
    x := d * q;
  }

  lemma {:induction false} BytesMod(x: nat, k: nat, n: nat)
    requires n <= k
    ensures LeBytes(x % Pow256(k), n) == LeBytes(x, n)
    decreases k
  {
    if n > 0 {
      ModStep(x, Pow256(k - 1));
      BytesMod(x / 256, k - 1, n - 1);
      assert x % Pow256(k) / 256 == x / 256 % Pow256(k - 1);
    }
  }

  // ---- carries

  /** Adding up to `top` carries into byte `k`. */
  predicate Carries(top: nat, add: nat, k: nat)
  {
    top + add % Pow256(k) >= Pow256(k)
  }

  lemma CarriesLow(top: nat, add: nat)
    ensures Carries(top, add, 0) <==> top > 0
  {
  }

  lemma CarriesStep(top: nat, add: nat, k: nat)
    requires k > 0
    ensures Carries(top, add, k) <==> Carries((top + add % 256) / 256, add / 256, k - 1)
  {
    ModStep(add, Pow256(k - 1));
  }

  lemma CarryUp(q: nat, add: nat)
    ensures (q + add) / 256 == (q + add % 256) / 256 + add / 256
  {
  }

  lemma CarryDown(top: nat, add: nat, q: nat) returns (r: nat)
    requires 0 < q <= (top + add % 256) / 256
    ensures r <= top && (r + add % 256) / 256 == q
  {
    r := 256 * q - add % 256;
  }

  lemma ByteUp(v: nat, k: nat)
    ensures ByteOf(v, k) == if k == 0 then v % 256 else ByteOf(v / 256, k - 1)
  {
    ByteStep(v, k + 1, k);
  }

  lemma {:induction false} Turned(top: nat, add: nat, k: nat) returns (q: nat)
    requires Carries(top, add, k)
    ensures q <= top && ByteOf(q + add, k) != ByteOf(add, k)
    decreases k
  {
    hide Carries, ByteOf;
    if k == 0 {
      CarriesLow(top, add);
      q := 1;
    } else {
      CarriesStep(top, add, k);
      var up := Turned((top + add % 256) / 256, add / 256, k - 1);
      q := CarryDown(top, add, up);
      CarryUp(q, add);
    }
    ByteUp(q + add, k);
    ByteUp(add, k);
  }

  lemma {:induction false} Unturned(top: nat, add: nat, k: nat, q: nat)
    requires !Carries(top, add, k) && q <= top
    ensures ByteOf(q + add, k) == ByteOf(add, k)
    decreases k
  {
    hide Carries, ByteOf;
    if k == 0 {
      CarriesLow(top, add);
    } else {
      CarriesStep(top, add, k);
      Unturned((top + add % 256) / 256, add / 256, k - 1, (q + add % 256) / 256);
      CarryUp(q, add);
    }
    ByteUp(q + add, k);
    ByteUp(add, k);
  }

  lemma ReadingByte(x: u64, div: u64, add: u64, k: nat)
    requires k < 8
    ensures 0 <= x / Divisor(div)
    ensures ByteOf(Reading(Some(x), div, add), k) == ByteOf(x / Divisor(div) + add, k)
  {
    QuotientMonotone(x, x, Divisor(div));
    EightBytes();
    BytesMod(x / Divisor(div) + add, 8, k + 1);
  }

  /** Some value up to `top` reads differently from zero in byte `k`. */
  lemma SomeTurns(top: u64, div: u64, add: u64, k: nat) returns (x: u64)
    requires k < 8 && Carries(top / Divisor(div), add, k)
    ensures x <= top && ByteOf(Reading(Some(x), div, add), k) != ByteOf(Reading(Some(0), div, add), k)
  {
    hide ByteOf, Carries, Reading;
    var d := Divisor(div);
    QuotientMonotone(0, top, d);
    var q := Turned(top / d, add, k);
    x := Multiple(q, d, top);
    ReadingByte(x, div, add, k);
    ZeroReads(div, add, k);
  }

  lemma NoneTurns(top: u64, div: u64, add: u64, k: nat, x: u64)
    requires k < 8 && x <= top && 0 <= top / Divisor(div) && !Carries(top / Divisor(div), add, k)
    ensures ByteOf(Reading(Some(x), div, add), k) == ByteOf(add, k)
  {
    hide ByteOf, Carries, Reading;
    var d := Divisor(div);
    QuotientMonotone(x, top, d);
    ReadingByte(x, div, add, k);
    Unturned(top / d, add, k, x / d);
  }

  lemma ZeroReads(div: u64, add: u64, k: nat)
    requires k < 8
    ensures ByteOf(Reading(Some(0), div, add), k) == ByteOf(add, k)
  {
    hide ByteOf, Reading;
    ReadingByte(0, div, add, k);
    RemainderIs(0, Divisor(div), 0, 0);
  }

  // ---- what tells

  /** What the last call to fill a slot can have put there: four bytes of the arena, or a return value. */
  datatype Kind = Nothing | Label | Result

  ghost predicate Holdable(kind: Kind, x: Option<u64>)
  {
    match kind
    case Nothing => x.None?
    case Label => x.Some? && x.value <= U32_MAX
    case Result => x.Some?
  }

  /** Byte `k` of a reference tells what a slot of this kind held from what a label left in it since. */
  predicate Tells(kind: Kind, div: u64, add: u64, k: nat)
  {
    match kind
    case Nothing => Carries(U32_MAX / Divisor(div), add, k) || ByteOf(add, k) != 255
    case Label => Carries(U32_MAX / Divisor(div), add, k)
    case Result => Carries(ALL_ONES / Divisor(div), add, k)
  }

  ghost predicate Differ(x: Option<u64>, y: u64, div: u64, add: u64, k: nat)
  {
    ByteOf(Reading(x, div, add), k) != ByteOf(Reading(Some(y), div, add), k)
  }

  lemma MissingReads(div: u64, add: u64, k: nat)
    requires k < 8
    ensures ByteOf(Reading(None, div, add), k) == 255
  {
    hide ByteOf;
    OnesAt(k);
  }

  lemma OnesAt(k: nat)
    requires k < 8
    ensures ByteOf(ALL_ONES, k) == 255
  {
    var b := LeBytes(ALL_ONES, 8);
    assert ALL_ONES / 256 / 256 / 256 / 256 == U32_MAX;
    assert LeBytes(U32_MAX, 4) == [255, 255, 255, 255];
    assert b == [255, 255, 255, 255] + LeBytes(U32_MAX, 4);
    ByteAt(ALL_ONES, 8, k);
  }

  lemma TellsShows(kind: Kind, div: u64, add: u64, k: nat) returns (x: Option<u64>, y: u64)
    requires k < 8 && Tells(kind, div, add, k)
    ensures Holdable(kind, x) && y <= U32_MAX && Differ(x, y, div, add, k)
  {
    hide ByteOf, Carries, Reading;
    ZeroReads(div, add, k);
    match kind
    case Nothing =>
      MissingReads(div, add, k);
      x, y := None, 0;
      if ByteOf(add, k) == 255 {
        y := SomeTurns(U32_MAX, div, add, k);
      }
    case Label =>
      var v := SomeTurns(U32_MAX, div, add, k);
      x, y := Some(v), 0;
    case Result =>
      var v := SomeTurns(ALL_ONES, div, add, k);
      x, y := Some(v), 0;
  }

  lemma SilentSame(kind: Kind, div: u64, add: u64, k: nat, x: Option<u64>, y: u64)
    requires k < 8 && !Tells(kind, div, add, k) && Holdable(kind, x) && y <= U32_MAX
    ensures !Differ(x, y, div, add, k)
  {
    hide ByteOf, Carries, Reading;
    QuotientMonotone(0, U32_MAX, Divisor(div));
    QuotientMonotone(0, ALL_ONES, Divisor(div));
    match kind
    case Nothing =>
      MissingReads(div, add, k);
      NoneTurns(U32_MAX, div, add, k, y);
    case Label =>
      NoneTurns(U32_MAX, div, add, k, x.value);
      NoneTurns(U32_MAX, div, add, k, y);
    case Result =>
      NoneTurns(ALL_ONES, div, add, k, x.value);
      NoneTurns(ALL_ONES, div, add, k, y);
  }

  /** Some pair of values the two slots can hold differs in byte `k`, if and only if the byte tells. */
  lemma TellsExact(kind: Kind, div: u64, add: u64, k: nat)
    requires k < 8
    ensures Tells(kind, div, add, k)
       <==> exists x, y: u64 :: Holdable(kind, x) && y <= U32_MAX && Differ(x, y, div, add, k)
  {
    hide Tells, Differ, Holdable;
    if Tells(kind, div, add, k) {
      var x, y := TellsShows(kind, div, add, k);
    } else if x, y: u64 :| Holdable(kind, x) && y <= U32_MAX && Differ(x, y, div, add, k) {
      SilentSame(kind, div, add, k, x, y);
    }
  }
}

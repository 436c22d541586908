/**
  Line tables (vock/src/dwarf/line.rs): the register machine that turns a line-number program into
  rows, the stable sort that puts the end of a sequence before anything starting there, and the
  binary search. Main results: `FindInside` and `FindOutside`, over whole programs.
 */
module LineTable {
  import opened Prelude

  // ---- the program (section 6.2 of DWARF 5)

  datatype Header = Header(minInst: byte, lineBase: int, lineRange: byte, opcodeBase: byte)

  /** Decoded instructions; those that change no register used here are `Skip`. */
  datatype Op =
    | Special(opcode: byte)
    | EndSequence
    | SetAddress(address: nat)
    | Copy
    | AdvancePc(count: nat)
    | AdvanceLine(delta: int)
    | SetFile(index: nat)
    | ConstAddPc
    | FixedAdvancePc(amount: nat)
    | Skip

  datatype Row = Row(addr: nat, file: nat, line: nat, end: bool)

  datatype Regs = Regs(addr: nat, file: nat, line: nat)

  const START := Regs(0, 1, 1)

  const U32: nat := 0x1_0000_0000
  const I64: int := 0x8000_0000_0000_0000

  /** Signed sixty-four-bit addition wraps, negative results become zero, the rest is cut to 32 bits. */
  function AddLine(line: nat, delta: int): (r: nat)
    ensures r < U32
    ensures 0 <= line + delta < U32 ==> r == line + delta
    ensures U32 <= line + delta < I64 ==> r == (line + delta) % U32
    ensures -I64 <= line + delta < 0 ==> r == 0
  {
    var sum := (line + delta + I64) % U64 - I64;
    if sum < 0 then 0 else sum % U32
  }

  function AddAddr(addr: nat, amount: nat): (r: nat)
  {
    (addr + amount) % U64
  }

  /** The address advance of an adjusted opcode. */
  function Units(h: Header, adj: nat): (r: nat)
    requires h.lineRange > 0
  {
    Scaled(h, adj / h.lineRange)
  }

  function Scaled(h: Header, n: nat): (r: nat)
  {
    n * h.minInst
  }

  function LineUnits(h: Header, adj: nat): (r: int)
    requires h.lineRange > 0
  {
    h.lineBase + adj % h.lineRange
  }

  ghost predicate Usable(h: Header)
  {
    h.lineRange > 0 && -128 <= h.lineBase < 128
  }

  ghost predicate Fits(h: Header, op: Op)
  {
    op.Special? ==> op.opcode >= h.opcodeBase
  }

  ghost function Step(h: Header, op: Op, g: Regs): (r: Regs)
    requires Usable(h) && Fits(h, op)
  {
    match op
    case Special(c) =>
      var adj := c - h.opcodeBase;
      Regs(AddAddr(g.addr, Units(h, adj)), g.file, AddLine(g.line, LineUnits(h, adj)))
    case EndSequence => START
    case SetAddress(a) => g.(addr := a)
    case Copy => g
    case AdvancePc(n) => g.(addr := AddAddr(g.addr, Scaled(h, n) % U64))
    case AdvanceLine(d) => g.(line := AddLine(g.line, d))
    case SetFile(i) => g.(file := i % U32)
    case ConstAddPc => g.(addr := AddAddr(g.addr, Units(h, 255 - h.opcodeBase)))
    case FixedAdvancePc(n) => g.(addr := AddAddr(g.addr, n))
    case Skip => g
  }

  /** The row an instruction appends: special instructions after moving, an end before resetting. */
  ghost function Emitted(h: Header, op: Op, g: Regs): (r: seq<Row>)
    requires Usable(h) && Fits(h, op)
  {
    match op
    case Special(_) => var t := Step(h, op, g); [Row(t.addr, t.file, t.line, false)]
    case EndSequence => [Row(g.addr, g.file, g.line, true)]
    case Copy => [Row(g.addr, g.file, g.line, false)]
    case _ => []
  }

  ghost predicate AllFit(h: Header, ops: seq<Op>)
  {
    forall i :: 0 <= i < |ops| ==> Fits(h, ops[i])
  }

  ghost function Rows(h: Header, ops: seq<Op>, g: Regs): (r: seq<Row>)
    requires Usable(h) && AllFit(h, ops)
    decreases |ops|
  {
    if ops == [] then [] else Emitted(h, ops[0], g) + Rows(h, ops[1..], Step(h, ops[0], g))
  }

  ghost function Last(h: Header, ops: seq<Op>, g: Regs): (r: Regs)
    requires Usable(h) && AllFit(h, ops)
    decreases |ops|
  {
    if ops == [] then g else Last(h, ops[1..], Step(h, ops[0], g))
  }

  /** One turn of the machine's loop. */
  method Execute(h: Header, op: Op, addr: nat, file: nat, line: nat, rows: seq<Row>)
    returns (addr': nat, file': nat, line': nat, rows': seq<Row>)
    requires Usable(h) && Fits(h, op)
    ensures Regs(addr', file', line') == Step(h, op, Regs(addr, file, line))
    ensures rows' == rows + Emitted(h, op, Regs(addr, file, line))
  {
    hide AddLine, AddAddr, Units, LineUnits, Scaled;
    addr', file', line', rows' := addr, file, line, rows;
    match op {
      case Special(c) =>
        var adj: nat := c - h.opcodeBase;
        addr' := AddAddr(addr, Units(h, adj));
        line' := AddLine(line, LineUnits(h, adj));
        rows' := rows + [Row(addr', file', line', false)];
      case EndSequence =>
        rows' := rows + [Row(addr, file, line, true)];
        addr', file', line' := 0, 1, 1;
      case SetAddress(a) => addr' := a;
      case Copy => rows' := rows + [Row(addr, file, line, false)];
      case AdvancePc(n) => addr' := AddAddr(addr, Scaled(h, n) % U64);
      case AdvanceLine(d) => line' := AddLine(line, d);
      case SetFile(i) => file' := i % U32;
      case ConstAddPc => addr' := AddAddr(addr, Units(h, 255 - h.opcodeBase));
      case FixedAdvancePc(n) => addr' := AddAddr(addr, n);
      case Skip =>
    }
  }

  /** The machine of `LineTable::parse`. */
  method RunProgram(h: Header, ops: seq<Op>) returns (rows: seq<Row>)
    requires Usable(h) && AllFit(h, ops)
    ensures rows == Rows(h, ops, START)
  {
    hide Step, Emitted, Usable, Fits;
    rows := [];
    var addr: nat, file: nat, line: nat := 0, 1, 1;
    assert ops[0..] == ops;
    for k := 0 to |ops|
      invariant rows + Rows(h, ops[k..], Regs(addr, file, line)) == Rows(h, ops, START)
    {
      var op := ops[k];
      ghost var g, was := Regs(addr, file, line), rows;
      assert ops[k..][0] == op && ops[k..][1..] == ops[k + 1..];
      addr, file, line, rows := Execute(h, op, addr, file, line, rows);
      assert (was + Emitted(h, op, g)) + Rows(h, ops[k + 1..], Step(h, op, g))
          == was + (Emitted(h, op, g) + Rows(h, ops[k + 1..], Step(h, op, g)));
    }
    assert ops[|ops|..] == [];
    assert rows + [] == rows;
  }

  /** A special instruction is an address advance, a line advance and a copy (section 6.2.5.1). */
  lemma SpecialIsThreeSteps(h: Header, c: byte, g: Regs)
    requires Usable(h) && c >= h.opcodeBase
    ensures var adj: nat := c - h.opcodeBase;
            var ops := [AdvancePc(adj / h.lineRange), AdvanceLine(LineUnits(h, adj)), Copy];
            Rows(h, [Special(c)], g) == Rows(h, ops, g) && Last(h, [Special(c)], g) == Last(h, ops, g)
  {
    var adj: nat := c - h.opcodeBase;
    var n: nat := adj / h.lineRange;
    SmallAdvance(h, adj);
    hide AddLine, AddAddr, LineUnits, Scaled;
    var a, b := AdvancePc(n), AdvanceLine(LineUnits(h, adj));
    var g1 := Step(h, a, g);
    var g2 := Step(h, b, g1);
    assert g2 == Step(h, Special(c), g);
    assert [a, b, Copy][1..] == [b, Copy] && [b, Copy][1..] == [Copy] && [Copy][1..] == [];
    assert Rows(h, [Copy], g2) == [Row(g2.addr, g2.file, g2.line, false)];
    assert Rows(h, [b, Copy], g1) == [] + Rows(h, [Copy], g2);
    assert Rows(h, [a, b, Copy], g) == [] + Rows(h, [b, Copy], g1);
    assert Last(h, [Copy], g2) == g2 && Last(h, [b, Copy], g1) == g2;
    assert [Special(c)][1..] == [];
  }

  lemma SmallAdvance(h: Header, adj: nat)
    requires h.lineRange > 0 && adj < 256
    ensures Scaled(h, adj / h.lineRange) % U64 == Units(h, adj)
  {
    hide Scaled;
    QuotientSmall(adj, h.lineRange);
    ScaledSmall(h, adj / h.lineRange);
    BelowU64(Scaled(h, adj / h.lineRange));
  }

  lemma BelowU64(x: nat)
    requires x < U64
    ensures x % U64 == x
  {
  }

  lemma QuotientSmall(a: nat, b: nat)
    requires b > 0
    ensures 0 <= a / b <= a
  {
    var q := a / b;
    assert a == b * q + a % b;
    TimesAtLeast(b, q);
  }

  lemma TimesAtLeast(b: nat, q: int)
    requires b > 0
    ensures q >= 0 ==> b * q >= q
    ensures q < 0 ==> b * q <= q
  {
    if q >= 0 {
      assert (b - 1) * q >= 0;
    } else {
      assert (b - 1) * q <= 0;
    }
  }

  lemma ScaledSmall(h: Header, n: nat)
    requires n < 256
    ensures Scaled(h, n) < U64
  {
    assert n * h.minInst <= 256 * h.minInst;
  }

  // ---- sequences

  /** A program as a list of bodies, each closed by an end of sequence. */
  ghost function Program(parts: seq<seq<Op>>): (ops: seq<Op>)
  {
    if parts == [] then [] else parts[0] + [EndSequence] + Program(parts[1..])
  }

  /** The rows of one body, run by itself. */
  ghost function SequenceRows(h: Header, part: seq<Op>): (r: seq<Row>)
    requires Usable(h) && AllFit(h, part)
  {
    var g := Last(h, part, START);
    Rows(h, part, START) + [Row(g.addr, g.file, g.line, true)]
  }

  ghost predicate AllPartsFit(h: Header, parts: seq<seq<Op>>)
  {
    forall k :: 0 <= k < |parts| ==> AllFit(h, parts[k])
  }

  ghost function AllRows(h: Header, parts: seq<seq<Op>>): (r: seq<seq<Row>>)
    requires Usable(h) && AllPartsFit(h, parts)
  {
    seq(|parts|, k requires 0 <= k < |parts| => SequenceRows(h, parts[k]))
  }

  ghost function Concat(ss: seq<seq<Row>>): (r: seq<Row>)
  {
    if ss == [] then [] else ss[0] + Concat(ss[1..])
  }

  lemma {:induction false} RowsAppend(h: Header, a: seq<Op>, b: seq<Op>, g: Regs)
    requires Usable(h) && AllFit(h, a) && AllFit(h, b)
    ensures AllFit(h, a + b)
    ensures Rows(h, a + b, g) == Rows(h, a, g) + Rows(h, b, Last(h, a, g))
    decreases |a|
  {
    hide Step, Emitted, Usable, Fits;
    if a == [] {
      assert a + b == b;
    } else {
      assert (a + b)[0] == a[0] && (a + b)[1..] == a[1..] + b;
      RowsAppend(h, a[1..], b, Step(h, a[0], g));
    }
  }

  lemma EndRow(h: Header, g: Regs)
    requires Usable(h)
    ensures AllFit(h, [EndSequence]) && Rows(h, [EndSequence], g) == [Row(g.addr, g.file, g.line, true)]
    ensures Last(h, [EndSequence], g) == START
  {
    assert [EndSequence][1..] == [];
  }

  /** Each sequence starts from fresh registers, so its rows depend on nothing before it. */
  lemma {:induction false} RowsOfProgram(h: Header, parts: seq<seq<Op>>)
    requires Usable(h) && AllPartsFit(h, parts)
    ensures AllFit(h, Program(parts)) && Rows(h, Program(parts), START) == Concat(AllRows(h, parts))
    decreases |parts|
  {
    hide Usable, Fits, Step, Emitted, Rows, Last;
    if parts == [] {
      NoRows(h);
    } else {
      var part, rest := parts[0], parts[1..];
      var g := Last(h, part, START);
      RowsOfProgram(h, rest);
      EndRow(h, g);
      RowsAppend(h, part, [EndSequence], START);
      LastAppend(h, part, [EndSequence], START);
      RowsAppend(h, part + [EndSequence], Program(rest), START);
      assert AllRows(h, parts)[0] == SequenceRows(h, part);
      assert AllRows(h, parts)[1..] == AllRows(h, rest);
    }
  }

  lemma NoRows(h: Header)
    requires Usable(h)
    ensures AllFit(h, []) && Rows(h, [], START) == []
  {
  }

  lemma {:induction false} LastAppend(h: Header, a: seq<Op>, b: seq<Op>, g: Regs)
    requires Usable(h) && AllFit(h, a) && AllFit(h, b)
    ensures AllFit(h, a + b) && Last(h, a + b, g) == Last(h, b, Last(h, a, g))
    decreases |a|
  {
    hide Step, Usable, Fits;
    if a == [] {
      assert a + b == b;
    } else {
      assert (a + b)[0] == a[0] && (a + b)[1..] == a[1..] + b;
      LastAppend(h, a[1..], b, Step(h, a[0], g));
    }
  }

  // ---- sorting

  /** The sort key `(addr, !end)` in order: at one address, ends come first. */
  predicate Precedes(x: Row, y: Row)
  {
    x.addr < y.addr || (x.addr == y.addr && (x.end || !y.end))
  }

  /** Insert behind everything that does not have to come later. */
  ghost function Insert(s: seq<Row>, x: Row): (r: seq<Row>)
    ensures |r| == |s| + 1
    decreases |s|
  {
    if s == [] || Precedes(s[|s| - 1], x) then s + [x]
    else Insert(s[..|s| - 1], x) + [s[|s| - 1]]
  }

  /** The stable sort of rows in program order. */
  ghost function Sorted(rows: seq<Row>): (r: seq<Row>)
    ensures |r| == |rows|
  {
    if rows == [] then [] else Insert(Sorted(rows[..|rows| - 1]), rows[|rows| - 1])
  }

  ghost predicate Ordered(s: seq<Row>)
  {
    forall i, j :: 0 <= i < j < |s| ==> Precedes(s[i], s[j])
  }

  lemma {:induction false} InsertMembers(s: seq<Row>, x: Row)
    ensures multiset(Insert(s, x)) == multiset(s) + multiset{x}
    decreases |s|
  {
    if s != [] && !Precedes(s[|s| - 1], x) {
      InsertMembers(s[..|s| - 1], x);
      assert s == s[..|s| - 1] + [s[|s| - 1]];
    }
  }

  lemma {:induction false} InsertOrdered(s: seq<Row>, x: Row)
    requires Ordered(s)
    ensures Ordered(Insert(s, x))
    ensures forall i :: 0 <= i < |Insert(s, x)| ==> Insert(s, x)[i] == x || Insert(s, x)[i] in s
    decreases |s|
  {
    if s == [] {
    } else if Precedes(s[|s| - 1], x) {
      BelowLast(s, x);
    } else {
      var n := |s| - 1;
      InsertOrdered(s[..n], x);
      var r := Insert(s[..n], x);
      forall i | 0 <= i < |r| ensures Precedes(r[i], s[n]) {
        if r[i] != x {
          var k :| 0 <= k < n && s[..n][k] == r[i];
        }
      }
      AppendOrdered(r, s[n]);
    }
  }

  lemma BelowLast(s: seq<Row>, x: Row)
    requires Ordered(s) && s != [] && Precedes(s[|s| - 1], x)
    ensures Ordered(s + [x])
  {
    forall i | 0 <= i < |s| ensures Precedes(s[i], x) {
      assert i == |s| - 1 || Precedes(s[i], s[|s| - 1]);
    }
    AppendOrdered(s, x);
  }

  lemma AppendOrdered(s: seq<Row>, x: Row)
    requires Ordered(s) && forall i :: 0 <= i < |s| ==> Precedes(s[i], x)
    ensures Ordered(s + [x])
  {
    hide Precedes;
  }

  lemma {:induction false} SortedOrdered(rows: seq<Row>)
    ensures Ordered(Sorted(rows)) && multiset(Sorted(rows)) == multiset(rows)
  {
    if rows != [] {
      var n := |rows| - 1;
      SortedOrdered(rows[..n]);
      InsertOrdered(Sorted(rows[..n]), rows[n]);
      InsertMembers(Sorted(rows[..n]), rows[n]);
      assert rows == rows[..n] + [rows[n]];
    }
  }

  method SortRows(rows: seq<Row>) returns (r: seq<Row>)
    ensures r == Sorted(rows)
  {
    r := [];
    for i := 0 to |rows|
      invariant r == Sorted(rows[..i])
    {
      assert rows[..i + 1][..i] == rows[..i];
      var k := |r|;
      var x := rows[i];
      assert r[..k] == r && r[k..] == [];
      while k > 0 && !Precedes(r[k - 1], x)
        invariant 0 <= k <= |r|
        invariant Insert(r, x) == Insert(r[..k], x) + r[k..]
      {
        assert r[..k][..k - 1] == r[..k - 1];
        assert [r[k - 1]] + r[k..] == r[k - 1..];
        assert (Insert(r[..k - 1], x) + [r[k - 1]]) + r[k..] == Insert(r[..k - 1], x) + ([r[k - 1]] + r[k..]);
        k := k - 1;
      }
      assert Insert(r[..k], x) == r[..k] + [x];
      r := r[..k] + [x] + r[k..];
    }
    assert rows[..|rows|] == rows;
  }

  // ---- lookup

  /** The last row at or below `pc`. */
  ghost function LastBelow(s: seq<Row>, pc: nat): (r: Option<Row>)
    ensures r.Some? ==> r.value in s && r.value.addr <= pc
    decreases |s|
  {
    if s == [] then None
    else if s[|s| - 1].addr <= pc then Some(s[|s| - 1])
    else LastBelow(s[..|s| - 1], pc)
  }

  /** File and line of a row; file numbers count from one before version five. */
  ghost function Located(r: Option<Row>, files: seq<string>, v5: bool): (loc: Option<(string, nat)>)
  {
    if r.None? || r.value.end || (!v5 && r.value.file == 0) then None
    else
      var idx := if v5 then r.value.file else r.value.file - 1;
      if idx < |files| then Some((files[idx], r.value.line)) else None
  }

  method PartitionPoint(rows: seq<Row>, pc: nat) returns (i: nat)
    requires Ordered(rows)
    ensures i <= |rows|
    ensures forall j :: 0 <= j < i ==> rows[j].addr <= pc
    ensures forall j :: i <= j < |rows| ==> rows[j].addr > pc
  {
    var lo, hi := 0, |rows|;
    while lo < hi
      invariant 0 <= lo <= hi <= |rows|
      invariant forall j :: 0 <= j < lo ==> rows[j].addr <= pc
      invariant forall j :: hi <= j < |rows| ==> rows[j].addr > pc
    {
      var mid := (lo + hi) / 2;
      if rows[mid].addr <= pc {
        lo := mid + 1;
      } else {
        hi := mid;
      }
    }
    i := lo;
  }

  lemma {:induction false} LastBelowAt(s: seq<Row>, pc: nat, i: nat)
    requires i <= |s|
    requires forall j :: 0 <= j < i ==> s[j].addr <= pc
    requires forall j :: i <= j < |s| ==> s[j].addr > pc
    ensures LastBelow(s, pc) == if i == 0 then None else Some(s[i - 1])
    decreases |s|
  {
    if i < |s| {
      LastBelowAt(s[..|s| - 1], pc, i);
    }
  }

  /** `LineTable::find`. */
  method Find(rows: seq<Row>, files: seq<string>, v5: bool, pc: nat) returns (r: Option<(string, nat)>)
    requires Ordered(rows)
    ensures r == Located(LastBelow(rows, pc), files, v5)
  {
    hide Ordered, LastBelow;
    var i := PartitionPoint(rows, pc);
    LastBelowAt(rows, pc, i);
    if i == 0 {
      return None;
    }
    var row := rows[i - 1];
    if row.end {
      return None;
    }
    var idx := row.file;
    if !v5 {
      if row.file == 0 {
        return None;
      }
      idx := row.file - 1;
    }
    if idx >= |files| {
      return None;
    }
    r := Some((files[idx], row.line));
  }

  // ---- the sorted table against program order

  ghost function Better(r: Option<Row>, x: Row, pc: nat): (b: Option<Row>)
  {
    if x.addr <= pc && (r.None? || Precedes(r.value, x)) then Some(x) else r
  }

  /** Of the rows at or below `pc`, the one with the greatest key; of equals, the last to be emitted. */
  ghost function Pick(rows: seq<Row>, pc: nat): (r: Option<Row>)
    ensures r.Some? ==> r.value in rows && r.value.addr <= pc
    ensures forall x :: x in rows && x.addr <= pc ==> r.Some? && Precedes(x, r.value)
  {
    if rows == [] then None
    else
      var n := |rows| - 1;
      assert rows == rows[..n] + [rows[n]];
      Better(Pick(rows[..n], pc), rows[n], pc)
  }

  lemma {:induction false} LastBelowInsert(s: seq<Row>, x: Row, pc: nat)
    requires Ordered(s)
    ensures LastBelow(Insert(s, x), pc) == Better(LastBelow(s, pc), x, pc)
    decreases |s|
  {
    if s == [] {
      assert LastBelow([], pc) == None;
      assert Insert(s, x) == [x] && [x][..0] == [];
    } else {
      var n := |s| - 1;
      if Precedes(s[n], x) {
        assert (s + [x])[..|s|] == s;
        LastBelowLeast(s, pc);
      } else {
        LastBelowInsert(s[..n], x, pc);
        var t := Insert(s[..n], x);
        assert (t + [s[n]])[..|t|] == t;
      }
    }
  }

  lemma LastBelowLeast(s: seq<Row>, pc: nat)
    requires Ordered(s) && s != []
    ensures var r := LastBelow(s, pc); r.Some? ==> r.value == s[|s| - 1] || Precedes(r.value, s[|s| - 1])
  {
    var r := LastBelow(s, pc);
    if r.Some? {
      var k :| 0 <= k < |s| && s[k] == r.value;
    }
  }

  /** Sorting and searching select the row that program order picks. */
  lemma {:induction false} SortedPicks(rows: seq<Row>, pc: nat)
    ensures LastBelow(Sorted(rows), pc) == Pick(rows, pc)
    decreases |rows|
  {
    hide Ordered, Precedes, Insert;
    if rows != [] {
      var n := |rows| - 1;
      SortedPicks(rows[..n], pc);
      SortedOrdered(rows[..n]);
      LastBelowInsert(Sorted(rows[..n]), rows[n], pc);
    }
  }

  // ---- sequences that cover disjoint stretches of code

  ghost predicate IsSequence(s: seq<Row>)
  {
    && |s| > 0 && s[|s| - 1].end
    && forall i :: 0 <= i < |s| - 1 ==> !s[i].end
  }

  /** Rows never go back and stay strictly below the end of their sequence. */
  ghost predicate Rising(s: seq<Row>)
    requires IsSequence(s)
  {
    && (forall i, j :: 0 <= i < j < |s| ==> s[i].addr <= s[j].addr)
    && forall i :: 0 <= i < |s| - 1 ==> s[i].addr < s[|s| - 1].addr
  }

  ghost function From(s: seq<Row>): (a: nat)
    requires |s| > 0
  {
    s[0].addr
  }

  ghost function To(s: seq<Row>): (a: nat)
    requires |s| > 0
  {
    s[|s| - 1].addr
  }

  ghost predicate Disjoint(ss: seq<seq<Row>>)
  {
    && (forall k :: 0 <= k < |ss| ==> IsSequence(ss[k]) && Rising(ss[k]))
    && forall j, k :: 0 <= j < k < |ss| ==> To(ss[j]) <= From(ss[k]) || To(ss[k]) <= From(ss[j])
  }

  /** A row that beats all earlier rows and is beaten by no later one is the pick. */
  lemma {:induction false} PickIs(rows: seq<Row>, pc: nat, m: nat)
    requires m < |rows| && rows[m].addr <= pc
    requires forall j :: 0 <= j < m && rows[j].addr <= pc ==> Precedes(rows[j], rows[m])
    requires forall j :: m < j < |rows| && rows[j].addr <= pc ==> !Precedes(rows[m], rows[j])
    ensures Pick(rows, pc) == Some(rows[m])
    decreases |rows|
  {
    hide Precedes;
    var n := |rows| - 1;
    if m == n {
      var r := Pick(rows[..n], pc);
      if r.Some? {
        var j :| 0 <= j < n && rows[..n][j] == r.value;
        assert Precedes(rows[j], rows[m]);
      }
    } else {
      PickIs(rows[..n], pc, m);
    }
  }

  lemma {:induction false} ConcatSplit(ss: seq<seq<Row>>, k: nat)
    requires k < |ss|
    ensures Concat(ss) == Concat(ss[..k]) + ss[k] + Concat(ss[k + 1..])
    decreases k
  {
    if k == 0 {
      assert ss[..0] == [];
    } else {
      ConcatSplit(ss[1..], k - 1);
      assert ss[..k][0] == ss[0] && ss[..k][1..] == ss[1..][..k - 1];
      assert ss[1..][k..] == ss[k + 1..];
      var a, b, c := Concat(ss[1..][..k - 1]), ss[k], Concat(ss[k + 1..]);
      assert ss[0] + ((a + b) + c) == (ss[0] + a) + b + c;
    }
  }

  lemma {:induction false} ConcatFrom(ss: seq<seq<Row>>, x: Row) returns (k: nat, i: nat)
    requires x in Concat(ss)
    ensures k < |ss| && i < |ss[k]| && ss[k][i] == x
    decreases |ss|
  {
    if x in ss[0] {
      k := 0;
      i :| 0 <= i < |ss[0]| && ss[0][i] == x;
    } else {
      k, i := ConcatFrom(ss[1..], x);
      k := k + 1;
    }
  }

  lemma {:induction false} ConcatHas(ss: seq<seq<Row>>, k: nat, i: nat)
    requires k < |ss| && i < |ss[k]|
    ensures ss[k][i] in Concat(ss)
    decreases k
  {
    if k > 0 {
      ConcatHas(ss[1..], k - 1, i);
    }
  }

  /** Rows of other sequences at or below `pc` come strictly before a row of the one that holds `pc`. */
  lemma OtherRowsLose(ss: seq<seq<Row>>, pc: nat, k: nat, m: nat, j: nat, i: nat)
    requires Disjoint(ss) && k < |ss| && From(ss[k]) <= pc < To(ss[k])
    requires m < |ss[k]| - 1
    requires j < |ss| && j != k && i < |ss[j]| && ss[j][i].addr <= pc
    ensures Precedes(ss[j][i], ss[k][m]) && !Precedes(ss[k][m], ss[j][i])
  {
    var s, t := ss[k], ss[j];
    assert IsSequence(s) && Rising(s) && IsSequence(t) && Rising(t);
    assert From(t) <= t[i].addr by { assert i == 0 || t[0].addr <= t[i].addr; }
    assert To(t) <= From(s);
    assert t[i].addr <= To(t) by { assert i == |t| - 1 || t[i].addr <= t[|t| - 1].addr; }
    assert From(s) <= s[m].addr by { assert m == 0 || s[0].addr <= s[m].addr; }
    assert i < |t| - 1 ==> t[i].addr < To(t);
  }

  /** The position in program order of the last row of the sequence at or below `pc`. */
  lemma LastInSequence(s: seq<Row>, pc: nat) returns (m: nat)
    requires IsSequence(s) && Rising(s) && From(s) <= pc < To(s)
    ensures m < |s| - 1 && s[m].addr <= pc && forall j :: m < j < |s| ==> s[j].addr > pc
    ensures LastBelow(s, pc) == Some(s[m])
  {
    m := 0;
    while m + 1 < |s| && s[m + 1].addr <= pc
      invariant m < |s| - 1 && s[m].addr <= pc
    {
      m := m + 1;
    }
    forall j | m < j < |s| ensures s[j].addr > pc {
      assert j == m + 1 || s[m + 1].addr <= s[j].addr;
    }
    forall j | 0 <= j < m + 1 ensures s[j].addr <= pc {
      assert j == m || s[j].addr <= s[m].addr;
    }
    LastBelowAt(s, pc, m + 1);
  }

  /** Inside a sequence: the last row of that sequence, in program order, at or below `pc`. */
  lemma PickInside(ss: seq<seq<Row>>, pc: nat, k: nat)
    requires Disjoint(ss) && k < |ss| && From(ss[k]) <= pc < To(ss[k])
    ensures Pick(Concat(ss), pc) == LastBelow(ss[k], pc)
  {
    hide Precedes, Pick, LastBelow, Concat, From, To;
    var s := ss[k];
    var m := LastInSequence(s, pc);
    var pre, post := Concat(ss[..k]), Concat(ss[k + 1..]);
    ConcatSplit(ss, k);
    var rows := pre + s + post;
    var at := |pre| + m;
    assert forall j :: |pre| <= j < |pre| + |s| ==> rows[j] == s[j - |pre|];
    forall j | 0 <= j < at && rows[j].addr <= pc ensures Precedes(rows[j], rows[at]) {
      if j < |pre| {
        assert rows[j] == pre[j];
        var a, i := ConcatFrom(ss[..k], pre[j]);
        OtherRowsLose(ss, pc, k, m, a, i);
      } else {
        SameSequence(s, j - |pre|, m);
      }
    }
    forall j | at < j < |rows| && rows[j].addr <= pc ensures !Precedes(rows[at], rows[j]) {
      if j >= |pre| + |s| {
        assert rows[j] == post[j - |pre| - |s|];
        var a, i := ConcatFrom(ss[k + 1..], post[j - |pre| - |s|]);
        OtherRowsLose(ss, pc, k, m, k + 1 + a, i);
      }
    }
    PickIs(rows, pc, at);
  }

  lemma SameSequence(s: seq<Row>, j: nat, m: nat)
    requires IsSequence(s) && Rising(s) && j < m < |s| - 1
    ensures Precedes(s[j], s[m])
  {
  }

  /** Outside every sequence: no row at all, or the end of one. */
  lemma PickOutside(ss: seq<seq<Row>>, pc: nat)
    requires Disjoint(ss)
    requires forall k :: 0 <= k < |ss| ==> !(From(ss[k]) <= pc < To(ss[k]))
    ensures var r := Pick(Concat(ss), pc); r.Some? ==> r.value.end
  {
    hide Pick, Concat;
    var r := Pick(Concat(ss), pc);
    if r.Some? && !r.value.end {
      var k, i := ConcatFrom(ss, r.value);
      var s := ss[k];
      assert IsSequence(s) && Rising(s);
      assert i < |s| - 1;
      assert From(s) <= s[i].addr by { assert i == 0 || s[0].addr <= s[i].addr; }
      ConcatHas(ss, k, |s| - 1);
      assert false;
    }
  }

  // ---- whole programs

  ghost predicate ProgramDisjoint(h: Header, parts: seq<seq<Op>>)
    requires Usable(h) && AllPartsFit(h, parts)
  {
    Disjoint(AllRows(h, parts))
  }

  /**
    Run, sort and search a program whose sequences cover disjoint stretches of code: an address inside
    a sequence gets the last row of that sequence, in program order, at or below it.
   */
  lemma FindInside(h: Header, parts: seq<seq<Op>>, pc: nat, k: nat)
    requires Usable(h) && AllPartsFit(h, parts) && ProgramDisjoint(h, parts)
    requires k < |parts| && var s := SequenceRows(h, parts[k]); From(s) <= pc < To(s)
    ensures AllFit(h, Program(parts))
    ensures var s, r := SequenceRows(h, parts[k]), LastBelow(Sorted(Rows(h, Program(parts), START)), pc);
            r == LastBelow(s, pc) && r.Some? && !r.value.end
  {
    hide Usable, Fits, SequenceRows, Program, Sorted, Rows, Pick, Concat;
    RowsOfProgram(h, parts);
    SortedPicks(Rows(h, Program(parts), START), pc);
    var ss := AllRows(h, parts);
    PickInside(ss, pc, k);
    assert IsSequence(ss[k]) && Rising(ss[k]);
    var m := LastInSequence(ss[k], pc);
  }

  /** An address outside every sequence gets nothing. */
  lemma FindOutside(h: Header, parts: seq<seq<Op>>, pc: nat, files: seq<string>, v5: bool)
    requires Usable(h) && AllPartsFit(h, parts) && ProgramDisjoint(h, parts)
    requires forall k :: 0 <= k < |parts| ==>
               var s := SequenceRows(h, parts[k]); !(From(s) <= pc < To(s))
    ensures AllFit(h, Program(parts))
    ensures Located(LastBelow(Sorted(Rows(h, Program(parts), START)), pc), files, v5) == None
  {
    hide Usable, Fits, SequenceRows, Program, Sorted, Rows, Pick, Concat;
    RowsOfProgram(h, parts);
    SortedPicks(Rows(h, Program(parts), START), pc);
    PickOutside(AllRows(h, parts), pc);
  }
}

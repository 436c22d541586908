/**
  A writer of line-number programs (section 6.2.5 of DWARF 5), the partner of the machine of
  vock/src/dwarf/line.rs: any list of rows, written with any instructions that can express it, is what
  running the program emits.
 */
module LineWriter {
  import opened Prelude
  import opened LineTable

  // ---- single instructions

  /** The special opcode for an advance and a line step (section 6.2.5.1). */
  function Opcode(h: Header, a: nat, l: int): (c: int)
  {
    (l - h.lineBase) + h.lineRange * a + h.opcodeBase
  }

  ghost predicate Expressible(h: Header, a: nat, l: int)
  {
    h.lineBase <= l < h.lineBase + h.lineRange && Opcode(h, a, l) <= 255
  }

  lemma OpcodeSplits(h: Header, a: nat, l: int)
    requires Usable(h) && Expressible(h, a, l)
    ensures h.opcodeBase <= Opcode(h, a, l)
    ensures var adj := Opcode(h, a, l) - h.opcodeBase; adj / h.lineRange == a && adj % h.lineRange == l - h.lineBase
  {
    assert h.lineRange * a >= 0;
    RemainderIs(Opcode(h, a, l) - h.opcodeBase, h.lineRange, a, l - h.lineBase);
  }

  /** A special instruction moves the address by its advance and the line by its step. */
  lemma SpecialMoves(h: Header, a: nat, l: int, g: Regs)
    requires Usable(h) && Expressible(h, a, l)
    ensures Fits(h, Special(Opcode(h, a, l)))
    ensures Step(h, Special(Opcode(h, a, l)), g) == Regs((g.addr + a * h.minInst) % U64, g.file, AddLine(g.line, l))
  {
    hide AddLine, Opcode;
    OpcodeSplits(h, a, l);
  }

  /** The advance of `DW_LNS_const_add_pc`. */
  function ConstUnits(h: Header): (a: nat)
    requires h.lineRange > 0
  {
    (255 - h.opcodeBase) / h.lineRange
  }

  /** It moves the address as special opcode 255 does, and nothing else. */
  lemma ConstMoves(h: Header, g: Regs)
    requires Usable(h)
    ensures Step(h, ConstAddPc, g) == g.(addr := (g.addr + ConstUnits(h) * h.minInst) % U64)
    ensures Step(h, ConstAddPc, g).addr == Step(h, Special(255), g).addr
  {
    hide AddLine;
  }

  // ---- one row

  /** How a writer gets from one row to the next. */
  datatype How = Short(a: nat) | Middle(a: nat) | Long(a: nat) | Fixed | Absolute

  ghost function Moving(h: Header, g: Regs, r: Row, how: How): (ops: seq<Op>)
    requires Usable(h)
  {
    var l := r.line - g.line;
    match how
    case Short(a) => if 0 <= Opcode(h, a, l) <= 255 then [Special(Opcode(h, a, l))] else []
    case Middle(a) => if 0 <= Opcode(h, a, l) <= 255 then [ConstAddPc, Special(Opcode(h, a, l))] else []
    case Long(a) => [AdvancePc(a), AdvanceLine(l), Copy]
    case Fixed => [FixedAdvancePc(if r.addr >= g.addr then r.addr - g.addr else 0), AdvanceLine(l), Copy]
    case Absolute => [SetAddress(r.addr), AdvanceLine(l), Copy]
  }

  /** What the choice needs. */
  ghost predicate Possible(h: Header, g: Regs, r: Row, how: How)
    requires Usable(h)
  {
    && r.addr < U64 && r.line < U32 && r.file < U32
    && match how
       case Short(a) => r.addr == g.addr + a * h.minInst && Expressible(h, a, r.line - g.line)
       case Middle(a) =>
         r.addr == g.addr + (ConstUnits(h) + a) * h.minInst && Expressible(h, a, r.line - g.line)
       case Long(a) => r.addr == g.addr + a * h.minInst
       case Fixed => r.addr >= g.addr
       case Absolute => true
  }

  function AtRow(r: Row): (g: Regs)
  {
    Regs(r.addr, r.file, r.line)
  }

  /** The instructions for one row: another file if need be, the move, and for an end the end. */
  ghost function Put(h: Header, g: Regs, r: Row, how: How): (ops: seq<Op>)
    requires Usable(h)
  {
    (if r.file != g.file then [SetFile(r.file)] else [])
    + (if r.end then [SetAddress(r.addr), AdvanceLine(r.line - g.line), EndSequence]
       else Moving(h, g.(file := r.file), r, how))
  }

  ghost predicate Writes(h: Header, ops: seq<Op>, g: Regs, rows: seq<Row>, g': Regs)
    requires Usable(h)
  {
    AllFit(h, ops) && Rows(h, ops, g) == rows && Last(h, ops, g) == g'
  }

  lemma {:induction false} WritesThen(h: Header, a: seq<Op>, b: seq<Op>, g: Regs, rows: seq<Row>, g': Regs,
                                      more: seq<Row>, g'': Regs)
    requires Usable(h) && Writes(h, a, g, rows, g') && Writes(h, b, g', more, g'')
    ensures Writes(h, a + b, g, rows + more, g'')
    decreases |a|
  {
    hide Step, Emitted, Fits, Usable;
    if a == [] {
      assert a + b == b && [] + more == more;
    } else {
      var g1 := Step(h, a[0], g);
      var rest := Rows(h, a[1..], g1);
      WritesThen(h, a[1..], b, g1, rest, g', more, g'');
      assert (a + b)[1..] == a[1..] + b && (a + b)[0] == a[0];
      assert Emitted(h, a[0], g) + (rest + more) == (Emitted(h, a[0], g) + rest) + more;
      assert AllFit(h, a + b) by {
        forall i | 0 <= i < |a + b| ensures Fits(h, (a + b)[i]) {
        }
      }
    }
  }

  lemma WritesOne(h: Header, op: Op, g: Regs)
    requires Usable(h) && Fits(h, op)
    ensures Writes(h, [op], g, Emitted(h, op, g), Step(h, op, g))
  {
    hide Step, Emitted, Fits, Usable;
    assert [op][1..] == [];
    var e := Emitted(h, op, g);
    assert Rows(h, [], Step(h, op, g)) == [] && Last(h, [], Step(h, op, g)) == Step(h, op, g);
    assert Rows(h, [op], g) == e + [] == e && Last(h, [op], g) == Step(h, op, g);
  }

  lemma WritesTwo(h: Header, x: Op, y: Op, g: Regs)
    requires Usable(h) && Fits(h, x) && Fits(h, y) && Emitted(h, x, g) == []
    ensures var m := Step(h, x, g); Writes(h, [x, y], g, Emitted(h, y, m), Step(h, y, m))
  {
    hide Step, Emitted, Fits, Usable, Writes;
    var m := Step(h, x, g);
    WritesOne(h, x, g);
    WritesOne(h, y, m);
    WritesThen(h, [x], [y], g, [], m, Emitted(h, y, m), Step(h, y, m));
    assert [x] + [y] == [x, y];
    var e := Emitted(h, y, m);
    assert [] + e == e;
  }

  lemma WritesThree(h: Header, x: Op, y: Op, z: Op, g: Regs)
    requires Usable(h) && Fits(h, x) && Fits(h, y) && Fits(h, z) && Emitted(h, x, g) == []
    requires Emitted(h, y, Step(h, x, g)) == []
    ensures var m := Step(h, y, Step(h, x, g)); Writes(h, [x, y, z], g, Emitted(h, z, m), Step(h, z, m))
  {
    hide Step, Emitted, Fits, Usable, Writes;
    var g1 := Step(h, x, g);
    var m := Step(h, y, g1);
    WritesOne(h, x, g);
    WritesTwo(h, y, z, g1);
    WritesThen(h, [x], [y, z], g, [], g1, Emitted(h, z, m), Step(h, z, m));
    assert [x] + [y, z] == [x, y, z];
    var e := Emitted(h, z, m);
    assert [] + e == e;
  }

  lemma LineReached(line: nat, to: nat)
    requires to < U32
    ensures AddLine(line, to - line) == to
  {
  }

  lemma AddressReached(addr: nat, n: nat)
    requires addr + n < U64
    ensures AddAddr(addr, n) == addr + n && n % U64 == n && (addr + n) % U64 == addr + n
  {
  }

  lemma ShortWrites(h: Header, g: Regs, r: Row, a: nat)
    requires Usable(h) && Possible(h, g, r, Short(a)) && r.file == g.file && !r.end
    ensures Writes(h, Moving(h, g, r, Short(a)), g, [r], AtRow(r))
  {
    hide AddLine, Writes, Opcode, Step;
    var l := r.line - g.line;
    SpecialMoves(h, a, l, g);
    LineReached(g.line, r.line);
    assert a * h.minInst >= 0;
    AddressReached(g.addr, a * h.minInst);
    WritesOne(h, Special(Opcode(h, a, l)), g);
  }

  lemma MiddleWrites(h: Header, g: Regs, r: Row, a: nat)
    requires Usable(h) && Possible(h, g, r, Middle(a)) && r.file == g.file && !r.end
    ensures Writes(h, Moving(h, g, r, Middle(a)), g, [r], AtRow(r))
  {
    hide AddLine, Writes, Opcode, Step, ConstUnits;
    var l, k := r.line - g.line, ConstUnits(h);
    ConstMoves(h, g);
    assert (k + a) * h.minInst == k * h.minInst + a * h.minInst;
    assert k * h.minInst >= 0 && a * h.minInst >= 0;
    AddressReached(g.addr, k * h.minInst);
    var g1 := Step(h, ConstAddPc, g);
    AddressReached(g1.addr, a * h.minInst);
    SpecialMoves(h, a, l, g1);
    LineReached(g.line, r.line);
    WritesTwo(h, ConstAddPc, Special(Opcode(h, a, l)), g);
  }

  lemma LongWrites(h: Header, g: Regs, r: Row, how: How)
    requires Usable(h) && Possible(h, g, r, how) && r.file == g.file && !r.end
    requires how.Long? || how.Fixed? || how.Absolute?
    ensures Writes(h, Moving(h, g, r, how), g, [r], AtRow(r))
  {
    hide AddLine, Writes, AddAddr;
    var ops := Moving(h, g, r, how);
    LineReached(g.line, r.line);
    if how.Long? {
      assert how.a * h.minInst >= 0;
      AddressReached(g.addr, how.a * h.minInst);
    } else if how.Fixed? {
      AddressReached(g.addr, r.addr - g.addr);
    }
    WritesThree(h, ops[0], ops[1], ops[2], g);
  }

  lemma MovingWrites(h: Header, g: Regs, r: Row, how: How)
    requires Usable(h) && Possible(h, g, r, how) && r.file == g.file && !r.end
    ensures Writes(h, Moving(h, g, r, how), g, [r], AtRow(r))
  {
    hide Writes, Moving;
    match how
    case Short(a) => ShortWrites(h, g, r, a);
    case Middle(a) => MiddleWrites(h, g, r, a);
    case _ => LongWrites(h, g, r, how);
  }

  lemma EndWrites(h: Header, g: Regs, r: Row)
    requires Usable(h) && r.line < U32 && r.file == g.file && r.end
    ensures Writes(h, [SetAddress(r.addr), AdvanceLine(r.line - g.line), EndSequence], g, [r], Regs(0, 1, 1))
  {
    hide AddLine, Writes;
    LineReached(g.line, r.line);
    WritesThree(h, SetAddress(r.addr), AdvanceLine(r.line - g.line), EndSequence, g);
  }

  /** Where the registers stand after a row: an end puts them back to address 0, file 1, line 1. */
  function Then(r: Row): (g: Regs)
  {
    if r.end then Regs(0, 1, 1) else AtRow(r)
  }

  lemma PutWrites(h: Header, g: Regs, r: Row, how: How)
    requires Usable(h) && Possible(h, g, r, how)
    ensures Writes(h, Put(h, g, r, how), g, [r], Then(r))
  {
    hide Writes, Moving;
    var g1 := g.(file := r.file);
    var ops := if r.end then [SetAddress(r.addr), AdvanceLine(r.line - g.line), EndSequence] else Moving(h, g1, r, how);
    if r.end {
      EndWrites(h, g1, r);
    } else {
      SameNeeds(h, g, r, how);
      MovingWrites(h, g1, r, how);
    }
    if r.file != g.file {
      WritesOne(h, SetFile(r.file), g);
      WritesThen(h, [SetFile(r.file)], ops, g, [], g1, [r], Then(r));
      assert [] + [r] == [r];
    } else {
      assert [] + ops == ops && g1 == g;
    }
  }

  lemma SameNeeds(h: Header, g: Regs, r: Row, how: How)
    requires Usable(h) && Possible(h, g, r, how)
    ensures Possible(h, g.(file := r.file), r, how)
  {
  }

  // ---- whole programs

  ghost predicate AllPossible(h: Header, g: Regs, rows: seq<Row>, hows: seq<How>)
    requires Usable(h) && |rows| == |hows|
    decreases |rows|
  {
    rows == [] || (Possible(h, g, rows[0], hows[0]) && AllPossible(h, Then(rows[0]), rows[1..], hows[1..]))
  }

  ghost function PutAll(h: Header, g: Regs, rows: seq<Row>, hows: seq<How>): (ops: seq<Op>)
    requires Usable(h) && |rows| == |hows|
    decreases |rows|
  {
    if rows == [] then [] else Put(h, g, rows[0], hows[0]) + PutAll(h, Then(rows[0]), rows[1..], hows[1..])
  }

  /** Running a written program emits the rows it was written for, whichever instructions were chosen. */
  lemma {:induction false} RowsReadBack(h: Header, g: Regs, rows: seq<Row>, hows: seq<How>)
    requires Usable(h) && |rows| == |hows| && AllPossible(h, g, rows, hows)
    ensures AllFit(h, PutAll(h, g, rows, hows)) && Rows(h, PutAll(h, g, rows, hows), g) == rows
    decreases |rows|
  {
    hide Possible, Put;
    if rows != [] {
      PutWrites(h, g, rows[0], hows[0]);
      RowsReadBack(h, Then(rows[0]), rows[1..], hows[1..]);
      var rest := PutAll(h, Then(rows[0]), rows[1..], hows[1..]);
      WritesThen(h, Put(h, g, rows[0], hows[0]), rest, g, [rows[0]], Then(rows[0]), rows[1..],
                 Last(h, rest, Then(rows[0])));
      assert [rows[0]] + rows[1..] == rows;
    }
  }

  /** A program starts at address 0, file 1, line 1, and any rows can be written. */
  lemma ProgramReadBack(h: Header, rows: seq<Row>)
    requires Usable(h) && forall i :: 0 <= i < |rows| ==> rows[i].addr < U64 && rows[i].line < U32 && rows[i].file < U32
    ensures var ops := PutAll(h, Regs(0, 1, 1), rows, seq(|rows|, _ => Absolute));
            AllFit(h, ops) && Rows(h, ops, START) == rows
  {
    AnyPossible(h, Regs(0, 1, 1), rows);
    RowsReadBack(h, Regs(0, 1, 1), rows, seq(|rows|, _ => Absolute));
  }

  lemma {:induction false} AnyPossible(h: Header, g: Regs, rows: seq<Row>)
    requires Usable(h) && forall i :: 0 <= i < |rows| ==> rows[i].addr < U64 && rows[i].line < U32 && rows[i].file < U32
    ensures AllPossible(h, g, rows, seq(|rows|, _ => Absolute))
    decreases |rows|
  {
    if rows != [] {
      AnyPossible(h, Then(rows[0]), rows[1..]);
      var hows: seq<How> := seq(|rows|, _ => Absolute);
      assert hows[1..] == seq(|rows[1..]|, _ => Absolute);
    }
  }

  // ---- file numbers

  /** Files count from one before version five and from zero since, and an end names none. */
  lemma FileNumbers(r: Row, files: seq<string>, i: nat)
    requires !r.end && i < |files|
    ensures r.file == i + 1 ==> Located(Some(r), files, false) == Some((files[i], r.line))
    ensures r.file == i ==> Located(Some(r), files, true) == Some((files[i], r.line))
    ensures r.file == 0 || r.file > |files| ==> Located(Some(r), files, false) == None
    ensures r.file >= |files| ==> Located(Some(r), files, true) == None
    ensures forall v5 :: Located(Some(r.(end := true)), files, v5) == None && Located(None, files, v5) == None
  {
  }

  /** One opcode by number. */
  lemma OpcodeTwenty()
    ensures var h := Header(1, -5, 14, 13);
            Usable(h) && Fits(h, Special(20)) && Step(h, Special(20), Regs(0, 1, 1)) == Regs(0, 1, 3)
  {
    SpecialMoves(Header(1, -5, 14, 13), 0, 2, Regs(0, 1, 1));
  }
}

/**
 * A reference compiler from rows to line-number programs, and the proof that the decoder gives
 * back exactly the rows that went in.
 */
module LineCompiler {
  import opened Words
  import opened Wrappers
  import opened LineMachine
  import opened LineProgram
  import opened LineTables
  import opened LineRewrites

  function When(c: bool, i: Instr): seq<Instr> {
    if c then [i] else []
  }

  /** Brings every register but the flags to the row's values, from a state at `line`. */
  function CompileRegisters(line: u32, row: Row): seq<Instr> {
    [SetAddress(row.address), AdvancePc(row.opIndex), SetFile(row.file),
     AdvanceLine(row.line - line), SetColumn(row.column), SetDiscriminator(row.discriminator)]
  }

  function CompileFlags(stmt: bool, row: Row): seq<Instr> {
    When(stmt != row.isStmt, NegateStmt) +
    (When(row.basicBlock, SetBasicBlock) +
     (When(row.prologueEnd, SetPrologueEnd) +
      When(row.epilogueBegin, SetEpilogueBegin)))
  }

  function CompileRow(line: u32, stmt: bool, row: Row): seq<Instr> {
    CompileRegisters(line, row) + (CompileFlags(stmt, row) + [if row.endSequence then EndSequence else Copy])
  }

  /** `line` and `stmt` are what the registers hold when the first row is compiled. */
  function CompileRows(p: Params, line: u32, stmt: bool, rows: seq<Row>): seq<Instr>
    decreases |rows|
  {
    if rows == [] then []
    else
      var row := rows[0];
      CompileRow(line, stmt, row) +
      (if row.endSequence then CompileRows(p, 1, p.defaultIsStmt != 0, rows[1..])
       else CompileRows(p, row.line, row.isStmt, rows[1..]))
  }

  /** The program for a table of rows, from the initial registers. */
  function Compile(p: Params, rows: seq<Row>): seq<Instr> {
    CompileRows(p, 1, p.defaultIsStmt != 0, rows)
  }

  /** Rows as the state machine can hold them. */
  predicate RowsFit(p: Params, rows: seq<Row>) {
    forall i :: 0 <= i < |rows| ==> rows[i].opIndex < p.maxOps
  }

  // ----- running the compiled program -----

  /** Registers between two rows. */
  predicate Between(r: Registers, line: u32, stmt: bool) {
    && r.line == line && r.isStmt == stmt
    && !r.basicBlock && !r.prologueEnd && !r.epilogueBegin && !r.endSequence
  }

  lemma RunCons(p: Params, m: Machine, i: Instr, prog: seq<Instr>)
    requires Executes(p, i)
    ensures Run(p, m, [i] + prog) == Run(p, Exec(p, m, i), prog)
  {
    hide Exec, Executes;
    assert ([i] + prog)[1..] == prog;
  }

  lemma RunWhen(p: Params, m: Machine, c: bool, i: Instr, prog: seq<Instr>)
    requires Executes(p, i)
    ensures Run(p, m, When(c, i) + prog) == Run(p, if c then Exec(p, m, i) else m, prog)
  {
    hide Exec, Executes;
    if c {
      RunCons(p, m, i, prog);
    } else {
      assert [] + prog == prog;
    }
  }

  lemma AdvanceWithin(p: Params, r: Registers, n: u64)
    requires r.opIndex == 0 && n < p.maxOps
    ensures MoveOps(p, r, n) == r.(opIndex := n)
  {
    MoveSmall(p, r, n, n);
  }

  lemma RegistersRun(p: Params, m: Machine, line: u32, row: Row, prog: seq<Instr>)
    requires m.regs.line == line && row.opIndex < p.maxOps
    ensures Run(p, m, CompileRegisters(line, row) + prog) ==
            Run(p, m.(regs := m.regs.(address := row.address, opIndex := row.opIndex, file := row.file,
                                      line := row.line, column := row.column,
                                      discriminator := row.discriminator)), prog)
  {
    var r := m.regs;
    var i0, i1, i2, i3, i4, i5 :=
      SetAddress(row.address), AdvancePc(row.opIndex), SetFile(row.file),
      AdvanceLine(row.line - line), SetColumn(row.column), SetDiscriminator(row.discriminator);
    AdvanceWithin(p, r.(address := row.address, opIndex := 0), row.opIndex);
    hide MoveOps, Run;
    var m2 := m.(regs := r.(address := row.address, opIndex := row.opIndex));
    var tail2 := [i2] + ([i3] + ([i4] + ([i5] + prog)));
    RunCons(p, m, i0, [i1] + tail2);
    RunCons(p, Exec(p, m, i0), i1, tail2);
    assert Exec(p, Exec(p, m, i0), i1) == m2;
    StoresRun(p, m2, line, row, prog);
    assert CompileRegisters(line, row) + prog == [i0] + ([i1] + tail2);
  }

  lemma StoresRun(p: Params, m: Machine, line: u32, row: Row, prog: seq<Instr>)
    requires m.regs.line == line
    ensures Run(p, m, [SetFile(row.file)] + ([AdvanceLine(row.line - line)] +
                      ([SetColumn(row.column)] + ([SetDiscriminator(row.discriminator)] + prog)))) ==
            Run(p, m.(regs := m.regs.(file := row.file, line := row.line,
                                      column := row.column, discriminator := row.discriminator)), prog)
  {
    var r := m.regs;
    var i2, i3, i4, i5 :=
      SetFile(row.file), AdvanceLine(row.line - line), SetColumn(row.column), SetDiscriminator(row.discriminator);
    StoresBack(row.file);
    StoresBack(row.line);
    StoresBack(row.column);
    StoresBack(row.discriminator);
    hide Run, ToU32, ToI64;
    var m3 := m.(regs := r.(file := row.file));
    var m4 := m3.(regs := m3.regs.(line := row.line));
    var m5 := m4.(regs := m4.regs.(column := row.column));
    assert Exec(p, m, i2) == m3 && Exec(p, m3, i3) == m4 && Exec(p, m4, i4) == m5;
    var m6 := Exec(p, m5, i5);
    assert m6.table == m.table && m6.regs == m5.regs.(discriminator := row.discriminator);
    hide Exec;
    RunCons(p, m, i2, [i3] + ([i4] + ([i5] + prog)));
    RunCons(p, m3, i3, [i4] + ([i5] + prog));
    RunCons(p, m4, i4, [i5] + prog);
    RunCons(p, m5, i5, prog);
  }

  lemma StoresBack(v: u32)
    ensures ToU32(v) == v && ToI64(v) == v
  {
  }

  lemma FlagsRun(p: Params, m: Machine, stmt: bool, row: Row, prog: seq<Instr>)
    requires Between(m.regs, m.regs.line, stmt)
    ensures Run(p, m, CompileFlags(stmt, row) + prog) ==
            Run(p, m.(regs := m.regs.(isStmt := row.isStmt, basicBlock := row.basicBlock,
                                      prologueEnd := row.prologueEnd, epilogueBegin := row.epilogueBegin)), prog)
  {
    var f0, f1, f2, f3 := When(stmt != row.isStmt, NegateStmt), When(row.basicBlock, SetBasicBlock),
                          When(row.prologueEnd, SetPrologueEnd), When(row.epilogueBegin, SetEpilogueBegin);
    hide Run;
    assert CompileFlags(stmt, row) + prog == f0 + (f1 + (f2 + (f3 + prog)));
    var m1 := if stmt != row.isStmt then Exec(p, m, NegateStmt) else m;
    var m2 := if row.basicBlock then Exec(p, m1, SetBasicBlock) else m1;
    var m3 := if row.prologueEnd then Exec(p, m2, SetPrologueEnd) else m2;
    hide When;
    RunWhen(p, m, stmt != row.isStmt, NegateStmt, f1 + (f2 + (f3 + prog)));
    RunWhen(p, m1, row.basicBlock, SetBasicBlock, f2 + (f3 + prog));
    RunWhen(p, m2, row.prologueEnd, SetPrologueEnd, f3 + prog);
    RunWhen(p, m3, row.epilogueBegin, SetEpilogueBegin, prog);
  }

  /** One compiled row appends exactly that row and leaves the state ready for the next. */
  lemma RowRuns(p: Params, m: Machine, line: u32, stmt: bool, row: Row, prog: seq<Instr>)
    returns (m': Machine)
    requires Between(m.regs, line, stmt) && row.opIndex < p.maxOps
    ensures Run(p, m, CompileRow(line, stmt, row) + prog) == Run(p, m', prog)
    ensures m'.table == Append(m.table, row)
    ensures if row.endSequence then m'.regs == Initial(p) else Between(m'.regs, row.line, row.isStmt)
  {
    var last := if row.endSequence then EndSequence else Copy;
    var m1 := m.(regs := m.regs.(address := row.address, opIndex := row.opIndex, file := row.file, line := row.line,
                                 column := row.column, discriminator := row.discriminator));
    var m2 := m1.(regs := m1.regs.(isStmt := row.isStmt, basicBlock := row.basicBlock,
                                   prologueEnd := row.prologueEnd, epilogueBegin := row.epilogueBegin));
    hide Run, Append, CompileRegisters, CompileFlags;
    var a, b := CompileRegisters(line, row), CompileFlags(stmt, row);
    assert CompileRow(line, stmt, row) + prog == a + (b + ([last] + prog));
    RegistersRun(p, m, line, row, b + ([last] + prog));
    FlagsRun(p, m1, stmt, row, [last] + prog);
    RunCons(p, m2, last, prog);
    m' := Exec(p, m2, last);
  }

  lemma {:induction false} RowsRun(p: Params, m: Machine, line: u32, stmt: bool, rows: seq<Row>, before: seq<Row>)
    requires Between(m.regs, line, stmt) && RowsFit(p, rows) && m.table == Group(before)
    ensures Run(p, m, CompileRows(p, line, stmt, rows)).Done?
    ensures Run(p, m, CompileRows(p, line, stmt, rows)).value.table == Group(before + rows)
    decreases |rows|
  {
    hide CompileRow, Append, Exec, Executes, FaultOf;
    if rows == [] {
      assert before + [] == before;
    } else {
      hide Run;
      var row := rows[0];
      var line', stmt' := if row.endSequence then 1 else row.line,
                          if row.endSequence then p.defaultIsStmt != 0 else row.isStmt;
      var m' := RowRuns(p, m, line, stmt, row, CompileRows(p, line', stmt', rows[1..]));
      assert (before + [row])[..|before|] == before;
      RowsRun(p, m', line', stmt', rows[1..], before + [row]);
      assert before + [row] + rows[1..] == before + rows;
    }
  }

  lemma {:induction false} CompileRowsEncodable(p: Params, line: u32, stmt: bool, rows: seq<Row>)
    requires p.opcodeBase >= 12
    ensures AllEncodable(p.opcodeBase, CompileRows(p, line, stmt, rows))
    decreases |rows|
  {
    if rows == [] {
    } else {
      RowEncodable(p.opcodeBase, line, stmt, rows[0]);
      hide CompileRow, Encodable;
      if rows[0].endSequence {
        CompileRowsEncodable(p, 1, p.defaultIsStmt != 0, rows[1..]);
      } else {
        CompileRowsEncodable(p, rows[0].line, rows[0].isStmt, rows[1..]);
      }
    }
  }

  lemma RowEncodable(base: u8, line: u32, stmt: bool, row: Row)
    requires base >= 12
    ensures AllEncodable(base, CompileRow(line, stmt, row))
  {
    assert AllEncodable(base, CompileRegisters(line, row));
    assert AllEncodable(base, CompileFlags(stmt, row));
  }

  /** For any list of rows, the decoder turns the bytes of the compiled program into a table of
      exactly those rows in order, cut after each end_sequence row, and stops at the first byte
      after the program. */
  lemma RowTableRoundTrip(p: Params, rows: seq<Row>, t: seq<u8>)
    requires p.opcodeBase >= 12 && RowsFit(p, rows)
    ensures
      var bytes := EncodeProgram(Compile(p, rows));
      DecodeBytes(p, bytes + t, |bytes|) == Done(Decoded(Group(rows), t))
    ensures Flatten(Group(rows)) == rows
  {
    RowsRun(p, Start(p), 1, p.defaultIsStmt != 0, rows, []);
    assert [] + rows == rows;
    hide Run, CompileRows, DecodeBytes, Group;
    CompileRowsEncodable(p, 1, p.defaultIsStmt != 0, rows);
    DecodeEncoded(p, Compile(p, rows), t);
    GroupShape(rows);
  }
}

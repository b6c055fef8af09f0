/**
 * The line-number state machine of sections 6.2.2 and 6.2.5 of the DWARF 5 standard, with the
 * integer widths of `src/dwarf.c`: one pure step for each instruction, and runs of steps.
 */
module LineMachine {
  import opened Words
  import opened Wrappers

  /** The header fields that steer a line-number program. */
  datatype Params = Params(
    minInst: u8, maxOps: u8, defaultIsStmt: u8, lineBase: i8, lineRange: u8, opcodeBase: u8)
  {
    /** No instruction of the program divides by zero. */
    predicate Usable() {
      maxOps > 0 && lineRange > 0
    }
  }

  datatype Registers = Registers(
    address: u64, opIndex: u64, file: u32, line: u32, column: u32, discriminator: u32, isa: u16,
    isStmt: bool, basicBlock: bool, endSequence: bool, prologueEnd: bool, epilogueBegin: bool)

  datatype Row = Row(
    address: u64, opIndex: u64, file: u32, line: u32, column: u32, discriminator: u32,
    endSequence: bool, isStmt: bool, basicBlock: bool, prologueEnd: bool, epilogueBegin: bool)

  type Table = seq<seq<Row>>

  datatype Machine = Machine(regs: Registers, table: Table)

  datatype Instr =
    | Special(opcode: u8)
    | Copy
    | AdvancePc(opAdvance: u64)
    | AdvanceLine(lineIncrement: i64)
    | SetFile(file: u64)
    | SetColumn(column: u64)
    | NegateStmt
    | SetBasicBlock
    | ConstAddPc
    | FixedAdvancePc(fixedAdvance: u16)
    | SetPrologueEnd
    | SetEpilogueBegin
    | SetIsa(isa: u64)
    | EndSequence
    | SetAddress(address: u64)
    | SetDiscriminator(discriminator: u64)
    | Ignored          // an opcode the switch statements have no case for
    | OverlongAddress  // a set_address whose operand does not fit its variable

  // ----- registers and table -----

  /** Table 6.4 of the standard. */
  function Initial(p: Params): Registers {
    Registers(0, 0, 1, 1, 0, 0, 0, p.defaultIsStmt != 0, false, false, false, false)
  }

  function Start(p: Params): Machine {
    Machine(Initial(p), [])
  }

  function RowOf(r: Registers): Row {
    Row(r.address, r.opIndex, r.file, r.line, r.column, r.discriminator,
        r.endSequence, r.isStmt, r.basicBlock, r.prologueEnd, r.epilogueBegin)
  }

  /** A row joins the last sequence, and an end_sequence row opens an empty one after it. */
  function Append(t: Table, row: Row): Table {
    var open := if t == [] then [[]] else t;
    var last := |open| - 1;
    var grown := open[last := open[last] + [row]];
    if row.endSequence then grown + [[]] else grown
  }

  /** The rows of a table in order. */
  function Flatten(t: Table): seq<Row> {
    if t == [] then [] else t[0] + Flatten(t[1..])
  }

  // ----- one instruction -----

  /** How far the address moves over `ops` operations, counted from the first of an instruction. */
  function AddressStep(p: Params, ops: nat): nat
    requires p.maxOps > 0
  {
    p.minInst * (ops / p.maxOps)
  }

  /** Which operation of its instruction the last of `ops` operations leads to. */
  function IndexStep(p: Params, ops: nat): nat
    requires p.maxOps > 0
    ensures IndexStep(p, ops) < p.maxOps
  {
    ops % p.maxOps
  }

  function MoveOps(p: Params, r: Registers, n: u64): Registers
    requires p.maxOps > 0
  {
    var ops := ToU64(r.opIndex + n);
    r.(address := ToU64(r.address + AddressStep(p, ops)), opIndex := IndexStep(p, ops))
  }

  function SpecialAdvance(p: Params, opcode: u8): nat
    requires p.lineRange > 0 && opcode >= p.opcodeBase
  {
    (opcode - p.opcodeBase) / p.lineRange
  }

  function SpecialLine(p: Params, opcode: u8): int
    requires p.lineRange > 0 && opcode >= p.opcodeBase
  {
    p.lineBase + (opcode - p.opcodeBase) % p.lineRange
  }

  function AfterRow(r: Registers): Registers {
    r.(discriminator := 0, basicBlock := false, prologueEnd := false, epilogueBegin := false)
  }

  function Emit(m: Machine): Machine {
    Machine(AfterRow(m.regs), Append(m.table, RowOf(m.regs)))
  }

  function FaultOf(p: Params, i: Instr): Fault {
    if i.OverlongAddress? then OutOfBoundsWrite else DivideByZero
  }

  predicate Executes(p: Params, i: Instr) {
    match i
    case Special(opcode) => p.Usable() && opcode >= p.opcodeBase
    case ConstAddPc => p.Usable()
    case AdvancePc(_) => p.maxOps > 0
    case OverlongAddress => false
    case _ => true
  }

  function Exec(p: Params, m: Machine, i: Instr): Machine
    requires Executes(p, i)
  {
    var r := m.regs;
    match i
    case Special(opcode) =>
      var moved := MoveOps(p, r.(line := ToU32(r.line + SpecialLine(p, opcode))), SpecialAdvance(p, opcode));
      Emit(m.(regs := moved))
    case Copy => Emit(m)
    case AdvancePc(n) => m.(regs := MoveOps(p, r, n))
    case AdvanceLine(n) => m.(regs := r.(line := ToU32(ToI64(r.line + n))))
    case SetFile(v) => m.(regs := r.(file := ToU32(v)))
    case SetColumn(v) => m.(regs := r.(column := ToU32(v)))
    case NegateStmt => m.(regs := r.(isStmt := !r.isStmt))
    case SetBasicBlock => m.(regs := r.(basicBlock := true))
    case ConstAddPc => m.(regs := MoveOps(p, r, ConstAdvance(p)))
    case FixedAdvancePc(n) => m.(regs := r.(address := ToU64(r.address + n), opIndex := 0))
    case SetPrologueEnd => m.(regs := r.(prologueEnd := true))
    case SetEpilogueBegin => m.(regs := r.(epilogueBegin := true))
    case SetIsa(v) => m.(regs := r.(isa := ToU16(v)))
    case EndSequence => Machine(Initial(p), Append(m.table, RowOf(r.(endSequence := true))))
    case SetAddress(a) => m.(regs := r.(address := a, opIndex := 0))
    case SetDiscriminator(v) => m.(regs := r.(discriminator := ToU32(v)))
    case Ignored => m
  }

  /** The advance of special opcode 255. */
  function ConstAdvance(p: Params): nat
    requires p.lineRange > 0
  {
    (255 - p.opcodeBase) / p.lineRange
  }

  // ----- runs -----

  /** Instructions one after another, up to the first that crashes. */
  function Run(p: Params, m: Machine, prog: seq<Instr>): Outcome<Machine>
    decreases |prog|
  {
    if prog == [] then Done(m)
    else if !Executes(p, prog[0]) then Crash(FaultOf(p, prog[0]))
    else Run(p, Exec(p, m, prog[0]), prog[1..])
  }

  lemma {:induction false} RunAppend(p: Params, m: Machine, a: seq<Instr>, b: seq<Instr>)
    ensures Run(p, m, a).Crash? ==> Run(p, m, a + b) == Run(p, m, a)
    ensures Run(p, m, a).Done? ==> Run(p, m, a + b) == Run(p, Run(p, m, a).value, b)
    decreases |a|
  {
    if a == [] {
      assert a + b == b;
    } else {
      assert (a + b)[0] == a[0] && (a + b)[1..] == a[1..] + b;
      if Executes(p, a[0]) {
        RunAppend(p, Exec(p, m, a[0]), a[1..], b);
      }
    }
  }
}

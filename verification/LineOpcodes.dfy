/**
 * The opcodes of a line-number program by their numbers (sections 6.2.5.1 to 6.2.5.3 and 7.22 of the
 * DWARF 5 standard): for each the bytes it is written as and the registers and the row it leaves,
 * from any state and whatever follows; and what the code makes of opcodes it does not know.
 */
module LineOpcodes {
  import opened Words
  import opened Wrappers
  import opened Leb128
  import opened Reader
  import opened LineMachine
  import opened LineProgram
  import opened LineTables

  /** Decoding the bytes `s` in state `m` leads to state `m'` and stops right after them. */
  predicate Leads(p: Params, m: Machine, s: seq<u8>, t: seq<u8>, m': Machine) {
    RunBytes(p, m, s + t, |s|) == Done(Halted(m', t))
  }

  /** One complete instruction. */
  lemma WholeLeads(p: Params, m: Machine, s: seq<u8>, t: seq<u8>)
    requires s != [] && Whole(p.opcodeBase, s) && Fetch(p.opcodeBase, s).rest == []
    ensures
      var i := Fetch(p.opcodeBase, s).instr;
      if Executes(p, i) then Leads(p, m, s, t, Exec(p, m, i))
      else RunBytes(p, m, s + t, |s|) == Crash(FaultOf(p, i))
  {
    hide Fetch, Whole, Exec, Executes, FaultOf, RunBytes;
    FetchPrefix(p.opcodeBase, s, t);
    assert [] + t == t;
    RunBytesStep(p, m, s + t, |s|);
    var i := Fetch(p.opcodeBase, s).instr;
    if Executes(p, i) { RunBytesEnd(p, Exec(p, m, i), t); }
  }

  lemma InstrLeads(p: Params, m: Machine, i: Instr, t: seq<u8>)
    requires Encodable(p.opcodeBase, i)
    ensures
      var s := EncodeInstr(i);
      if Executes(p, i) then Leads(p, m, s, t, Exec(p, m, i))
      else RunBytes(p, m, s + t, |s|) == Crash(FaultOf(p, i))
  {
    hide Exec, Executes, FaultOf, Fetch, Whole, Encodable, EncodeInstr, Leads, RunBytes;
    FetchEncoded(p.opcodeBase, i);
    WholeLeads(p, m, EncodeInstr(i), t);
  }

  // ----- opcodes that emit a row -----

  /** `copy` emits the registers as a row and clears the four that describe one row only. */
  lemma CopyByte(p: Params, m: Machine, t: seq<u8>)
    requires p.opcodeBase > 1
    ensures
      var r := m.regs;
      var row := Row(r.address, r.opIndex, r.file, r.line, r.column, r.discriminator,
                     r.endSequence, r.isStmt, r.basicBlock, r.prologueEnd, r.epilogueBegin);
      var cleared := r.(discriminator := 0, basicBlock := false, prologueEnd := false, epilogueBegin := false);
      Leads(p, m, [1], t, Machine(cleared, Append(m.table, row)))
  {
    hide Append, RunBytes;
    InstrLeads(p, m, Copy, t);
  }

  /** A special opcode `line_range * a + d` above `opcode_base` moves the line by `line_base + d` and
      the operation pointer by `a`, and does what `copy` does. */
  lemma SpecialByte(p: Params, m: Machine, opcode: u8, a: nat, d: nat, t: seq<u8>)
    requires p.maxOps > 0 && opcode > 0 && opcode >= p.opcodeBase
    requires opcode - p.opcodeBase == p.lineRange * a + d && d < p.lineRange
    ensures a < WORD
    ensures
      var moved := MoveOps(p, m.regs.(line := (m.regs.line + p.lineBase + d) % 0x1_0000_0000), a);
      Leads(p, m, [opcode], t, Emit(Machine(moved, m.table)))
  {
    SpecialParts(p, opcode, a, d);
    hide MoveOps, Emit, RunBytes, SpecialAdvance, SpecialLine;
    InstrLeads(p, m, Special(opcode), t);
  }

  lemma SpecialParts(p: Params, opcode: u8, a: nat, d: nat)
    requires p.maxOps > 0 && opcode >= p.opcodeBase
    requires opcode - p.opcodeBase == p.lineRange * a + d && d < p.lineRange
    ensures SpecialAdvance(p, opcode) == a < WORD && SpecialLine(p, opcode) == p.lineBase + d
  {
    DivModUnique(opcode - p.opcodeBase, p.lineRange, a, d);
  }

  /** `const_add_pc` moves the operation pointer as far as special opcode 255 does. */
  lemma ConstAddByte(p: Params, m: Machine, a: nat, d: nat, t: seq<u8>)
    requires p.maxOps > 0 && p.opcodeBase > 8
    requires 255 - p.opcodeBase == p.lineRange * a + d && d < p.lineRange
    ensures a < WORD && Leads(p, m, [8], t, Machine(MoveOps(p, m.regs, a), m.table))
  {
    DivModUnique(255 - p.opcodeBase, p.lineRange, a, d);
    hide MoveOps, RunBytes;
    InstrLeads(p, m, ConstAddPc, t);
  }

  // ----- opcodes that set registers -----

  /** `advance_pc` over `n` operations: `q` whole instructions, ending on operation `k` of one. */
  lemma AdvanceByte(p: Params, m: Machine, n: u64, q: nat, k: nat, t: seq<u8>)
    requires p.opcodeBase > 2 && m.regs.opIndex + n < WORD
    requires m.regs.opIndex + n == p.maxOps * q + k && k < p.maxOps
    ensures Leads(p, m, [2] + EncodeULeb(n), t,
                  m.(regs := m.regs.(address := ToU64(m.regs.address + p.minInst * q), opIndex := k)))
  {
    MoveTo(p, m.regs, n, q, k);
    hide MoveOps, RunBytes, ToU64;
    InstrLeads(p, m, AdvancePc(n), t);
  }

  lemma MoveTo(p: Params, r: Registers, n: u64, q: nat, k: nat)
    requires r.opIndex + n < WORD && r.opIndex + n == p.maxOps * q + k && k < p.maxOps
    ensures MoveOps(p, r, n) == r.(address := ToU64(r.address + p.minInst * q), opIndex := k)
  {
    DivModUnique(r.opIndex + n, p.maxOps, q, k);
    WrapFits(r.opIndex + n);
    hide ToU64;
  }

  /** The standard opcodes 3 to 7 and 9 to 12, with their operands and the widths of the registers. */
  lemma StandardBytes(p: Params, m: Machine, n: u64, k: i64, lo: u8, hi: u8, t: seq<u8>)
    requires p.opcodeBase > 12
    ensures Leads(p, m, [3] + EncodeSLeb(k), t, m.(regs := m.regs.(line := (m.regs.line + k) % 0x1_0000_0000)))
    ensures Leads(p, m, [4] + EncodeULeb(n), t, m.(regs := m.regs.(file := n % 0x1_0000_0000)))
    ensures Leads(p, m, [5] + EncodeULeb(n), t, m.(regs := m.regs.(column := n % 0x1_0000_0000)))
    ensures Leads(p, m, [6], t, m.(regs := m.regs.(isStmt := !m.regs.isStmt)))
    ensures Leads(p, m, [7], t, m.(regs := m.regs.(basicBlock := true)))
    ensures Leads(p, m, [9, lo, hi], t,
                  m.(regs := m.regs.(address := ToU64(m.regs.address + lo + 0x100 * hi), opIndex := 0)))
    ensures Leads(p, m, [10], t, m.(regs := m.regs.(prologueEnd := true)))
    ensures Leads(p, m, [11], t, m.(regs := m.regs.(epilogueBegin := true)))
    ensures Leads(p, m, [12] + EncodeULeb(n), t, m.(regs := m.regs.(isa := n % 0x1_0000)))
  {
    hide RunBytes, EncodeULeb, EncodeSLeb, Leads, ToU64, ToI64, ToU32, LE;
    AdvanceLineByte(p, m, k, t);
    FixedAdvanceByte(p, m, lo, hi, t);
    NumberBytes(p, m, n, t);
    InstrLeads(p, m, NegateStmt, t);
    InstrLeads(p, m, SetBasicBlock, t);
    InstrLeads(p, m, SetPrologueEnd, t);
    InstrLeads(p, m, SetEpilogueBegin, t);
  }

  lemma AdvanceLineByte(p: Params, m: Machine, k: i64, t: seq<u8>)
    requires p.opcodeBase > 3
    ensures Leads(p, m, [3] + EncodeSLeb(k), t, m.(regs := m.regs.(line := (m.regs.line + k) % 0x1_0000_0000)))
  {
    LineWraps(m.regs.line + k);
    hide Leads, EncodeSLeb, ToU32, ToI64;
    InstrLeads(p, m, AdvanceLine(k), t);
  }

  lemma FixedAdvanceByte(p: Params, m: Machine, lo: u8, hi: u8, t: seq<u8>)
    requires p.opcodeBase > 9
    ensures Leads(p, m, [9, lo, hi], t,
                  m.(regs := m.regs.(address := ToU64(m.regs.address + lo + 0x100 * hi), opIndex := 0)))
  {
    TwoBytes(lo, hi);
    hide Leads, LE, ToU64;
    InstrLeads(p, m, FixedAdvancePc(lo + 0x100 * hi), t);
  }

  lemma NumberBytes(p: Params, m: Machine, n: u64, t: seq<u8>)
    requires p.opcodeBase > 12
    ensures Leads(p, m, [4] + EncodeULeb(n), t, m.(regs := m.regs.(file := n % 0x1_0000_0000)))
    ensures Leads(p, m, [5] + EncodeULeb(n), t, m.(regs := m.regs.(column := n % 0x1_0000_0000)))
    ensures Leads(p, m, [12] + EncodeULeb(n), t, m.(regs := m.regs.(isa := n % 0x1_0000)))
  {
    hide Leads, EncodeULeb;
    InstrLeads(p, m, SetFile(n), t);
    InstrLeads(p, m, SetColumn(n), t);
    InstrLeads(p, m, SetIsa(n), t);
  }

  lemma LineWraps(x: int)
    ensures ToU32(ToI64(x)) == x % 0x1_0000_0000
  {
    var q := x / 0x1_0000_0000_0000_0000;
    var u := x % 0x1_0000_0000_0000_0000;
    assert x == 0x1_0000_0000 * (q * 0x1_0000_0000) + u;
    SameRemainder(u, q * 0x1_0000_0000);
    SameRemainder(u, -0x1_0000_0000);
  }

  lemma SameRemainder(u: int, c: int)
    ensures (u + 0x1_0000_0000 * c) % 0x1_0000_0000 == u % 0x1_0000_0000
  {
  }

  lemma TwoBytes(lo: u8, hi: u8)
    ensures [9] + LE(2, lo + 0x100 * hi) == [9, lo, hi]
  {
    assert LE(1, hi) == [hi] by { assert LE(0, 0) == []; }
  }

  // ----- extended opcodes -----

  /** `end_sequence` emits a last row and puts every register back to its first value. */
  lemma EndSequenceBytes(p: Params, m: Machine, t: seq<u8>)
    ensures
      var r := m.regs;
      var row := Row(r.address, r.opIndex, r.file, r.line, r.column, r.discriminator,
                     true, r.isStmt, r.basicBlock, r.prologueEnd, r.epilogueBegin);
      var first := Registers(0, 0, 1, 1, 0, 0, 0, p.defaultIsStmt != 0, false, false, false, false);
      Leads(p, m, [0, 1, 1], t, Machine(first, Append(m.table, row)))
  {
    assert EncodeInstr(EndSequence) == [0, 1, 1];
    hide Append, RunBytes, EncodeInstr;
    InstrLeads(p, m, EndSequence, t);
  }

  /** `set_address` with an operand of any width up to eight bytes, and `set_discriminator`. */
  lemma ExtendedBytes(p: Params, m: Machine, width: nat, a: u64, n: u64, t: seq<u8>)
    requires width <= 8 && a < Pow2(8 * width)
    ensures Leads(p, m, [0, 1 + width, 2] + LE(width, a), t, m.(regs := m.regs.(address := a, opIndex := 0)))
    ensures Leads(p, m, [0] + EncodeULeb(1 + |EncodeULeb(n)|) + [4] + EncodeULeb(n), t,
                  m.(regs := m.regs.(discriminator := n % 0x1_0000_0000)))
  {
    hide Leads, LE, Pow2, EncodeULeb;
    SetAddressBytes(p, m, width, a, t);
    DiscriminatorBytes(p, m, n, t);
  }

  lemma SetAddressBytes(p: Params, m: Machine, width: nat, a: u64, t: seq<u8>)
    requires width <= 8 && a < Pow2(8 * width)
    ensures Leads(p, m, [0, 1 + width, 2] + LE(width, a), t, m.(regs := m.regs.(address := a, opIndex := 0)))
  {
    hide Leads, LE, Pow2, Fetch, Whole, MoveOps, Append;
    var s := [0] + (EncodeULeb(1 + width) + ([2] + LE(width, a)));
    ShortFrame(width, LE(width, a));
    hide EncodeULeb;
    assert s + [] == s;
    SetAddressOfAnyWidth(p.opcodeBase, width, a, []);
    WholeLeads(p, m, s, t);
  }

  lemma ShortFrame(width: nat, operands: seq<u8>)
    requires width <= 8
    ensures [0] + (EncodeULeb(1 + width) + ([2] + operands)) == [0, 1 + width, 2] + operands
  {
    assert EncodeULeb(1 + width) == [1 + width];
  }

  lemma DiscriminatorBytes(p: Params, m: Machine, n: u64, t: seq<u8>)
    ensures Leads(p, m, [0] + EncodeULeb(1 + |EncodeULeb(n)|) + [4] + EncodeULeb(n), t,
                  m.(regs := m.regs.(discriminator := n % 0x1_0000_0000)))
  {
    hide Leads, EncodeULeb;
    assert EncodeInstr(SetDiscriminator(n)) == [0] + EncodeULeb(1 + |EncodeULeb(n)|) + [4] + EncodeULeb(n);
    InstrLeads(p, m, SetDiscriminator(n), t);
  }

  // ----- what does not run -----

  /** Opcodes without a case change nothing, and only the opcode is skipped, with the size before it
      if it is extended: operands they may have are decoded as the next instructions. */
  lemma UnknownOpcodes(p: Params, m: Machine, k: u8, size: u64, t: seq<u8>)
    ensures 12 < k < p.opcodeBase ==> Leads(p, m, [k], t, m)
    ensures k !in {1, 2, 4} ==> Leads(p, m, [0] + EncodeULeb(size) + [k], t, m)
  {
    hide Leads, EncodeULeb;
    if 12 < k < p.opcodeBase { UnknownStandard(p, m, k, t); }
    if k !in {1, 2, 4} { UnknownExtended(p, m, k, size, t); }
  }

  lemma UnknownStandard(p: Params, m: Machine, k: u8, t: seq<u8>)
    requires 12 < k < p.opcodeBase
    ensures Leads(p, m, [k], t, m)
  {
    hide RunBytes;
    WholeLeads(p, m, [k], t);
  }

  lemma UnknownExtended(p: Params, m: Machine, k: u8, size: u64, t: seq<u8>)
    requires k !in {1, 2, 4}
    ensures Leads(p, m, [0] + EncodeULeb(size) + [k], t, m)
  {
    var s := [0] + EncodeULeb(size) + [k];
    var r := EncodeULeb(size) + ([k] + []);
    ExtendedFrame(size, k, []);
    hide EncodeULeb, LebRest, LebComplete, ULebValue, UintAt, RestAfter, RunBytes, Leads;
    assert s == [0] + r && s[1..] == r;
    assert FetchExtended(r) == Fetched(Ignored, []) && WholeExtended(r);
    hide FetchExtended, WholeExtended;
    WholeLeads(p, m, s, t);
  }

  /** A set_address with more than eight operand bytes writes past its variable; one with fewer bytes
      left than it asks for sets the address to 0 and takes none of them. */
  lemma SetAddressOperands(p: Params, m: Machine, size: u64, operands: seq<u8>, length: nat)
    requires size > 0 && length == |[0] + (EncodeULeb(size) + [2])|
    ensures
      var s := [0] + (EncodeULeb(size) + ([2] + operands));
      && (9 < size <= |operands| + 1 ==> RunBytes(p, m, s, length) == Crash(OutOfBoundsWrite))
      && (size > |operands| + 1 ==>
            RunBytes(p, m, s, length) == Done(Halted(m.(regs := m.regs.(address := 0, opIndex := 0)), operands)))
  {
    var r := EncodeULeb(size) + ([2] + operands);
    var s := [0] + r;
    assert s[1..] == r;
    ExtendedFrame(size, 2, operands);
    WrapFits(size - 1);
    hide EncodeULeb, LebRest, LebComplete, ULebValue, UintAt, RestAfter, RunBytes, ToU64;
    RunBytesStep(p, m, s, length);
    RunBytesEnd(p, m.(regs := m.regs.(address := 0, opIndex := 0)), operands);
  }

  /** Where the header has no operations per instruction or no line range, the instructions that
      divide by them crash. */
  lemma ZeroDivides(p: Params, m: Machine, opcode: u8, n: u64, t: seq<u8>)
    ensures p.maxOps == 0 && p.opcodeBase > 2 ==>
              RunBytes(p, m, [2] + EncodeULeb(n) + t, |[2] + EncodeULeb(n)|) == Crash(DivideByZero)
    ensures (p.maxOps == 0 || p.lineRange == 0) && p.opcodeBase > 8 ==>
              RunBytes(p, m, [8] + t, 1) == Crash(DivideByZero)
    ensures (p.maxOps == 0 || p.lineRange == 0) && opcode > 0 && opcode >= p.opcodeBase ==>
              RunBytes(p, m, [opcode] + t, 1) == Crash(DivideByZero)
  {
    hide RunBytes, Leads, EncodeULeb, Exec;
    if p.opcodeBase > 2 { InstrLeads(p, m, AdvancePc(n), t); }
    if p.opcodeBase > 8 { InstrLeads(p, m, ConstAddPc, t); }
    if opcode > 0 && opcode >= p.opcodeBase { InstrLeads(p, m, Special(opcode), t); }
  }

  // ----- first rows -----

  /** The row of a `copy` in the first state (Table 6.4 of the standard). */
  function InitialRow(p: Params): Row {
    Row(0, 0, 1, 1, 0, 0, false, p.defaultIsStmt != 0, false, false, false)
  }

  lemma FirstCopy(p: Params)
    requires p.opcodeBase > 1
    ensures DecodeAll(p, [1]) == Done(Decoded([[InitialRow(p)]], []))
  {
    CopyByte(p, Start(p), []);
    FirstRow(InitialRow(p));
    assert [1] + [] == [1];
    hide Append, RunBytes;
  }

  /** The first row after any complete program that ends in end_sequence. */
  lemma CopyAfterEndSequence(p: Params, s: seq<u8>)
    requires p.opcodeBase > 1 && WholeProgram(p.opcodeBase, s) && s != []
    requires var prog := Parse(p.opcodeBase, s, |s|).instrs; prog[|prog| - 1] == EndSequence
    requires DecodeAll(p, s).Done?
    ensures
      DecodeAll(p, s + [1]).Done? &&
      Flatten(DecodeAll(p, s + [1]).value.table) == Flatten(DecodeAll(p, s).value.table) + [InitialRow(p)]
  {
    FirstCopy(p);
    assert Flatten([[InitialRow(p)]]) == [InitialRow(p)] by { assert [[InitialRow(p)]][1..] == []; }
    hide DecodeAll, WholeProgram, Parse, Flatten;
    SequenceBytesAreIndependent(p, s, [1]);
  }

  // ----- what a row leaves behind for the next -----

  /** What describes a single row. */
  datatype Mark = Discriminator | BasicBlock | PrologueEnd | EpilogueBegin

  predicate ClearIn(k: Mark, discriminator: u32, basicBlock: bool, prologueEnd: bool, epilogueBegin: bool) {
    match k
    case Discriminator => discriminator == 0
    case BasicBlock => !basicBlock
    case PrologueEnd => !prologueEnd
    case EpilogueBegin => !epilogueBegin
  }

  predicate ClearRegs(k: Mark, r: Registers) {
    ClearIn(k, r.discriminator, r.basicBlock, r.prologueEnd, r.epilogueBegin)
  }

  predicate ClearRow(k: Mark, row: Row) {
    ClearIn(k, row.discriminator, row.basicBlock, row.prologueEnd, row.epilogueBegin)
  }

  predicate Sets(k: Mark, i: Instr) {
    match k
    case Discriminator => i.SetDiscriminator?
    case BasicBlock => i.SetBasicBlock?
    case PrologueEnd => i.SetPrologueEnd?
    case EpilogueBegin => i.SetEpilogueBegin?
  }

  lemma StepClears(k: Mark, p: Params, m: Machine, i: Instr)
    requires Executes(p, i)
    ensures i.Copy? || i.Special? || i.EndSequence? ==> ClearRegs(k, Exec(p, m, i).regs)
    ensures ClearRegs(k, m.regs) && !Sets(k, i) ==> ClearRegs(k, Exec(p, m, i).regs)
    ensures ClearRegs(k, m.regs) ==> forall row :: row in Emits(p, m.regs, i) ==> ClearRow(k, row)
  {
    hide Append, AddressStep, IndexStep, ToU64, ToU32, ToI64, SpecialLine, SpecialAdvance, ConstAdvance;
  }

  lemma {:induction false} ClearRun(k: Mark, p: Params, m: Machine, prog: seq<Instr>)
    requires ClearRegs(k, m.regs) && forall i :: 0 <= i < |prog| ==> !Sets(k, prog[i])
    ensures forall row :: row in Emitted(p, m, prog) ==> ClearRow(k, row)
    decreases |prog|
  {
    hide Exec, Executes, Emits, ClearRegs, ClearRow, Sets;
    if prog != [] && Executes(p, prog[0]) {
      StepClears(k, p, m, prog[0]);
      ClearRun(k, p, Exec(p, m, prog[0]), prog[1..]);
    }
  }

  /** After an instruction that emits a row, no row has a discriminator, a basic-block, a prologue-end
      or an epilogue-begin mark until an instruction sets it, in any state and any program. */
  lemma RowsAfterARowAreClear(k: Mark, p: Params, m: Machine, i: Instr, prog: seq<Instr>)
    requires (i.Copy? || i.Special? || i.EndSequence?) && Executes(p, i)
    requires forall j :: 0 <= j < |prog| ==> !Sets(k, prog[j])
    ensures forall row :: row in Emitted(p, Exec(p, m, i), prog) ==> ClearRow(k, row)
  {
    hide Exec, Executes, ClearRegs, ClearRow, Sets;
    StepClears(k, p, m, i);
    ClearRun(k, p, Exec(p, m, i), prog);
  }
}

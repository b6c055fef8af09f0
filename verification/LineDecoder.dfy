/**
 * The mutating decoder of `src/dwarf.c`: registers and a table that are updated in place while the
 * byte cursor advances, proved to compute the same as cutting the bytes into instructions and
 * running the pure step function over them.
 */
module LineDecoder {
  import opened Words
  import opened Wrappers
  import opened Leb128
  import opened Reader
  import opened LineMachine
  import opened LineProgram

  /** Wrapping an addend first does not change a wrapped sum. */
  lemma WrapTwice(x: int, y: int)
    ensures ToU32(x + ToU32(y)) == ToU32(x + y)
  {
  }

  class LineNumStateMachine {
    var address: u64
    var opIndex: u64
    var file: u32
    var line: u32
    var column: u32
    var discriminator: u32
    var isa: u16
    var isStmt: bool
    var basicBlock: bool
    var endSequence: bool
    var prologueEnd: bool
    var epilogueBegin: bool

    ghost function Regs(): Registers
      reads this
    {
      Registers(address, opIndex, file, line, column, discriminator, isa,
                isStmt, basicBlock, endSequence, prologueEnd, epilogueBegin)
    }

    constructor (p: Params)
      ensures Regs() == Initial(p)
    {
      address, opIndex, file, line, column := 0, 0, 1, 1, 0;
      isStmt, basicBlock, endSequence := p.defaultIsStmt != 0, false, false;
      prologueEnd, epilogueBegin, isa, discriminator := false, false, 0, 0;
    }

    method Reset(p: Params)
      modifies this
      ensures Regs() == Initial(p)
    {
      address, opIndex, file, line, column := 0, 0, 1, 1, 0;
      isStmt, basicBlock, endSequence := p.defaultIsStmt != 0, false, false;
      prologueEnd, epilogueBegin, isa, discriminator := false, false, 0, 0;
    }

    method Advance(p: Params, opAdvance: u64)
      requires p.maxOps > 0
      modifies this
      ensures Regs() == MoveOps(p, old(Regs()), opAdvance)
    {
      address := ToU64(address + p.minInst * (ToU64(opIndex + opAdvance) / p.maxOps));
      opIndex := ToU64(opIndex + opAdvance) % p.maxOps;
    }

    method ClearRowFlags()
      modifies this
      ensures Regs() == AfterRow(old(Regs()))
    {
      discriminator := 0;
      basicBlock := false;
      prologueEnd := false;
      epilogueBegin := false;
    }
  }

  class LineInfoTable {
    var sequences: Table

    constructor ()
      ensures sequences == []
    {
      sequences := [];
    }

    method AppendEntry(sm: LineNumStateMachine)
      modifies this
      ensures sequences == Append(old(sequences), RowOf(sm.Regs()))
    {
      if |sequences| == 0 {
        sequences := sequences + [[]];
      }
      var last := |sequences| - 1;
      var entry := Row(sm.address, sm.opIndex, sm.file, sm.line, sm.column, sm.discriminator,
                       sm.endSequence, sm.isStmt, sm.basicBlock, sm.prologueEnd, sm.epilogueBegin);
      sequences := sequences[last := sequences[last] + [entry]];
      if sm.endSequence {
        sequences := sequences + [[]];
      }
    }
  }

  /** The decoder's variables at one point of the loop. */
  class Decoder {
    const p: Params
    const sm: LineNumStateMachine
    const table: LineInfoTable

    ghost function State(): Machine
      reads sm, table
    {
      Machine(sm.Regs(), table.sequences)
    }

    constructor (params: Params)
      ensures p == params && State() == Start(p)
      ensures fresh(sm) && fresh(table)
    {
      p := params;
      sm := new LineNumStateMachine(params);
      table := new LineInfoTable();
    }

    /** The branch for a zero opcode byte. */
    method StepExtended(reader: BinaryReader) returns (ok: bool)
      requires reader.Valid()
      modifies reader, sm, table
      ensures reader.Valid()
      ensures var f := FetchExtended(old(reader.Rest()));
              && reader.Rest() == f.rest
              && ok == Executes(p, f.instr)
              && (ok ==> State() == Exec(p, old(State()), f.instr))
    {
      hide ULebValue, LebRest, UintAt, RestAfter, FetchSubOpcode, Executes, Exec;
      var r, size := reader.ReadULeb128();
      var extendedOpcode := reader.ReadU8();
      ok := StepSubOpcode(reader, size, extendedOpcode);
    }

    /** The cases of that branch. */
    method StepSubOpcode(reader: BinaryReader, size: u64, extendedOpcode: u8) returns (ok: bool)
      requires reader.Valid()
      modifies reader, sm, table
      ensures reader.Valid()
      ensures var f := FetchSubOpcode(size, extendedOpcode, old(reader.Rest()));
              && reader.Rest() == f.rest
              && ok == Executes(p, f.instr)
              && (ok ==> State() == Exec(p, old(State()), f.instr))
    {
      hide ULebValue, LebRest, FetchSetAddress, Append, ToU32, RowOf, Initial;
      ok := true;
      match extendedOpcode
      case 1 =>
        StepEndSequence();
      case 2 =>
        ok := StepSetAddress(reader, size);
      case 4 =>
        var _, discriminator := reader.ReadULeb128();
        sm.discriminator := ToU32(discriminator);
      case _ =>
    }

    method StepEndSequence()
      modifies sm, table
      ensures State() == Exec(p, old(State()), EndSequence)
    {
      sm.endSequence := true;
      table.AppendEntry(sm);
      sm.Reset(p);
    }

    method StepSetAddress(reader: BinaryReader, size: u64) returns (ok: bool)
      requires reader.Valid()
      modifies reader, sm
      ensures reader.Valid()
      ensures var f := FetchSetAddress(size, old(reader.Rest()));
              && reader.Rest() == f.rest
              && ok == Executes(p, f.instr)
              && (ok ==> State() == Exec(p, old(State()), f.instr))
    {
      var n := ToU64(size - 1);
      hide ToU64, FromLE, Pow2;
      var r, raw := reader.ReadBytes(n);
      if r.status != ReadOk {
        sm.address := 0;
      } else if n <= 8 {
        FromLEBound(raw);
        Pow2Values();
        Pow2Mono(8 * n, 64);
        sm.address := FromLE(raw);
      } else {
        return false;
      }
      sm.opIndex := 0;
      return true;
    }

    /** The branch for a standard opcode. */
    method StepStandard(reader: BinaryReader, opcode: u8) returns (ok: bool)
      requires reader.Valid()
      modifies reader, sm, table
      ensures reader.Valid()
      ensures var f := FetchStandard(opcode, old(reader.Rest()));
              && reader.Rest() == f.rest
              && ok == Executes(p, f.instr)
              && (ok ==> State() == Exec(p, old(State()), f.instr))
    {
      hide MoveOps, Append, ULebValue, SLebValue, LebRest, UintAt, RestAfter, ToU64, ToU32, ToI64, ToU16;
      hide FetchStandard, Exec, Executes;
      if opcode in {2, 3, 9} {
        ok := StepAdvance(reader, opcode);
      } else if opcode in {4, 5, 12} {
        StepStore(reader, opcode);
        ok := true;
      } else {
        ok := StepPlain(opcode, reader.Rest());
      }
    }

    /** The cases of that branch without operand; an opcode without a case does nothing. */
    method StepPlain(opcode: u8, ghost rest: seq<u8>) returns (ok: bool)
      requires opcode !in {2, 3, 4, 5, 9, 12}
      modifies sm, table
      ensures var f := FetchStandard(opcode, rest);
              && f.rest == rest
              && ok == Executes(p, f.instr)
              && (ok ==> State() == Exec(p, old(State()), f.instr))
    {
      hide MoveOps, Emit, Append, SpecialAdvance, SpecialLine, Initial, ULebValue, SLebValue, LebRest, UintAt;
      hide RestAfter, ToU64, ToU32, ToI64, ToU16;
      match opcode {
        case 1 =>
          EmitRow();
        case 6 =>
          sm.isStmt := !sm.isStmt;
        case 7 =>
          sm.basicBlock := true;
        case 8 =>
          if p.lineRange == 0 || p.maxOps == 0 { return false; }
          sm.Advance(p, (255 - p.opcodeBase) / p.lineRange);
        case 10 =>
          sm.prologueEnd := true;
        case 11 =>
          sm.epilogueBegin := true;
        case _ =>
      }
      return true;
    }

    /** The cases of that branch whose operand moves the address or the line. */
    method StepAdvance(reader: BinaryReader, opcode: u8) returns (ok: bool)
      requires reader.Valid() && opcode in {2, 3, 9}
      modifies reader, sm
      ensures reader.Valid()
      ensures var f := FetchStandard(opcode, old(reader.Rest()));
              && reader.Rest() == f.rest
              && ok == Executes(p, f.instr)
              && (ok ==> State() == Exec(p, old(State()), f.instr))
    {
      hide ULebValue, SLebValue, LebRest, UintAt, RestAfter, MoveOps, ToU64, ToU32, ToI64;
      match opcode {
        case 2 =>
          var _, opAdvance := reader.ReadULeb128();
          if p.maxOps == 0 { return false; }
          sm.Advance(p, opAdvance);
        case 3 =>
          var _, lineIncrement := reader.ReadSLeb128();
          sm.line := ToU32(ToI64(sm.line + lineIncrement));
        case 9 =>
          var _, fixedAdvance := reader.ReadUint(2, 0);
          sm.address := ToU64(sm.address + fixedAdvance);
          sm.opIndex := 0;
      }
      return true;
    }

    /** The cases of that branch whose operand is stored in a register. */
    method StepStore(reader: BinaryReader, opcode: u8)
      requires reader.Valid() && opcode in {4, 5, 12}
      modifies reader, sm
      ensures reader.Valid()
      ensures var f := FetchStandard(opcode, old(reader.Rest()));
              && reader.Rest() == f.rest
              && Executes(p, f.instr)
              && State() == Exec(p, old(State()), f.instr)
    {
      hide ULebValue, SLebValue, LebRest, MoveOps, ToU32, ToU16;
      var _, operand := reader.ReadULeb128();
      match opcode {
        case 4 => sm.file := ToU32(operand);
        case 5 => sm.column := ToU32(operand);
        case 12 => sm.isa := ToU16(operand);
      }
    }

    /** Appends a row and clears what holds for one row only. */
    method EmitRow()
      modifies sm, table
      ensures State() == Emit(old(State()))
    {
      table.AppendEntry(sm);
      sm.ClearRowFlags();
    }

    /** The branch for a special opcode. */
    method StepSpecial(opcode: u8) returns (ok: bool)
      requires opcode >= p.opcodeBase
      modifies sm, table
      ensures ok == Executes(p, Special(opcode))
      ensures ok ==> State() == Exec(p, old(State()), Special(opcode))
    {
      hide ToU32, MoveOps, Emit;
      if p.lineRange == 0 || p.maxOps == 0 { return false; }
      var adjusted := opcode - p.opcodeBase;
      var opAdvance := adjusted / p.lineRange;
      assert SpecialAdvance(p, opcode) == opAdvance && SpecialLine(p, opcode) == p.lineBase + adjusted % p.lineRange;
      hide SpecialAdvance, SpecialLine;
      WrapTwice(sm.line, SpecialLine(p, opcode));
      sm.line := ToU32(sm.line + ToU32(p.lineBase + adjusted % p.lineRange));
      sm.Advance(p, opAdvance);
      EmitRow();
      return true;
    }

    /** One turn of the decoding loop. */
    method Step(reader: BinaryReader) returns (fault: Option<Fault>)
      requires reader.Valid() && reader.remaining > 0
      modifies reader, sm, table
      ensures reader.Valid()
      ensures var f := Fetch(p.opcodeBase, old(reader.Rest()));
              && reader.Rest() == f.rest
              && fault == (if Executes(p, f.instr) then None else Some(FaultOf(p, f.instr)))
              && (fault.None? ==> State() == Exec(p, old(State()), f.instr))
    {
      FaultKinds(p, Fetch(p.opcodeBase, reader.Rest()).instr);
      FetchedKinds(p.opcodeBase, reader.Rest());
      hide FetchExtended, FetchStandard, Exec, Executes, FaultOf;
      var _, opcode := reader.ReadByte();
      var ok;
      if opcode == 0 {
        ok := StepExtended(reader);
      } else if opcode < p.opcodeBase {
        ok := StepStandard(reader, opcode);
      } else {
        ok := StepSpecial(opcode);
      }
      return if ok then None else if opcode == 0 then Some(OutOfBoundsWrite) else Some(DivideByZero);
    }

    /** The loop over the opcode bytes of a program of `length` bytes: it leaves the registers and the
        table of the pure run, and stops at its last byte. An instruction whose operands
        reach past the end of the program is read all the same. */
    method Loop(reader: BinaryReader, length: u64) returns (fault: Option<Fault>)
      requires reader.Valid() && length <= reader.remaining
      modifies reader, sm, table
      ensures reader.Valid()
      ensures RunBytes(p, old(State()), old(reader.Rest()), length) ==
              if fault.None? then Done(Halted(State(), reader.Rest())) else Crash(fault.value)
    {
      hide Fetch, Exec, Executes, FaultOf, RunBytes, Left;
      var origRemaining := reader.remaining;
      LeftFacts(length, 0);
      while origRemaining - reader.remaining < length
        invariant reader.Valid() && reader.remaining <= origRemaining
        invariant RunBytes(p, State(), reader.Rest(), Left(length, origRemaining - reader.remaining)) ==
                  RunBytes(p, old(State()), old(reader.Rest()), length)
        decreases reader.remaining
      {
        ghost var before := origRemaining - reader.remaining;
        LeftFacts(length, before);
        RunBytesStep(p, State(), reader.Rest(), Left(length, before));
        fault := Step(reader);
        if fault.Some? {
          return;
        }
        LeftTwice(length, before, origRemaining - reader.remaining);
      }
      LeftFacts(length, origRemaining - reader.remaining);
      RunBytesEnd(p, State(), reader.Rest());
      return None;
    }
  }

  lemma FaultKinds(p: Params, i: Instr)
    ensures FaultOf(p, i) == if i.OverlongAddress? then OutOfBoundsWrite else DivideByZero
    ensures i.EndSequence? || i.SetAddress? || i.SetDiscriminator? || i.Ignored? ==> Executes(p, i)
  {
  }

  /** Which branch of the decoder an instruction comes from. */
  lemma FetchedKinds(base: u8, s: seq<u8>)
    requires s != []
    ensures var i := Fetch(base, s).instr;
            if s[0] == 0 then i.EndSequence? || i.SetAddress? || i.SetDiscriminator? || i.Ignored? || i.OverlongAddress?
            else !i.OverlongAddress?
  {
    hide ULebValue, SLebValue, LebRest, UintAt, RestAfter;
  }

  /** Decodes a program of `length` bytes. */
  method DecodeLineNumProg(p: Params, reader: BinaryReader, length: u64) returns (r: Outcome<Table>)
    requires reader.Valid() && length <= reader.remaining
    modifies reader
    ensures reader.Valid()
    ensures DecodeBytes(p, old(reader.Rest()), length) ==
            match r { case Done(t) => Done(Decoded(t, reader.Rest())) case Crash(fault) => Crash(fault) }
  {
    hide RunBytes;
    var decoder := new Decoder(p);
    var fault := decoder.Loop(reader, length);
    return if fault.Some? then Crash(fault.value) else Done(decoder.table.sequences);
  }
}

/**
 * Line-number programs as bytes (sections 6.2.5.1 to 6.2.5.3 of the DWARF 5 standard): how
 * `decode_line_num_prog` cuts the next instruction off the unread bytes, the encodings of the
 * instructions, and the proof that cutting undoes encoding.
 */
module LineProgram {
  import opened Words
  import opened Wrappers
  import opened Leb128
  import opened Reader
  import opened LineMachine

  datatype Fetched = Fetched(instr: Instr, rest: seq<u8>)

  datatype Program = Program(instrs: seq<Instr>, rest: seq<u8>)

  // ----- cutting one instruction -----

  function FetchSetAddress(size: u64, s: seq<u8>): (f: Fetched)
    ensures |f.rest| <= |s|
  {
    var n := ToU64(size - 1);
    if n > |s| then Fetched(SetAddress(0), s)
    else if n <= 8 then
      FromLEBound(s[..n]);
      Pow2Values();
      Pow2Mono(8 * n, 64);
      Fetched(SetAddress(FromLE(s[..n])), s[n..])
    else Fetched(OverlongAddress, s[n..])
  }

  /** What follows the size and the opcode of an extended instruction. */
  function FetchSubOpcode(size: u64, opcode: int, s: seq<u8>): (f: Fetched)
    ensures |f.rest| <= |s|
  {
    if opcode == 1 then Fetched(EndSequence, s)
    else if opcode == 2 then FetchSetAddress(size, s)
    else if opcode == 4 then Fetched(SetDiscriminator(ULebValue(s)), LebRest(s))
    else Fetched(Ignored, s)
  }

  /** What follows a zero opcode byte. */
  function FetchExtended(s: seq<u8>): (f: Fetched)
    ensures |f.rest| <= |s|
  {
    var afterSize := LebRest(s);
    FetchSubOpcode(ULebValue(s), UintAt(afterSize, 1, 0), RestAfter(afterSize, 1))
  }

  /** What follows a standard opcode byte. */
  function FetchStandard(opcode: u8, s: seq<u8>): (f: Fetched)
    ensures |f.rest| <= |s|
  {
    match opcode
    case 1 => Fetched(Copy, s)
    case 2 => Fetched(AdvancePc(ULebValue(s)), LebRest(s))
    case 3 => Fetched(AdvanceLine(SLebValue(s)), LebRest(s))
    case 4 => Fetched(SetFile(ULebValue(s)), LebRest(s))
    case 5 => Fetched(SetColumn(ULebValue(s)), LebRest(s))
    case 6 => Fetched(NegateStmt, s)
    case 7 => Fetched(SetBasicBlock, s)
    case 8 => Fetched(ConstAddPc, s)
    case 9 =>
      UintAtBound(s, 2);
      Pow2Values();
      Fetched(FixedAdvancePc(UintAt(s, 2, 0)), RestAfter(s, 2))
    case 10 => Fetched(SetPrologueEnd, s)
    case 11 => Fetched(SetEpilogueBegin, s)
    case 12 => Fetched(SetIsa(ULebValue(s)), LebRest(s))
    case _ => Fetched(Ignored, s)
  }

  function Fetch(base: u8, s: seq<u8>): (f: Fetched)
    requires s != []
    ensures |f.rest| < |s|
  {
    if s[0] == 0 then FetchExtended(s[1..])
    else if s[0] < base then FetchStandard(s[0], s[1..])
    else Fetched(Special(s[0]), s[1..])
  }

  /** What is left of a budget; an instruction may overdraw it. */
  function Left(budget: nat, used: nat): nat {
    if used < budget then budget - used else 0
  }

  lemma LeftFacts(budget: nat, used: nat)
    ensures Left(budget, 0) == budget
    ensures used <= budget ==> Left(budget, used) == budget - used
    ensures Left(budget, used) == 0 <==> used >= budget
  {
  }

  lemma LeftTwice(budget: nat, before: nat, after: nat)
    requires before <= after
    ensures Left(Left(budget, before), after - before) == Left(budget, after)
  {
  }

  /** Instruction after instruction until `budget` bytes are used up. */
  function Parse(base: u8, s: seq<u8>, budget: nat): (g: Program)
    ensures |g.rest| <= |s|
    decreases |s|
  {
    if budget == 0 || s == [] then Program([], s)
    else
      var f := Fetch(base, s);
      var used := |s| - |f.rest|;
      var tail := Parse(base, f.rest, Left(budget, used));
      Program([f.instr] + tail.instrs, tail.rest)
  }

  /** Cutting uses its budget up if there are as many bytes; the last instruction may overdraw it. */
  lemma {:induction false} ParseTakesBudget(base: u8, s: seq<u8>, budget: nat)
    requires budget <= |s|
    ensures |Parse(base, s, budget).rest| + budget <= |s|
    decreases |s|
  {
    hide Fetch;
    if budget == 0 || s == [] {
    } else {
      var f := Fetch(base, s);
      ParseTakesBudget(base, f.rest, Left(budget, |s| - |f.rest|));
    }
  }

  /** Registers and table after the last instruction, and the bytes after it. */
  datatype Halted = Halted(machine: Machine, rest: seq<u8>)

  datatype Decoded = Decoded(table: Table, rest: seq<u8>)

  /** What cutting `length` bytes' worth of instructions off `s` and running them from `m` comes to. */
  function RunBytes(p: Params, m: Machine, s: seq<u8>, length: nat): Outcome<Halted> {
    var g := Parse(p.opcodeBase, s, length);
    match Run(p, m, g.instrs)
    case Done(m') => Done(Halted(m', g.rest))
    case Crash(fault) => Crash(fault)
  }

  /** What decoding a program of `length` bytes at the front of `s` comes to. */
  function DecodeBytes(p: Params, s: seq<u8>, length: nat): Outcome<Decoded> {
    match RunBytes(p, Start(p), s, length)
    case Done(h) => Done(Decoded(h.machine.table, h.rest))
    case Crash(fault) => Crash(fault)
  }

  /** What decoding all of these bytes comes to. */
  function DecodeAll(p: Params, s: seq<u8>): Outcome<Decoded> {
    DecodeBytes(p, s, |s|)
  }

  lemma RunBytesStep(p: Params, m: Machine, s: seq<u8>, length: nat)
    requires length > 0 && s != []
    ensures
      var f := Fetch(p.opcodeBase, s);
      var used := |s| - |f.rest|;
      RunBytes(p, m, s, length) ==
      if Executes(p, f.instr)
      then RunBytes(p, Exec(p, m, f.instr), f.rest, Left(length, used))
      else Crash(FaultOf(p, f.instr))
  {
    hide Fetch, Exec, Executes, FaultOf, Left;
    var f := Fetch(p.opcodeBase, s);
    var tail := Parse(p.opcodeBase, f.rest, Left(length, |s| - |f.rest|));
    assert ([f.instr] + tail.instrs)[1..] == tail.instrs;
  }

  lemma RunBytesEnd(p: Params, m: Machine, s: seq<u8>)
    ensures RunBytes(p, m, s, 0) == Done(Halted(m, s))
  {
  }

  // ----- encodings -----

  /** The instructions a program with this `opcode_base` can contain. */
  predicate Encodable(base: u8, i: Instr) {
    match i
    case Special(opcode) => opcode >= base && opcode > 0
    case Copy => base > 1
    case AdvancePc(_) => base > 2
    case AdvanceLine(_) => base > 3
    case SetFile(_) => base > 4
    case SetColumn(_) => base > 5
    case NegateStmt => base > 6
    case SetBasicBlock => base > 7
    case ConstAddPc => base > 8
    case FixedAdvancePc(_) => base > 9
    case SetPrologueEnd => base > 10
    case SetEpilogueBegin => base > 11
    case SetIsa(_) => base > 12
    case Ignored => false
    case OverlongAddress => false
    case _ => true
  }

  function EncodeInstr(i: Instr): seq<u8> {
    match i
    case Special(opcode) => [opcode]
    case Copy => [1]
    case AdvancePc(n) => [2] + EncodeULeb(n)
    case AdvanceLine(n) => [3] + EncodeSLeb(n)
    case SetFile(n) => [4] + EncodeULeb(n)
    case SetColumn(n) => [5] + EncodeULeb(n)
    case NegateStmt => [6]
    case SetBasicBlock => [7]
    case ConstAddPc => [8]
    case FixedAdvancePc(n) => [9] + LE(2, n)
    case SetPrologueEnd => [10]
    case SetEpilogueBegin => [11]
    case SetIsa(n) => [12] + EncodeULeb(n)
    case EndSequence => [0] + EncodeULeb(1) + [1]
    case SetAddress(a) => [0] + EncodeULeb(9) + ([2] + LE(8, a))
    case SetDiscriminator(n) => [0] + EncodeULeb(1 + |EncodeULeb(n)|) + ([4] + EncodeULeb(n))
    case Ignored => []
    case OverlongAddress => []
  }

  function EncodeProgram(prog: seq<Instr>): seq<u8> {
    if prog == [] then [] else EncodeInstr(prog[0]) + EncodeProgram(prog[1..])
  }

  predicate AllEncodable(base: u8, prog: seq<Instr>) {
    forall i :: 0 <= i < |prog| ==> Encodable(base, prog[i])
  }

  // ----- complete instructions: no operand is cut short by the end of the bytes -----

  predicate LebComplete(s: seq<u8>) {
    LebTerminated(s, LEB_CAP) || LebLength(s, LEB_CAP) == LEB_CAP
  }

  predicate WholeExtended(s: seq<u8>) {
    LebComplete(s) && LebRest(s) != [] &&
    var opcode, operands := LebRest(s)[0], LebRest(s)[1..];
    && (opcode == 2 ==> ToU64(ULebValue(s) - 1) <= |operands|)
    && (opcode == 4 ==> LebComplete(operands))
  }

  predicate WholeStandard(opcode: u8, s: seq<u8>) {
    && (opcode in {2, 3, 4, 5, 12} ==> LebComplete(s))
    && (opcode == 9 ==> |s| >= 2)
  }

  predicate Whole(base: u8, s: seq<u8>)
    requires s != []
  {
    if s[0] == 0 then WholeExtended(s[1..])
    else s[0] < base ==> WholeStandard(s[0], s[1..])
  }

  /** A program that ends where an instruction ends, in any of its equivalent encodings. */
  predicate WholeProgram(base: u8, s: seq<u8>)
    decreases |s|
  {
    s == [] || (Whole(base, s) && WholeProgram(base, Fetch(base, s).rest))
  }

  lemma LebPrefix(s: seq<u8>, t: seq<u8>)
    requires LebComplete(s)
    ensures ULebValue(s + t) == ULebValue(s) && SLebValue(s + t) == SLebValue(s)
    ensures LebRest(s + t) == LebRest(s) + t
    ensures LebComplete(s + t)
  {
    LebLengthPrefix(s, t, LEB_CAP);
    var n := LebLength(s, LEB_CAP);
    assert (s + t)[..n] == s[..n];
  }

  lemma UintPrefix(s: seq<u8>, t: seq<u8>, n: nat)
    requires n <= |s|
    ensures UintAt(s + t, n, 0) == UintAt(s, n, 0)
    ensures RestAfter(s + t, n) == RestAfter(s, n) + t
  {
    assert (s + t)[..n] == s[..n];
  }

  lemma ReadOne(b: u8, t: seq<u8>)
    ensures UintAt([b] + t, 1, 0) == b && RestAfter([b] + t, 1) == t
  {
    assert ([b] + t)[..1] == [b];
    assert FromLE([b]) == b;
  }

  lemma FetchExtendedPrefix(s: seq<u8>, t: seq<u8>)
    requires WholeExtended(s)
    ensures FetchExtended(s + t).instr == FetchExtended(s).instr
    ensures FetchExtended(s + t).rest == FetchExtended(s).rest + t
  {
    LebPrefix(s, t);
    UintPrefix(LebRest(s), t, 1);
    var opcode, operands := LebRest(s)[0], LebRest(s)[1..];
    assert UintAt(LebRest(s), 1, 0) == opcode by {
      ReadOne(opcode, operands);
      assert LebRest(s) == [opcode] + operands;
    }
    if opcode == 2 {
      UintPrefix(operands, t, ToU64(ULebValue(s) - 1));
    } else if opcode == 4 {
      LebPrefix(operands, t);
    }
  }

  lemma FetchStandardPrefix(opcode: u8, s: seq<u8>, t: seq<u8>)
    requires WholeStandard(opcode, s)
    ensures FetchStandard(opcode, s + t).instr == FetchStandard(opcode, s).instr
    ensures FetchStandard(opcode, s + t).rest == FetchStandard(opcode, s).rest + t
  {
    if opcode in {2, 3, 4, 5, 12} {
      LebPrefix(s, t);
    } else if opcode == 9 {
      UintPrefix(s, t, 2);
    }
  }

  /** Bytes after a complete instruction do not change how it is cut. */
  lemma FetchPrefix(base: u8, s: seq<u8>, t: seq<u8>)
    requires s != [] && Whole(base, s)
    ensures Fetch(base, s + t) == Fetched(Fetch(base, s).instr, Fetch(base, s).rest + t)
  {
    assert (s + t)[1..] == s[1..] + t;
    if s[0] == 0 {
      FetchExtendedPrefix(s[1..], t);
    } else if s[0] < base {
      FetchStandardPrefix(s[0], s[1..], t);
    }
  }

  /** A complete program is cut into the same instructions whatever follows it, and cutting stops
      exactly after its last byte. */
  lemma {:induction false} ParseWhole(base: u8, s: seq<u8>, t: seq<u8>)
    requires WholeProgram(base, s)
    ensures Parse(base, s + t, |s|) == Program(Parse(base, s, |s|).instrs, t)
    decreases |s|
  {
    hide Fetch, Whole, Left;
    if s == [] {
      assert s + t == t;
    } else {
      var f := Fetch(base, s);
      FetchPrefix(base, s, t);
      LeftFacts(|s|, |s| - |f.rest|);
      ParseWhole(base, f.rest, t);
    }
  }

  lemma {:induction false} ParseWholeAppend(base: u8, s: seq<u8>, t: seq<u8>)
    requires WholeProgram(base, s)
    ensures Parse(base, s + t, |s + t|).instrs == Parse(base, s, |s|).instrs + Parse(base, t, |t|).instrs
    decreases |s|
  {
    hide Fetch, Whole, Left;
    if s == [] {
      assert s + t == t;
    } else {
      var f := Fetch(base, s);
      FetchPrefix(base, s, t);
      LeftFacts(|s|, |s| - |f.rest|);
      LeftFacts(|s + t|, |s| - |f.rest|);
      ParseWholeAppend(base, f.rest, t);
    }
  }

  // ----- cutting undoes encoding -----

  lemma LebCompleteEncoding(v: u64)
    ensures LebComplete(EncodeULeb(v))
    ensures ULebValue(EncodeULeb(v)) == v && LebRest(EncodeULeb(v)) == []
  {
    ULebRoundTrip(v, []);
    assert EncodeULeb(v) + [] == EncodeULeb(v);
  }

  /** The size and the sub-opcode in front of the operands of an extended instruction. */
  lemma ExtendedFrame(size: u64, opcode: u8, operands: seq<u8>)
    ensures var s := EncodeULeb(size) + ([opcode] + operands);
            LebComplete(s) && ULebValue(s) == size && LebRest(s) == [opcode] + operands
    ensures UintAt([opcode] + operands, 1, 0) == opcode && RestAfter([opcode] + operands, 1) == operands
  {
    ULebRoundTrip(size, [opcode] + operands);
    LebCompleteEncoding(size);
    LebPrefix(EncodeULeb(size), [opcode] + operands);
    ReadOne(opcode, operands);
  }

  lemma FetchEncodedSetAddress(a: u64)
    ensures FetchExtended(EncodeULeb(9) + ([2] + LE(8, a))) == Fetched(SetAddress(a), [])
    ensures WholeExtended(EncodeULeb(9) + ([2] + LE(8, a)))
  {
    ExtendedFrame(9, 2, LE(8, a));
    Pow2Values();
    LERoundTrip(8, a);
    hide EncodeULeb, LE, FromLE, ULebValue, LebRest, LebComplete, UintAt, RestAfter;
    assert LE(8, a)[..8] == LE(8, a) && LE(8, a)[8..] == [];
  }

  /** The address operand may be of any width that holds the address, up to eight bytes. */
  lemma SetAddressOfAnyWidth(base: u8, width: nat, a: u64, t: seq<u8>)
    requires width <= 8 && a < Pow2(8 * width)
    ensures
      var s := [0] + (EncodeULeb(1 + width) + ([2] + LE(width, a)));
      && Whole(base, s)
      && Fetch(base, s + t) == Fetched(SetAddress(a), t)
  {
    hide EncodeULeb, LE, FromLE, ULebValue, LebRest, LebComplete, UintAt, RestAfter, Pow2;
    var r := EncodeULeb(1 + width) + ([2] + LE(width, a));
    ExtendedFrame(1 + width, 2, LE(width, a));
    LERoundTrip(width, a);
    assert LE(width, a)[..width] == LE(width, a) && LE(width, a)[width..] == [];
    assert FetchExtended(r) == Fetched(SetAddress(a), []) && WholeExtended(r);
    hide FetchExtended, WholeExtended;
    var s := [0] + r;
    assert s[1..] == r && [] + t == t;
    FetchPrefix(base, s, t);
  }

  lemma FetchEncodedDiscriminator(n: u64)
    ensures FetchExtended(EncodeULeb(1 + |EncodeULeb(n)|) + ([4] + EncodeULeb(n))) == Fetched(SetDiscriminator(n), [])
    ensures WholeExtended(EncodeULeb(1 + |EncodeULeb(n)|) + ([4] + EncodeULeb(n)))
  {
    Pow2Values();
    Pow2Mono(64, 70);
    EncodeULebLength(n, 10);
    LebCompleteEncoding(n);
    ExtendedFrame(1 + |EncodeULeb(n)|, 4, EncodeULeb(n));
    hide EncodeULeb, ULebValue, LebRest, LebComplete, UintAt, RestAfter;
  }

  lemma FetchEncodedExtended(i: Instr)
    requires i.EndSequence? || i.SetAddress? || i.SetDiscriminator?
    ensures EncodeInstr(i) != [] && EncodeInstr(i)[0] == 0
    ensures FetchExtended(EncodeInstr(i)[1..]) == Fetched(i, [])
    ensures WholeExtended(EncodeInstr(i)[1..])
  {
    hide FetchExtended, WholeExtended, EncodeULeb, LE;
    match i
    case EndSequence =>
      FetchEncodedEnd();
      assert EncodeInstr(i)[1..] == EncodeULeb(1) + ([1] + []);
    case SetAddress(a) =>
      FetchEncodedSetAddress(a);
      assert EncodeInstr(i)[1..] == EncodeULeb(9) + ([2] + LE(8, a));
    case SetDiscriminator(n) =>
      FetchEncodedDiscriminator(n);
      assert EncodeInstr(i)[1..] == EncodeULeb(1 + |EncodeULeb(n)|) + ([4] + EncodeULeb(n));
  }

  lemma FetchEncodedEnd()
    ensures FetchExtended(EncodeULeb(1) + ([1] + [])) == Fetched(EndSequence, [])
    ensures WholeExtended(EncodeULeb(1) + ([1] + []))
  {
    ExtendedFrame(1, 1, []);
    hide EncodeULeb, ULebValue, LebRest, LebComplete, UintAt, RestAfter;
  }

  lemma FetchEncodedStandard(base: u8, i: Instr)
    requires Encodable(base, i)
    requires !(i.EndSequence? || i.SetAddress? || i.SetDiscriminator? || i.Special?)
    ensures EncodeInstr(i) != [] && 0 < EncodeInstr(i)[0] < base
    ensures FetchStandard(EncodeInstr(i)[0], EncodeInstr(i)[1..]) == Fetched(i, [])
    ensures WholeStandard(EncodeInstr(i)[0], EncodeInstr(i)[1..])
  {
    match i
    case AdvancePc(n) => LebCompleteEncoding(n);
    case AdvanceLine(n) =>
      SLebRoundTrip(n, []);
      assert EncodeSLeb(n) + [] == EncodeSLeb(n);
    case SetFile(n) => LebCompleteEncoding(n);
    case SetColumn(n) => LebCompleteEncoding(n);
    case SetIsa(n) => LebCompleteEncoding(n);
    case FixedAdvancePc(n) =>
      Pow2Values();
      UintRoundTrip(2, n, []);
      assert LE(2, n) + [] == LE(2, n);
    case _ =>
  }

  /** The decoder cuts an encoded instruction back into that instruction, and it is complete. */
  lemma FetchEncoded(base: u8, i: Instr)
    requires Encodable(base, i)
    ensures EncodeInstr(i) != [] && Whole(base, EncodeInstr(i))
    ensures Fetch(base, EncodeInstr(i)) == Fetched(i, [])
  {
    if i.EndSequence? || i.SetAddress? || i.SetDiscriminator? {
      FetchEncodedExtended(i);
    } else if !i.Special? {
      FetchEncodedStandard(base, i);
    }
  }

  /** Serialising instructions and cutting the bytes gives the instructions back; the serialised
      program is a complete one, so `ParseWhole` applies to it. */
  lemma {:induction false} ProgramRoundTrip(base: u8, prog: seq<Instr>)
    requires AllEncodable(base, prog)
    ensures WholeProgram(base, EncodeProgram(prog))
    ensures Parse(base, EncodeProgram(prog), |EncodeProgram(prog)|) == Program(prog, [])
  {
    if prog == [] {
    } else {
      var e, t := EncodeInstr(prog[0]), EncodeProgram(prog[1..]);
      FetchEncoded(base, prog[0]);
      FetchPrefix(base, e, t);
      assert [] + t == t;
      assert Whole(base, e + t) by { WholePrefix(base, e, t); }
      ProgramRoundTrip(base, prog[1..]);
      assert prog == [prog[0]] + prog[1..];
    }
  }

  /** Decoding the bytes of a serialised program is running it, whatever bytes follow. */
  lemma DecodeEncoded(p: Params, prog: seq<Instr>, t: seq<u8>)
    requires AllEncodable(p.opcodeBase, prog)
    ensures DecodeBytes(p, EncodeProgram(prog) + t, |EncodeProgram(prog)|) ==
            match Run(p, Start(p), prog) {
              case Done(m) => Done(Decoded(m.table, t))
              case Crash(fault) => Crash(fault)
            }
  {
    hide Parse, Run, EncodeProgram, Start;
    ProgramRoundTrip(p.opcodeBase, prog);
    ParseWhole(p.opcodeBase, EncodeProgram(prog), t);
  }

  lemma DecodeEncodedAll(p: Params, prog: seq<Instr>)
    requires AllEncodable(p.opcodeBase, prog) && Run(p, Start(p), prog).Done?
    ensures DecodeAll(p, EncodeProgram(prog)) == Done(Decoded(Run(p, Start(p), prog).value.table, []))
  {
    hide Run, EncodeProgram, DecodeBytes, AllEncodable;
    DecodeEncoded(p, prog, []);
    assert EncodeProgram(prog) + [] == EncodeProgram(prog);
  }

  /** A complete program, in any of its encodings, decodes the same whatever bytes follow it, and
      decoding stops exactly after its last byte. */
  lemma DecodeWhole(p: Params, s: seq<u8>, t: seq<u8>)
    requires WholeProgram(p.opcodeBase, s)
    ensures DecodeBytes(p, s + t, |s|) ==
            match DecodeAll(p, s) {
              case Done(d) => Done(Decoded(d.table, t))
              case Crash(fault) => Crash(fault)
            }
  {
    hide Parse, Run, WholeProgram;
    ParseWhole(p.opcodeBase, s, t);
  }

  lemma WholePrefix(base: u8, s: seq<u8>, t: seq<u8>)
    requires s != [] && Whole(base, s)
    ensures Whole(base, s + t)
  {
    assert (s + t)[1..] == s[1..] + t;
    if s[0] == 0 {
      LebPrefix(s[1..], t);
      var r := LebRest(s[1..]);
      assert (r + t)[1..] == r[1..] + t;
      if r[0] == 4 { LebPrefix(r[1..], t); }
    } else if s[0] < base && s[0] in {2, 3, 4, 5, 12} {
      LebPrefix(s[1..], t);
    }
  }
}

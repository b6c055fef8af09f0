/**
 * One `.debug_line` section byte for byte (laid out as in section 6.2.4 of the DWARF 5 standard),
 * with a directory table, a file table of three fields and a program of six instructions, and
 * exactly what the parser makes of it.
 */
module SectionExample {
  import opened Words
  import opened Wrappers
  import opened Leb128
  import opened LineMachine
  import opened LineProgram
  import opened LineTables
  import opened LineOpcodes
  import opened LineHeader
  import opened LineSection

  const HEADER_BYTES: seq<u8> :=
    [0x57, 0, 0, 0] +                       // unit length
    [5, 0] + [8] + [0] +                    // version, address size, segment selector size
    [0x3b, 0, 0, 0] +                       // header length
    [1, 2, 1, 0xfb, 14, 13] +               // widths, default_is_stmt, line base -5, line range, opcode base
    [0, 1, 1, 1, 1, 0, 0, 0, 1, 0, 0, 1]    // operands of the standard opcodes

  const DIRECTORY_BYTES: seq<u8> :=
    [1] + [0x01, 0x1f] +                    // one format: path, line_strp
    [2] + [0, 0, 0, 0] + [0x2a, 0, 0, 0]    // two entries

  const FILE_BYTES: seq<u8> :=
    [3] + [0x01, 0x08] + [0x02, 0x0b] + [0x05, 0x1e] +  // path, string; directory, data1; MD5, data16
    [1] + [97, 46, 99, 0] + [1] +                       // one entry: a.c in directory 1, and a digest
    [16, 17, 18, 19, 20, 21, 22, 23, 24, 25, 26, 27, 28, 29, 30, 31]

  const PROGRAM_BYTES: seq<u8> :=
    [0, 9, 2] + [0, 0x10, 0x40, 0, 0, 0, 0, 0] +  // set_address 0x401000
    [5, 3] +                                      // set_column 3
    [0x14] +                                      // special: no advance, line + 2
    [0x4b] +                                      // special: advance by 4, line + 1
    [2, 3] +                                      // advance_pc by 3
    [0, 1, 1]                                     // end_sequence

  const PARAMS: Params := Params(1, 2, 1, -5, 14, 13)

  const LENGTHS: seq<u8> := [0, 1, 1, 1, 1, 0, 0, 0, 1, 0, 0, 1]

  const DIRECTORIES: EntryTable := EntryTable(
    [Format(1, 0x1f)], [Entry(SharedPath(0), 0, 0, 0, ZERO_MD5), Entry(SharedPath(42), 0, 0, 0, ZERO_MD5)])

  const DIGEST: Md5 := [16, 17, 18, 19, 20, 21, 22, 23, 24, 25, 26, 27, 28, 29, 30, 31]

  const FILES: EntryTable := EntryTable(
    [Format(1, 0x08), Format(2, 0x0b), Format(5, 0x1e)], [Entry(OwnedPath([97, 46, 99]), 1, 0, 0, DIGEST)])

  /** Two operations per instruction: an advance by 4 is two instructions, one by 3 one and a half. */
  const ROWS: seq<Row> := [
    Row(0x401000, 0, 1, 3, 3, 0, false, true, false, false, false),
    Row(0x401002, 0, 1, 4, 3, 0, false, true, false, false, false),
    Row(0x401003, 1, 1, 4, 3, 0, true, true, false, false, false)]

  const UNIT: LineUnit := LineUnit(false, 5, 8, 0, PARAMS, LENGTHS, DIRECTORIES, FILES, PROGRAM_BYTES)

  const INSTRS: seq<Instr> :=
    [SetAddress(0x401000), SetColumn(3), Special(0x14), Special(0x4b), AdvancePc(3), EndSequence]

  // ----- the program -----

  lemma ProgramBytes()
    ensures AllEncodable(13, INSTRS) && EncodeProgram(INSTRS) == PROGRAM_BYTES
  {
    AddressBytes();
    InstrBytes();
    hide EncodeInstr, EncodeProgram, LE;
    SixBytes(INSTRS);
    Flat([0, 9, 2], LE(8, 0x401000), [5, 3], [0x14], [0x4b], [2, 3], [0, 1, 1]);
  }

  lemma InstrBytes()
    ensures EncodeInstr(SetAddress(0x401000)) == [0, 9, 2] + LE(8, 0x401000)
    ensures EncodeInstr(SetColumn(3)) == [5, 3] && EncodeInstr(AdvancePc(3)) == [2, 3]
    ensures EncodeInstr(EndSequence) == [0, 1, 1]
    ensures EncodeInstr(Special(0x14)) == [0x14] && EncodeInstr(Special(0x4b)) == [0x4b]
  {
    assert EncodeULeb(9) == [9] && EncodeULeb(3) == [3] && EncodeULeb(1) == [1];
    hide LE, EncodeULeb;
  }

  lemma Flat(a: seq<u8>, b: seq<u8>, c: seq<u8>, d: seq<u8>, e: seq<u8>, f: seq<u8>, g: seq<u8>)
    ensures a + (b + (c + (d + (e + (f + g))))) == a + b + c + d + e + f + g
    ensures a + b + (c + (d + (e + (f + g)))) == a + b + c + d + e + f + g
  {
  }

  lemma SixBytes(prog: seq<Instr>)
    requires |prog| == 6
    ensures EncodeProgram(prog) ==
            EncodeInstr(prog[0]) + (EncodeInstr(prog[1]) + (EncodeInstr(prog[2]) +
              (EncodeInstr(prog[3]) + (EncodeInstr(prog[4]) + EncodeInstr(prog[5])))))
  {
    hide EncodeInstr;
    var t5, t4, t3, t2, t1 := prog[5..], prog[4..], prog[3..], prog[2..], prog[1..];
    assert t5[1..] == [] && t4[1..] == t5 && t3[1..] == t4 && t2[1..] == t3 && t1[1..] == t2;
    assert EncodeProgram([]) == [];
    assert EncodeProgram(t5) == EncodeInstr(prog[5]);
    assert EncodeProgram(t4) == EncodeInstr(prog[4]) + EncodeProgram(t5);
    assert EncodeProgram(t3) == EncodeInstr(prog[3]) + EncodeProgram(t4);
    assert EncodeProgram(t2) == EncodeInstr(prog[2]) + EncodeProgram(t3);
    assert EncodeProgram(t1) == EncodeInstr(prog[1]) + EncodeProgram(t2);
  }

  lemma AddressBytes()
    ensures LE(8, 0x401000) == [0, 0x10, 0x40, 0, 0, 0, 0, 0]
  {
    assert LE(5, 0) == [0, 0, 0, 0, 0];
    assert LE(8, 0x401000) == [0] + LE(7, 0x4010);
    assert LE(7, 0x4010) == [0x10] + LE(6, 0x40);
    assert LE(6, 0x40) == [0x40] + LE(5, 0);
  }

  /** The registers before the first row, and after each instruction from then on. */
  const R1: Registers := Registers(0x401000, 0, 1, 1, 3, 0, 0, true, false, false, false, false)
  const R2: Registers := R1.(line := 3)
  const R3: Registers := R1.(line := 4, address := 0x401002)
  const R4: Registers := R1.(line := 4, address := 0x401003, opIndex := 1)

  lemma ProgramMoves()
    ensures Exec(PARAMS, Exec(PARAMS, Start(PARAMS), INSTRS[0]), INSTRS[1]) == Machine(R1, [])
    ensures Exec(PARAMS, Machine(R1, []), INSTRS[2]) == Emit(Machine(R2, []))
    ensures forall t :: Exec(PARAMS, Machine(R2, t), INSTRS[3]) == Emit(Machine(R3, t))
    ensures forall t :: Exec(PARAMS, Machine(R3, t), INSTRS[4]) == Machine(R4, t)
  {
    hide MoveOps, Emit, SpecialAdvance, SpecialLine;
    SpecialParts(PARAMS, 0x14, 0, 7);
    SpecialParts(PARAMS, 0x4b, 4, 6);
    Moves();
  }

  lemma Moves()
    ensures MoveOps(PARAMS, R2, 0) == R2
    ensures MoveOps(PARAMS, R2.(line := 4), 4) == R3
    ensures MoveOps(PARAMS, R3, 3) == R4
  {
    MoveTo(PARAMS, R2, 0, 0, 0);
    MoveTo(PARAMS, R2.(line := 4), 4, 2, 0);
    MoveTo(PARAMS, R3, 3, 1, 1);
    WrapFits(0x401000);
    WrapFits(0x401002);
    WrapFits(0x401003);
    hide MoveOps, ToU64;
  }

  lemma ProgramRuns()
    ensures Run(PARAMS, Start(PARAMS), INSTRS).Done?
    ensures Run(PARAMS, Start(PARAMS), INSTRS).value.table == [ROWS, []]
  {
    RowsAppend();
    ProgramMoves();
    hide Append, MoveOps;
    assert Emit(Machine(R2, [])) == Machine(R2, [[ROWS[0]]]);
    assert Emit(Machine(R3, [[ROWS[0]]])) == Machine(R3, [[ROWS[0], ROWS[1]]]);
    var m := Machine(R4, [[ROWS[0], ROWS[1]]]);
    assert Exec(PARAMS, m, INSTRS[5]) == Machine(Initial(PARAMS), [ROWS, []]);
    hide Exec, Emit;
    RunSix(PARAMS, Start(PARAMS), INSTRS);
  }

  lemma RowsAppend()
    ensures Append([], ROWS[0]) == [[ROWS[0]]]
    ensures Append([[ROWS[0]]], ROWS[1]) == [[ROWS[0], ROWS[1]]]
    ensures Append([[ROWS[0], ROWS[1]]], ROWS[2]) == [ROWS, []]
  {
    FirstRow(ROWS[0]);
    var one, two: Table := [[ROWS[0]]], [[ROWS[0], ROWS[1]]];
    assert one[0 := one[0] + [ROWS[1]]] == two by { assert one[0] + [ROWS[1]] == two[0]; }
    assert two[0] + [ROWS[2]] == ROWS;
    assert two[0 := ROWS] + [[]] == [ROWS, []];
  }

  lemma RunSix(p: Params, m: Machine, prog: seq<Instr>)
    requires |prog| == 6 && forall i :: 0 <= i < 6 ==> Executes(p, prog[i])
    ensures
      var m2 := Exec(p, Exec(p, m, prog[0]), prog[1]);
      var m4 := Exec(p, Exec(p, m2, prog[2]), prog[3]);
      Run(p, m, prog) == Done(Exec(p, Exec(p, m4, prog[4]), prog[5]))
  {
    hide Exec, Executes;
    var t5, t4, t3, t2, t1 := prog[5..], prog[4..], prog[3..], prog[2..], prog[1..];
    assert t5[1..] == [] && t4[1..] == t5 && t3[1..] == t4 && t2[1..] == t3 && t1[1..] == t2;
    var m2 := Exec(p, Exec(p, m, prog[0]), prog[1]);
    var m4 := Exec(p, Exec(p, m2, prog[2]), prog[3]);
    var m5 := Exec(p, m4, prog[4]);
    assert Run(p, m5, t5) == Done(Exec(p, m5, prog[5])) by { assert t5[0] == prog[5]; }
    assert Run(p, m4, t4) == Run(p, m5, t5);
    assert Run(p, m2, t2) == Run(p, Exec(p, m2, prog[2]), t3) == Run(p, m4, t4);
  }

  // ----- the header -----

  lemma DirectoryBytes()
    ensures TableFits(DIRECTORIES, false) && EncodeTable(DIRECTORIES, false) == DIRECTORY_BYTES
  {
    var formats, es := DIRECTORIES.formats, DIRECTORIES.entries;
    assert LE(4, 0) == [0, 0, 0, 0] && LE(4, 42) == [0x2a, 0, 0, 0] by { SmallNumber(0); SmallNumber(42); }
    hide LE;
    assert EncodeFormats(formats) == [1, 0x1f] by { assert formats[1..] == []; }
    forall i | 0 <= i < |es|
      ensures EntryFits(es[i], formats, false) && EncodeEntry(es[i], formats, false) == LE(4, es[i].path.offset)
    {
      assert formats[1..] == [] && Types(formats) == {1};
    }
    hide EncodeEntry, EntryFits;
    var rest := es[1..];
    assert rest[0] == es[1] && rest[1..] == [];
    assert EncodeEntries(rest, formats, false) == [0x2a, 0, 0, 0] + [];
    assert EncodeEntries(es, formats, false) == [0, 0, 0, 0] + [0x2a, 0, 0, 0];
    assert EncodeULeb(2) == [2];
  }

  lemma SmallNumber(n: nat)
    requires n < 0x100
    ensures LE(4, n) == [n, 0, 0, 0]
  {
    assert LE(3, 0) == [0, 0, 0];
  }

  lemma FileBytes()
    ensures TableFits(FILES, false) && EncodeTable(FILES, false) == FILE_BYTES
  {
    FileFormats();
    FileEntry();
    hide EncodeFormats, EncodeEntry, EntryFits, EncodeTable, TableFits;
    TableOfOne(FILES);
    Flat([3], [0x01, 0x08], [0x02, 0x0b], [0x05, 0x1e], [1], [97, 46, 99, 0], [1] + DIGEST);
  }

  lemma TableOfOne(x: EntryTable)
    requires |x.entries| == 1 && |x.formats| < 0x100 && EntryFits(x.entries[0], x.formats, false)
    ensures TableFits(x, false)
    ensures EncodeTable(x, false) ==
            [|x.formats|] + (EncodeFormats(x.formats) + ([1] + EncodeEntry(x.entries[0], x.formats, false)))
  {
    hide EncodeFormats, EncodeEntry;
    assert x.entries[1..] == [];
    assert EncodeEntries([], x.formats, false) == [];
    assert EncodeEntries(x.entries, x.formats, false) == EncodeEntry(x.entries[0], x.formats, false) + [];
    assert EncodeULeb(1) == [1];
  }

  lemma FileFormats()
    ensures EncodeFormats(FILES.formats) == [0x01, 0x08] + ([0x02, 0x0b] + [0x05, 0x1e])
  {
    var formats := FILES.formats;
    var f2, f1 := formats[2..], formats[1..];
    assert f2[1..] == [] && f1[1..] == f2;
    assert EncodeFormats(f2) == [5, 0x1e];
    assert EncodeFormats(f1) == [2, 0x0b] + EncodeFormats(f2);
  }

  lemma FileEntry()
    ensures EntryFits(FILES.entries[0], FILES.formats, false)
    ensures EncodeEntry(FILES.entries[0], FILES.formats, false) == [97, 46, 99, 0] + ([1] + DIGEST)
  {
    var formats, e := FILES.formats, FILES.entries[0];
    assert LE(1, 1) == [1] by { assert LE(0, 0) == []; }
    hide LE;
    var f2, f1 := formats[2..], formats[1..];
    assert f2[1..] == [] && f1[1..] == f2;
    assert Types(formats) == {1, 2, 5} by {
      assert formats[0].contentType == 1 && formats[1].contentType == 2 && formats[2].contentType == 5;
    }
    assert EncodeEntry(e, f2, false) == DIGEST + [];
    assert EncodeEntry(e, f1, false) == [1] + EncodeEntry(e, f2, false);
  }

  lemma ExampleBody()
    requires BodyFits(UNIT)
    ensures EncodeBody(UNIT) == [1, 2, 1, 0xfb, 14, 13] + (LENGTHS + (DIRECTORY_BYTES + FILE_BYTES))
    ensures |EncodeBody(UNIT)| == 59
  {
    DirectoryBytes();
    FileBytes();
    assert EncodeParams(PARAMS) == [1, 2, 1, 0xfb, 14, 13];
    hide EncodeTable, EncodeParams;
  }

  lemma ExampleFits()
    ensures TableFits(DIRECTORIES, false) && TableFits(FILES, false)
    ensures UnitFits(UNIT) && BodyFits(UNIT) && DecodeAll(PARAMS, PROGRAM_BYTES).value.table == [ROWS, []]
    ensures ContentsSize(UNIT) == 87 && |EncodeBody(UNIT)| == 59
  {
    ProgramBytes();
    ProgramRuns();
    DirectoryBytes();
    FileBytes();
    hide EncodeTable, TableFits, EncodeProgram, AllEncodable, Run, Start;
    ExampleBody();
    hide EncodeBody, BodyFits;
    ProgramFits(UNIT, INSTRS);
  }

  lemma ProgramFits(u: LineUnit, prog: seq<Instr>)
    requires SizeFits(u) && AllEncodable(u.params.opcodeBase, prog) && EncodeProgram(prog) == u.program
    requires Run(u.params, Start(u.params), prog).Done?
    ensures UnitFits(u)
    ensures DecodeAll(u.params, u.program).value.table == Run(u.params, Start(u.params), prog).value.table
  {
    hide Run, DecodeAll, EncodeProgram, AllEncodable, SizeFits, Start, WholeProgram;
    ProgramRoundTrip(u.params.opcodeBase, prog);
    DecodeEncodedAll(u.params, prog);
  }

  /** A section of one unit. */
  lemma OneUnit(u: LineUnit)
    requires UnitFits(u)
    ensures ReadSection(EncodeUnit(u)) == Done([UnitValue(u)])
  {
    hide UnitFits, EncodeUnit, ReadSection, UnitValue;
    SectionRoundTrip([u]);
    assert [u][1..] == [] && EncodeSection([]) == [] && UnitValues([]) == [];
    assert EncodeSection([u]) == EncodeUnit(u) + [];
    assert UnitValues([u]) == [UnitValue(u)];
    assert EncodeUnit(u) + [] == EncodeUnit(u);
  }

  lemma ExampleBytes()
    requires UnitFits(UNIT) && BodyFits(UNIT) && ContentsSize(UNIT) == 87 && |EncodeBody(UNIT)| == 59
    ensures EncodeUnit(UNIT) == HEADER_BYTES + DIRECTORY_BYTES + FILE_BYTES + PROGRAM_BYTES
  {
    hide UnitFits, EncodeUnit, ContentsSize, LE, EncodeBody, BodyFits;
    ExampleBody();
    UnitBytes(UNIT, 87, 59);
    HeaderFields();
    Regroup(LE(4, 87) + LE(2, 5) + [8, 0] + LE(4, 59), [1, 2, 1, 0xfb, 14, 13], LENGTHS,
            DIRECTORY_BYTES, FILE_BYTES, PROGRAM_BYTES);
  }

  lemma Regroup(a: seq<u8>, b: seq<u8>, c: seq<u8>, d: seq<u8>, e: seq<u8>, f: seq<u8>)
    ensures a + (b + (c + (d + e))) + f == (a + b + c) + d + e + f
  {
  }

  lemma HeaderFields()
    ensures LE(4, 87) + LE(2, 5) + [8, 0] + LE(4, 59) + [1, 2, 1, 0xfb, 14, 13] + LENGTHS == HEADER_BYTES
  {
    SmallNumber(87);
    SmallNumber(59);
    assert LE(2, 5) == [5, 0] by { assert LE(1, 0) == [0]; }
    hide LE;
  }

  lemma UnitBytes(u: LineUnit, size: nat, n: nat)
    requires UnitFits(u) && !u.is64 && ContentsSize(u) == size && |EncodeBody(u)| == n
    ensures EncodeUnit(u) ==
            LE(4, size) + LE(2, u.version) + [u.addressSize, u.segmentSelectorSize] + LE(4, n) +
            EncodeBody(u) + u.program
  {
    hide UnitFits, LE, EncodeBody, BodyFits, ContentsSize;
  }

  /** The section parses to these version, sizes, parameters, directories, files and rows. */
  lemma ExampleSection()
    ensures
      ReadSection(HEADER_BYTES + DIRECTORY_BYTES + FILE_BYTES + PROGRAM_BYTES) ==
      Done([CompUnit(Header(false, 87, 5, 8, 0, 59, PARAMS, LENGTHS, DIRECTORIES, FILES), [ROWS, []])])
  {
    hide UnitFits, EncodeUnit, ReadSection, DecodeAll, ContentsSize, EncodeBody, BodyFits;
    ExampleFits();
    ExampleBytes();
    OneUnit(UNIT);
    ExampleValue();
  }

  lemma ExampleValue()
    requires UnitFits(UNIT) && ContentsSize(UNIT) == 87 && |EncodeBody(UNIT)| == 59
    ensures UnitValue(UNIT) ==
            CompUnit(Header(false, 87, 5, 8, 0, 59, PARAMS, LENGTHS, DIRECTORIES, FILES),
                     DecodeAll(PARAMS, PROGRAM_BYTES).value.table)
  {
    hide UnitFits, DecodeAll, ContentsSize, EncodeBody;
  }
}

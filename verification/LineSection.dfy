/**
 * Whole `.debug_line` sections: unit after unit, each a header and a program, as
 * `parse_debug_line_section` reads them; the proof that it undoes serialising a list of units; and
 * how much of the bytes a unit takes.
 */
module LineSection {
  import opened Words
  import opened Wrappers
  import opened Leb128
  import opened Reader
  import opened LineMachine
  import opened LineProgram
  import opened LineTables
  import opened LineHeader

  // ----- reading -----

  datatype CompUnit = CompUnit(header: Header, table: Table)

  /** `line_prog_length`: what the header says is left for the program, in 64-bit arithmetic. */
  function ProgramLength(h: Header): u64 {
    ToU64(h.unitLength - 2 - 1 - 1 - OffsetSize(h.is64) - h.headerLength)
  }

  function ReadUnit(s: seq<u8>): Outcome<Read<CompUnit>> {
    match ReadHeader(s)
    case Crash(fault) => Crash(fault)
    case Done(h) =>
      if ProgramLength(h.value) > |h.rest| then Crash(AssertionFailed)
      else
        match DecodeBytes(h.value.params, h.rest, ProgramLength(h.value))
        case Crash(fault) => Crash(fault)
        case Done(d) => Done(Read(CompUnit(h.value, d.table), d.rest))
  }

  // ----- every unit takes at least one byte -----

  predicate Shrinks<T>(r: Outcome<Read<T>>, s: seq<u8>) {
    r.Done? ==> |r.value.rest| <= |s|
  }

  lemma FieldShrinks(s: seq<u8>, f: Format, e: Entry, is64: bool)
    ensures Shrinks(ReadField(s, f, e, is64), s)
  {
    hide ULebValue, ULebStatus, OffsetAt;
  }

  lemma {:induction false} EntryShrinks(s: seq<u8>, formats: seq<Format>, e: Entry, is64: bool)
    ensures Shrinks(ReadEntry(s, formats, e, is64), s)
    decreases |formats|
  {
    if formats == [] {
    } else {
      FieldShrinks(s, formats[0], e, is64);
      hide ReadField;
      var r := ReadField(s, formats[0], e, is64);
      if r.Done? { EntryShrinks(r.value.rest, formats[1..], r.value.value, is64); }
    }
  }

  lemma {:induction false} EntriesShrink(s: seq<u8>, formats: seq<Format>, count: nat, is64: bool)
    ensures Shrinks(ReadEntries(s, formats, count, is64), s)
    decreases count
  {
    if count == 0 {
    } else {
      EntryShrinks(s, formats, ZERO_ENTRY, is64);
      hide ReadEntry;
      var r := ReadEntry(s, formats, ZERO_ENTRY, is64);
      if r.Done? { EntriesShrink(r.value.rest, formats, count - 1, is64); }
    }
  }

  lemma {:induction false} FormatsShrink(s: seq<u8>, count: nat)
    ensures |ReadFormats(s, count).rest| <= |s|
    decreases count
  {
    hide ULebValue, LebLength;
    if count == 0 {
    } else {
      FormatsShrink(LebRest(LebRest(s)), count - 1);
    }
  }

  lemma TableShrinks(s: seq<u8>, is64: bool)
    ensures Shrinks(ReadTable(s, is64), s)
  {
    hide ReadFormats, ReadEntries, ULebValue, ByteAt;
    var formats := ReadFormats(RestAfter(s, 1), ByteAt(s));
    FormatsShrink(RestAfter(s, 1), ByteAt(s));
    EntriesShrink(LebRest(formats.rest), formats.value, ULebValue(formats.rest), is64);
  }

  /** The fixed fields take at least a byte from any bytes there are. */
  lemma FixedShrinks(s: seq<u8>, is64: bool)
    ensures |ReadFixed(s, is64).rest| <= |s|
    ensures s != [] ==> |ReadFixed(s, is64).rest| < |s|
  {
    hide UintAt, ByteAt, OffsetAt;
    var s1 := RestAfter(s, 2);
    var s2 := RestAfter(s1, 1);
    var s3 := RestAfter(s2, 1);
    var s4 := RestAfter(s3, OffsetSize(is64));
    assert |ReadParams(s4).rest| <= |s4|;
  }

  lemma HeaderShrinks(s: seq<u8>)
    requires s != []
    ensures ReadHeader(s).Done? ==> |ReadHeader(s).value.rest| < |s|
  {
    hide ReadFixed, ReadTable, OffsetAt;
    var l := ReadLength(s);
    if l.Done? {
      var is64, r := l.value.value.is64, l.value.rest;
      FixedShrinks(r, is64);
      var fixed := ReadFixed(r, is64);
      var lengths := ReadOpcodeLengths(fixed.rest, fixed.value.params.opcodeBase);
      TableShrinks(lengths.rest, is64);
      var directories := ReadTable(lengths.rest, is64);
      if directories.Done? { TableShrinks(directories.value.rest, is64); }
    }
  }

  lemma UnitShrinks(s: seq<u8>)
    requires s != []
    ensures ReadUnit(s).Done? ==> |ReadUnit(s).value.rest| < |s|
  {
    HeaderShrinks(s);
    hide ReadHeader, Run;
  }

  /** All units of a section. */
  function ReadSection(s: seq<u8>): Outcome<seq<CompUnit>>
    decreases |s|
  {
    if s == [] then Done([])
    else
      UnitShrinks(s);
      match ReadUnit(s)
      case Crash(fault) => Crash(fault)
      case Done(u) =>
        match ReadSection(u.rest)
        case Crash(fault) => Crash(fault)
        case Done(tail) => Done([u.value] + tail)
  }

  // ----- the serialised form -----

  /** A unit to be written. */
  datatype LineUnit = LineUnit(
    is64: bool, version: u16, addressSize: u8, segmentSelectorSize: u8,
    params: Params, standardOpcodeLengths: seq<u8>, directories: EntryTable, files: EntryTable,
    program: seq<u8>)

  predicate BodyFits(u: LineUnit) {
    && u.params.opcodeBase > 0 && |u.standardOpcodeLengths| == u.params.opcodeBase - 1
    && TableFits(u.directories, u.is64) && TableFits(u.files, u.is64)
  }

  function EncodeParams(p: Params): seq<u8> {
    [p.minInst] + ([p.maxOps] + ([p.defaultIsStmt] + ([FromI8(p.lineBase)] + ([p.lineRange] + [p.opcodeBase]))))
  }

  /** The header from `minimum_instruction_length` on: what `header_length` counts. */
  function EncodeBody(u: LineUnit): seq<u8>
    requires BodyFits(u)
  {
    EncodeParams(u.params) +
    (u.standardOpcodeLengths + (EncodeTable(u.directories, u.is64) + EncodeTable(u.files, u.is64)))
  }

  /** The unit from `version` on, with this number in its `header_length`. */
  function EncodeContents(u: LineUnit, headerLength: nat): seq<u8>
    requires BodyFits(u)
  {
    LE(2, u.version) +
    ([u.addressSize] +
     ([u.segmentSelectorSize] + (LE(OffsetSize(u.is64), headerLength) + (EncodeBody(u) + u.program))))
  }

  /** What `unit_length` counts. */
  function ContentsSize(u: LineUnit): nat
    requires BodyFits(u)
  {
    4 + OffsetSize(u.is64) + |EncodeBody(u)| + |u.program|
  }

  function EncodeLength(is64: bool, n: nat): seq<u8> {
    if is64 then LE(4, 0xffff_ffff) + LE(8, n) else LE(4, n)
  }

  /** Bytes of the initial length itself. */
  function LengthSize(is64: bool): nat { if is64 then 12 else 4 }

  /** The contents of the unit can be written in its DWARF format. */
  predicate SizeFits(u: LineUnit) {
    BodyFits(u) && ContentsSize(u) < (if u.is64 then 0x1_0000_0000_0000_0000 else 0xffff_fff0)
  }

  predicate OffsetFits(is64: bool, n: nat) {
    n < (if is64 then 0x1_0000_0000_0000_0000 else 0x1_0000_0000)
  }

  /** The program may be any complete one that runs through, in any of its encodings. */
  predicate UnitFits(u: LineUnit) {
    && SizeFits(u)
    && WholeProgram(u.params.opcodeBase, u.program)
    && DecodeAll(u.params, u.program).Done?
  }

  /** The unit with this number in its `header_length`. */
  function EncodeFramed(u: LineUnit, headerLength: nat): seq<u8>
    requires BodyFits(u)
  {
    EncodeLength(u.is64, ContentsSize(u)) + EncodeContents(u, headerLength)
  }

  function EncodeUnit(u: LineUnit): seq<u8>
    requires UnitFits(u)
  {
    EncodeFramed(u, |EncodeBody(u)|)
  }

  predicate UnitsFit(us: seq<LineUnit>) {
    forall i :: 0 <= i < |us| ==> UnitFits(us[i])
  }

  function EncodeSection(us: seq<LineUnit>): seq<u8>
    requires UnitsFit(us)
  {
    if us == [] then [] else EncodeUnit(us[0]) + EncodeSection(us[1..])
  }

  function HeaderValue(u: LineUnit, headerLength: nat): Header
    requires SizeFits(u) && OffsetFits(u.is64, headerLength)
  {
    Header(u.is64, ContentsSize(u), u.version, u.addressSize, u.segmentSelectorSize, headerLength,
           u.params, u.standardOpcodeLengths, u.directories, u.files)
  }

  /** What reading a unit gives. */
  function UnitValue(u: LineUnit): CompUnit
    requires UnitFits(u)
  {
    CompUnit(HeaderValue(u, |EncodeBody(u)|), DecodeAll(u.params, u.program).value.table)
  }

  function UnitValues(us: seq<LineUnit>): seq<CompUnit>
    requires UnitsFit(us)
  {
    if us == [] then [] else [UnitValue(us[0])] + UnitValues(us[1..])
  }

  // ----- reading undoes serialising -----

  lemma LengthRoundTrip(is64: bool, n: nat, t: seq<u8>)
    requires n < (if is64 then 0x1_0000_0000_0000_0000 else 0xffff_fff0)
    ensures ReadLength(EncodeLength(is64, n) + t) == Done(Read(InitialLength(is64, n), t))
  {
    hide LE, OffsetAt, RestAfter, Pow2;
    WidthValues(n);
    if is64 {
      WidthValues(0xffff_ffff);
      Assoc(LE(4, 0xffff_ffff), LE(8, n), t);
      NumberRoundTrip(4, 0xffff_ffff, LE(8, n) + t);
      NumberRoundTrip(8, n, t);
    } else {
      NumberRoundTrip(4, n, t);
    }
  }

  lemma ParamsRoundTrip(p: Params, t: seq<u8>)
    ensures ReadParams(EncodeParams(p) + t) == Read(p, t)
  {
    var t5 := [p.opcodeBase] + t;
    var t4 := [p.lineRange] + t5;
    var t3 := [FromI8(p.lineBase)] + t4;
    var t2 := [p.defaultIsStmt] + t3;
    var t1 := [p.maxOps] + t2;
    assert EncodeParams(p) + t == [p.minInst] + t1;
    hide ByteAt, RestAfter;
    ByteRoundTrip(p.minInst, t1);
    ByteRoundTrip(p.maxOps, t2);
    ByteRoundTrip(p.defaultIsStmt, t3);
    ByteRoundTrip(FromI8(p.lineBase), t4);
    ByteRoundTrip(p.lineRange, t5);
    ByteRoundTrip(p.opcodeBase, t);
  }

  lemma FixedRoundTrip(u: LineUnit, n: u64, t: seq<u8>)
    requires n < Pow2(8 * OffsetSize(u.is64))
    ensures
      var s := LE(2, u.version) + ([u.addressSize] + ([u.segmentSelectorSize] +
                 (LE(OffsetSize(u.is64), n) + (EncodeParams(u.params) + t))));
      ReadFixed(s, u.is64) ==
      Read(FixedFields(u.version, u.addressSize, u.segmentSelectorSize, n, u.params), t)
  {
    hide LE, ByteAt, OffsetAt, RestAfter, UintAt, Pow2, ReadParams, EncodeParams;
    var t3 := EncodeParams(u.params) + t;
    var t2 := LE(OffsetSize(u.is64), n) + t3;
    var t1 := [u.segmentSelectorSize] + t2;
    WidthValues(u.version);
    UintRoundTrip(2, u.version, [u.addressSize] + t1);
    ByteRoundTrip(u.addressSize, t1);
    ByteRoundTrip(u.segmentSelectorSize, t2);
    NumberRoundTrip(OffsetSize(u.is64), n, t3);
    ParamsRoundTrip(u.params, t);
  }

  lemma ContentsSplit(u: LineUnit, n: nat, t: seq<u8>)
    requires BodyFits(u)
    ensures
      EncodeContents(u, n) + t ==
      LE(2, u.version) + ([u.addressSize] + ([u.segmentSelectorSize] +
        (LE(OffsetSize(u.is64), n) +
         (EncodeParams(u.params) +
          (u.standardOpcodeLengths +
           (EncodeTable(u.directories, u.is64) + (EncodeTable(u.files, u.is64) + (u.program + t))))))))
    ensures |EncodeContents(u, n)| == ContentsSize(u)
  {
    hide LE, EncodeParams, EncodeTable;
    BodySplit(u, u.program + t);
    var w := LE(OffsetSize(u.is64), n);
    hide EncodeBody;
    var body, prog := EncodeBody(u), u.program;
    Assoc(LE(2, u.version), [u.addressSize] + ([u.segmentSelectorSize] + (w + (body + prog))), t);
    Assoc([u.addressSize], [u.segmentSelectorSize] + (w + (body + prog)), t);
    Assoc([u.segmentSelectorSize], w + (body + prog), t);
    Assoc(w, body + prog, t);
    Assoc(body, prog, t);
  }

  lemma BodySplit(u: LineUnit, t: seq<u8>)
    requires BodyFits(u)
    ensures EncodeBody(u) + t ==
            EncodeParams(u.params) +
            (u.standardOpcodeLengths + (EncodeTable(u.directories, u.is64) + (EncodeTable(u.files, u.is64) + t)))
  {
    hide EncodeParams, EncodeTable;
    var d, f := EncodeTable(u.directories, u.is64), EncodeTable(u.files, u.is64);
    Assoc(EncodeParams(u.params), u.standardOpcodeLengths + (d + f), t);
    Assoc(u.standardOpcodeLengths, d + f, t);
    Assoc(d, f, t);
  }

  lemma OpcodeLengthsRoundTrip(lengths: seq<u8>, base: u8, t: seq<u8>)
    requires base > 0 && |lengths| == base - 1
    ensures ReadOpcodeLengths(lengths + t, base) == Read(lengths, t)
  {
  }

  /** The header comes back, whatever its `header_length` says, and reading it stops where its last
      field ends. */
  lemma HeaderRoundTrip(u: LineUnit, n: nat, t: seq<u8>)
    requires SizeFits(u) && OffsetFits(u.is64, n)
    ensures ReadHeader(EncodeFramed(u, n) + t) == Done(Read(HeaderValue(u, n), u.program + t))
  {
    WidthValues(n);
    LengthRoundTrip(u.is64, ContentsSize(u), EncodeContents(u, n) + t);
    Assoc(EncodeLength(u.is64, ContentsSize(u)), EncodeContents(u, n), t);
    hide ReadLength, EncodeLength, ReadFixed, ReadOpcodeLengths, ReadTable, EncodeTable, EncodeParams, LE;
    ContentsSplit(u, n, t);
    hide EncodeContents, EncodeBody, ContentsSize;
    var prog := u.program + t;
    var t2 := EncodeTable(u.files, u.is64) + prog;
    var t1 := EncodeTable(u.directories, u.is64) + t2;
    FixedRoundTrip(u, n, u.standardOpcodeLengths + t1);
    OpcodeLengthsRoundTrip(u.standardOpcodeLengths, u.params.opcodeBase, t1);
    TableRoundTrip(u.directories, u.is64, t2);
    TableRoundTrip(u.files, u.is64, prog);
  }

  lemma UnitSizes(u: LineUnit, n: nat)
    requires SizeFits(u)
    ensures OffsetFits(u.is64, |EncodeBody(u)|)
    ensures |EncodeFramed(u, n)| == ContentsSize(u) + LengthSize(u.is64)
  {
    hide EncodeBody, EncodeContents;
    ContentsSplit(u, n, []);
  }

  // ----- how a unit is framed -----

  lemma ShiftedLength(u: LineUnit, d: nat)
    requires SizeFits(u) && d <= |u.program|
    ensures OffsetFits(u.is64, |EncodeBody(u)| + d)
    ensures ProgramLength(HeaderValue(u, |EncodeBody(u)| + d)) == |u.program| - d
  {
    hide EncodeBody, BodyFits;
  }

  /** Where `header_length` counts `d` bytes more than the fields of the header take, the program is
      read `d` bytes early and `d` bytes short: it still starts right after the header's fields. */
  lemma HeaderLengthShifts(u: LineUnit, d: nat, t: seq<u8>)
    requires SizeFits(u) && d <= |u.program|
    ensures OffsetFits(u.is64, |EncodeBody(u)| + d)
    ensures
      var n := |EncodeBody(u)| + d;
      ReadUnit(EncodeFramed(u, n) + t) ==
      match DecodeBytes(u.params, u.program + t, |u.program| - d) {
        case Crash(fault) => Crash(fault)
        case Done(x) => Done(Read(CompUnit(HeaderValue(u, n), x.table), x.rest))
      }
  {
    hide ReadHeader, EncodeFramed, EncodeBody, DecodeBytes, ProgramLength, BodyFits, ContentsSize, OffsetFits;
    ShiftedLength(u, d);
    HeaderRoundTrip(u, |EncodeBody(u)| + d, t);
  }

  /** So if a complete program is followed by as many bytes as `header_length` counts too many, those
      bytes are left to be read as the next unit. */
  lemma MisframedUnit(u: LineUnit, s: seq<u8>, extra: seq<u8>, t: seq<u8>)
    requires SizeFits(u) && u.program == s + extra
    requires WholeProgram(u.params.opcodeBase, s) && DecodeAll(u.params, s).Done?
    ensures
      var n := |EncodeBody(u)| + |extra|;
      && OffsetFits(u.is64, n)
      && ReadUnit(EncodeFramed(u, n) + t) ==
         Done(Read(CompUnit(HeaderValue(u, n), DecodeAll(u.params, s).value.table), extra + t))
  {
    hide ReadUnit, EncodeFramed, EncodeBody, DecodeBytes, BodyFits, ContentsSize, OffsetFits, WholeProgram;
    HeaderLengthShifts(u, |extra|, t);
    DecodeWhole(u.params, s, extra + t);
    assert s + (extra + t) == u.program + t;
  }

  lemma LengthFieldsTaken(s: seq<u8>)
    ensures var l := ReadLength(s);
            l.Done? ==> var n := |l.value.rest|; n <= |s| && (l.value.value.is64 && n >= 8 ==> n + 12 <= |s|)
  {
    hide Pow2;
  }

  lemma FixedFieldsTaken(s: seq<u8>, is64: bool)
    ensures var x := ReadFixed(s, is64);
            |x.rest| <= |s| && (is64 && x.value.headerLength > 0 ==> |x.rest| + 12 <= |s| && |s| >= 12)
    ensures !is64 ==> ReadFixed(s, is64).value.headerLength < 0x1_0000_0000
  {
    hide ByteAt, ReadParams;
    var s1 := RestAfter(s, 2);
    var s2 := RestAfter(s1, 1);
    var s3 := RestAfter(s2, 1);
    UintAtBound(s3, 4);
    assert Pow2(8 * 4) == 0x1_0000_0000 by { Pow2Values(); }
    ParamsTaken(RestAfter(s3, OffsetSize(is64)));
    assert ReadFixed(s, is64).value.headerLength > 0 ==> |s3| >= OffsetSize(is64);
  }

  lemma ParamsTaken(s: seq<u8>)
    ensures |ReadParams(s).rest| <= |s|
  {
    hide ByteAt;
  }

  /** What a header takes of the bytes that counts towards how its unit is framed. */
  lemma HeaderTaken(s: seq<u8>)
    requires ReadHeader(s).Done?
    ensures
      var h := ReadHeader(s).value;
      && |h.rest| <= |s|
      && (h.value.is64 && h.value.headerLength > 0 ==> |h.rest| + 24 <= |s|)
      && (!h.value.is64 ==> h.value.headerLength < 0x1_0000_0000)
  {
    hide ReadLength, ReadFixed, ReadTable, OffsetAt;
    LengthFieldsTaken(s);
    var l := ReadLength(s).value;
    FixedFieldsTaken(l.rest, l.value.is64);
    var fixed := ReadFixed(l.rest, l.value.is64);
    var lengths := ReadOpcodeLengths(fixed.rest, fixed.value.params.opcodeBase);
    TableShrinks(lengths.rest, l.value.is64);
    TableShrinks(ReadTable(lengths.rest, l.value.is64).value.rest, l.value.is64);
  }

  /** For any bytes: a unit that reads through takes exactly its `unit_length` and the bytes of the
      length itself if and only if `unit_length` has room for the header and the parsed header, with
      what the last instruction reads past the program, ends where `header_length` says. */
  lemma UnitTakesItsLength(s: seq<u8>)
    requires ReadUnit(s).Done?
    ensures
      var h, rest := ReadHeader(s).value, ReadUnit(s).value.rest;
      var x, parsed, overrun := h.value, |s| - |h.rest|, |h.rest| - |rest| - ProgramLength(h.value);
      var fixed := 4 + OffsetSize(x.is64) + x.headerLength;
      && overrun >= 0
      && (|s| - |rest| == x.unitLength + LengthSize(x.is64) <==>
          fixed <= x.unitLength && parsed + overrun == LengthSize(x.is64) + fixed)
  {
    var h := ReadHeader(s).value;
    HeaderTaken(s);
    hide ReadHeader, Run, Parse, ProgramLength;
    ParseTakesBudget(h.value.params.opcodeBase, h.rest, ProgramLength(h.value));
    var rest := ReadUnit(s).value.rest;
    ProgramLengthWraps(h.value);
  }

  /** The subtraction of `line_prog_length` wraps around exactly if `unit_length` is too small. */
  lemma ProgramLengthWraps(h: Header)
    requires !h.is64 ==> h.headerLength < 0x1_0000_0000
    ensures
      var fixed := 4 + OffsetSize(h.is64) + h.headerLength;
      && (fixed <= h.unitLength ==> ProgramLength(h) == h.unitLength - fixed)
      && (fixed > h.unitLength ==>
            ProgramLength(h) > h.unitLength + (if h.is64 && h.headerLength > 0 then -12 else LengthSize(h.is64)))
  {
  }

  /** A unit comes back, and takes exactly `unit_length` bytes and those of the length itself. */
  lemma UnitRoundTrip(u: LineUnit, t: seq<u8>)
    requires UnitFits(u)
    ensures ReadUnit(EncodeUnit(u) + t) == Done(Read(UnitValue(u), t))
    ensures |EncodeUnit(u)| == UnitValue(u).header.unitLength + LengthSize(u.is64)
  {
    hide ReadUnit, EncodeFramed, EncodeBody, DecodeAll, BodyFits, ContentsSize, WholeProgram, LengthSize, OffsetFits;
    UnitSizes(u, |EncodeBody(u)|);
    assert u.program + [] == u.program;
    assert [] + t == t;
    MisframedUnit(u, u.program, [], t);
  }

  /** Serialising any list of units, of both formats mixed and with any supported entry formats,
      and reading the section gives back exactly their headers, directories, files and tables. */
  lemma {:induction false} SectionRoundTrip(us: seq<LineUnit>)
    requires UnitsFit(us)
    ensures ReadSection(EncodeSection(us)) == Done(UnitValues(us))
    decreases |us|
  {
    if us == [] {
    } else {
      UnitRoundTrip(us[0], EncodeSection(us[1..]));
      SectionRoundTrip(us[1..]);
      hide EncodeUnit, ReadUnit, UnitValue, UnitFits;
    }
  }

  /** Equal but for the DWARF format they are written in. */
  predicate SameContents(u: LineUnit, v: LineUnit) {
    u == v.(is64 := u.is64)
  }

  /** A unit without the header fields that depend on the DWARF format. */
  function Logical(c: CompUnit): CompUnit {
    c.(header := c.header.(is64 := false, unitLength := 0, headerLength := 0))
  }

  lemma {:induction false} UnitValuesAt(us: seq<LineUnit>)
    requires UnitsFit(us)
    ensures |UnitValues(us)| == |us| && forall i :: 0 <= i < |us| ==> UnitValues(us)[i] == UnitValue(us[i])
  {
    hide UnitValue, UnitFits;
    if us == [] {
    } else {
      UnitValuesAt(us[1..]);
      forall i | 0 <= i < |us|
        ensures UnitValues(us)[i] == UnitValue(us[i])
      {
        if i > 0 { assert us[i] == us[1..][i - 1]; }
      }
    }
  }

  lemma SameValue(u: LineUnit, v: LineUnit)
    requires UnitFits(u) && UnitFits(v) && SameContents(u, v)
    ensures Logical(UnitValue(u)) == Logical(UnitValue(v))
  {
    hide EncodeBody, DecodeAll, WholeProgram, BodyFits;
  }

  /** The same units in 32-bit and 64-bit DWARF, unit by unit in either, are different bytes but
      read as the same versions, parameters, directories, files and tables. */
  lemma FormatIndependence(us: seq<LineUnit>, vs: seq<LineUnit>)
    requires UnitsFit(us) && UnitsFit(vs) && |us| == |vs|
    requires forall i :: 0 <= i < |us| ==> SameContents(us[i], vs[i])
    ensures ReadSection(EncodeSection(us)).Done? && ReadSection(EncodeSection(vs)).Done?
    ensures
      var a, b := ReadSection(EncodeSection(us)).value, ReadSection(EncodeSection(vs)).value;
      |a| == |b| == |us| && forall i :: 0 <= i < |us| ==> Logical(a[i]) == Logical(b[i])
  {
    hide ReadSection, EncodeSection, UnitValue, UnitFits, Logical, SameContents;
    SectionRoundTrip(us);
    SectionRoundTrip(vs);
    UnitValuesAt(us);
    UnitValuesAt(vs);
    forall i | 0 <= i < |us|
      ensures Logical(UnitValues(us)[i]) == Logical(UnitValues(vs)[i])
    {
      SameValue(us[i], vs[i]);
    }
  }

  // ----- a unit that is framed otherwise than the parser thinks -----

  /** A unit whose header has one more byte than the parser knows, a 6, before the one instruction,
      a `copy`. Its `header_length` counts that byte. */
  const MISFRAMED: LineUnit :=
    LineUnit(false, 5, 8, 0, Params(1, 1, 1, -5, 14, 7), [0, 1, 1, 1, 1, 0],
             EntryTable([], []), EntryTable([], []), [6, 1])

  lemma MisframedFits()
    ensures SizeFits(MISFRAMED)
  {
    EmptyTableSize(false);
    hide EncodeTable, EncodeULeb, LE;
  }

  lemma EmptyTableSize(is64: bool)
    ensures TableFits(EntryTable([], []), is64) && |EncodeTable(EntryTable([], []), is64)| <= 11
  {
    Pow2Values();
    Pow2Mono(0, 70);
    EncodeULebLength(0, 10);
  }

  lemma OneInstruction(p: Params, i: Instr)
    requires Encodable(p.opcodeBase, i) && Executes(p, i)
    ensures WholeProgram(p.opcodeBase, EncodeInstr(i))
    ensures DecodeAll(p, EncodeInstr(i)) == Done(Decoded(Exec(p, Start(p), i).table, []))
  {
    assert EncodeProgram([i]) == EncodeInstr(i) by {
      assert [i][1..] == [] && EncodeProgram([]) == [];
      assert EncodeInstr(i) + [] == EncodeInstr(i);
    }
    hide EncodeProgram, EncodeInstr, Encodable, Exec, Executes, DecodeAll, WholeProgram;
    assert Run(p, Start(p), [i]) == Done(Exec(p, Start(p), i)) by { assert [i][1..] == []; }
    ProgramRoundTrip(p.opcodeBase, [i]);
    DecodeEncodedAll(p, [i]);
  }

  lemma LoneLength()
    ensures ReadLength([1]) == Done(Read(InitialLength(false, 0), [1]))
  {
  }

  lemma LoneFixed()
    ensures
      var fixed := ReadFixed([1], false);
      fixed.rest == [] && fixed.value.headerLength == 0 && fixed.value.params.opcodeBase == 0
  {
    hide FromLE, Pow2;
  }

  lemma NoTable()
    ensures ReadTable([], false) == Done(Read(EntryTable([], []), []))
  {
  }

  /** A byte alone cannot be a unit. */
  lemma LoneByteCrashes()
    ensures ReadUnit([1]) == Crash(AssertionFailed)
  {
    hide ReadLength, ReadFixed, ReadTable, DecodeBytes;
    LoneLength();
    LoneFixed();
    NoTable();
  }

  lemma MisframedTables()
    ensures
      var p := MISFRAMED.params;
      && WholeProgram(p.opcodeBase, [6])
      && DecodeAll(p, [6]) == Done(Decoded([], []))
      && DecodeAll(p, [1]) == Done(Decoded([[RowOf(Initial(p))]], []))
  {
    var p := MISFRAMED.params;
    hide DecodeAll, WholeProgram;
    OneInstruction(p, NegateStmt);
    OneInstruction(p, Copy);
    FirstRow(RowOf(Initial(p)));
  }

  /** The program of such a unit has a row, but the byte before it is decoded in its stead, and what
      is left of the unit fails an assert. */
  lemma FramingCanFail()
    ensures SizeFits(MISFRAMED)
    ensures
      var s := EncodeFramed(MISFRAMED, |EncodeBody(MISFRAMED)| + 1);
      && ReadUnit(s).Done? && ReadUnit(s).value.value.table == [] && ReadUnit(s).value.rest == [1]
      && ReadSection(s) == Crash(AssertionFailed)
    ensures
      var p := MISFRAMED.params;
      DecodeAll(p, MISFRAMED.program[1..]) == Done(Decoded([[RowOf(Initial(p))]], []))
  {
    MisframedFits();
    MisframedTables();
    LoneByteCrashes();
    assert MISFRAMED.program == [6] + [1] && MISFRAMED.program[1..] == [1];
    hide BodyFits, ContentsSize, EncodeFramed, EncodeBody, ReadUnit, DecodeAll, WholeProgram, ReadSection;
    LeftoverCrashes(MISFRAMED, [6], [1]);
  }

  /** A misframed unit at the end of a section, where what it leaves cannot be read. */
  lemma LeftoverCrashes(u: LineUnit, s: seq<u8>, extra: seq<u8>)
    requires SizeFits(u) && u.program == s + extra && extra != [] && ReadUnit(extra).Crash?
    requires WholeProgram(u.params.opcodeBase, s) && DecodeAll(u.params, s).Done?
    ensures
      var n := |EncodeBody(u)| + |extra|;
      && OffsetFits(u.is64, n)
      && ReadUnit(EncodeFramed(u, n)) ==
         Done(Read(CompUnit(HeaderValue(u, n), DecodeAll(u.params, s).value.table), extra))
      && ReadSection(EncodeFramed(u, n)) == Crash(ReadUnit(extra).fault)
  {
    hide BodyFits, ContentsSize, EncodeFramed, EncodeBody, ReadUnit, DecodeAll, WholeProgram, ReadSection, OffsetFits;
    MisframedUnit(u, s, extra, []);
    var n := |EncodeBody(u)| + |extra|;
    assert EncodeFramed(u, n) + [] == EncodeFramed(u, n) && extra + [] == extra;
    UnitSizes(u, n);
    SecondUnitCrashes(EncodeFramed(u, n));
  }

  lemma SecondUnitCrashes(s: seq<u8>)
    requires s != [] && ReadUnit(s).Done? && ReadUnit(s).value.rest != []
    requires ReadUnit(ReadUnit(s).value.rest).Crash?
    ensures ReadSection(s) == Crash(ReadUnit(ReadUnit(s).value.rest).fault)
  {
    hide ReadUnit;
  }
}

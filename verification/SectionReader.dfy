/**
 * The parser of `src/dwarf.c` that moves one byte cursor through the whole `.debug_line` section,
 * proved to compute `ReadSection` of its bytes, for any bytes.
 */
module SectionReader {
  import opened Words
  import opened Wrappers
  import opened Leb128
  import opened Reader
  import opened LineMachine
  import opened LineProgram
  import opened LineDecoder
  import opened LineHeader
  import opened LineSection

  /** What a reading method has done: its outcome, and where the cursor stands unless it crashed. */
  ghost predicate Performs<T>(expected: Outcome<Read<T>>, actual: Outcome<T>, reader: BinaryReader)
    requires reader.Valid()
    reads reader
  {
    match expected
    case Done(r) => actual == Done(r.value) && reader.Rest() == r.rest
    case Crash(fault) => actual == Crash(fault)
  }

  method ReadOffset(reader: BinaryReader, n: nat) returns (result: ReadResult, v: u64)
    requires reader.Valid() && n <= 8
    modifies reader
    ensures reader.Valid() && reader.Rest() == RestAfter(old(reader.Rest()), n)
    ensures result.status == (if n <= old(reader.remaining) then ReadOk else OutOfBounds)
    ensures v == OffsetAt(old(reader.Rest()), n)
  {
    OffsetBound(reader.Rest(), n);
    var raw;
    result, raw := reader.ReadUint(n, 0);
    v := raw;
  }

  method ReadLnctPath(reader: BinaryReader, form: u32, entry: Entry, is64: bool) returns (r: Outcome<Entry>)
    requires reader.Valid()
    modifies reader
    ensures reader.Valid() && Performs(ReadPath(old(reader.Rest()), form, entry, is64), r, reader)
  {
    hide CStringLength, OffsetAt;
    if form == FORM_STRING {
      var result, text := reader.ReadCString();
      return Done(if result.status == ReadOk then entry.(path := OwnedPath(text)) else entry);
    } else if form == FORM_LINE_STRP || form == FORM_STRP || form == FORM_STRP_SUP {
      var result, offset := ReadOffset(reader, OffsetSize(is64));
      if form == FORM_STRP {
        return Crash(AssertionFailed);
      }
      if result.status != ReadOk {
        return Done(entry);
      }
      return if form == FORM_LINE_STRP then Done(entry.(path := SharedPath(offset))) else Crash(UninitialisedRead);
    }
    return Crash(UninitialisedRead);
  }

  method ReadLnctDirectoryIndex(reader: BinaryReader, form: u32, entry: Entry) returns (r: Outcome<Entry>)
    requires reader.Valid()
    modifies reader
    ensures reader.Valid() && Performs(ReadDirectoryIndex(old(reader.Rest()), form, entry), r, reader)
  {
    hide OffsetAt, ULebStatus, ULebValue, LebRest;
    var result, directoryIndex;
    if form == FORM_DATA1 {
      result, directoryIndex := ReadOffset(reader, 1);
    } else if form == FORM_DATA2 {
      result, directoryIndex := ReadOffset(reader, 2);
    } else if form == FORM_UDATA {
      result, directoryIndex := reader.ReadULeb128();
    } else {
      return Crash(UninitialisedRead);
    }
    return Done(if result.status == ReadOk then entry.(directoryIndex := directoryIndex) else entry);
  }

  /** `read_bytes` of `n` bytes into an unset `uint64_t`. */
  method ReadUnset64(reader: BinaryReader, n: nat) returns (r: Outcome<Option<u64>>)
    requires reader.Valid()
    modifies reader
    ensures reader.Valid() && reader.Rest() == RestAfter(old(reader.Rest()), n)
    ensures r == ReadRaw64(old(reader.Rest()), n)
  {
    hide OffsetAt;
    if n == 8 {
      var result, v := ReadOffset(reader, 8);
      return Done(if result.status == ReadOk then Some(v) else None);
    }
    var result := reader.Advance(n);
    return if result.status != ReadOk then Done(None)
           else if n > 8 then Crash(OutOfBoundsWrite) else Crash(UninitialisedRead);
  }

  method ReadLnctTimestamp(reader: BinaryReader, form: u32, entry: Entry) returns (r: Outcome<Entry>)
    requires reader.Valid()
    modifies reader
    ensures reader.Valid() && Performs(ReadTimestamp(old(reader.Rest()), form, entry), r, reader)
  {
    hide ULebStatus, ULebValue, LebRest, ReadRaw64, RestAfter;
    if form == FORM_UDATA {
      var result, timestamp := reader.ReadULeb128();
      return Done(if result.status == ReadOk then entry.(timestamp := timestamp) else entry);
    }
    var n: nat;
    if form == FORM_DATA4 {
      n := 4;
    } else if form == FORM_DATA8 {
      n := 8;
    } else if form == FORM_BLOCK {
      var _, count := reader.ReadULeb128();
      n := count;
    } else {
      return Crash(UninitialisedRead);
    }
    var v := ReadUnset64(reader, n);
    match v
    case Crash(fault) => return Crash(fault);
    case Done(timestamp) =>
      return Done(if timestamp.Some? then entry.(timestamp := timestamp.value) else entry);
  }

  method ReadLnctSize(reader: BinaryReader, form: u32, entry: Entry) returns (r: Outcome<Entry>)
    requires reader.Valid()
    modifies reader
    ensures reader.Valid() && Performs(ReadSize(old(reader.Rest()), form, entry), r, reader)
  {
    hide ULebStatus, ULebValue, LebRest, ReadRaw64, RestAfter;
    if form == FORM_UDATA {
      var result, size := reader.ReadULeb128();
      return Done(if result.status == ReadOk then entry.(size := size) else entry);
    }
    var n: nat;
    if form == FORM_DATA1 {
      n := 1;
    } else if form == FORM_DATA2 {
      n := 2;
    } else if form == FORM_DATA4 {
      n := 4;
    } else if form == FORM_DATA8 {
      n := 8;
    } else {
      return Crash(UninitialisedRead);
    }
    var v := ReadUnset64(reader, n);
    match v
    case Crash(fault) => return Crash(fault);
    case Done(size) =>
      return Done(if size.Some? then entry.(size := size.value) else entry);
  }

  method ReadLnctMd5(reader: BinaryReader, form: u32, entry: Entry) returns (r: Outcome<Entry>)
    requires reader.Valid()
    modifies reader
    ensures reader.Valid() && Performs(ReadMd5(old(reader.Rest()), form, entry), r, reader)
  {
    if form != FORM_DATA16 {
      return Crash(UninitialisedRead);
    }
    var result, md5 := reader.ReadBytes(16);
    return Done(if result.status == ReadOk then entry.(md5 := md5) else entry);
  }

  /** The switch over content types. */
  method ReadLnctField(reader: BinaryReader, f: Format, entry: Entry, is64: bool) returns (r: Outcome<Entry>)
    requires reader.Valid()
    modifies reader
    ensures reader.Valid() && Performs(ReadField(old(reader.Rest()), f, entry, is64), r, reader)
  {
    hide ReadPath, ReadDirectoryIndex, ReadTimestamp, ReadSize, ReadMd5;
    if f.contentType == LNCT_PATH {
      r := ReadLnctPath(reader, f.formCode, entry, is64);
    } else if f.contentType == LNCT_DIRECTORY_INDEX {
      r := ReadLnctDirectoryIndex(reader, f.formCode, entry);
    } else if f.contentType == LNCT_TIMESTAMP {
      r := ReadLnctTimestamp(reader, f.formCode, entry);
    } else if f.contentType == LNCT_SIZE {
      r := ReadLnctSize(reader, f.formCode, entry);
    } else if f.contentType == LNCT_MD5 {
      r := ReadLnctMd5(reader, f.formCode, entry);
    } else if LNCT_LO_USER <= f.contentType <= LNCT_HI_USER {
      r := Crash(AssertionFailed);
    } else {
      r := Done(entry);
    }
  }

  /** The inner loop of `read_lnct_entries`. */
  method ReadLnctEntry(reader: BinaryReader, formats: seq<Format>, is64: bool) returns (r: Outcome<Entry>)
    requires reader.Valid()
    modifies reader
    ensures reader.Valid() && Performs(ReadEntry(old(reader.Rest()), formats, ZERO_ENTRY, is64), r, reader)
  {
    hide ReadField;
    var entry := ZERO_ENTRY;
    var j := 0;
    assert formats[0..] == formats;
    while j < |formats|
      invariant reader.Valid() && j <= |formats|
      invariant ReadEntry(reader.Rest(), formats[j..], entry, is64) ==
                ReadEntry(old(reader.Rest()), formats, ZERO_ENTRY, is64)
    {
      assert formats[j..][1..] == formats[j + 1..];
      var field := ReadLnctField(reader, formats[j], entry, is64);
      if field.Crash? {
        return field;
      }
      entry := field.value;
      j := j + 1;
    }
    return Done(entry);
  }

  ghost predicate EntriesSoFar(done: seq<Entry>, rest: Outcome<Read<seq<Entry>>>, all: Outcome<Read<seq<Entry>>>) {
    match rest
    case Crash(fault) => all == Crash(fault)
    case Done(r) => all == Done(Read(done + r.value, r.rest))
  }

  /** The outer loop of `read_lnct_entries`. */
  method ReadLnctEntries(reader: BinaryReader, formats: seq<Format>, count: u64, is64: bool)
    returns (r: Outcome<seq<Entry>>)
    requires reader.Valid()
    modifies reader
    ensures reader.Valid() && Performs(ReadEntries(old(reader.Rest()), formats, count, is64), r, reader)
  {
    hide ReadEntry;
    var entries: seq<Entry> := [];
    ghost var all := ReadEntries(reader.Rest(), formats, count, is64);
    assert all.Done? ==> [] + all.value.value == all.value.value;
    var i := 0;
    while i < count
      invariant reader.Valid() && i <= count
      invariant EntriesSoFar(entries, ReadEntries(reader.Rest(), formats, count - i, is64), all)
    {
      var entry := ReadLnctEntry(reader, formats, is64);
      if entry.Crash? {
        return Crash(entry.fault);
      }
      ghost var tail := ReadEntries(reader.Rest(), formats, count - i - 1, is64);
      assert tail.Done? ==> entries + ([entry.value] + tail.value.value) == entries + [entry.value] + tail.value.value;
      entries := entries + [entry.value];
      i := i + 1;
    }
    assert entries + [] == entries;
    return Done(entries);
  }

  /** The format loop, and the entries after it: the source spells this out for directories and
      once more for files. */
  method ReadFormatsAndEntries(reader: BinaryReader, is64: bool) returns (r: Outcome<EntryTable>)
    requires reader.Valid()
    modifies reader
    ensures reader.Valid() && Performs(ReadTable(old(reader.Rest()), is64), r, reader)
  {
    hide ReadEntries, ULebValue, LebRest, ByteAt, RestAfter, ReadFormats;
    var formatCount := reader.ReadU8();
    var formats := ReadFormatList(reader, formatCount);
    var _, count := reader.ReadULeb128();
    var entries := ReadLnctEntries(reader, formats, count, is64);
    return match entries case Done(es) => Done(EntryTable(formats, es)) case Crash(fault) => Crash(fault);
  }

  method ReadFormatList(reader: BinaryReader, count: u8) returns (formats: seq<Format>)
    requires reader.Valid()
    modifies reader
    ensures reader.Valid()
    ensures ReadFormats(old(reader.Rest()), count) == Read(formats, reader.Rest())
  {
    hide ULebValue, LebRest;
    formats := [];
    ghost var all := ReadFormats(reader.Rest(), count);
    assert [] + all.value == all.value;
    var i := 0;
    while i < count
      invariant reader.Valid() && i <= count
      invariant var tail := ReadFormats(reader.Rest(), count - i); all == Read(formats + tail.value, tail.rest)
    {
      var _, contentType := reader.ReadULeb128();
      var _, formCode := reader.ReadULeb128();
      var f := Format(ToU32(contentType), ToU32(formCode));
      ghost var tail := ReadFormats(reader.Rest(), count - i - 1);
      assert formats + ([f] + tail.value) == formats + [f] + tail.value;
      formats := formats + [f];
      i := i + 1;
    }
    assert formats + [] == formats;
  }

  method ReadInitialLength(reader: BinaryReader) returns (r: Outcome<InitialLength>)
    requires reader.Valid()
    modifies reader
    ensures reader.Valid() && Performs(ReadLength(old(reader.Rest())), r, reader)
  {
    hide OffsetAt, RestAfter;
    var _, start := ReadOffset(reader, 4);
    if start < 0xffff_fff0 {
      return Done(InitialLength(false, start));
    } else if start == 0xffff_ffff {
      var _, unitLength := ReadOffset(reader, 8);
      return Done(InitialLength(true, unitLength));
    }
    return Crash(AssertionFailed);
  }

  method ReadProgramParams(reader: BinaryReader) returns (p: Params)
    requires reader.Valid()
    modifies reader
    ensures reader.Valid() && ReadParams(old(reader.Rest())) == Read(p, reader.Rest())
  {
    hide ByteAt, RestAfter;
    var minInst := reader.ReadU8();
    var maxOps := reader.ReadU8();
    var defaultIsStmt := reader.ReadU8();
    var lineBase := reader.ReadU8();
    var lineRange := reader.ReadU8();
    var opcodeBase := reader.ReadU8();
    return Params(minInst, maxOps, defaultIsStmt, ToI8(lineBase), lineRange, opcodeBase);
  }

  method ReadFixedFields(reader: BinaryReader, is64: bool) returns (x: FixedFields)
    requires reader.Valid()
    modifies reader
    ensures reader.Valid() && ReadFixed(old(reader.Rest()), is64) == Read(x, reader.Rest())
  {
    UintAtBound(reader.Rest(), 2);
    Pow2Values();
    hide ByteAt, RestAfter, OffsetAt, ReadParams, UintAt;
    var _, version := reader.ReadUint(2, 0);
    var addressSize := reader.ReadU8();
    var segmentSelectorSize := reader.ReadU8();
    var _, headerLength := ReadOffset(reader, OffsetSize(is64));
    var p := ReadProgramParams(reader);
    return FixedFields(version, addressSize, segmentSelectorSize, headerLength, p);
  }

  method ReadStandardOpcodeLengths(reader: BinaryReader, base: u8) returns (lengths: seq<u8>)
    requires reader.Valid()
    modifies reader
    ensures reader.Valid() && ReadOpcodeLengths(old(reader.Rest()), base) == Read(lengths, reader.Rest())
  {
    if base == 0 {
      return [];
    }
    var result, raw := reader.ReadBytes(base - 1);
    return if result.status == ReadOk then raw else Zeros(base - 1);
  }

  method ParseLineHeader(reader: BinaryReader) returns (r: Outcome<Header>)
    requires reader.Valid()
    modifies reader
    ensures reader.Valid() && Performs(ReadHeader(old(reader.Rest())), r, reader)
  {
    hide ReadLength, ReadFixed, ReadOpcodeLengths, ReadTable;
    var l := ReadInitialLength(reader);
    if l.Crash? {
      return Crash(l.fault);
    }
    var x := ReadFixedFields(reader, l.value.is64);
    var lengths := ReadStandardOpcodeLengths(reader, x.params.opcodeBase);
    var directories := ReadFormatsAndEntries(reader, l.value.is64);
    if directories.Crash? {
      return Crash(directories.fault);
    }
    var files := ReadFormatsAndEntries(reader, l.value.is64);
    if files.Crash? {
      return Crash(files.fault);
    }
    return Done(Header(l.value.is64, l.value.unitLength, x.version, x.addressSize, x.segmentSelectorSize,
                       x.headerLength, x.params, lengths, directories.value, files.value));
  }

  /** One turn of the section loop. */
  method ParseUnit(reader: BinaryReader) returns (r: Outcome<CompUnit>)
    requires reader.Valid()
    modifies reader
    ensures reader.Valid() && Performs(ReadUnit(old(reader.Rest())), r, reader)
  {
    hide ReadHeader, DecodeBytes, ProgramLength;
    var header := ParseLineHeader(reader);
    if header.Crash? {
      return Crash(header.fault);
    }
    var length := ProgramLength(header.value);
    if length > reader.remaining {
      return Crash(AssertionFailed);
    }
    var table := DecodeLineNumProg(header.value.params, reader, length);
    return match table case Done(t) => Done(CompUnit(header.value, t)) case Crash(fault) => Crash(fault);
  }

  /** Parses a whole section, for any bytes whatever. */
  method ParseDebugLineSection(data: seq<u8>) returns (r: Outcome<seq<CompUnit>>)
    ensures r == ReadSection(data)
  {
    hide ReadUnit;
    var reader := new BinaryReader(data);
    var units: seq<CompUnit> := [];
    assert ReadSection(data).Done? ==> [] + ReadSection(data).value == ReadSection(data).value;
    while reader.remaining > 0
      invariant reader.Valid()
      invariant match ReadSection(reader.Rest()) {
                  case Done(tail) => ReadSection(data) == Done(units + tail)
                  case Crash(fault) => ReadSection(data) == Crash(fault)
                }
      decreases reader.remaining
    {
      UnitShrinks(reader.Rest());
      var unit := ParseUnit(reader);
      if unit.Crash? {
        return Crash(unit.fault);
      }
      ghost var tail := ReadSection(reader.Rest());
      assert tail.Done? ==> units + ([unit.value] + tail.value) == units + [unit.value] + tail.value;
      units := units + [unit.value];
    }
    assert units + [] == units;
    return Done(units);
  }
}

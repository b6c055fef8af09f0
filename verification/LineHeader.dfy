/**
 * The header of a `.debug_line` unit (section 6.2.4 of the DWARF 5 standard): what
 * `parse_line_header` makes of any bytes, errors and all, and the serialised form it undoes.
 */
module LineHeader {
  import opened Words
  import opened Wrappers
  import opened Leb128
  import opened Reader
  import opened LineMachine
  import opened LineProgram

  /** A value read and what is left unread. */
  datatype Read<+T> = Read(value: T, rest: seq<u8>)

  // ----- entry formats (sections 7.22 and 7.5.5) -----

  datatype Format = Format(contentType: u32, formCode: u32)

  const LNCT_PATH: u32 := 1
  const LNCT_DIRECTORY_INDEX: u32 := 2
  const LNCT_TIMESTAMP: u32 := 3
  const LNCT_SIZE: u32 := 4
  const LNCT_MD5: u32 := 5
  const LNCT_LO_USER: u32 := 0x2000
  const LNCT_HI_USER: u32 := 0x3fff

  const FORM_DATA1: u32 := 0x0b
  const FORM_DATA2: u32 := 0x05
  const FORM_DATA4: u32 := 0x06
  const FORM_DATA8: u32 := 0x07
  const FORM_DATA16: u32 := 0x1e
  const FORM_UDATA: u32 := 0x0f
  const FORM_BLOCK: u32 := 0x09
  const FORM_STRING: u32 := 0x08
  const FORM_STRP: u32 := 0x0e
  const FORM_LINE_STRP: u32 := 0x1f
  const FORM_STRP_SUP: u32 := 0x1d

  /** A path pointer: null, to a copy of a string, or into `.debug_line_str`. */
  datatype Path = NullPath | OwnedPath(text: seq<u8>) | SharedPath(offset: u64)

  type Md5 = s: seq<u8> | |s| == 16 witness [0, 0, 0, 0, 0, 0, 0, 0, 0, 0, 0, 0, 0, 0, 0, 0]

  const ZERO_MD5: Md5 := [0, 0, 0, 0, 0, 0, 0, 0, 0, 0, 0, 0, 0, 0, 0, 0]

  datatype Entry = Entry(path: Path, directoryIndex: u64, timestamp: u64, size: u64, md5: Md5)

  const ZERO_ENTRY: Entry := Entry(NullPath, 0, 0, 0, ZERO_MD5)

  /** Bytes of an offset in either DWARF format. */
  function OffsetSize(is64: bool): nat { if is64 then 8 else 4 }

  lemma OffsetBound(s: seq<u8>, n: nat)
    requires n <= 8
    ensures UintAt(s, n, 0) < 0x1_0000_0000_0000_0000
  {
    UintAtBound(s, n);
    Pow2Values();
    Pow2Mono(8 * n, 64);
  }

  /** The integer an at most 8-byte read stores in a zeroed `uint64_t`. */
  function OffsetAt(s: seq<u8>, n: nat): u64
    requires n <= 8
  {
    OffsetBound(s, n);
    UintAt(s, n, 0)
  }

  // ----- reading one field -----

  function ReadPath(s: seq<u8>, form: u32, e: Entry, is64: bool): Outcome<Read<Entry>> {
    var n := OffsetSize(is64);
    if form == FORM_STRING then
      if HasCString(s) then Done(Read(e.(path := OwnedPath(s[..CStringLength(s)])), CStringRest(s)))
      else Done(Read(e, s))
    else if form == FORM_LINE_STRP then
      if n <= |s| then Done(Read(e.(path := SharedPath(OffsetAt(s, n))), RestAfter(s, n)))
      else Done(Read(e, s))
    else if form == FORM_STRP then Crash(AssertionFailed)
    else if form == FORM_STRP_SUP && n > |s| then Done(Read(e, s))
    else Crash(UninitialisedRead)
  }

  function ReadDirectoryIndex(s: seq<u8>, form: u32, e: Entry): Outcome<Read<Entry>> {
    if form == FORM_DATA1 then
      Done(Read(if 1 <= |s| then e.(directoryIndex := OffsetAt(s, 1)) else e, RestAfter(s, 1)))
    else if form == FORM_DATA2 then
      Done(Read(if 2 <= |s| then e.(directoryIndex := OffsetAt(s, 2)) else e, RestAfter(s, 2)))
    else if form == FORM_UDATA then
      Done(Read(if ULebStatus(s) == ReadOk then e.(directoryIndex := ULebValue(s)) else e, LebRest(s)))
    else Crash(UninitialisedRead)
  }

  /** A read of `n` bytes into an unset `uint64_t`: none if they are not there, and no telling what
      the variable holds unless they fill it. */
  function ReadRaw64(s: seq<u8>, n: nat): Outcome<Option<u64>> {
    if n > |s| then Done(None)
    else if n == 8 then Done(Some(OffsetAt(s, 8)))
    else if n > 8 then Crash(OutOfBoundsWrite)
    else Crash(UninitialisedRead)
  }

  function ReadTimestamp(s: seq<u8>, form: u32, e: Entry): Outcome<Read<Entry>> {
    if form == FORM_UDATA then
      Done(Read(if ULebStatus(s) == ReadOk then e.(timestamp := ULebValue(s)) else e, LebRest(s)))
    else if form == FORM_DATA4 || form == FORM_DATA8 || form == FORM_BLOCK then
      var n := if form == FORM_DATA4 then 4 else if form == FORM_DATA8 then 8 else ULebValue(s);
      var r := if form == FORM_BLOCK then LebRest(s) else s;
      match ReadRaw64(r, n)
      case Done(v) => Done(Read(if v.Some? then e.(timestamp := v.value) else e, RestAfter(r, n)))
      case Crash(fault) => Crash(fault)
    else Crash(UninitialisedRead)
  }

  function ReadSize(s: seq<u8>, form: u32, e: Entry): Outcome<Read<Entry>> {
    if form == FORM_UDATA then
      Done(Read(if ULebStatus(s) == ReadOk then e.(size := ULebValue(s)) else e, LebRest(s)))
    else if form == FORM_DATA1 || form == FORM_DATA2 || form == FORM_DATA4 || form == FORM_DATA8 then
      var n := if form == FORM_DATA1 then 1 else if form == FORM_DATA2 then 2 else if form == FORM_DATA4 then 4 else 8;
      match ReadRaw64(s, n)
      case Done(v) => Done(Read(if v.Some? then e.(size := v.value) else e, RestAfter(s, n)))
      case Crash(fault) => Crash(fault)
    else Crash(UninitialisedRead)
  }

  function ReadMd5(s: seq<u8>, form: u32, e: Entry): Outcome<Read<Entry>> {
    if form == FORM_DATA16 then Done(Read(if 16 <= |s| then e.(md5 := s[..16]) else e, RestAfter(s, 16)))
    else Crash(UninitialisedRead)
  }

  function ReadField(s: seq<u8>, f: Format, e: Entry, is64: bool): Outcome<Read<Entry>> {
    if f.contentType == LNCT_PATH then ReadPath(s, f.formCode, e, is64)
    else if f.contentType == LNCT_DIRECTORY_INDEX then ReadDirectoryIndex(s, f.formCode, e)
    else if f.contentType == LNCT_TIMESTAMP then ReadTimestamp(s, f.formCode, e)
    else if f.contentType == LNCT_SIZE then ReadSize(s, f.formCode, e)
    else if f.contentType == LNCT_MD5 then ReadMd5(s, f.formCode, e)
    else if LNCT_LO_USER <= f.contentType <= LNCT_HI_USER then Crash(AssertionFailed)
    else Done(Read(e, s))
  }

  // ----- reading tables of entries -----

  function ReadEntry(s: seq<u8>, formats: seq<Format>, e: Entry, is64: bool): Outcome<Read<Entry>>
    decreases |formats|
  {
    if formats == [] then Done(Read(e, s))
    else
      match ReadField(s, formats[0], e, is64)
      case Done(r) => ReadEntry(r.rest, formats[1..], r.value, is64)
      case Crash(fault) => Crash(fault)
  }

  function ReadEntries(s: seq<u8>, formats: seq<Format>, count: nat, is64: bool): Outcome<Read<seq<Entry>>>
    decreases count
  {
    if count == 0 then Done(Read([], s))
    else
      match ReadEntry(s, formats, ZERO_ENTRY, is64)
      case Crash(fault) => Crash(fault)
      case Done(r) =>
        match ReadEntries(r.rest, formats, count - 1, is64)
        case Crash(fault) => Crash(fault)
        case Done(tail) => Done(Read([r.value] + tail.value, tail.rest))
  }

  function ReadFormats(s: seq<u8>, count: nat): Read<seq<Format>>
    decreases count
  {
    if count == 0 then Read([], s)
    else
      var afterType := LebRest(s);
      var tail := ReadFormats(LebRest(afterType), count - 1);
      Read([Format(ToU32(ULebValue(s)), ToU32(ULebValue(afterType)))] + tail.value, tail.rest)
  }

  /** The formats of a table and its entries. */
  datatype EntryTable = EntryTable(formats: seq<Format>, entries: seq<Entry>)

  function ReadTable(s: seq<u8>, is64: bool): Outcome<Read<EntryTable>> {
    var formats := ReadFormats(RestAfter(s, 1), ByteAt(s));
    match ReadEntries(LebRest(formats.rest), formats.value, ULebValue(formats.rest), is64)
    case Done(r) => Done(Read(EntryTable(formats.value, r.value), r.rest))
    case Crash(fault) => Crash(fault)
  }

  // ----- reading the header -----

  datatype Header = Header(
    is64: bool, unitLength: u64, version: u16, addressSize: u8, segmentSelectorSize: u8, headerLength: u64,
    params: Params, standardOpcodeLengths: seq<u8>, directories: EntryTable, files: EntryTable)

  /** The initial length (section 7.4): which of the two formats, and how long the unit is. */
  datatype InitialLength = InitialLength(is64: bool, unitLength: u64)

  function ReadLength(s: seq<u8>): Outcome<Read<InitialLength>> {
    var start, r := OffsetAt(s, 4), RestAfter(s, 4);
    if start < 0xffff_fff0 then Done(Read(InitialLength(false, start), r))
    else if start == 0xffff_ffff then Done(Read(InitialLength(true, OffsetAt(r, 8)), RestAfter(r, 8)))
    else Crash(AssertionFailed)
  }

  datatype FixedFields = FixedFields(
    version: u16, addressSize: u8, segmentSelectorSize: u8, headerLength: u64, params: Params)

  /** The value of a byte read into an `int8_t`. */
  function ToI8(b: u8): i8 { if b < 0x80 then b else b - 0x100 }

  function FromI8(x: i8): u8 { if x >= 0 then x else x + 0x100 }

  function ReadParams(s: seq<u8>): Read<Params> {
    var s1 := RestAfter(s, 1);
    var s2 := RestAfter(s1, 1);
    var s3 := RestAfter(s2, 1);
    var s4 := RestAfter(s3, 1);
    var s5 := RestAfter(s4, 1);
    Read(Params(ByteAt(s), ByteAt(s1), ByteAt(s2), ToI8(ByteAt(s3)), ByteAt(s4), ByteAt(s5)), RestAfter(s5, 1))
  }

  function ReadFixed(s: seq<u8>, is64: bool): Read<FixedFields> {
    UintAtBound(s, 2);
    Pow2Values();
    var s1 := RestAfter(s, 2);
    var s2 := RestAfter(s1, 1);
    var s3 := RestAfter(s2, 1);
    var n := OffsetSize(is64);
    var params := ReadParams(RestAfter(s3, n));
    Read(FixedFields(UintAt(s, 2, 0), ByteAt(s1), ByteAt(s2), OffsetAt(s3, n), params.value), params.rest)
  }

  /** `opcode_base - 1` lengths into a zeroed array. For `opcode_base` 0 neither the allocation nor
      the read of `SIZE_MAX` bytes succeeds. */
  function ReadOpcodeLengths(s: seq<u8>, base: u8): Read<seq<u8>> {
    if base == 0 then Read([], s)
    else if base - 1 <= |s| then Read(s[..base - 1], s[base - 1..])
    else Read(Zeros(base - 1), s)
  }

  function ReadHeader(s: seq<u8>): Outcome<Read<Header>> {
    match ReadLength(s)
    case Crash(fault) => Crash(fault)
    case Done(l) => ReadHeaderFields(l.rest, l.value)
  }

  function ReadHeaderFields(s: seq<u8>, l: InitialLength): Outcome<Read<Header>> {
    var fixed := ReadFixed(s, l.is64);
    var lengths := ReadOpcodeLengths(fixed.rest, fixed.value.params.opcodeBase);
    match ReadTable(lengths.rest, l.is64)
    case Crash(fault) => Crash(fault)
    case Done(directories) =>
      match ReadTable(directories.rest, l.is64)
      case Crash(fault) => Crash(fault)
      case Done(files) =>
        var x := fixed.value;
        Done(Read(Header(l.is64, l.unitLength, x.version, x.addressSize, x.segmentSelectorSize, x.headerLength,
                         x.params, lengths.value, directories.value, files.value),
                  files.rest))
  }

  // ----- the serialised form -----

  /** The field of `e` can be written in this form, and the form is one the code reads whole. */
  predicate FieldFits(e: Entry, f: Format, is64: bool) {
    if f.contentType == LNCT_PATH then
      || (f.formCode == FORM_STRING && e.path.OwnedPath? && 0 !in e.path.text)
      || (f.formCode == FORM_LINE_STRP && e.path.SharedPath? && (!is64 ==> e.path.offset < 0x1_0000_0000))
    else if f.contentType == LNCT_DIRECTORY_INDEX then
      || (f.formCode == FORM_DATA1 && e.directoryIndex < 0x100)
      || (f.formCode == FORM_DATA2 && e.directoryIndex < 0x1_0000)
      || f.formCode == FORM_UDATA
    else if f.contentType == LNCT_TIMESTAMP || f.contentType == LNCT_SIZE then
      f.formCode == FORM_UDATA || f.formCode == FORM_DATA8
    else
      f.contentType == LNCT_MD5 && f.formCode == FORM_DATA16
  }

  function EncodeNumber(v: u64, form: u32): seq<u8> {
    if form == FORM_DATA1 then LE(1, v)
    else if form == FORM_DATA2 then LE(2, v)
    else if form == FORM_DATA8 then LE(8, v)
    else EncodeULeb(v)
  }

  function EncodeField(e: Entry, f: Format, is64: bool): seq<u8>
    requires FieldFits(e, f, is64)
  {
    if f.contentType == LNCT_PATH then
      if f.formCode == FORM_STRING then e.path.text + [0] else LE(OffsetSize(is64), e.path.offset)
    else if f.contentType == LNCT_DIRECTORY_INDEX then EncodeNumber(e.directoryIndex, f.formCode)
    else if f.contentType == LNCT_TIMESTAMP then EncodeNumber(e.timestamp, f.formCode)
    else if f.contentType == LNCT_SIZE then EncodeNumber(e.size, f.formCode)
    else e.md5
  }

  /** What of `e` the given content types convey; the rest stays zero. */
  function Mask(e: Entry, types: set<u32>): Entry {
    Entry(if LNCT_PATH in types then e.path else NullPath,
          if LNCT_DIRECTORY_INDEX in types then e.directoryIndex else 0,
          if LNCT_TIMESTAMP in types then e.timestamp else 0,
          if LNCT_SIZE in types then e.size else 0,
          if LNCT_MD5 in types then e.md5 else ZERO_MD5)
  }

  function Types(formats: seq<Format>): set<u32> {
    set i | 0 <= i < |formats| :: formats[i].contentType
  }

  /** An entry these formats can convey whole: any formats in any order, also repeated. */
  predicate EntryFits(e: Entry, formats: seq<Format>, is64: bool) {
    && (forall i :: 0 <= i < |formats| ==> FieldFits(e, formats[i], is64))
    && Mask(e, Types(formats)) == e
  }

  predicate FieldsFit(e: Entry, formats: seq<Format>, is64: bool) {
    forall i :: 0 <= i < |formats| ==> FieldFits(e, formats[i], is64)
  }

  function EncodeEntry(e: Entry, formats: seq<Format>, is64: bool): seq<u8>
    requires FieldsFit(e, formats, is64)
  {
    if formats == [] then [] else EncodeField(e, formats[0], is64) + EncodeEntry(e, formats[1..], is64)
  }

  predicate EntriesFit(es: seq<Entry>, formats: seq<Format>, is64: bool) {
    forall i :: 0 <= i < |es| ==> EntryFits(es[i], formats, is64)
  }

  function EncodeEntries(es: seq<Entry>, formats: seq<Format>, is64: bool): seq<u8>
    requires EntriesFit(es, formats, is64)
  {
    if es == [] then [] else EncodeEntry(es[0], formats, is64) + EncodeEntries(es[1..], formats, is64)
  }

  function EncodeFormats(formats: seq<Format>): seq<u8> {
    if formats == [] then []
    else EncodeULeb(formats[0].contentType) + (EncodeULeb(formats[0].formCode) + EncodeFormats(formats[1..]))
  }

  predicate TableFits(t: EntryTable, is64: bool) {
    && |t.formats| < 0x100 && |t.entries| < 0x1_0000_0000_0000_0000
    && EntriesFit(t.entries, t.formats, is64)
  }

  function EncodeTable(t: EntryTable, is64: bool): seq<u8>
    requires TableFits(t, is64)
  {
    [|t.formats|] + (EncodeFormats(t.formats) +
                     (EncodeULeb(|t.entries|) + EncodeEntries(t.entries, t.formats, is64)))
  }

  // ----- reading undoes serialising -----

  lemma Assoc(a: seq<u8>, b: seq<u8>, c: seq<u8>)
    ensures (a + b) + c == a + (b + c)
  {
  }

  lemma NumberRoundTrip(n: nat, v: u64, t: seq<u8>)
    requires n <= 8 && v < Pow2(8 * n)
    ensures OffsetAt(LE(n, v) + t, n) == v && RestAfter(LE(n, v) + t, n) == t && n <= |LE(n, v) + t|
  {
    UintRoundTrip(n, v, t);
  }

  lemma WidthValues(v: u64)
    ensures v < 0x100 ==> v < Pow2(8 * 1)
    ensures v < 0x1_0000 ==> v < Pow2(8 * 2)
    ensures v < 0x1_0000_0000 ==> v < Pow2(8 * 4)
    ensures v < Pow2(8 * 8)
  {
    Pow2Values();
  }

  lemma ByteRoundTrip(b: u8, t: seq<u8>)
    ensures ByteAt([b] + t) == b && RestAfter([b] + t, 1) == t
  {
    ReadOne(b, t);
  }

  lemma PathRoundTrip(e: Entry, f: Format, acc: Entry, is64: bool, t: seq<u8>)
    requires f.contentType == LNCT_PATH && FieldFits(e, f, is64)
    ensures ReadPath(EncodeField(e, f, is64) + t, f.formCode, acc, is64) == Done(Read(acc.(path := e.path), t))
  {
    hide LE, CStringLength, CStringRest, HasCString, OffsetAt, RestAfter, Pow2;
    if f.formCode == FORM_STRING {
      CStringRoundTrip(e.path.text, t);
      assert (e.path.text + [0] + t)[..|e.path.text|] == e.path.text;
    } else {
      WidthValues(e.path.offset);
      NumberRoundTrip(OffsetSize(is64), e.path.offset, t);
    }
  }

  lemma DirectoryIndexRoundTrip(e: Entry, f: Format, acc: Entry, is64: bool, t: seq<u8>)
    requires f.contentType == LNCT_DIRECTORY_INDEX && FieldFits(e, f, is64)
    ensures ReadDirectoryIndex(EncodeField(e, f, is64) + t, f.formCode, acc) ==
            Done(Read(acc.(directoryIndex := e.directoryIndex), t))
  {
    hide LE, EncodeULeb, OffsetAt, RestAfter, ULebStatus, ULebValue, LebRest, Pow2;
    WidthValues(e.directoryIndex);
    if f.formCode == FORM_DATA1 {
      NumberRoundTrip(1, e.directoryIndex, t);
    } else if f.formCode == FORM_DATA2 {
      NumberRoundTrip(2, e.directoryIndex, t);
    } else {
      ULebRoundTrip(e.directoryIndex, t);
    }
  }

  lemma TimestampRoundTrip(e: Entry, f: Format, acc: Entry, is64: bool, t: seq<u8>)
    requires f.contentType == LNCT_TIMESTAMP && FieldFits(e, f, is64)
    ensures ReadTimestamp(EncodeField(e, f, is64) + t, f.formCode, acc) ==
            Done(Read(acc.(timestamp := e.timestamp), t))
  {
    hide LE, EncodeULeb, OffsetAt, RestAfter, ULebStatus, ULebValue, LebRest, Pow2;
    if f.formCode == FORM_UDATA {
      ULebRoundTrip(e.timestamp, t);
    } else {
      WidthValues(e.timestamp);
      NumberRoundTrip(8, e.timestamp, t);
    }
  }

  lemma SizeRoundTrip(e: Entry, f: Format, acc: Entry, is64: bool, t: seq<u8>)
    requires f.contentType == LNCT_SIZE && FieldFits(e, f, is64)
    ensures ReadSize(EncodeField(e, f, is64) + t, f.formCode, acc) == Done(Read(acc.(size := e.size), t))
  {
    hide LE, EncodeULeb, OffsetAt, RestAfter, ULebStatus, ULebValue, LebRest, Pow2;
    if f.formCode == FORM_UDATA {
      ULebRoundTrip(e.size, t);
    } else {
      WidthValues(e.size);
      NumberRoundTrip(8, e.size, t);
    }
  }

  lemma Md5RoundTrip(e: Entry, acc: Entry, t: seq<u8>)
    ensures ReadMd5(e.md5 + t, FORM_DATA16, acc) == Done(Read(acc.(md5 := e.md5), t))
  {
    assert (e.md5 + t)[..16] == e.md5 && (e.md5 + t)[16..] == t;
  }

  lemma FieldRoundTrip(e: Entry, f: Format, types: set<u32>, is64: bool, t: seq<u8>)
    requires FieldFits(e, f, is64)
    ensures ReadField(EncodeField(e, f, is64) + t, f, Mask(e, types), is64) ==
            Done(Read(Mask(e, types + {f.contentType}), t))
  {
    var acc := Mask(e, types);
    hide ReadPath, ReadDirectoryIndex, ReadTimestamp, ReadSize, ReadMd5;
    if f.contentType == LNCT_PATH {
      PathRoundTrip(e, f, acc, is64, t);
    } else if f.contentType == LNCT_DIRECTORY_INDEX {
      DirectoryIndexRoundTrip(e, f, acc, is64, t);
    } else if f.contentType == LNCT_TIMESTAMP {
      TimestampRoundTrip(e, f, acc, is64, t);
    } else if f.contentType == LNCT_SIZE {
      SizeRoundTrip(e, f, acc, is64, t);
    } else {
      Md5RoundTrip(e, acc, t);
    }
  }

  lemma {:induction false} EntryRoundTrip(
    e: Entry, formats: seq<Format>, types: set<u32>, is64: bool, t: seq<u8>)
    requires FieldsFit(e, formats, is64)
    ensures ReadEntry(EncodeEntry(e, formats, is64) + t, formats, Mask(e, types), is64) ==
            Done(Read(Mask(e, types + Types(formats)), t))
    decreases |formats|
  {
    hide ReadField, EncodeField, FieldFits, Mask;
    if formats == [] {
      assert types + Types([]) == types;
      assert [] + t == t;
    } else {
      var f, a, b := formats[0], EncodeField(e, formats[0], is64), EncodeEntry(e, formats[1..], is64);
      Assoc(a, b, t);
      FieldRoundTrip(e, f, types, is64, b + t);
      EntryRoundTrip(e, formats[1..], types + {f.contentType}, is64, t);
      TypesCons(formats);
      assert types + {f.contentType} + Types(formats[1..]) == types + Types(formats);
    }
  }

  lemma TypesCons(formats: seq<Format>)
    requires formats != []
    ensures Types(formats) == {formats[0].contentType} + Types(formats[1..])
  {
    var all, tail := Types(formats), Types(formats[1..]);
    forall x | x in all
      ensures x in {formats[0].contentType} + tail
    {
      var i :| 0 <= i < |formats| && formats[i].contentType == x;
      if i > 0 { assert formats[1..][i - 1].contentType == x; }
    }
    forall x | x in tail
      ensures x in all
    {
      var i :| 0 <= i < |formats[1..]| && formats[1..][i].contentType == x;
      assert formats[i + 1].contentType == x;
    }
  }

  lemma {:induction false} EntriesRoundTrip(es: seq<Entry>, formats: seq<Format>, is64: bool, t: seq<u8>)
    requires EntriesFit(es, formats, is64)
    ensures ReadEntries(EncodeEntries(es, formats, is64) + t, formats, |es|, is64) == Done(Read(es, t))
    decreases |es|
  {
    hide ReadEntry, EncodeEntry, FieldFits;
    if es == [] {
      assert [] + t == t;
    } else {
      var a, b := EncodeEntry(es[0], formats, is64), EncodeEntries(es[1..], formats, is64);
      assert Mask(es[0], {}) == ZERO_ENTRY;
      hide Mask;
      Assoc(a, b, t);
      EntryRoundTrip(es[0], formats, {}, is64, b + t);
      assert {} + Types(formats) == Types(formats);
      EntriesRoundTrip(es[1..], formats, is64, t);
      assert es == [es[0]] + es[1..];
    }
  }

  lemma {:induction false} FormatsRoundTrip(formats: seq<Format>, t: seq<u8>)
    ensures ReadFormats(EncodeFormats(formats) + t, |formats|) == Read(formats, t)
    decreases |formats|
  {
    hide EncodeULeb, ULebValue, LebRest;
    if formats == [] {
      assert [] + t == t;
    } else {
      var f := formats[0];
      var a, b, c := EncodeULeb(f.contentType), EncodeULeb(f.formCode), EncodeFormats(formats[1..]);
      Assoc(a, b + c, t);
      Assoc(b, c, t);
      ULebRoundTrip(f.contentType, b + (c + t));
      ULebRoundTrip(f.formCode, c + t);
      FormatsRoundTrip(formats[1..], t);
      assert formats == [f] + formats[1..];
    }
  }

  /** Formats and entries come back, whatever supported formats they are. */
  lemma TableRoundTrip(x: EntryTable, is64: bool, t: seq<u8>)
    requires TableFits(x, is64)
    ensures ReadTable(EncodeTable(x, is64) + t, is64) == Done(Read(x, t))
  {
    hide ByteAt, RestAfter, ReadFormats, ReadEntries, ULebValue, LebRest, EncodeULeb, EncodeFormats, EncodeEntries;
    var n, a, b, c := [|x.formats|], EncodeFormats(x.formats), EncodeULeb(|x.entries|),
                      EncodeEntries(x.entries, x.formats, is64);
    Assoc(n, a + (b + c), t);
    Assoc(a, b + c, t);
    Assoc(b, c, t);
    ByteRoundTrip(|x.formats|, a + (b + (c + t)));
    FormatsRoundTrip(x.formats, b + (c + t));
    ULebRoundTrip(|x.entries|, c + t);
    EntriesRoundTrip(x.entries, x.formats, is64, t);
  }
}

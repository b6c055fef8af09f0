/**
 * The numbers of the `.debug_line` header (sections 6.2.4, 7.4, 7.5.6 and 7.22 of the DWARF 5
 * standard): at which offsets its fields lie, and what each content type and form code makes of any
 * bytes, written out without the names that reading and serialising share.
 */
module HeaderNumbers {
  import opened Words
  import opened Wrappers
  import opened Leb128
  import opened Reader
  import opened LineMachine
  import opened LineHeader

  // ----- little-endian numbers by their bytes -----

  function Word2(s: seq<u8>): u16
    requires |s| >= 2
  {
    var a: int, b: int := s[0], s[1];
    a + 0x100 * b
  }

  function Word4(s: seq<u8>): u32
    requires |s| >= 4
  {
    var a: int, b: int := Word2(s), Word2(s[2..]);
    a + 0x1_0000 * b
  }

  function Word8(s: seq<u8>): u64
    requires |s| >= 8
  {
    var a: int, b: int := Word4(s), Word4(s[4..]);
    a + 0x1_0000_0000 * b
  }

  /** A two's-complement byte. */
  function Signed(b: u8): i8 {
    var x: int := b;
    if x < 0x80 then x else x - 0x100
  }

  lemma {:induction false} FromLEParts(s: seq<u8>, t: seq<u8>)
    ensures FromLE(s + t) == FromLE(s) + Pow2(8 * |s|) * FromLE(t)
  {
    if s == [] {
      assert s + t == t;
    } else {
      assert (s + t)[1..] == s[1..] + t;
      FromLEParts(s[1..], t);
      ByteWeight(|s|);
      var w := Pow2(8 * |s[1..]|);
      assert 0x100 * (w * FromLE(t)) == 0x100 * w * FromLE(t);
    }
  }

  lemma FromLE2(s: seq<u8>)
    requires |s| >= 2
    ensures FromLE(s[..2]) == Word2(s)
  {
    assert s[..2][1..] == [s[1]] && FromLE([s[1]]) == s[1];
  }

  lemma FromLE4(s: seq<u8>)
    requires |s| >= 4
    ensures FromLE(s[..4]) == Word4(s)
  {
    hide FromLE, Pow2;
    assert s[..4] == s[..2] + s[2..][..2];
    FromLEParts(s[..2], s[2..][..2]);
    FromLE2(s);
    FromLE2(s[2..]);
    Pow2Values();
  }

  /** What reads of one, two, four and eight bytes store. */
  lemma NumbersAt(s: seq<u8>)
    ensures |s| >= 1 ==> OffsetAt(s, 1) == s[0] && ByteAt(s) == s[0]
    ensures |s| >= 2 ==> OffsetAt(s, 2) == Word2(s)
    ensures |s| >= 4 ==> OffsetAt(s, 4) == Word4(s)
    ensures |s| >= 8 ==> OffsetAt(s, 8) == Word8(s)
  {
    if |s| >= 1 { assert s[..1] == [s[0]] && FromLE([s[0]]) == s[0]; }
    if |s| >= 2 { FromLE2(s); }
    if |s| >= 4 { FromLE4(s); }
    if |s| >= 8 { FromLE8(s); }
  }

  lemma FromLE8(s: seq<u8>)
    requires |s| >= 8
    ensures FromLE(s[..8]) == Word8(s)
  {
    hide FromLE, Pow2;
    assert s[..8] == s[..4] + s[4..][..4];
    FromLEParts(s[..4], s[4..][..4]);
    FromLE4(s);
    FromLE4(s[4..]);
    Pow2Values();
  }

  // ----- fields of an entry -----

  /** Content type 1, the path: form 8 is a string, 0x1f an offset into `.debug_line_str` of 4 or 8
      bytes; 0x0e and 0x1d are offsets too, of which the code makes nothing. */
  lemma PathForms(s: seq<u8>, text: seq<u8>, form: u32, e: Entry, is64: bool)
    ensures 0 !in text ==>
              ReadField(text + [0] + s, Format(1, 0x08), e, is64) == Done(Read(e.(path := OwnedPath(text)), s))
    ensures 0 !in s ==> ReadField(s, Format(1, 0x08), e, is64) == Done(Read(e, s))
    ensures ReadField(s, Format(1, 0x1f), e, false) ==
            if |s| >= 4 then Done(Read(e.(path := SharedPath(Word4(s))), s[4..])) else Done(Read(e, s))
    ensures ReadField(s, Format(1, 0x1f), e, true) ==
            if |s| >= 8 then Done(Read(e.(path := SharedPath(Word8(s))), s[8..])) else Done(Read(e, s))
    ensures ReadField(s, Format(1, 0x0e), e, is64) == Crash(AssertionFailed)
    ensures ReadField(s, Format(1, 0x1d), e, is64) ==
            if |s| >= (if is64 then 8 else 4) then Crash(UninitialisedRead) else Done(Read(e, s))
    ensures form !in {0x08, 0x1f, 0x0e, 0x1d} ==> ReadField(s, Format(1, form), e, is64) == Crash(UninitialisedRead)
  {
    NumbersAt(s);
    hide OffsetAt, Word4, Word8;
    if 0 !in text {
      CStringRoundTrip(text, s);
      assert (text + [0] + s)[..|text|] == text;
    }
    if 0 !in s { assert !HasCString(s); }
  }

  /** Content type 2, the directory index: forms 0x0b and 5 are one and two bytes, 0x0f a LEB128. */
  lemma DirectoryIndexForms(s: seq<u8>, form: u32, e: Entry, is64: bool)
    ensures ReadField(s, Format(2, 0x0b), e, is64) ==
            if |s| >= 1 then Done(Read(e.(directoryIndex := s[0]), s[1..])) else Done(Read(e, s))
    ensures ReadField(s, Format(2, 0x05), e, is64) ==
            if |s| >= 2 then Done(Read(e.(directoryIndex := Word2(s)), s[2..])) else Done(Read(e, s))
    ensures ReadField(s, Format(2, 0x0f), e, is64) ==
            Done(Read(if ULebStatus(s) == ReadOk then e.(directoryIndex := ULebValue(s)) else e, LebRest(s)))
    ensures form !in {0x0b, 0x05, 0x0f} ==> ReadField(s, Format(2, form), e, is64) == Crash(UninitialisedRead)
  {
    NumbersAt(s);
    hide OffsetAt, ULebStatus, ULebValue, LebRest;
  }

  /** Content type 3, the timestamp: form 0x0f is a LEB128, 7 eight bytes. The four bytes of form 6
      leave half of the variable unset, so does a block (form 9) of other than eight bytes, and a
      longer one overruns it. */
  lemma TimestampForms(s: seq<u8>, form: u32, e: Entry, is64: bool)
    ensures ReadField(s, Format(3, 0x0f), e, is64) ==
            Done(Read(if ULebStatus(s) == ReadOk then e.(timestamp := ULebValue(s)) else e, LebRest(s)))
    ensures ReadField(s, Format(3, 0x06), e, is64) == if |s| >= 4 then Crash(UninitialisedRead) else Done(Read(e, s))
    ensures ReadField(s, Format(3, 0x07), e, is64) ==
            if |s| >= 8 then Done(Read(e.(timestamp := Word8(s)), s[8..])) else Done(Read(e, s))
    ensures
      var n, r := ULebValue(s), LebRest(s);
      ReadField(s, Format(3, 0x09), e, is64) ==
      if n > |r| then Done(Read(e, r))
      else if n == 8 then Done(Read(e.(timestamp := Word8(r)), r[8..]))
      else Crash(if n > 8 then OutOfBoundsWrite else UninitialisedRead)
    ensures form !in {0x0f, 0x06, 0x07, 0x09} ==> ReadField(s, Format(3, form), e, is64) == Crash(UninitialisedRead)
  {
    NumbersAt(s);
    NumbersAt(LebRest(s));
    hide OffsetAt, ULebStatus, ULebValue, LebRest, Word8;
  }

  /** Content type 4, the size: form 0x0f is a LEB128, 7 eight bytes; one, two and four bytes (0x0b, 5
      and 6) leave part of the variable unset. */
  lemma SizeForms(s: seq<u8>, form: u32, e: Entry, is64: bool)
    ensures ReadField(s, Format(4, 0x0f), e, is64) ==
            Done(Read(if ULebStatus(s) == ReadOk then e.(size := ULebValue(s)) else e, LebRest(s)))
    ensures ReadField(s, Format(4, 0x0b), e, is64) == if |s| >= 1 then Crash(UninitialisedRead) else Done(Read(e, s))
    ensures ReadField(s, Format(4, 0x05), e, is64) == if |s| >= 2 then Crash(UninitialisedRead) else Done(Read(e, s))
    ensures ReadField(s, Format(4, 0x06), e, is64) == if |s| >= 4 then Crash(UninitialisedRead) else Done(Read(e, s))
    ensures ReadField(s, Format(4, 0x07), e, is64) ==
            if |s| >= 8 then Done(Read(e.(size := Word8(s)), s[8..])) else Done(Read(e, s))
    ensures form !in {0x0f, 0x0b, 0x05, 0x06, 0x07} ==>
              ReadField(s, Format(4, form), e, is64) == Crash(UninitialisedRead)
  {
    NumbersAt(s);
    hide OffsetAt, ULebStatus, ULebValue, LebRest, Word8;
  }

  /** Content type 5, the MD5 digest: form 0x1e is sixteen bytes. The types 0x2000 to 0x3fff fail an
      assert, all others are taken for fields of no bytes. */
  lemma OtherContentTypes(s: seq<u8>, contentType: u32, form: u32, e: Entry, is64: bool)
    ensures ReadField(s, Format(5, 0x1e), e, is64) ==
            if |s| >= 16 then Done(Read(e.(md5 := s[..16]), s[16..])) else Done(Read(e, s))
    ensures form != 0x1e ==> ReadField(s, Format(5, form), e, is64) == Crash(UninitialisedRead)
    ensures 0x2000 <= contentType <= 0x3fff ==>
              ReadField(s, Format(contentType, form), e, is64) == Crash(AssertionFailed)
    ensures contentType == 0 || 5 < contentType < 0x2000 || contentType > 0x3fff ==>
              ReadField(s, Format(contentType, form), e, is64) == Done(Read(e, s))
  {
  }

  // ----- fields of the header -----

  /** The initial length: four bytes below 0xfffffff0, or 0xffffffff and eight bytes more for 64-bit
      DWARF; the numbers between fail an assert. */
  lemma LengthAt(s: seq<u8>)
    requires |s| >= 4
    ensures Word4(s) < 0xffff_fff0 ==> ReadLength(s) == Done(Read(InitialLength(false, Word4(s)), s[4..]))
    ensures Word4(s) == 0xffff_ffff && |s| >= 12 ==>
              ReadLength(s) == Done(Read(InitialLength(true, Word8(s[4..])), s[12..]))
    ensures 0xffff_fff0 <= Word4(s) < 0xffff_ffff ==> ReadLength(s) == Crash(AssertionFailed)
  {
    NumbersAt(s);
    NumbersAt(s[4..]);
    hide OffsetAt, Word4, Word8;
  }

  /** The fields of the header at their offsets, from the version on; `line_base`, the fourth byte
      after the header length, is signed. */
  lemma FixedFieldsAt(s: seq<u8>, is64: bool)
    requires |s| >= (if is64 then 18 else 14)
    ensures
      var k := if is64 then 12 else 8;
      var headerLength := if is64 then Word8(s[4..]) else Word4(s[4..]);
      ReadFixed(s, is64) ==
      Read(FixedFields(Word2(s), s[2], s[3], headerLength,
                       Params(s[k], s[k + 1], s[k + 2], Signed(s[k + 3]), s[k + 4], s[k + 5])), s[k + 6..])
  {
    var k := if is64 then 12 else 8;
    NumbersAt(s);
    NumbersAt(s[2..]);
    NumbersAt(s[3..]);
    NumbersAt(s[4..]);
    assert s[2..][1..] == s[3..] && s[3..][1..] == s[4..] && s[4..][k - 4..] == s[k..];
    UintAtBound(s, 2);
    hide OffsetAt, ByteAt, Word4, Word8, ReadParams;
    ParamsAt(s[k..]);
    assert s[k..][6..] == s[k + 6..];
  }

  lemma ParamsAt(s: seq<u8>)
    requires |s| >= 6
    ensures ReadParams(s) ==
            Read(Params(s[0], s[1], s[2], Signed(s[3]), s[4], s[5]), s[6..])
  {
    NumbersAt(s);
    NumbersAt(s[1..]);
    NumbersAt(s[2..]);
    NumbersAt(s[3..]);
    NumbersAt(s[4..]);
    NumbersAt(s[5..]);
    assert s[1..][1..] == s[2..] && s[2..][1..] == s[3..] && s[3..][1..] == s[4..] && s[4..][1..] == s[5..] &&
           s[5..][1..] == s[6..];
    hide OffsetAt, ByteAt, Word4, Word8;
  }

  /** One operand count for each standard opcode below `opcode_base`, zeros if they are not all there. */
  lemma OpcodeLengthsAt(s: seq<u8>, base: u8)
    ensures
      var r := ReadOpcodeLengths(s, base);
      && |r.value| == (if base == 0 then 0 else base - 1)
      && (|s| >= |r.value| ==> r.value + r.rest == s)
      && (|s| < |r.value| ==> r.rest == s && forall i :: 0 <= i < |r.value| ==> r.value[i] == 0)
  {
  }
}

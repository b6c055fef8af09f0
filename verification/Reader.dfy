/** The bounds-checked byte cursor of `src/reader.c`. */
module Reader {
  import opened Words
  import opened Leb128

  datatype ReadResult = ReadResult(status: ReadStatus, bytesConsumed: nat)

  // ----- what each read yields and leaves, as functions of the bytes still unread -----

  /** The unread bytes after an attempt to take `n`: a read that does not fit takes nothing. */
  function RestAfter(s: seq<u8>, n: nat): seq<u8> {
    if n <= |s| then s[n..] else s
  }

  /** The little-endian integer an `n`-byte read stores; a read that does not fit leaves `initial`. */
  function UintAt(s: seq<u8>, n: nat, initial: nat): nat {
    if n <= |s| then FromLE(s[..n]) else initial
  }

  lemma UintAtBound(s: seq<u8>, n: nat)
    ensures UintAt(s, n, 0) < Pow2(8 * n)
  {
    if n <= |s| { FromLEBound(s[..n]); }
  }

  /** The byte a one-byte read stores in a zeroed variable. */
  function ByteAt(s: seq<u8>): u8 {
    UintAtBound(s, 1);
    Pow2Values();
    UintAt(s, 1, 0)
  }

  /** Reading back `n` little-endian bytes. */
  lemma UintRoundTrip(n: nat, v: nat, t: seq<u8>)
    requires v < Pow2(8 * n)
    ensures UintAt(LE(n, v) + t, n, 0) == v
    ensures RestAfter(LE(n, v) + t, n) == t
  {
    LERoundTrip(n, v);
    assert (LE(n, v) + t)[..n] == LE(n, v);
  }

  /** The length of the string at the front of `s`: its first zero byte, or all of `s`. */
  function CStringLength(s: seq<u8>): (n: nat)
    ensures n <= |s|
    ensures 0 !in s[..n]
    ensures n < |s| ==> s[n] == 0
  {
    if s == [] || s[0] == 0 then 0
    else
      var n := CStringLength(s[1..]);
      assert s[..n + 1] == [s[0]] + s[1..][..n];
      n + 1
  }

  predicate HasCString(s: seq<u8>) {
    CStringLength(s) < |s|
  }

  function CStringRest(s: seq<u8>): seq<u8> {
    if HasCString(s) then s[CStringLength(s) + 1..] else s
  }

  lemma {:induction false} CStringRoundTrip(text: seq<u8>, t: seq<u8>)
    requires 0 !in text
    ensures HasCString(text + [0] + t)
    ensures CStringLength(text + [0] + t) == |text|
    ensures CStringRest(text + [0] + t) == t
  {
    if text == [] {
      assert (text + [0] + t)[0] == 0;
    } else {
      CStringRoundTrip(text[1..], t);
      assert (text + [0] + t)[1..] == text[1..] + [0] + t;
    }
  }

  /** The end of a signed read: `bits` holds `n` groups, `byte` the last of them. */
  method SignExtendBits(bits: u64, n: nat, byte: u8, ghost groups: seq<u8>) returns (out: i64)
    requires 0 < n == |groups| <= LEB_CAP && byte == groups[n - 1] && bits == ToU64(GroupSum(groups))
    ensures out == ToI64(SignedGroupSum(groups))
  {
    hide Or, Pow2, Shl, Neg64, ToU64, ToI64, GroupSum, SignedGroupSum;
    SignExtend(groups);
    SignedOfWrapped(SignedGroupSum(groups));
    var extended: u64 := bits;
    if n * 7 < 64 && Bit6(byte) {
      extended := Or(bits, Neg64(Shl(1, n * 7)));
    }
    return ToI64(extended);
  }

  class BinaryReader {
    const data: seq<u8>
    var cursor: nat
    var remaining: nat

    ghost predicate Valid()
      reads this
    {
      cursor + remaining == |data|
    }

    /** The bytes still unread. */
    ghost function Rest(): (s: seq<u8>)
      requires Valid()
      reads this
      ensures |s| == remaining
    {
      data[cursor..]
    }

    constructor (bytes: seq<u8>)
      ensures Valid() && Rest() == bytes
    {
      data := bytes;
      cursor := 0;
      remaining := |bytes|;
    }

    method Advance(bytes: nat) returns (result: ReadResult)
      requires Valid()
      modifies this
      ensures Valid() && Rest() == RestAfter(old(Rest()), bytes)
      ensures result == if bytes <= old(remaining) then ReadResult(ReadOk, bytes) else ReadResult(OutOfBounds, 0)
    {
      if bytes > remaining {
        return ReadResult(OutOfBounds, 0);
      }
      cursor := cursor + bytes;
      remaining := remaining - bytes;
      return ReadResult(ReadOk, bytes);
    }

    method ReadBytes(bytes: nat) returns (result: ReadResult, out: seq<u8>)
      requires Valid()
      modifies this
      ensures Valid() && Rest() == RestAfter(old(Rest()), bytes)
      ensures result.status == (if bytes <= old(remaining) then ReadOk else OutOfBounds)
      ensures result.status == ReadOk ==> out == old(Rest())[..bytes]
      ensures result.status != ReadOk ==> out == []
    {
      var current := cursor;
      result := Advance(bytes);
      if result.status != ReadOk {
        return result, [];
      }
      out := data[current..current + bytes];
    }

    /** `ReadBytes` into an integer variable of the (little-endian) machine that holds `initial`. */
    method ReadUint(bytes: nat, initial: nat) returns (result: ReadResult, out: nat)
      requires Valid()
      modifies this
      ensures Valid() && Rest() == RestAfter(old(Rest()), bytes)
      ensures result.status == (if bytes <= old(remaining) then ReadOk else OutOfBounds)
      ensures out == UintAt(old(Rest()), bytes, initial)
    {
      var raw;
      result, raw := ReadBytes(bytes);
      out := if result.status == ReadOk then FromLE(raw) else initial;
    }

    method ReadU8() returns (out: u8)
      requires Valid()
      modifies this
      ensures Valid() && Rest() == RestAfter(old(Rest()), 1)
      ensures out == ByteAt(old(Rest()))
    {
      UintAtBound(Rest(), 1);
      Pow2Values();
      var _, v := ReadUint(1, 0);
      out := v;
    }

    /** `ReadBytes` of one byte. */
    method ReadByte() returns (result: ReadResult, byte: u8)
      requires Valid()
      modifies this
      ensures Valid()
      ensures old(remaining) == 0 ==> result.status == OutOfBounds && byte == 0 && Rest() == old(Rest())
      ensures old(remaining) > 0 ==>
                result.status == ReadOk && byte == old(Rest())[0] && Rest() == old(Rest())[1..]
    {
      var out;
      result, out := ReadBytes(1);
      byte := if result.status == ReadOk then out[0] else 0;
    }

    method ReadULeb128() returns (result: ReadResult, out: u64)
      requires Valid()
      modifies this
      ensures Valid() && Rest() == LebRest(old(Rest()))
      ensures result == ReadResult(ULebStatus(old(Rest())), LebLength(old(Rest()), LEB_CAP))
      ensures out == ULebValue(old(Rest()))
    {
      ghost var s := Rest();
      hide Or, Pow2, Shl, Neg64, ToU64, ToI64, GroupSum, SignedGroupSum, Scanning,
        LebLength, LebRest, LebTerminated, ULebStatus, ULebValue, SLebStatus, SLebValue;
      ScanStart(s);
      WrapZero();
      var n := 0;
      out := 0;
      while true
        invariant Valid() && n <= 10 && Scanning(s, n) && n <= |s| && Rest() == s[n..]
        invariant out == ToU64(GroupSum(s[..n]))
        decreases 10 - n
      {
        if n == 10 {
          ScanFails(s, n);
          return ReadResult(LebU64Overflow, n), out;
        }
        var r, byte := ReadByte();
        if r.status != ReadOk {
          ScanFails(s, n);
          return ReadResult(r.status, n), out;
        }
        OrGroup(s[..n], byte);
        assert s[..n + 1] == s[..n] + [byte];
        out := Or(out, Shl(byte % 0x80, n * 7));
        n := n + 1;
        if byte < 0x80 {
          ScanEnds(s, n - 1);
          return ReadResult(ReadOk, n), out;
        }
        ScanStep(s, n - 1);
      }
    }

    method ReadSLeb128() returns (result: ReadResult, out: i64)
      requires Valid()
      modifies this
      ensures Valid() && Rest() == LebRest(old(Rest()))
      ensures result == ReadResult(SLebStatus(old(Rest())), LebLength(old(Rest()), LEB_CAP))
      ensures out == SLebValue(old(Rest()))
    {
      ghost var s := Rest();
      hide Or, Pow2, Shl, Neg64, ToU64, ToI64, GroupSum, SignedGroupSum, Scanning,
        LebLength, LebRest, LebTerminated, ULebStatus, ULebValue, SLebStatus, SLebValue;
      ScanStart(s);
      WrapZero();
      var n := 0;
      var bits: u64 := 0;  // the 64-bit pattern of `*out`
      while true
        invariant Valid() && n <= 10 && Scanning(s, n) && n <= |s| && Rest() == s[n..]
        invariant bits == ToU64(GroupSum(s[..n]))
        decreases 10 - n
      {
        SignedOfWrapped(GroupSum(s[..n]));
        if n == 10 {
          ScanFails(s, n);
          return ReadResult(LebI64Overflow, n), ToI64(bits);
        }
        var r, byte := ReadByte();
        if r.status != ReadOk {
          ScanFails(s, n);
          return ReadResult(r.status, n), ToI64(bits);
        }
        OrGroup(s[..n], byte);
        assert s[..n + 1] == s[..n] + [byte];
        bits := Or(bits, Shl(byte % 0x80, n * 7));
        n := n + 1;
        if byte < 0x80 {
          ScanEnds(s, n - 1);
          out := SignExtendBits(bits, n, byte, s[..n]);
          return ReadResult(ReadOk, n), out;
        }
        ScanStep(s, n - 1);
      }
    }

    /** Copies the string at the cursor and moves past its terminator. */
    method ReadCString() returns (result: ReadResult, out: seq<u8>)
      requires Valid()
      modifies this
      ensures Valid() && Rest() == CStringRest(old(Rest()))
      ensures result.status == if HasCString(old(Rest())) then ReadOk else OutOfBounds
      ensures out == if HasCString(old(Rest())) then old(Rest())[..CStringLength(old(Rest()))] else []
    {
      ghost var s := Rest();
      var n := 0;
      while n < remaining && data[cursor + n] != 0
        invariant n <= remaining == |s|
        invariant n + CStringLength(s[n..]) == CStringLength(s)
      {
        assert s[n..][1..] == s[n + 1..];
        n := n + 1;
      }
      if n == remaining {
        return ReadResult(OutOfBounds, 0), [];
      }
      out := data[cursor..cursor + n];
      cursor := cursor + n + 1;
      remaining := remaining - (n + 1);
      return ReadResult(ReadOk, n + 1), out;
    }
  }

  /** Shifting the next 7-bit group into place and or-ing it in adds it, modulo 2^64. */
  lemma OrGroup(s: seq<u8>, b: u8)
    requires |s| < LEB_CAP
    ensures Or(ToU64(GroupSum(s)), Shl(b % 0x80, |s| * 7)) == ToU64(GroupSum(s + [b]))
  {
    hide Or, Pow2, GroupSum;
    var k, v := 7 * |s|, b % 0x80;
    GroupSumSnoc(s, b);
    GroupSumBound(s);
    if |s| < 9 {
      Pow2UpTo56(k);
      OrFits(GroupSum(s), v, k);
    } else {
      Pow2Values();
      OrTop(GroupSum(s), v);
    }
  }

  lemma Pow2UpTo56(k: nat)
    requires k <= 56
    ensures Pow2(k) <= 0x100_0000_0000_0000
  {
    Pow2Values();
    Pow2Mono(k, 56);
  }

  /** A group below bit 63 is not truncated by its shift. */
  lemma OrFits(g: nat, v: nat, k: nat)
    requires g < Pow2(k) <= 0x100_0000_0000_0000 && v < 0x80
    ensures Or(ToU64(g), Shl(v, k)) == ToU64(g + v * Pow2(k))
  {
    hide Or, Pow2, GroupSum;
    var p := Pow2(k);
    MulFits(v, p);
    assert ToU64(g) == g && Shl(v, k) == v * p;
    OrDisjoint(g, v, k);
  }

  lemma MulFits(v: nat, p: nat)
    requires v < 0x80 && p <= 0x100_0000_0000_0000
    ensures v * p <= 0x7f00_0000_0000_0000
  {
    assert v * p <= v * 0x100_0000_0000_0000;
  }

  /** Of the tenth group only bit 0 lands inside 64 bits. */
  lemma OrTop(g: nat, v: nat)
    requires Pow2(63) == 0x8000_0000_0000_0000 && g < Pow2(63) && v < 0x80
    ensures Or(ToU64(g), Shl(v, 63)) == ToU64(g + v * Pow2(63))
  {
    hide Or, Pow2, GroupSum;
    OrDisjoint(g, v % 2, 63);
    assert v == 2 * (v / 2) + v % 2;
  }

  predicate Bit6(b: u8) {
    b / 0x40 % 2 == 1
  }

  /** What the final sign extension of a signed read makes of the groups `s`. */
  function SignExtended(s: seq<u8>): nat
    requires s != []
  {
    var bits, k := ToU64(GroupSum(s)), |s| * 7;
    if k < 64 && Bit6(s[|s| - 1]) then Or(bits, Neg64(Shl(1, k))) else bits
  }

  /** Or-ing in the mask of high ones is two's-complement sign extension. */
  lemma SignExtend(s: seq<u8>)
    requires s != [] && |s| <= LEB_CAP
    ensures SignExtended(s) == ToU64(SignedGroupSum(s))
  {
    hide Or, Pow2, GroupSum, SignedGroupSum, ToU64, Neg64, Shl;
    var k, g := |s| * 7, GroupSum(s);
    SignedIsUnsignedMinusWeight(s);
    GroupSumBound(s);
    Bit6IsTopBit(s[|s| - 1]);
    if |s| < 10 {
      Pow2UpTo63(k);
      MaskHigh(g, k);
    } else {
      Pow2Of70();
      WrapIgnores70(g);
    }
  }

  lemma Bit6IsTopBit(b: u8)
    ensures Bit6(b) <==> b % 0x80 >= 0x40
  {
  }

  lemma WrapIgnores70(g: nat)
    ensures ToU64(g - 0x40 * 0x1_0000_0000_0000_0000) == ToU64(g)
  {
  }

  lemma Pow2UpTo63(k: nat)
    requires k <= 63
    ensures Pow2(k) <= 0x8000_0000_0000_0000
  {
    Pow2Values();
    Pow2Mono(k, 63);
  }

  lemma Pow2Of70()
    ensures Pow2(70) == 0x40 * 0x1_0000_0000_0000_0000
  {
    Pow2Values();
    Pow2Add(6, 64);
    assert Pow2(6) == 0x40;
  }

  lemma MaskHigh(g: nat, k: nat)
    requires k <= 63 && g < Pow2(k) <= 0x8000_0000_0000_0000
    ensures Or(ToU64(g), Neg64(Shl(1, k))) == ToU64(g - Pow2(k))
  {
    hide Or, Pow2, ToU64, Neg64, Shl;
    var p, q := Pow2(k), Pow2(64 - k);
    Pow2Values();
    Pow2Add(64 - k, k);
    HighMask(k, q);
    OrDisjoint(g, q - 1, k);
    WrapNegative(g - p);
    WrapFits(g);
  }

  /** The 64-bit negation of one bit is the mask of that bit and all above it. */
  lemma HighMask(k: nat, q: nat)
    requires 0 < Pow2(k) <= 0x8000_0000_0000_0000 && q * Pow2(k) == 0x1_0000_0000_0000_0000
    ensures q > 0 && Neg64(Shl(1, k)) == (q - 1) * Pow2(k)
  {
    hide Pow2, ToU64;
    var p := Pow2(k);
    OneLess(q, p);
    assert 1 * p == p;
    WrapFits(p);
    WrapFits(0x1_0000_0000_0000_0000 - p);
  }

  lemma OneLess(q: int, p: int)
    ensures (q - 1) * p == q * p - p
  {
  }

  lemma WrapNegative(x: int)
    requires -0x1_0000_0000_0000_0000 <= x < 0
    ensures ToU64(x) == x + 0x1_0000_0000_0000_0000
  {
  }

  lemma WrapZero()
    ensures ToU64(0) == 0
  {
  }

  lemma SignedOfWrapped(x: int)
    ensures ToI64(ToU64(x)) == ToI64(x)
  {
  }
}

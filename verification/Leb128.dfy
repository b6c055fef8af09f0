/**
 * The LEB128 encodings of section 7.6 of the DWARF 5 standard: what an encoding of 7-bit groups
 * means, the encoders of its appendix C, and the proof that reading undoes encoding.
 */
module Leb128 {
  import opened Words

  datatype ReadStatus = ReadOk | OutOfBounds | LebU64Overflow | LebI64Overflow

  /** The most bytes the code reads for one number. */
  const LEB_CAP: nat := 10

  /** How many bytes a reader takes from `s`: up to and including the first without a continuation
      bit, but no more than `cap`. */
  function LebLength(s: seq<u8>, cap: nat): (n: nat)
    ensures n <= cap && n <= |s|
  {
    if cap == 0 || s == [] then 0
    else if s[0] < 0x80 then 1
    else 1 + LebLength(s[1..], cap - 1)
  }

  /** A complete number: the last byte taken has no continuation bit. */
  predicate LebTerminated(s: seq<u8>, cap: nat) {
    var n := LebLength(s, cap);
    n > 0 && s[n - 1] < 0x80
  }

  /** The sum of the 7-bit groups, group `i` weighing `128^i`. */
  function GroupSum(s: seq<u8>): nat {
    if s == [] then 0 else s[0] % 0x80 + 0x80 * GroupSum(s[1..])
  }

  /** The two's-complement value of the groups: bit 6 of the last group is the sign. */
  function SignedGroupSum(s: seq<u8>): int
    requires s != []
  {
    if |s| == 1 then s[0] % 0x80 - (if s[0] % 0x80 >= 0x40 then 0x80 else 0)
    else s[0] % 0x80 + 0x80 * SignedGroupSum(s[1..])
  }

  function ULebStatus(s: seq<u8>): ReadStatus {
    if LebTerminated(s, LEB_CAP) then ReadOk
    else if LebLength(s, LEB_CAP) == LEB_CAP then LebU64Overflow
    else OutOfBounds
  }

  function SLebStatus(s: seq<u8>): ReadStatus {
    if LebTerminated(s, LEB_CAP) then ReadOk
    else if LebLength(s, LEB_CAP) == LEB_CAP then LebI64Overflow
    else OutOfBounds
  }

  /** What an unsigned read stores, also when it fails. */
  function ULebValue(s: seq<u8>): u64 {
    ToU64(GroupSum(s[..LebLength(s, LEB_CAP)]))
  }

  /** What a signed read stores; a failed read returns before the sign extension. */
  function SLebValue(s: seq<u8>): i64 {
    var g := s[..LebLength(s, LEB_CAP)];
    if LebTerminated(s, LEB_CAP) then ToI64(SignedGroupSum(g)) else ToI64(GroupSum(g))
  }

  /** What follows the bytes a read takes. */
  function LebRest(s: seq<u8>): seq<u8> {
    s[LebLength(s, LEB_CAP)..]
  }

  /** Appendix C, unsigned: low group first, continuation bit while anything is left. */
  function EncodeULeb(v: nat): (s: seq<u8>)
    ensures s != []
  {
    if v < 0x80 then [v] else [v % 0x80 + 0x80] + EncodeULeb(v / 0x80)
  }

  /** Appendix C, signed: stop once the remaining bits all equal the sign bit just written. */
  function EncodeSLeb(v: int): (s: seq<u8>)
    ensures s != []
    decreases if v < 0 then -v else v
  {
    var low, rest := v % 0x80, v / 0x80;
    if (rest == 0 && low < 0x40) || (rest == -1 && low >= 0x40) then [low]
    else [low + 0x80] + EncodeSLeb(rest)
  }

  // ----- structure of encodings -----

  /** `s` is one complete number: continuation bits on all bytes but the last. */
  predicate IsLeb(s: seq<u8>) {
    s != [] && s[|s| - 1] < 0x80 && forall i :: 0 <= i < |s| - 1 ==> s[i] >= 0x80
  }

  lemma {:induction false} IsLebLength(s: seq<u8>, t: seq<u8>, cap: nat)
    requires IsLeb(s) && |s| <= cap
    ensures LebLength(s + t, cap) == |s|
    ensures LebTerminated(s + t, cap)
  {
    assert (s + t)[0] == s[0];
    if |s| == 1 {
    } else {
      IsLebLength(s[1..], t, cap - 1);
      assert (s + t)[1..] == s[1..] + t;
    }
  }

  /** A read has taken the first `n` bytes, and all of them continue. */
  ghost predicate Scanning(s: seq<u8>, n: nat) {
    && n <= |s| && n <= LEB_CAP
    && (forall i :: 0 <= i < n ==> s[i] >= 0x80)
    && n + LebLength(s[n..], LEB_CAP - n) == LebLength(s, LEB_CAP)
  }

  lemma ScanStart(s: seq<u8>)
    ensures Scanning(s, 0) && GroupSum(s[..0]) == 0
  {
    assert s[0..] == s;
  }

  lemma ScanStep(s: seq<u8>, n: nat)
    requires Scanning(s, n) && n < |s| && n < LEB_CAP && s[n] >= 0x80
    ensures Scanning(s, n + 1)
  {
    assert s[n..][1..] == s[n + 1..];
  }

  /** What a read reports that stops on the cap or for want of bytes. */
  lemma ScanFails(s: seq<u8>, n: nat)
    requires Scanning(s, n) && (n == |s| || n == LEB_CAP)
    ensures LebLength(s, LEB_CAP) == n && LebRest(s) == s[n..]
    ensures ULebStatus(s) == (if n == LEB_CAP then LebU64Overflow else OutOfBounds)
    ensures SLebStatus(s) == (if n == LEB_CAP then LebI64Overflow else OutOfBounds)
    ensures ULebValue(s) == ToU64(GroupSum(s[..n])) && SLebValue(s) == ToI64(GroupSum(s[..n]))
  {
  }

  /** What a read reports that meets a byte without continuation bit. */
  lemma ScanEnds(s: seq<u8>, n: nat)
    requires Scanning(s, n) && n < |s| && n < LEB_CAP && s[n] < 0x80
    ensures LebLength(s, LEB_CAP) == n + 1 && LebRest(s) == s[n + 1..]
    ensures ULebStatus(s) == SLebStatus(s) == ReadOk
    ensures ULebValue(s) == ToU64(GroupSum(s[..n + 1]))
    ensures SLebValue(s) == ToI64(SignedGroupSum(s[..n + 1]))
  {
  }

  /** Ten bytes that all have the continuation bit set take up the whole cap. */
  lemma {:induction false} LebLengthSaturates(s: seq<u8>, cap: nat)
    requires |s| >= cap && forall i :: 0 <= i < cap ==> s[i] >= 0x80
    ensures LebLength(s, cap) == cap
  {
    if cap == 0 {
    } else {
      LebLengthSaturates(s[1..], cap - 1);
    }
  }

  /** A read that ended on a terminator, or on the cap, does not depend on the bytes after it. */
  lemma {:induction false} LebLengthPrefix(s: seq<u8>, t: seq<u8>, cap: nat)
    requires LebTerminated(s, cap) || LebLength(s, cap) == cap
    ensures LebLength(s + t, cap) == LebLength(s, cap)
    ensures LebTerminated(s + t, cap) == LebTerminated(s, cap)
  {
    if cap == 0 || s[0] < 0x80 {
    } else {
      assert (s + t)[1..] == s[1..] + t;
      LebLengthPrefix(s[1..], t, cap - 1);
    }
  }

  /** The weight just above the groups of a number with one group more. */
  lemma WeightStep(n: nat)
    requires n > 0
    ensures Pow2(7 * n) == 0x80 * Pow2(7 * (n - 1)) && Pow2(0) == 1
  {
    Pow2Values();
    Pow2Add(7, 7 * (n - 1));
  }

  lemma {:induction false} GroupSumSnoc(s: seq<u8>, b: u8)
    ensures GroupSum(s + [b]) == GroupSum(s) + (b % 0x80) * Pow2(7 * |s|)
  {
    var c := b % 0x80;
    Pow2Zero();
    hide Pow2;
    if s == [] {
      assert [] + [b] == [b];
    } else {
      GroupSumSnoc(s[1..], b);
      assert (s + [b])[1..] == s[1..] + [b];
      WeightStep(|s|);
      Times80(c, Pow2(7 * (|s| - 1)));
    }
  }

  lemma Pow2Zero()
    ensures Pow2(0) == 1
  {
  }

  lemma Times80(c: int, w: int)
    ensures 0x80 * (c * w) == c * (0x80 * w)
  {
  }

  lemma {:induction false} GroupSumBound(s: seq<u8>)
    ensures GroupSum(s) < Pow2(7 * |s|)
  {
    assert Pow2(0) == 1;
    hide Pow2;
    if s == [] {
    } else {
      GroupSumBound(s[1..]);
      WeightStep(|s|);
    }
  }

  /** Sign extension is subtraction of the weight just above the top group. */
  lemma {:induction false} SignedIsUnsignedMinusWeight(s: seq<u8>)
    requires s != []
    ensures SignedGroupSum(s) ==
            GroupSum(s) - (if s[|s| - 1] % 0x80 >= 0x40 then Pow2(7 * |s|) else 0)
  {
    hide Pow2;
    WeightStep(|s|);
    if |s| == 1 {
      assert s[1..] == [];
    } else {
      SignedIsUnsignedMinusWeight(s[1..]);
    }
  }

  // ----- round trips -----

  lemma IsLebCons(s: seq<u8>)
    requires |s| > 1 && s[0] >= 0x80 && IsLeb(s[1..])
    ensures IsLeb(s)
  {
    assert forall i :: 0 < i < |s| ==> s[i] == s[1..][i - 1];
  }

  lemma {:induction false} EncodeULebIsLeb(v: nat)
    ensures IsLeb(EncodeULeb(v)) && GroupSum(EncodeULeb(v)) == v
  {
    var s := EncodeULeb(v);
    if v < 0x80 {
      assert s[1..] == [];
    } else {
      EncodeULebIsLeb(v / 0x80);
      assert s[1..] == EncodeULeb(v / 0x80);
      IsLebCons(s);
    }
  }

  lemma {:induction false} EncodeULebLength(v: nat, k: nat)
    requires k > 0 && v < Pow2(7 * k)
    ensures |EncodeULeb(v)| <= k
  {
    Pow2Values();
    if v < 0x80 {
    } else {
      if k == 1 { assert false; }
      Pow2Add(7, 7 * (k - 1));
      EncodeULebLength(v / 0x80, k - 1);
    }
  }

  lemma {:induction false} EncodeSLebIsLeb(v: int)
    ensures IsLeb(EncodeSLeb(v)) && SignedGroupSum(EncodeSLeb(v)) == v
    decreases if v < 0 then -v else v
  {
    var s := EncodeSLeb(v);
    var low, rest := v % 0x80, v / 0x80;
    if (rest == 0 && low < 0x40) || (rest == -1 && low >= 0x40) {
    } else {
      EncodeSLebIsLeb(rest);
      assert s[1..] == EncodeSLeb(rest);
      IsLebCons(s);
      hide IsLeb, EncodeSLeb;
    }
  }

  lemma {:induction false} EncodeSLebLength(v: int, k: nat)
    requires k > 0 && -1 * Pow2(7 * k - 1) <= v < Pow2(7 * k - 1)
    ensures |EncodeSLeb(v)| <= k
    decreases k
  {
    assert Pow2(6) == 64;
    var low, rest := v % 0x80, v / 0x80;
    if (rest == 0 && low < 0x40) || (rest == -1 && low >= 0x40) {
    } else {
      if k == 1 { assert false; }
      Pow2Values();
      Pow2Add(7, 7 * (k - 1) - 1);
      EncodeSLebLength(rest, k - 1);
    }
  }

  lemma Pow2Of69()
    ensures Pow2(69) >= 0x1_0000_0000_0000_0000 && Pow2(70) >= 0x1_0000_0000_0000_0000
  {
    Pow2Values();
    Pow2Mono(64, 69);
    Pow2Mono(64, 70);
  }

  /** Reading one complete number takes exactly its bytes. */
  lemma ReadIsLeb(s: seq<u8>, t: seq<u8>)
    requires IsLeb(s) && |s| <= LEB_CAP
    ensures ULebStatus(s + t) == SLebStatus(s + t) == ReadOk && LebRest(s + t) == t
    ensures ULebValue(s + t) == ToU64(GroupSum(s))
    ensures SLebValue(s + t) == ToI64(SignedGroupSum(s))
  {
    hide GroupSum, SignedGroupSum, ToU64, ToI64, LebLength;
    IsLebLength(s, t, LEB_CAP);
    assert (s + t)[..|s|] == s;
  }

  /** Reading the encoding of any `uint64_t` gives it back and leaves exactly what follows. */
  lemma ULebRoundTrip(v: u64, t: seq<u8>)
    ensures ULebStatus(EncodeULeb(v) + t) == ReadOk
    ensures ULebValue(EncodeULeb(v) + t) == v
    ensures LebRest(EncodeULeb(v) + t) == t
  {
    hide EncodeULeb, IsLeb, GroupSum, Pow2, LebLength, LebRest, ULebValue, ULebStatus;
    Pow2Of69();
    EncodeULebIsLeb(v);
    EncodeULebLength(v, LEB_CAP);
    ReadIsLeb(EncodeULeb(v), t);
  }

  /** Reading the encoding of any `int64_t` gives it back and leaves exactly what follows. */
  lemma SLebRoundTrip(v: i64, t: seq<u8>)
    ensures SLebStatus(EncodeSLeb(v) + t) == ReadOk
    ensures SLebValue(EncodeSLeb(v) + t) == v
    ensures LebRest(EncodeSLeb(v) + t) == t
  {
    hide EncodeSLeb, IsLeb, SignedGroupSum, Pow2, LebLength, LebRest, SLebValue, SLebStatus;
    Pow2Of69();
    EncodeSLebIsLeb(v);
    EncodeSLebLength(v, LEB_CAP);
    ReadIsLeb(EncodeSLeb(v), t);
  }

  /** Any encoding of up to ten bytes, canonical or padded, reads as the sum of its 7-bit groups, in
      64 bits; ten continuation bytes overflow, and fewer with nothing after them run out. */
  lemma LebGeneral(s: seq<u8>, t: seq<u8>)
    requires |s| <= 10
    ensures IsLeb(s) ==> ULebStatus(s + t) == SLebStatus(s + t) == ReadOk && LebRest(s + t) == t &&
                         ULebValue(s + t) == ToU64(GroupSum(s)) && SLebValue(s + t) == ToI64(SignedGroupSum(s))
    ensures |s| == 10 && (forall i :: 0 <= i < |s| ==> s[i] >= 0x80) ==>
              ULebStatus(s + t) == LebU64Overflow && SLebStatus(s + t) == LebI64Overflow && LebRest(s + t) == t
    ensures |s| < 10 && (forall i :: 0 <= i < |s| ==> s[i] >= 0x80) ==>
              ULebStatus(s) == SLebStatus(s) == OutOfBounds && LebRest(s) == []
  {
    if IsLeb(s) { ReadIsLeb(s, t); }
    if forall i :: 0 <= i < |s| ==> s[i] >= 0x80 {
      if |s| == 10 { LebLengthSaturates(s + t, 10); } else { LebLengthRunsOut(s, LEB_CAP); }
    }
  }

  lemma {:induction false} LebLengthRunsOut(s: seq<u8>, cap: nat)
    requires |s| < cap && forall i :: 0 <= i < |s| ==> s[i] >= 0x80
    ensures LebLength(s, cap) == |s|
    decreases cap
  {
    if s != [] { LebLengthRunsOut(s[1..], cap - 1); }
  }

  /** What three groups weigh. */
  lemma ThreeGroups(a: u8, b: u8, c: u8)
    ensures GroupSum([a, b, c]) == a % 0x80 + 0x80 * (b % 0x80) + 0x4000 * (c % 0x80)
    ensures SignedGroupSum([a, b, c]) == GroupSum([a, b, c]) - (if c % 0x80 >= 0x40 then 0x20_0000 else 0)
  {
    assert [a, b, c][1..] == [b, c] && [b, c][1..] == [c] && [c][1..] == [];
    assert GroupSum([c]) == c % 0x80 && SignedGroupSum([c]) == GroupSum([c]) - (if c % 0x80 >= 0x40 then 0x80 else 0);
    assert GroupSum([b, c]) == b % 0x80 + 0x80 * GroupSum([c]);
  }

  /** The examples of the standard, tables 7.7 and 7.8. */
  lemma StandardExamples()
    ensures EncodeULeb(2) == [2] && EncodeULeb(127) == [0x7f] && EncodeULeb(128) == [0x80, 1]
    ensures EncodeULeb(129) == [0x81, 1] && EncodeULeb(12857) == [0xb9, 0x64]
    ensures EncodeSLeb(2) == [2] && EncodeSLeb(-2) == [0x7e] && EncodeSLeb(127) == [0xff, 0]
    ensures EncodeSLeb(-127) == [0x81, 0x7f] && EncodeSLeb(128) == [0x80, 1] && EncodeSLeb(-128) == [0x80, 0x7f]
    ensures EncodeSLeb(129) == [0x81, 1] && EncodeSLeb(-129) == [0xff, 0x7e]
  {
  }
}

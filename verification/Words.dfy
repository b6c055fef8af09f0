/** Fixed-width integers, bit operations and little-endian byte strings, as the C code uses them. */
module Words {

  type u8 = x: int | 0 <= x < 0x100
  type u16 = x: int | 0 <= x < 0x1_0000
  type u32 = x: int | 0 <= x < 0x1_0000_0000
  type u64 = x: int | 0 <= x < 0x1_0000_0000_0000_0000
  type i8 = x: int | -0x80 <= x < 0x80
  type i64 = x: int | -0x8000_0000_0000_0000 <= x < 0x8000_0000_0000_0000

  /** The number of values of a `uint64_t`. */
  const WORD: int := 0x1_0000_0000_0000_0000

  /** Conversion to `uint16_t`, `uint32_t` and `uint64_t`: reduction modulo the width. */
  function ToU16(x: int): u16 { x % 0x1_0000 }

  function ToU32(x: int): u32 { x % 0x1_0000_0000 }

  function ToU64(x: int): u64 { x % 0x1_0000_0000_0000_0000 }

  /** Conversion to `int64_t` with two's-complement wrap-around. */
  function ToI64(x: int): i64 {
    var u := ToU64(x);
    if u < 0x8000_0000_0000_0000 then u else u - 0x1_0000_0000_0000_0000
  }

  // Reducing an operand first does not change a reduced sum.

  lemma WrapFits(x: u64)
    ensures ToU64(x) == x
  {
  }

  lemma WrapInner(x: int, y: int)
    ensures ToU64(ToU64(x) + y) == ToU64(x + y)
  {
  }

  lemma WrapDifference(x: int, y: int)
    ensures ToU64(ToU64(x) - ToU64(y)) == ToU64(x - y)
  {
  }

  lemma WrapSum(x: int, y: int)
    ensures ToU64(ToU64(x) + ToU64(y)) == ToU64(x + y)
  {
  }

  // Division.

  lemma DivModUnique(n: int, d: int, q: int, m: int)
    requires d > 0 && n == d * q + m && 0 <= m < d
    ensures n / d == q && n % d == m
  {
    var q' := n / d;
    if q' > q {
      MulMono(d, q + 1, q');
    } else if q' < q {
      MulMono(d, q' + 1, q);
    }
  }

  lemma MulMono(d: int, x: int, y: int)
    requires d > 0 && x <= y
    ensures d * x <= d * y
  {
  }

  function Pow2(k: nat): (p: nat)
    ensures p > 0
  {
    if k == 0 then 1 else 2 * Pow2(k - 1)
  }

  lemma {:induction false} Pow2Add(j: nat, k: nat)
    ensures Pow2(j + k) == Pow2(j) * Pow2(k)
  {
    if j == 0 {
    } else {
      Pow2Add(j - 1, k);
      assert Pow2(j + k) == 2 * Pow2(j - 1 + k);
    }
  }

  lemma {:induction false} Pow2Mono(j: nat, k: nat)
    requires j <= k
    ensures Pow2(j) <= Pow2(k)
  {
    if j == k {
    } else {
      Pow2Mono(j, k - 1);
    }
  }

  lemma Pow2Values()
    ensures Pow2(7) == 0x80 && Pow2(8) == 0x100 && Pow2(16) == 0x1_0000
    ensures Pow2(32) == 0x1_0000_0000
    ensures Pow2(56) == 0x100_0000_0000_0000
    ensures Pow2(63) == 0x8000_0000_0000_0000
    ensures Pow2(64) == 0x1_0000_0000_0000_0000
  {
    assert Pow2(4) == 16;
    Pow2Add(4, 3);
    Pow2Add(4, 4);
    Pow2Add(8, 8);
    Pow2Add(16, 16);
    Pow2Add(32, 16);
    Pow2Add(48, 8);
    Pow2Add(56, 7);
    Pow2Add(32, 32);
  }

  /** Bitwise `|` of two unsigned values. */
  function Or(a: nat, b: nat): nat {
    if a == 0 && b == 0 then 0
    else (if a % 2 == 1 || b % 2 == 1 then 1 else 0) + 2 * Or(a / 2, b / 2)
  }

  /** `v << k` on a `uint64_t`: the bits shifted past bit 63 are lost. */
  function Shl(v: nat, k: nat): u64 {
    ToU64(v * Pow2(k))
  }

  /** Negation of a `uint64_t`. */
  function Neg64(x: u64): u64 {
    ToU64(0x1_0000_0000_0000_0000 - x)
  }

  lemma {:induction false} OrZero(b: nat)
    ensures Or(0, b) == b
  {
    if b == 0 {
    } else {
      OrZero(b / 2);
    }
  }

  /** Where the operands share no bit, `|` is addition. */
  lemma {:induction false} OrDisjoint(a: nat, b: nat, k: nat)
    requires a < Pow2(k)
    ensures Or(a, b * Pow2(k)) == a + b * Pow2(k)
  {
    if k == 0 {
      OrZero(b);
    } else {
      var h := b * Pow2(k - 1);
      assert b * Pow2(k) == 2 * h;
      OrDisjoint(a / 2, b, k - 1);
      assert 2 * h / 2 == h && 2 * h % 2 == 0;
      if a == 0 && h == 0 {
      } else {
        assert Or(a, 2 * h) == a % 2 + 2 * Or(a / 2, h);
      }
    }
  }

  function Zeros(n: nat): (s: seq<u8>)
    ensures |s| == n && forall i :: 0 <= i < n ==> s[i] == 0
  {
    if n == 0 then [] else [0] + Zeros(n - 1)
  }

  /** The low `n` bytes of `v`, least significant first. */
  function LE(n: nat, v: nat): (s: seq<u8>)
    ensures |s| == n
  {
    if n == 0 then [] else [v % 0x100] + LE(n - 1, v / 0x100)
  }

  /** The unsigned value of a little-endian byte string. */
  function FromLE(s: seq<u8>): nat {
    if s == [] then 0 else s[0] + 0x100 * FromLE(s[1..])
  }

  lemma ByteWeight(n: nat)
    requires n > 0
    ensures Pow2(8 * n) == 0x100 * Pow2(8 * (n - 1))
  {
    Pow2Values();
    Pow2Add(8, 8 * (n - 1));
  }

  lemma {:induction false} LERoundTrip(n: nat, v: nat)
    requires v < Pow2(8 * n)
    ensures FromLE(LE(n, v)) == v
  {
    if n == 0 {
    } else {
      ByteWeight(n);
      LERoundTrip(n - 1, v / 0x100);
      assert LE(n, v)[1..] == LE(n - 1, v / 0x100);
    }
  }

  lemma {:induction false} FromLERoundTrip(s: seq<u8>)
    ensures LE(|s|, FromLE(s)) == s
  {
    if s == [] {
    } else {
      FromLERoundTrip(s[1..]);
      assert s == [s[0]] + s[1..];
    }
  }

  lemma {:induction false} FromLEBound(s: seq<u8>)
    ensures FromLE(s) < Pow2(8 * |s|)
  {
    if s == [] {
    } else {
      ByteWeight(|s|);
      FromLEBound(s[1..]);
    }
  }
}

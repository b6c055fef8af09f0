/**
 * The traced process: byte-addressed memory, the instruction pointer, and whether it is stopped;
 * read and written by the words and registers that ptrace hands out while it is stopped.
 */
module Inferior {
  import opened Words

  const INT3: u8 := 0xcc

  /** The mapped bytes of the address space. */
  type Memory = map<u64, u8>

  /** `n` bytes from `a` on are mapped; addresses wrap around. */
  predicate Mapped(mem: Memory, a: u64, n: nat)
    decreases n
  {
    n > 0 ==> a in mem && Mapped(mem, ToU64(a + 1), n - 1)
  }

  function BytesAt(mem: Memory, a: u64, n: nat): (s: seq<u8>)
    requires Mapped(mem, a, n)
    ensures |s| == n
    decreases n
  {
    if n == 0 then [] else [mem[a]] + BytesAt(mem, ToU64(a + 1), n - 1)
  }

  function WithBytes(mem: Memory, a: u64, s: seq<u8>): Memory
    decreases |s|
  {
    if s == [] then mem else WithBytes(mem[a := s[0]], ToU64(a + 1), s[1..])
  }

  /** Writing back what is there changes nothing. */
  lemma {:induction false} WriteBack(mem: Memory, before: Memory, a: u64, n: nat)
    requires Mapped(mem, a, n) && Mapped(before, a, n) && BytesAt(mem, a, n) == BytesAt(before, a, n)
    ensures WithBytes(mem, a, BytesAt(before, a, n)) == mem
    decreases n
  {
    if n == 0 {
    } else {
      var s := BytesAt(mem, a, n);
      assert s[1..] == BytesAt(mem, ToU64(a + 1), n - 1);
      assert BytesAt(before, a, n)[1..] == BytesAt(before, ToU64(a + 1), n - 1);
      assert mem[a := s[0]] == mem;
      WriteBack(mem, before, ToU64(a + 1), n - 1);
    }
  }

  /** A write at `x` does not show in bytes that do not reach it. */
  lemma {:induction false} WriteElsewhere(mem: Memory, x: u64, b: u8, k: nat, n: nat)
    requires x in mem && k > 0 && k + n <= 0x100 && Mapped(mem, ToU64(x + k), n)
    ensures Mapped(mem[x := b], ToU64(x + k), n)
    ensures BytesAt(mem[x := b], ToU64(x + k), n) == BytesAt(mem, ToU64(x + k), n)
    decreases n
  {
    if n == 0 {
    } else {
      WriteElsewhere(mem, x, b, k + 1, n - 1);
      assert ToU64(ToU64(x + k) + 1) == ToU64(x + (k + 1));
    }
  }

  /** A word with its lowest byte replaced. */
  function PatchLow(word: nat, b: u8): nat {
    word / 0x100 * 0x100 + b
  }

  /** Reading a word, replacing its lowest byte and writing it back stores one byte. */
  lemma PatchStoresByte(mem: Memory, a: u64, b: u8)
    requires Mapped(mem, a, 8)
    ensures WithBytes(mem, a, LE(8, PatchLow(FromLE(BytesAt(mem, a, 8)), b))) == mem[a := b]
  {
    var s := BytesAt(mem, a, 8);
    var tail := BytesAt(mem, ToU64(a + 1), 7);
    assert s == [mem[a]] + tail && s[1..] == tail;
    PatchWord(s, b);
    WriteElsewhere(mem, a, b, 1, 7);
    hide FromLE, LE, BytesAt, PatchLow;
    var patched := [b] + tail;
    assert patched[1..] == tail;
    WriteBack(mem[a := b], mem, ToU64(a + 1), 7);
    assert WithBytes(mem, a, patched) == WithBytes(mem[a := b], ToU64(a + 1), tail);
  }

  lemma PatchWord(s: seq<u8>, b: u8)
    requires s != []
    ensures LE(|s|, PatchLow(FromLE(s), b)) == [b] + s[1..]
  {
    hide FromLE, LE, PatchLow;
    var h := FromLE(s[1..]);
    FromLEStep(s);
    FromLERoundTrip(s[1..]);
    LEStep(|s|, h, b);
    PatchLowOf(s[0], h, b);
  }

  lemma PatchLowOf(x: u8, h: nat, b: u8)
    ensures PatchLow(x + 0x100 * h, b) == 0x100 * h + b
  {
  }

  lemma FromLEStep(s: seq<u8>)
    requires s != []
    ensures FromLE(s) == s[0] + 0x100 * FromLE(s[1..])
  {
  }

  lemma LEUnfold(n: nat, v: nat)
    requires n > 0
    ensures LE(n, v) == [v % 0x100] + LE(n - 1, v / 0x100)
  {
  }

  lemma LEStep(n: nat, h: nat, b: u8)
    requires n > 0
    ensures LE(n, 0x100 * h + b) == [b] + LE(n - 1, h)
  {
    hide LE;
    LEUnfold(n, 0x100 * h + b);
    assert (0x100 * h + b) % 0x100 == b && (0x100 * h + b) / 0x100 == h;
  }

  /** `(word & ~0xff) | byte`. */
  lemma OrLowByte(word: nat, b: u8)
    ensures Or(b, word - word % 0x100) == PatchLow(word, b)
  {
    hide Or;
    assert word - word % 0x100 == word / 0x100 * 0x100;
    Pow2Values();
    OrDisjoint(b, word / 0x100, 8);
  }

  class Inferior {
    var mem: Memory
    var rip: u64
    var stopped: bool

    /** A freshly executed image, stopped at its first instruction. */
    constructor (image: Memory, entry: u64)
      ensures mem == image && rip == entry && stopped
    {
      mem := image;
      rip := entry;
      stopped := true;
    }

    method PeekText(address: u64) returns (word: u64)
      requires stopped && Mapped(mem, address, 8)
      ensures word == FromLE(BytesAt(mem, address, 8))
    {
      FromLEBound(BytesAt(mem, address, 8));
      Pow2Values();
      word := FromLE(BytesAt(mem, address, 8));
    }

    method PokeText(address: u64, word: u64)
      requires stopped && Mapped(mem, address, 8)
      modifies this`mem
      ensures mem == WithBytes(old(mem), address, LE(8, word))
    {
      mem := WithBytes(mem, address, LE(8, word));
    }

    method GetRip() returns (r: u64)
      requires stopped
      ensures r == rip
    {
      r := rip;
    }

    method SetRip(r: u64)
      requires stopped
      modifies this`rip
      ensures rip == r
    {
      rip := r;
    }

    method Cont()
      requires stopped
      modifies this`stopped
      ensures !stopped
    {
      stopped := false;
    }

    /** The process runs on by itself until it stops: its memory and rip are up to it. */
    method RunUntilStop(newMem: Memory, newRip: u64)
      requires !stopped
      modifies this
      ensures mem == newMem && rip == newRip && stopped
    {
      mem := newMem;
      rip := newRip;
      stopped := true;
    }
  }

  lemma PatchFits(word: u64, b: u8)
    ensures PatchLow(word, b) < 0x1_0000_0000_0000_0000
  {
  }

  /** `inject_byte`: patches one byte through word reads and writes. */
  method InjectByte(inferior: Inferior, address: u64, byte: u8)
    requires inferior.stopped && Mapped(inferior.mem, address, 8)
    modifies inferior`mem
    ensures inferior.mem == old(inferior.mem)[address := byte]
  {
    hide WithBytes, LE, FromLE, Mapped, BytesAt, Or, PatchLow;
    var word := inferior.PeekText(address);
    OrLowByte(word, byte);
    PatchFits(word, byte);
    PatchStoresByte(inferior.mem, address, byte);
    var patched := Or(byte, word - word % 0x100);
    inferior.PokeText(address, patched);
  }
}

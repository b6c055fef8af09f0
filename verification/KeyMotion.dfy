/**
 * The key buffer of `src/tui.c` and the messages its modal key parser makes of the typed keys.
 */
module KeyMotion {
  import opened Words

  type Key = u8

  const KEY_UP: Key := 107     // k
  const KEY_DOWN: Key := 106   // j
  const KEY_LEFT: Key := 104   // h
  const KEY_RIGHT: Key := 108  // l
  const KEY_START_OF_FILE: Key := 103  // g
  const KEY_LINE_SELECTOR: Key := 71   // G
  const KEY_HALF_UP: Key := 0x15       // Ctrl-u
  const KEY_HALF_DOWN: Key := 0x04     // Ctrl-d
  const KEY_SWITCH_WIN: Key := 0x17    // Ctrl-w

  const MAX_INPUT_BUFFER: nat := 10

  datatype Direction = Up | Down | Left | Right

  const BUFFER_HALF: int := -3
  const BUFFER_FULL: int := -2
  const BUFFER_START: int := -1
  const BUFFER_END: int := 0

  /** The messages of the motion keys; `amount` is a count or one of the constants above. */
  datatype Msg =
    | NoMsg
    | BufferMotion(direction: Direction, amount: int)
    | GoToBufferLine(direction: Direction, amount: int)
    | ChangeSection(direction: Direction, amount: int)

  // ----- keys -----

  predicate IsDigit(k: Key) {
    48 <= k <= 57
  }

  predicate AllDigits(s: seq<Key>) {
    forall i :: 0 <= i < |s| ==> IsDigit(s[i])
  }

  predicate IsMotion(k: Key) {
    k in {KEY_UP, KEY_DOWN, KEY_LEFT, KEY_RIGHT, KEY_START_OF_FILE, KEY_LINE_SELECTOR, KEY_HALF_UP, KEY_HALF_DOWN}
  }

  function Decimal(s: seq<Key>): nat
    requires AllDigits(s)
  {
    if s == [] then 0 else 10 * Decimal(s[..|s| - 1]) + (s[|s| - 1] - 48)
  }

  /** Where the digits at the end of `s` begin. */
  function DigitStart(s: seq<Key>): (i: nat)
    ensures i <= |s| && AllDigits(s[i..])
    ensures i > 0 ==> !IsDigit(s[i - 1])
  {
    if s == [] || !IsDigit(s[|s| - 1]) then |s|
    else
      var i := DigitStart(s[..|s| - 1]);
      assert forall j :: i <= j < |s| - 1 ==> s[j] == s[..|s| - 1][i..][j - i];
      i
  }

  /** The keys in the buffer after one more; the tenth starts over. */
  function Push(typed: seq<Key>, k: Key): seq<Key> {
    if |typed| + 1 == MAX_INPUT_BUFFER then [k] else typed + [k]
  }

  function DirectionOf(k: Key): Direction {
    if k == KEY_DOWN then Down else if k == KEY_LEFT then Left else if k == KEY_RIGHT then Right else Up
  }

  /** The message for the last of the typed keys, a motion key. */
  function Decide(typed: seq<Key>): Msg
    requires typed != []
  {
    var key, before := typed[|typed| - 1], typed[..|typed| - 1];
    var direction := DirectionOf(key);
    if before != [] && before[|before| - 1] == KEY_SWITCH_WIN then ChangeSection(direction, 1)
    else if key == KEY_HALF_UP then BufferMotion(Up, BUFFER_HALF)
    else if key == KEY_HALF_DOWN then BufferMotion(Down, BUFFER_HALF)
    else if key == KEY_START_OF_FILE then
      if before != [] && before[|before| - 1] == key then GoToBufferLine(direction, BUFFER_START) else NoMsg
    else
      var digits := before[DigitStart(before)..];
      if key == KEY_LINE_SELECTOR then GoToBufferLine(direction, if digits == [] then 0 else Decimal(digits))
      else BufferMotion(direction, if digits == [] then 1 else Decimal(digits))
  }

  class InputBuffer {
    const buffer: array<Key>
    var key: Key
    var count: nat

    ghost predicate Valid()
      reads this, buffer
    {
      && buffer.Length == MAX_INPUT_BUFFER && count < MAX_INPUT_BUFFER
      && (count > 0 ==> key == buffer[count - 1])
    }

    ghost function Typed(): seq<Key>
      requires Valid()
      reads this, buffer
    {
      buffer[..count]
    }

    constructor ()
      ensures Valid() && Typed() == [] && fresh(buffer)
    {
      buffer := new Key[MAX_INPUT_BUFFER](_ => 0);
      key, count := 0, 0;
    }

    method Clear()
      requires buffer.Length == MAX_INPUT_BUFFER
      modifies this, buffer
      ensures Valid() && Typed() == [] && key == 0
    {
      count := 0;
      key := 0;
      forall i | 0 <= i < buffer.Length { buffer[i] := 0; }
    }

    /** `ch` is what the terminal delivers. */
    method GetInputKey(ch: Key)
      requires Valid()
      modifies this, buffer
      ensures Valid() && Typed() == Push(old(Typed()), ch) && key == ch
    {
      count := count + 1;
      if count == MAX_INPUT_BUFFER {
        Clear();
        count := 1;
      }
      buffer[count - 1] := ch;
      key := ch;
    }

    /** Reads the decimal number at `from`, up to the first key that is no digit. */
    method Strtoul(from: nat) returns (n: nat)
      requires Valid() && from < count && AllDigits(Typed()[from..count - 1]) && !IsDigit(key)
      ensures n == Decimal(Typed()[from..count - 1])
    {
      n := 0;
      var i := from;
      ghost var digits := Typed()[from..count - 1];
      assert forall j :: from <= j < count - 1 ==> buffer[j] == digits[j - from];
      while IsDigit(buffer[i])
        invariant from <= i < count
        invariant n == Decimal(digits[..i - from])
        decreases count - i
      {
        assert digits[..i + 1 - from][..i - from] == digits[..i - from];
        n := 10 * n + (buffer[i] - 48);
        i := i + 1;
      }
      assert digits[..i - from] == digits;
    }

    /** Scans back over the digits before the key. */
    method ScanNumber() returns (begin: nat)
      requires Valid() && count > 0
      ensures begin <= count - 1 && begin == DigitStart(Typed()[..count - 1])
    {
      ghost var before := Typed()[..count - 1];
      begin := count - 1;
      while begin > 0 && IsDigit(buffer[begin - 1])
        invariant begin <= count - 1 && AllDigits(before[begin..])
      {
        assert before[begin - 1..] == [buffer[begin - 1]] + before[begin..];
        begin := begin - 1;
      }
      StartIs(before, begin);
    }

    method OnMotionInput() returns (msg: Msg)
      requires Valid() && count > 0 && IsMotion(key)
      modifies this, buffer
      ensures msg == Decide(old(Typed()))
      ensures Valid() && Typed() == if msg == NoMsg then old(Typed()) else []
    {
      hide DigitStart, Decimal;
      var direction := DirectionOf(key);
      ghost var before := Typed()[..count - 1];
      if count > 1 && buffer[count - 2] == KEY_SWITCH_WIN {
        msg := ChangeSection(direction, 1);
      } else if key == KEY_HALF_UP {
        msg := BufferMotion(Up, BUFFER_HALF);
      } else if key == KEY_HALF_DOWN {
        msg := BufferMotion(Down, BUFFER_HALF);
      } else if key == KEY_START_OF_FILE {
        if count > 1 && buffer[count - 2] == key {
          msg := GoToBufferLine(direction, BUFFER_START);
        } else {
          msg := NoMsg;
        }
      } else {
        var amount := if key == KEY_LINE_SELECTOR then 0 else 1;
        var begin := ScanNumber();
        if begin < count - 1 {
          amount := Strtoul(begin);
          assert Typed()[begin..count - 1] == before[begin..];
        }
        msg := if key == KEY_LINE_SELECTOR then GoToBufferLine(direction, amount) else BufferMotion(direction, amount);
      }
      if msg != NoMsg {
        Clear();
      }
    }
  }

  /** The digits at the end begin where no digit precedes them. */
  lemma {:induction false} StartIs(s: seq<Key>, i: nat)
    requires i <= |s| && AllDigits(s[i..]) && (i > 0 ==> !IsDigit(s[i - 1]))
    ensures DigitStart(s) == i
  {
    if s == [] || i == |s| {
    } else {
      var init := s[..|s| - 1];
      assert s[|s| - 1] == s[i..][|s| - 1 - i];
      assert init[i..] == s[i..][..|s| - 1 - i];
      StartIs(init, i);
    }
  }

  // ----- the keys by their characters -----

  /** The digits typed at the end count for `j`, `k`, `h` and `l`, whatever other key than Ctrl-w was
      typed before; without digits they count as one. */
  lemma CountedKeys(before: seq<Key>, digits: seq<Key>)
    requires AllDigits(digits)
    requires before != [] ==> !IsDigit(before[|before| - 1]) && (before[|before| - 1] == 0x17 ==> digits != [])
    ensures
      var n := if digits == [] then 1 else Decimal(digits);
      && Decide(before + digits + ['j' as int]) == BufferMotion(Down, n)
      && Decide(before + digits + ['k' as int]) == BufferMotion(Up, n)
      && Decide(before + digits + ['h' as int]) == BufferMotion(Left, n)
      && Decide(before + digits + ['l' as int]) == BufferMotion(Right, n)
  {
    hide Decide, DirectionOf, Decimal;
    CountedKey(before, digits, 'j' as int);
    CountedKey(before, digits, 'k' as int);
    CountedKey(before, digits, 'h' as int);
    CountedKey(before, digits, 'l' as int);
    Directions();
  }

  /** And for `G`; without digits it asks for the last line. */
  lemma LineKey(before: seq<Key>, digits: seq<Key>)
    requires AllDigits(digits)
    requires before != [] ==> !IsDigit(before[|before| - 1]) && (before[|before| - 1] == 0x17 ==> digits != [])
    ensures Decide(before + digits + ['G' as int]).GoToBufferLine?
    ensures Decide(before + digits + ['G' as int]).amount == if digits == [] then 0 else Decimal(digits)
  {
    hide Decide, Decimal;
    CountedKey(before, digits, 'G' as int);
  }

  lemma Directions()
    ensures DirectionOf('j' as int) == Down && DirectionOf('k' as int) == Up
    ensures DirectionOf('h' as int) == Left && DirectionOf('l' as int) == Right
  {
  }

  lemma CountedKey(before: seq<Key>, digits: seq<Key>, k: Key)
    requires AllDigits(digits) && k !in {KEY_HALF_UP, KEY_HALF_DOWN, KEY_START_OF_FILE}
    requires before != [] ==> !IsDigit(before[|before| - 1]) && (before[|before| - 1] == 0x17 ==> digits != [])
    ensures Decide(before + digits + [k]) ==
            if k == KEY_LINE_SELECTOR then GoToBufferLine(DirectionOf(k), if digits == [] then 0 else Decimal(digits))
            else BufferMotion(DirectionOf(k), if digits == [] then 1 else Decimal(digits))
  {
    var typed := before + digits;
    hide DigitStart, Decimal, DirectionOf;
    assert typed[|before|..] == digits;
    StartIs(typed, |before|);
    assert (typed + [k])[..|typed|] == typed && (typed + [k])[|typed|] == k;
    assert typed != [] ==> typed[|typed| - 1] == if digits == [] then before[|before| - 1] else digits[|digits| - 1];
  }

  /** Ctrl-w before `j`, `k`, `h` or `l` asks for another section. */
  lemma SectionKeys(before: seq<Key>)
    ensures Decide(before + [0x17, 'j' as int]) == ChangeSection(Down, 1)
    ensures Decide(before + [0x17, 'k' as int]) == ChangeSection(Up, 1)
    ensures Decide(before + [0x17, 'h' as int]) == ChangeSection(Left, 1)
    ensures Decide(before + [0x17, 'l' as int]) == ChangeSection(Right, 1)
  {
    hide DigitStart, Decimal;
    forall k: Key
      ensures (before + [0x17, k])[..|before| + 1] == before + [0x17]
    {
    }
  }

  /** Ctrl-u and Ctrl-d move half a window, `gg` goes to the first line, and a single `g` waits. */
  lemma ChordKeys(before: seq<Key>)
    requires before == [] || before[|before| - 1] != 0x17
    ensures Decide(before + [0x15]) == BufferMotion(Up, -3) && Decide(before + [0x04]) == BufferMotion(Down, -3)
    ensures
      var msg := Decide(before + ['g' as int]);
      if before != [] && before[|before| - 1] == 'g' as int then msg.GoToBufferLine? && msg.amount == -1
      else msg == NoMsg
  {
    hide DigitStart, Decimal;
    forall k: Key
      ensures (before + [k])[..|before|] == before
    {
    }
  }

  /** The motion keys, and the value of a digit string: its first digit weighs most. */
  lemma KeyNumbers(k: Key, digits: seq<Key>, d: Key)
    requires AllDigits(digits) && IsDigit(d)
    ensures IsMotion(k) <==> k in {'k' as int, 'j' as int, 'h' as int, 'l' as int, 'g' as int, 'G' as int, 0x15, 0x04}
    ensures IsDigit(k) <==> '0' as int <= k <= '9' as int
    ensures AllDigits(digits + [d]) && Decimal(digits + [d]) == 10 * Decimal(digits) + (d - '0' as int)
  {
    assert (digits + [d])[..|digits|] == digits;
  }
}

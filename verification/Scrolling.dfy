/**
 * Cursor motions of `src/tui.c` over a scrolled buffer, and the theorem that a typed count moves
 * like that many single presses.
 */
module Scrolling {
  import opened Words
  import opened Wrappers
  import opened LineMachine
  import opened LineLookup
  import opened KeyMotion

  // ----- values -----

  datatype Buf = Buf(selectedLine: nat, lineCount: nat, linePos: nat)

  datatype Focus = Source | Assembly | Picker | NoBuffer

  /** What a motion can change: the focused buffer and the cached rows of the selected source line.
      `rows` is how many lines the focused window shows. */
  datatype View = View(buf: Buf, rows: nat, focus: Focus, cached: Option<seq<Row>>)

  /** The cursor is on a line of the buffer and inside the window. */
  predicate Visible(v: View) {
    v.buf.selectedLine < v.buf.lineCount && v.buf.linePos <= v.buf.selectedLine < v.buf.linePos + v.rows
  }

  function Distance(v: View, amount: int): nat {
    if amount == BUFFER_HALF then v.rows / 2
    else if amount == BUFFER_FULL then v.rows
    else if amount >= 0 then amount else 0
  }

  function MovedLine(b: Buf, direction: Direction, distance: nat): nat
    requires b.selectedLine < b.lineCount
  {
    match direction
    case Down => if b.lineCount - 1 - b.selectedLine >= distance then b.selectedLine + distance else b.lineCount - 1
    case Up => if b.selectedLine >= distance then b.selectedLine - distance else 0
    case _ => b.selectedLine
  }

  /** The first line shown once the cursor is on `line`. */
  function ScrolledTo(b: Buf, rows: nat, line: nat): nat {
    if line < b.linePos then line
    else if line + 1 > rows && line + 1 > b.linePos + rows then line + 1 - rows
    else b.linePos
  }

  /** `MSG_BUFFER_MOTION`. */
  function Moved(t: Table, v: View, direction: Direction, amount: int): View
    requires v.buf.lineCount > 0 ==> v.buf.selectedLine < v.buf.lineCount
  {
    if v.focus == NoBuffer || v.buf.lineCount == 0 || amount == BUFFER_END then v
    else
      var line := MovedLine(v.buf, direction, Distance(v, amount));
      v.(buf := v.buf.(selectedLine := line, linePos := ScrolledTo(v.buf, v.rows, line)),
         cached := if v.focus == Source && line != v.buf.selectedLine
                   then Some(RowsOfLine(Flatten(t), ToU64(line + 1))) else v.cached)
  }

  // ----- the model that update_tui changes in place -----

  class TuiBuffer {
    var selectedLine: nat
    var lineCount: nat
    var linePos: nat

    ghost function Value(): Buf
      reads this
    {
      Buf(selectedLine, lineCount, linePos)
    }

    constructor (lines: nat)
      ensures Value() == Buf(0, lines, 0)
    {
      selectedLine, lineCount, linePos := 0, lines, 0;
    }

    method MoveSelection(direction: Direction, lineDistance: nat)
      requires selectedLine < lineCount
      modifies this`selectedLine
      ensures selectedLine == MovedLine(old(Value()), direction, lineDistance) < lineCount
    {
      if direction == Down {
        var remainingLines := lineCount - 1 - selectedLine;
        if remainingLines >= lineDistance {
          selectedLine := selectedLine + lineDistance;
        } else {
          selectedLine := lineCount - 1;
        }
      } else if direction == Up {
        if selectedLine >= lineDistance {
          selectedLine := selectedLine - lineDistance;
        } else {
          selectedLine := 0;
        }
      }
    }

    method ScrollIntoView(rows: nat)
      modifies this`linePos
      ensures linePos == ScrolledTo(old(Value()), rows, selectedLine)
    {
      if selectedLine < linePos {
        linePos := selectedLine;
      } else if selectedLine + 1 > rows && selectedLine + 1 > linePos + rows {
        linePos := selectedLine + 1 - rows;
      }
    }
  }

  class TuiModel {
    const source: TuiBuffer
    const assembly: TuiBuffer
    const picker: TuiBuffer
    var focus: Focus
    var selectedLineInstructions: Option<seq<Row>>

    constructor (s: TuiBuffer, a: TuiBuffer, p: TuiBuffer)
      ensures source == s && assembly == a && picker == p && focus == Source && selectedLineInstructions == None
    {
      source, assembly, picker, focus, selectedLineInstructions := s, a, p, Source, None;
    }

    function Focused(): TuiBuffer
      reads this
    {
      match focus case Assembly => assembly case Picker => picker case _ => source
    }

    ghost function Shown(rows: nat): View
      reads this, Focused()
    {
      View(Focused().Value(), rows, focus, selectedLineInstructions)
    }

    /** `rows` is the height of the focused window less its margin, `t` the table of the selected
        compilation unit. */
    method OnBufferMotion(t: Table, rows: nat, direction: Direction, amount: int)
      requires Focused().lineCount > 0 ==> Focused().selectedLine < Focused().lineCount < 0x8000_0000_0000_0000
      requires amount != BUFFER_START && amount >= BUFFER_HALF
      modifies Focused(), this`selectedLineInstructions
      ensures Shown(rows) == Moved(t, old(Shown(rows)), direction, amount)
      ensures focus == old(focus)
      ensures focus == Source ==>
                View(source.Value(), rows, Source, selectedLineInstructions) ==
                Moved(t, old(View(source.Value(), rows, Source, selectedLineInstructions)), direction, amount)
      ensures focus == Assembly ==>
                View(assembly.Value(), rows, Assembly, selectedLineInstructions) ==
                Moved(t, old(View(assembly.Value(), rows, Assembly, selectedLineInstructions)), direction, amount)
      ensures focus == Picker ==>
                View(picker.Value(), rows, Picker, selectedLineInstructions) ==
                Moved(t, old(View(picker.Value(), rows, Picker, selectedLineInstructions)), direction, amount)
    {
      hide MovedLine, ScrolledTo, RowsOfLine, Flatten;
      if focus == NoBuffer || Focused().lineCount == 0 {
        return;
      }
      var buffer := Focused();
      var initialSelectedLine := buffer.selectedLine;
      if amount == BUFFER_END {
        return;
      }
      var lineDistance := if amount == BUFFER_HALF then rows / 2 else if amount == BUFFER_FULL then rows else amount;
      buffer.MoveSelection(direction, lineDistance);
      ScrolledIgnoresSelection(old(Focused().Value()), rows, buffer.selectedLine, buffer.selectedLine);
      buffer.ScrollIntoView(rows);
      if focus == Source && initialSelectedLine != buffer.selectedLine {
        LoadInstructions(t, buffer.selectedLine + 1);
      }
    }

    method LoadInstructions(t: Table, line: u64)
      requires line != 0
      modifies this`selectedLineInstructions
      ensures selectedLineInstructions == Some(RowsOfLine(Flatten(t), ToU64(line)))
    {
      var found := GetInstructionsForLine(t, line);
      selectedLineInstructions := Some(found);
    }
  }

  // ----- keys to motions -----

  /** Typed keys so far and what is shown. */
  datatype Ui = Ui(typed: seq<Key>, view: View)

  predicate UiOk(ui: Ui) {
    AllDigits(ui.typed) && (ui.view.buf.lineCount > 0 ==> ui.view.buf.selectedLine < ui.view.buf.lineCount)
  }

  lemma KeyAfterKept(kept: seq<Key>, k: Key)
    requires AllDigits(kept) && (k == KEY_DOWN || k == KEY_UP)
    ensures Decide(kept + [k]) == BufferMotion(DirectionOf(k), if kept == [] then 1 else Decimal(kept))
  {
    hide Decimal, DigitStart;
    assert (kept + [k])[..|kept|] == kept;
    assert kept[0..] == kept;
    StartIs(kept, 0);
  }

  /** After digits `j` and `k` are motions of the focused buffer. */
  lemma PushedKeyMoves(typed: seq<Key>, k: Key)
    requires AllDigits(typed) && (k == KEY_DOWN || k == KEY_UP)
    ensures Decide(Push(typed, k)).BufferMotion? && Decide(Push(typed, k)).amount >= 0
  {
    hide Decide, Decimal;
    if |typed| + 1 == MAX_INPUT_BUFFER {
      assert [] + [k] == [k];
      KeyAfterKept([], k);
    } else {
      KeyAfterKept(typed, k);
    }
  }

  /** One key of a count: a digit, `j` or `k`. Digits only fill the buffer. */
  function Press(t: Table, ui: Ui, k: Key): (next: Ui)
    requires UiOk(ui) && (IsDigit(k) || k == KEY_DOWN || k == KEY_UP)
    ensures UiOk(next)
  {
    var typed := Push(ui.typed, k);
    if IsDigit(k) then ui.(typed := typed)
    else
      PushedKeyMoves(ui.typed, k);
      var msg := Decide(typed);
      Ui([], Moved(t, ui.view, msg.direction, msg.amount))
  }

  /** The same on the model: what a key does between the terminal and the view. */
  method OnCountKey(input: InputBuffer, model: TuiModel, t: Table, rows: nat, k: Key)
    requires input.Valid() && (IsDigit(k) || k == KEY_DOWN || k == KEY_UP)
    requires UiOk(Ui(input.Typed(), model.Shown(rows))) && model.Focused().lineCount < 0x8000_0000_0000_0000
    modifies input, input.buffer, model.Focused(), model`selectedLineInstructions
    ensures input.Valid() && model.focus == old(model.focus)
    ensures Ui(input.Typed(), model.Shown(rows)) == Press(t, old(Ui(input.Typed(), model.Shown(rows))), k)
  {
    hide Decide, Moved;
    if !IsDigit(k) { PushedKeyMoves(input.Typed(), k); }
    input.GetInputKey(k);
    if IsMotion(k) {
      var msg := input.OnMotionInput();
      model.OnBufferMotion(t, rows, msg.direction, msg.amount);
    }
  }

  predicate CountKeys(keys: seq<Key>) {
    forall i :: 0 <= i < |keys| ==> IsDigit(keys[i]) || keys[i] == KEY_DOWN || keys[i] == KEY_UP
  }

  function PressAll(t: Table, ui: Ui, keys: seq<Key>): (next: Ui)
    requires UiOk(ui) && CountKeys(keys)
    ensures UiOk(next)
    decreases |keys|
  {
    if keys == [] then ui else PressAll(t, Press(t, ui, keys[0]), keys[1..])
  }

  function Repeat(k: Key, n: nat): (s: seq<Key>)
    ensures |s| == n && forall i :: 0 <= i < n ==> s[i] == k
  {
    if n == 0 then [] else [k] + Repeat(k, n - 1)
  }

  /** The digits still in the buffer when the key after them arrives: the buffer starts over at each
      tenth key. */
  function Kept(digits: seq<Key>): seq<Key> {
    LastKeys(digits, |digits| % 9)
  }

  function LastKeys(s: seq<Key>, k: nat): seq<Key>
    requires k <= |s|
  {
    s[|s| - k..]
  }

  /** The count that typed digits amount to. */
  function TypedCount(digits: seq<Key>): nat
    requires AllDigits(digits)
  {
    if Kept(digits) == [] then 1 else Decimal(Kept(digits))
  }

  // ----- what a motion amounts to -----

  function Apart(m: nat, n: nat): nat {
    if m < n then n - m else m - n
  }

  /** From a visible cursor: a motion by `n` lines, half a window (-3) or a window (-2) goes that far
      or to the edge of the buffer, keeps the cursor visible and scrolls no further than it has to,
      whatever other position `pos` would show the cursor; 0 moves nothing, and neither do the
      directions left and right. */
  lemma MotionReaches(t: Table, v: View, direction: Direction, amount: int, pos: nat)
    requires Visible(v) && v.focus != NoBuffer && (amount >= 0 || amount == -3 || amount == -2)
    ensures
      var w := Moved(t, v, direction, amount);
      var n := if amount == -3 then v.rows / 2 else if amount == -2 then v.rows else amount;
      var from, to := v.buf.selectedLine, w.buf.selectedLine;
      && Visible(w) && w.buf.lineCount == v.buf.lineCount && w.rows == v.rows && w.focus == v.focus
      && (direction == Down ==> from <= to <= from + n && (to == from + n || to == v.buf.lineCount - 1))
      && (direction == Up ==> from - n <= to <= from && (to == from - n || to == 0))
      && (pos <= to < pos + v.rows ==> Apart(v.buf.linePos, w.buf.linePos) <= Apart(v.buf.linePos, pos))
      && (direction == Left || direction == Right || amount == 0 ==> w == v)
  {
    hide RowsOfLine, Flatten, ToU64;
  }

  /** Without a focused buffer, or in an empty one, no motion does anything. */
  lemma NothingToMove(t: Table, v: View, direction: Direction, amount: int)
    requires v.buf.lineCount > 0 ==> v.buf.selectedLine < v.buf.lineCount
    ensures v.focus == NoBuffer || v.buf.lineCount == 0 ==> Moved(t, v, direction, amount) == v
  {
  }

  /** In the source window a motion that changes the line caches exactly the rows of the new line,
      counted from 1, that end no sequence, in order; elsewhere the cache stays. */
  lemma MotionCaches(t: Table, v: View, direction: Direction, amount: int)
    requires v.buf.selectedLine < v.buf.lineCount < WORD
    ensures
      var w := Moved(t, v, direction, amount);
      if v.focus == Source && w.buf.selectedLine != v.buf.selectedLine
      then w.cached.Some? && Picked(Flatten(t), w.buf.selectedLine + 1, w.cached.value)
      else w.cached == v.cached
  {
    var line := Moved(t, v, direction, amount).buf.selectedLine;
    assert line < v.buf.lineCount;
    WrapFits(line + 1);
    hide RowsOfLine, Flatten, ToU64, Picked;
    RowsOfLinePicked(Flatten(t), line + 1);
  }

  // ----- moving step by step -----

  lemma MovedKeepsVisible(t: Table, v: View, direction: Direction, amount: int)
    requires Visible(v) && amount >= 0
    ensures Visible(Moved(t, v, direction, amount))
    ensures Moved(t, v, direction, amount).focus == v.focus
  {
  }

  lemma LineTwice(b: Buf, direction: Direction, m: nat, n: nat)
    requires b.selectedLine < b.lineCount && (direction == Up || direction == Down)
    ensures
      var line := MovedLine(b, direction, m);
      && line < b.lineCount && MovedLine(b.(selectedLine := line), direction, n) == MovedLine(b, direction, m + n)
      && (direction == Down ==> b.selectedLine <= line <= MovedLine(b, direction, m + n))
      && (direction == Up ==> b.selectedLine >= line >= MovedLine(b, direction, m + n))
  {
  }

  /** Scrolling follows a line that moves one way as if it had moved there at once. */
  lemma ScrollTwice(b: Buf, rows: nat, line: nat, line': nat)
    requires b.linePos <= b.selectedLine < b.linePos + rows
    requires b.selectedLine <= line <= line' || b.selectedLine >= line >= line'
    ensures ScrolledTo(b.(selectedLine := line, linePos := ScrolledTo(b, rows, line)), rows, line') ==
            ScrolledTo(b, rows, line')
  {
  }

  /** From a visible cursor, moving `m` and then `n` lines is moving `m + n` lines. */
  lemma MovedTwice(t: Table, v: View, direction: Direction, m: nat, n: nat)
    requires Visible(v) && (direction == Up || direction == Down)
    ensures UiOk(Ui([], Moved(t, v, direction, m)))
    ensures Moved(t, Moved(t, v, direction, m), direction, n) == Moved(t, v, direction, m + n)
  {
    hide RowsOfLine, Flatten, ToU64, MovedLine, ScrolledTo;
    var line, line' := MovedLine(v.buf, direction, m), MovedLine(v.buf, direction, m + n);
    LineTwice(v.buf, direction, m, n);
    LineTwice(v.buf, direction, m, 0);
    ScrollTwice(v.buf, v.rows, line, line');
    MovedNothing(v, direction);
    var b1 := v.buf.(selectedLine := line, linePos := ScrolledTo(v.buf, v.rows, line));
    MovedIgnoresScroll(v.buf.(selectedLine := line), direction, n, b1.linePos);
  }

  lemma MovedNothing(v: View, direction: Direction)
    requires Visible(v)
    ensures MovedLine(v.buf, direction, 0) == v.buf.selectedLine
    ensures ScrolledTo(v.buf, v.rows, v.buf.selectedLine) == v.buf.linePos
  {
  }

  lemma MovedIgnoresScroll(b: Buf, direction: Direction, n: nat, pos: nat)
    requires b.selectedLine < b.lineCount
    ensures MovedLine(b.(linePos := pos), direction, n) == MovedLine(b, direction, n)
  {
  }

  lemma ScrolledIgnoresSelection(b: Buf, rows: nat, line: nat, x: nat)
    ensures ScrolledTo(b.(selectedLine := x), rows, line) == ScrolledTo(b, rows, line)
  {
  }

  lemma DecideSingle(k: Key)
    requires k == KEY_DOWN || k == KEY_UP
    ensures Decide([k]) == BufferMotion(DirectionOf(k), 1)
  {
    hide Decimal, DigitStart;
    assert [k][..0] == [];
    assert AllDigits([][0..]);
    StartIs([], 0);
  }

  lemma SinglePress(t: Table, view: View, k: Key)
    requires UiOk(Ui([], view)) && (k == KEY_DOWN || k == KEY_UP)
    ensures Press(t, Ui([], view), k) == Ui([], Moved(t, view, DirectionOf(k), 1))
  {
    hide Decide, Moved, DirectionOf;
    assert Push([], k) == [k];
    DecideSingle(k);
  }

  lemma {:induction false} RepeatMoves(t: Table, view: View, k: Key, n: nat)
    requires Visible(view) && (k == KEY_DOWN || k == KEY_UP)
    ensures PressAll(t, Ui([], view), Repeat(k, n)) == Ui([], Moved(t, view, DirectionOf(k), n))
    decreases n
  {
    hide Press, Decide;
    if n == 0 {
    } else {
      hide Moved;
      SinglePress(t, view, k);
      MovedKeepsVisible(t, view, DirectionOf(k), 1);
      MovedTwice(t, view, DirectionOf(k), 1, n - 1);
      RepeatMoves(t, Moved(t, view, DirectionOf(k), 1), k, n - 1);
      assert Repeat(k, n)[1..] == Repeat(k, n - 1);
    }
  }

  /** How digits fill the buffer. */
  function Filled(digits: seq<Key>): seq<Key> {
    if digits == [] then [] else Push(Filled(digits[..|digits| - 1]), digits[|digits| - 1])
  }

  /** How many of `n` digits are in the buffer before the next key arrives. */
  function InBufferCount(n: nat): (k: nat)
    ensures k <= n && k <= 9
  {
    if n > 0 && n % 9 == 0 then 9 else n % 9
  }

  lemma InBufferCountStep(n: nat)
    ensures InBufferCount(n + 1) == if InBufferCount(n) == 9 then 1 else InBufferCount(n) + 1
  {
  }

  lemma LastKeysSnoc(s: seq<Key>, k: Key, n: nat)
    requires n <= |s|
    ensures LastKeys(s, n) + [k] == LastKeys(s + [k], n + 1)
  {
  }

  lemma {:induction false} FilledKeeps(digits: seq<Key>)
    ensures Filled(digits) == LastKeys(digits, InBufferCount(|digits|))
  {
    hide InBufferCount, LastKeys;
    if digits == [] {
      LastKeysEmpty();
    } else {
      var init, d := digits[..|digits| - 1], digits[|digits| - 1];
      var k := InBufferCount(|init|);
      FilledKeeps(init);
      InBufferCountStep(|init|);
      assert digits == init + [d];
      LastKeysSnoc(init, d, k);
      LastKeysSnoc(init, d, 0);
      LastKeysLength(init, k);
    }
  }

  lemma LastKeysEmpty()
    ensures LastKeys([], InBufferCount(0)) == []
  {
  }

  lemma LastKeysLength(s: seq<Key>, k: nat)
    requires k <= |s|
    ensures |LastKeys(s, k)| == k && LastKeys(s, 0) == []
  {
  }

  lemma {:induction false} PressAllAppend(t: Table, ui: Ui, a: seq<Key>, b: seq<Key>)
    requires UiOk(ui) && CountKeys(a) && CountKeys(b)
    ensures CountKeys(a + b) && PressAll(t, ui, a + b) == PressAll(t, PressAll(t, ui, a), b)
    decreases |a|
  {
    hide Press;
    if a == [] {
      assert a + b == b;
    } else {
      assert (a + b)[0] == a[0] && (a + b)[1..] == a[1..] + b;
      PressAllAppend(t, Press(t, ui, a[0]), a[1..], b);
    }
  }

  lemma {:induction false} DigitsFill(t: Table, view: View, digits: seq<Key>)
    requires AllDigits(digits) && UiOk(Ui([], view))
    ensures PressAll(t, Ui([], view), digits) == Ui(Filled(digits), view)
  {
    if digits == [] {
    } else {
      var init, d := digits[..|digits| - 1], digits[|digits| - 1];
      assert digits == init + [d] && [d][1..] == [];
      DigitsFill(t, view, init);
      PressAllAppend(t, Ui([], view), init, [d]);
    }
  }

  /** A key after digits decides by the digits the buffer has kept. */
  lemma KeyAfterDigits(digits: seq<Key>, k: Key)
    requires AllDigits(digits) && (k == KEY_DOWN || k == KEY_UP)
    ensures Decide(Push(Filled(digits), k)) == BufferMotion(DirectionOf(k), TypedCount(digits))
  {
    hide Filled, Decimal, DigitStart, DirectionOf, Decide;
    FilledKeeps(digits);
    KeyPushed(digits, k);
    KeyAfterKept(Kept(digits), k);
  }

  lemma KeyPushed(digits: seq<Key>, k: Key)
    ensures Push(LastKeys(digits, InBufferCount(|digits|)), k) == Kept(digits) + [k]
  {
    var n := InBufferCount(|digits|);
    LastKeysLength(digits, n);
    LastKeysLength(digits, |digits| % 9);
    assert n != 9 ==> n == |digits| % 9;
    assert n == 9 ==> |digits| % 9 == 0;
    hide LastKeys, InBufferCount;
    assert [] + [k] == [k];
  }

  /** From a cleared key buffer and a visible cursor, typing any digits and then `j` or `k` reaches
      the same cursor line, scroll position and cached rows as pressing that key as often as the
      digits say, with the cursor still visible and the buffer cleared. */
  lemma CountedMotion(t: Table, view: View, digits: seq<Key>, k: Key)
    requires AllDigits(digits) && (k == KEY_DOWN || k == KEY_UP) && Visible(view)
    ensures PressAll(t, Ui([], view), digits + [k]) == PressAll(t, Ui([], view), Repeat(k, TypedCount(digits)))
    ensures PressAll(t, Ui([], view), digits + [k]).typed == []
    ensures Visible(PressAll(t, Ui([], view), digits + [k]).view)
  {
    var n := TypedCount(digits);
    DigitsFill(t, view, digits);
    PressAllAppend(t, Ui([], view), digits, [k]);
    KeyAfterDigits(digits, k);
    hide Moved, Decide, Filled, TypedCount;
    RepeatMoves(t, view, k, n);
    MovedKeepsVisible(t, view, DirectionOf(k), n);
    assert [k][1..] == [];
  }

  /** Up to eight digits the count is their decimal value. */
  lemma CountOfUpTo8(digits: seq<Key>)
    requires AllDigits(digits) && 1 <= |digits| <= 8
    ensures TypedCount(digits) == Decimal(digits)
  {
    assert Kept(digits) == digits;
  }

  /** How many lines the cursor can move in the direction of `j` or `k`. */
  function Room(b: Buf, k: Key): nat
    requires b.selectedLine < b.lineCount
  {
    if k == KEY_DOWN then b.lineCount - 1 - b.selectedLine else b.selectedLine
  }

  function Min(m: nat, n: nat): nat {
    if m < n then m else n
  }

  /** The digits that the buffer has dropped. */
  function Dropped(digits: seq<Key>): seq<Key> {
    digits[..|digits| - |digits| % 9]
  }

  /** Typing digits and then `j` or `k` is pressing the key as often as all the digits say if and
      only if both counts move the cursor equally far, for any digits and any buffer. */
  lemma CountExactness(t: Table, view: View, digits: seq<Key>, k: Key)
    requires AllDigits(digits) && (k == KEY_DOWN || k == KEY_UP) && Visible(view)
    ensures
      PressAll(t, Ui([], view), digits + [k]) == PressAll(t, Ui([], view), Repeat(k, Decimal(digits))) <==>
      || view.focus == NoBuffer
      || Min(TypedCount(digits), Room(view.buf, k)) == Min(Decimal(digits), Room(view.buf, k))
  {
    hide TypedCount, Decimal, PressAll, Moved, Room;
    var m, n := TypedCount(digits), Decimal(digits);
    CountedMotion(t, view, digits, k);
    RepeatMoves(t, view, k, m);
    RepeatMoves(t, view, k, n);
    MovedExactly(t, view, k, m, n);
  }

  lemma MovedExactly(t: Table, v: View, k: Key, m: nat, n: nat)
    requires Visible(v) && (k == KEY_DOWN || k == KEY_UP)
    ensures Moved(t, v, DirectionOf(k), m) == Moved(t, v, DirectionOf(k), n) <==>
            v.focus == NoBuffer || Min(m, Room(v.buf, k)) == Min(n, Room(v.buf, k))
  {
    MovedNothing(v, DirectionOf(k));
    hide RowsOfLine, Flatten, ScrolledTo, ToU64;
  }

  /** The count is what all the digits say exactly if the dropped ones are zeros, or, where none is
      kept, if all of them say one. */
  lemma CountOnDigits(digits: seq<Key>)
    requires AllDigits(digits)
    ensures TypedCount(digits) == Decimal(digits) <==>
            if |digits| % 9 == 0 then Decimal(digits) == 1
            else forall i :: 0 <= i < |Dropped(digits)| ==> digits[i] == 48
  {
    var dropped, kept := Dropped(digits), Kept(digits);
    assert digits == dropped + kept;
    assert |kept| == |digits| % 9;
    hide Decimal, Kept, Dropped;
    if kept != [] {
      DecimalSplit(dropped, kept);
      DecimalZero(dropped);
      Pow10Positive(|kept|, Decimal(dropped));
    }
  }

  function Pow10(n: nat): nat {
    if n == 0 then 1 else 10 * Pow10(n - 1)
  }

  lemma {:induction false} Pow10Positive(n: nat, x: nat)
    ensures x * Pow10(n) == 0 <==> x == 0
  {
    if n == 0 {
    } else {
      Pow10Positive(n - 1, x);
      assert x * Pow10(n) == 10 * (x * Pow10(n - 1));
    }
  }

  lemma {:induction false} DecimalSplit(a: seq<Key>, b: seq<Key>)
    requires AllDigits(a) && AllDigits(b)
    ensures AllDigits(a + b) && Decimal(a + b) == Decimal(a) * Pow10(|b|) + Decimal(b)
    decreases |b|
  {
    if b == [] {
      assert a + b == a;
    } else {
      var init, d := b[..|b| - 1], b[|b| - 1];
      assert (a + b)[..|a + b| - 1] == a + init && (a + b)[|a + b| - 1] == d;
      DecimalSplit(a, init);
      DecimalShift(Decimal(a), |b|);
    }
  }

  lemma DecimalShift(x: nat, n: nat)
    requires n > 0
    ensures x * Pow10(n) == 10 * (x * Pow10(n - 1))
  {
  }

  lemma {:induction false} DecimalZero(s: seq<Key>)
    requires AllDigits(s)
    ensures Decimal(s) == 0 <==> forall i :: 0 <= i < |s| ==> s[i] == 48
  {
    if s == [] {
    } else {
      var init := s[..|s| - 1];
      DecimalZero(init);
      assert forall i :: 0 <= i < |s| - 1 ==> s[i] == init[i];
    }
  }

  /** Nine digits leave the buffer empty when the key arrives. */
  lemma NineDigits(digits: seq<Key>)
    requires AllDigits(digits) && |digits| == 9
    ensures TypedCount(digits) == 1
  {
    assert Kept(digits) == [];
  }

  /** Typing 123456789 and then `j` at the top of a hundred lines moves to the second line; pressing
      `j` that often moves to the last. */
  lemma CountCanFail(t: Table)
    ensures
      var digits: seq<Key> := [49, 50, 51, 52, 53, 54, 55, 56, 57];
      var view := View(Buf(0, 100, 0), 20, Assembly, None);
      && AllDigits(digits)
      && PressAll(t, Ui([], view), digits + [KEY_DOWN]).view.buf.selectedLine == 1
      && PressAll(t, Ui([], view), Repeat(KEY_DOWN, Decimal(digits))).view.buf.selectedLine == 99
  {
    var digits: seq<Key> := [49, 50, 51, 52, 53, 54, 55, 56, 57];
    var view := View(Buf(0, 100, 0), 20, Assembly, None);
    var high: seq<Key> := [49, 50, 51, 52, 53, 54];
    var low: seq<Key> := [55, 56, 57];
    assert digits == high + low;
    hide Decimal, TypedCount, PressAll;
    DecimalSplit(high, low);
    DecimalZero(high);
    AtLeastThousand(Decimal(high));
    NineDigits(digits);
    CountedMotion(t, view, digits, KEY_DOWN);
    RepeatMoves(t, view, KEY_DOWN, 1);
    RepeatMoves(t, view, KEY_DOWN, Decimal(digits));
  }

  lemma AtLeastThousand(x: nat)
    requires x > 0
    ensures x * Pow10(3) >= 1000
  {
    assert Pow10(3) == 1000;
  }
}

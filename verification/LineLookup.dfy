/**
 * From a source line to an address: the row lookup of `src/debug.c` over a decoded table, and when
 * the rows of a line ascend.
 */
module LineLookup {
  import opened Words
  import opened Wrappers
  import opened LineMachine
  import opened LineProgram
  import opened LineTables

  /** A row that belongs to the line; end_sequence rows belong to none. */
  predicate OfLine(row: Row, line: u64) {
    !row.endSequence && row.line == line
  }

  /** A row a source breakpoint may be set on. */
  predicate Candidate(row: Row, line: u64) {
    OfLine(row, line) && row.isStmt
  }

  function RowsOfLine(rows: seq<Row>, line: u64): seq<Row> {
    if rows == [] then []
    else (if OfLine(rows[0], line) then [rows[0]] else []) + RowsOfLine(rows[1..], line)
  }

  /** `found` are the rows at the positions `at`: exactly those of the line that end no sequence, in
      order. */
  predicate Picks(rows: seq<Row>, line: u64, found: seq<Row>, at: seq<nat>) {
    && |found| == |at|
    && (forall i, j :: 0 <= i < j < |at| ==> at[i] < at[j])
    && (forall i :: 0 <= i < |at| ==> at[i] < |rows| && found[i] == rows[at[i]])
    && (forall k :: 0 <= k < |rows| ==> (k in at <==> !rows[k].endSequence && rows[k].line == line))
  }

  ghost predicate Picked(rows: seq<Row>, line: u64, found: seq<Row>) {
    exists at :: Picks(rows, line, found, at)
  }

  lemma RowsOfLinePicked(rows: seq<Row>, line: u64)
    ensures Picked(rows, line, RowsOfLine(rows, line))
  {
    var _ := Positions(rows, line);
  }

  lemma {:induction false} Positions(rows: seq<Row>, line: u64) returns (at: seq<nat>)
    ensures Picks(rows, line, RowsOfLine(rows, line), at)
  {
    if rows == [] {
      at := [];
    } else {
      var init, last := rows[..|rows| - 1], rows[|rows| - 1];
      assert rows == init + [last];
      var before := Positions(init, line);
      RowsOfLineAppend(init, [last], line);
      at := if OfLine(last, line) then before + [|init|] else before;
      PicksSnoc(init, last, line, RowsOfLine(init, line), before);
      assert RowsOfLine([last], line) == if OfLine(last, line) then [last] else [];
    }
  }

  lemma PicksSnoc(rows: seq<Row>, row: Row, line: u64, found: seq<Row>, at: seq<nat>)
    requires Picks(rows, line, found, at)
    ensures if OfLine(row, line) then Picks(rows + [row], line, found + [row], at + [|rows|])
            else Picks(rows + [row], line, found, at) && found + [] == found
  {
    var all := rows + [row];
    assert all[|rows|] == row && forall k :: 0 <= k < |rows| ==> all[k] == rows[k];
    assert |rows| !in at;
    if OfLine(row, line) {
      var at' := at + [|rows|];
      assert forall k :: k in at' <==> k in at || k == |rows|;
    }
  }

  lemma {:induction false} RowsOfLineAppend(a: seq<Row>, b: seq<Row>, line: u64)
    ensures RowsOfLine(a + b, line) == RowsOfLine(a, line) + RowsOfLine(b, line)
  {
    hide OfLine;
    if a == [] {
      assert a + b == b;
    } else {
      assert (a + b)[1..] == a[1..] + b;
      RowsOfLineAppend(a[1..], b, line);
    }
  }

  // ----- the order of the rows of a line -----

  /** No row of `a` lies above a row of `b`. */
  predicate AllNotAbove(o: Order, a: seq<Row>, b: seq<Row>) {
    forall r, s :: r in a && s in b ==> NotAbove(o, r, s)
  }

  /** No row of the line in `a` lies above a row of the line in `b`. */
  predicate LineBefore(o: Order, a: seq<Row>, b: seq<Row>, line: u64) {
    forall r, s :: r in a && s in b && OfLine(r, line) && OfLine(s, line) ==> NotAbove(o, r, s)
  }

  /** The sequences of the table do not overlap on the line, and come in order. */
  predicate LinesApart(o: Order, t: Table, line: u64) {
    forall i, j :: 0 <= i < j < |t| ==> LineBefore(o, t[i], t[j], line)
  }

  predicate AllLinesAscend(o: Order, t: Table, line: u64) {
    forall k :: 0 <= k < |t| ==> Ascending(o, RowsOfLine(t[k], line))
  }

  lemma {:induction false} RowsOfLineMembers(rows: seq<Row>, line: u64)
    ensures forall r :: r in RowsOfLine(rows, line) <==> r in rows && OfLine(r, line)
  {
    if rows != [] {
      RowsOfLineMembers(rows[1..], line);
    }
  }

  lemma {:induction false} FlattenMembers(t: Table)
    ensures forall r :: r in Flatten(t) <==> exists k :: 0 <= k < |t| && r in t[k]
  {
    if t != [] {
      FlattenMembers(t[1..]);
      assert forall k :: 0 < k < |t| ==> t[k] == t[1..][k - 1];
    }
  }

  lemma AscendingAppend(o: Order, a: seq<Row>, b: seq<Row>)
    ensures Ascending(o, a + b) <==> Ascending(o, a) && Ascending(o, b) && AllNotAbove(o, a, b)
  {
    hide NotAbove;
    var all := a + b;
    assert forall i :: 0 <= i < |a| ==> all[i] == a[i];
    assert forall j :: 0 <= j < |b| ==> all[|a| + j] == b[j];
    if Ascending(o, all) {
      forall i, j | 0 <= i < j < |b|
        ensures NotAbove(o, b[i], b[j])
      {
        assert NotAbove(o, all[|a| + i], all[|a| + j]);
      }
      forall i, j | 0 <= i < |a| && 0 <= j < |b|
        ensures NotAbove(o, a[i], b[j])
      {
        assert NotAbove(o, all[i], all[|a| + j]);
      }
    }
  }

  lemma {:induction false} LinesOfAscending(o: Order, rows: seq<Row>, line: u64)
    requires Ascending(o, rows)
    ensures Ascending(o, RowsOfLine(rows, line))
  {
    if rows == [] {
    } else {
      var head := [rows[0]];
      assert rows == head + rows[1..];
      AscendingAppend(o, head, rows[1..]);
      LinesOfAscending(o, rows[1..], line);
      RowsOfLineMembers(rows[1..], line);
      var tail := RowsOfLine(rows[1..], line);
      AscendingAppend(o, head, tail);
      hide Ascending, NotAbove, RowsOfLine;
      assert [] + tail == tail;
      RowsOfLineCons(rows, line);
    }
  }

  lemma RowsOfLineCons(rows: seq<Row>, line: u64)
    requires rows != []
    ensures RowsOfLine(rows, line) == (if OfLine(rows[0], line) then [rows[0]] else []) + RowsOfLine(rows[1..], line)
  {
  }

  /** The rows of the first sequence against all later ones. */
  lemma FirstBefore(o: Order, t: Table, line: u64)
    requires t != []
    ensures AllNotAbove(o, RowsOfLine(t[0], line), RowsOfLine(Flatten(t[1..]), line)) <==>
            forall k :: 0 < k < |t| ==> LineBefore(o, t[0], t[k], line)
  {
    hide NotAbove, OfLine, RowsOfLine, Flatten;
    var later := t[1..];
    RowsOfLineMembers(t[0], line);
    RowsOfLineMembers(Flatten(later), line);
    FlattenMembers(later);
    if AllNotAbove(o, RowsOfLine(t[0], line), RowsOfLine(Flatten(later), line)) {
      forall k | 0 < k < |t|
        ensures LineBefore(o, t[0], t[k], line)
      {
        assert later[k - 1] == t[k];
      }
    }
    if forall k :: 0 < k < |t| ==> LineBefore(o, t[0], t[k], line) {
      forall r, s | r in RowsOfLine(t[0], line) && s in RowsOfLine(Flatten(later), line)
        ensures NotAbove(o, r, s)
      {
        var k :| 0 <= k < |later| && s in later[k];
        assert later[k] == t[k + 1] && LineBefore(o, t[0], t[k + 1], line);
      }
    }
  }

  lemma ApartCons(o: Order, t: Table, line: u64)
    requires t != []
    ensures LinesApart(o, t, line) <==>
            LinesApart(o, t[1..], line) && forall k :: 0 < k < |t| ==> LineBefore(o, t[0], t[k], line)
    ensures AllLinesAscend(o, t, line) <==>
            AllLinesAscend(o, t[1..], line) && Ascending(o, RowsOfLine(t[0], line))
  {
    hide LineBefore, Ascending, RowsOfLine;
    var later := t[1..];
    assert forall k :: 0 < k < |t| ==> t[k] == later[k - 1];
    assert forall k :: 0 <= k < |later| ==> later[k] == t[k + 1];
  }

  /** `found` ascends in either order exactly if it does within each sequence and the sequences come
      in order on the line. */
  predicate AscendsIfApart(t: Table, line: u64, found: seq<Row>) {
    && (Ascending(ByAddress, found) <==> AllLinesAscend(ByAddress, t, line) && LinesApart(ByAddress, t, line))
    && (Ascending(ByOperation, found) <==> AllLinesAscend(ByOperation, t, line) && LinesApart(ByOperation, t, line))
  }

  /** Exactly when the rows of a line ascend over all sequences, in either order: within each
      sequence they do, and no sequence holds a row of the line above one of a later sequence. */
  lemma {:induction false} LineAscendsExactly(o: Order, t: Table, line: u64)
    ensures Ascending(o, RowsOfLine(Flatten(t), line)) <==> AllLinesAscend(o, t, line) && LinesApart(o, t, line)
  {
    if t == [] {
    } else {
      hide Ascending, RowsOfLine, LinesApart, AllLinesAscend, LineBefore, AllNotAbove;
      RowsOfLineAppend(t[0], Flatten(t[1..]), line);
      AscendingAppend(o, RowsOfLine(t[0], line), RowsOfLine(Flatten(t[1..]), line));
      FirstBefore(o, t, line);
      ApartCons(o, t, line);
      LineAscendsExactly(o, t[1..], line);
    }
  }

  /** Where every sequence ascends, the order of the sequences on the line is all that matters. */
  lemma LineOfAscendingTable(o: Order, t: Table, line: u64)
    requires AllAscending(o, t)
    ensures Ascending(o, RowsOfLine(Flatten(t), line)) <==> LinesApart(o, t, line)
  {
    hide Ascending, RowsOfLine, LinesApart, Flatten;
    LineAscendsExactly(o, t, line);
    forall k | 0 <= k < |t|
      ensures Ascending(o, RowsOfLine(t[k], line))
    {
      LinesOfAscending(o, t[k], line);
    }
  }

  /** A program of two ascending sequences whose rows of line 1 go back from the first to the second. */
  lemma LineOrderCanFail(o: Order, p: Params)
    requires p.opcodeBase > 1
    ensures
      var d := DecodeAll(p, EncodeProgram([SetAddress(8), Copy, EndSequence, SetAddress(4), Copy]));
      d.Done? && AllAscending(o, d.value.table) && !Ascending(o, RowsOfLine(Flatten(d.value.table), 1))
  {
    var prog := [SetAddress(8), Copy, EndSequence, SetAddress(4), Copy];
    assert AllEncodable(p.opcodeBase, prog);
    hide Run, DecodeAll, AllAscending, Emitted, AllEncodable, RowsAscend, Ascending, RowsOfLine, OfLine, Start;
    TwoSequences(p);
    RowsGoBack(o, Emitted(p, Start(p), prog));
    TableAscendsExactly(o, p, prog);
    TableIsGroupedRows(p, prog);
    DecodeEncodedAll(p, prog);
  }

  /** A row of line 1, the end of its sequence, and a row of line 1 below it. */
  predicate GoesBack(rows: seq<Row>) {
    && |rows| == 3
    && OfLine(rows[0], 1) && rows[1].endSequence && OfLine(rows[2], 1)
    && rows[0].address == rows[1].address == 8 && rows[2].address == 4
    && rows[0].opIndex == rows[1].opIndex
  }

  lemma RowsGoBack(o: Order, rows: seq<Row>)
    requires GoesBack(rows)
    ensures RowsAscend(o, rows) && !Ascending(o, RowsOfLine(rows, 1))
  {
    assert rows == [rows[0]] + ([rows[1]] + [rows[2]]);
    RowsOfLineAppend([rows[0]], [rows[1]] + [rows[2]], 1);
    RowsOfLineAppend([rows[1]], [rows[2]], 1);
    var found := RowsOfLine(rows, 1);
    assert found == [rows[0], rows[2]];
    assert !NotAbove(o, found[0], found[1]);
  }

  lemma TwoSequences(p: Params)
    ensures
      var prog := [SetAddress(8), Copy, EndSequence, SetAddress(4), Copy];
      Run(p, Start(p), prog).Done? && GoesBack(Emitted(p, Start(p), prog))
  {
    var m1 := Exec(p, Start(p), SetAddress(8));
    var m2 := Exec(p, m1, Copy);
    var m3 := Exec(p, m2, EndSequence);
    var m4 := Exec(p, m3, SetAddress(4));
    SetAddressEmits(p, Start(p), 8);
    CopyEmits(p, m1);
    EndEmits(p, m2);
    SetAddressEmits(p, m3, 4);
    CopyEmits(p, m4);
    hide Exec, Emits, Executes;
    EmittedCons(p, Start(p), SetAddress(8), [Copy, EndSequence, SetAddress(4), Copy]);
    EmittedCons(p, m1, Copy, [EndSequence, SetAddress(4), Copy]);
    EmittedCons(p, m2, EndSequence, [SetAddress(4), Copy]);
    EmittedCons(p, m3, SetAddress(4), [Copy]);
    EmittedCons(p, m4, Copy, []);
    assert [SetAddress(8)] + [Copy, EndSequence, SetAddress(4), Copy] ==
           [SetAddress(8), Copy, EndSequence, SetAddress(4), Copy];
    assert [Copy] + [EndSequence, SetAddress(4), Copy] == [Copy, EndSequence, SetAddress(4), Copy];
    assert [EndSequence] + [SetAddress(4), Copy] == [EndSequence, SetAddress(4), Copy];
    assert [SetAddress(4)] + [Copy] == [SetAddress(4), Copy] && [Copy] + [] == [Copy];
  }

  /** The rows of the line over all sequences, in emission order. */
  method GetInstructionsForLine(t: Table, line: u64) returns (found: seq<Row>)
    requires line != 0
    ensures found == RowsOfLine(Flatten(t), line)
    ensures Picked(Flatten(t), line, found)
    ensures AscendsIfApart(t, line, found)
  {
    hide Ascending, AllLinesAscend, LinesApart, Picked;
    found := [];
    var i := 0;
    assert t[0..] == t;
    while i < |t|
      invariant i <= |t|
      invariant found + RowsOfLine(Flatten(t[i..]), line) == RowsOfLine(Flatten(t), line)
    {
      var sequence := t[i];
      ghost var before := found;
      var j := 0;
      while j < |sequence|
        invariant j <= |sequence|
        invariant found == before + RowsOfLine(sequence[..j], line)
      {
        var entry := sequence[j];
        assert sequence[..j + 1] == sequence[..j] + [entry];
        RowsOfLineAppend(sequence[..j], [entry], line);
        j := j + 1;
        if entry.endSequence {
          continue;
        }
        if entry.line == line {
          found := found + [entry];
        }
      }
      assert sequence[..j] == sequence && t[i..][1..] == t[i + 1..];
      RowsOfLineAppend(sequence, Flatten(t[i + 1..]), line);
      i := i + 1;
    }
    assert t[i..] == [] && found + [] == found;
    LineAscendsExactly(ByAddress, t, line);
    LineAscendsExactly(ByOperation, t, line);
    RowsOfLinePicked(Flatten(t), line);
  }

  /** The first row of the list with is_stmt set. */
  function FirstStmt(rows: seq<Row>): Option<u64> {
    if rows == [] then None
    else if rows[0].isStmt then Some(rows[0].address)
    else FirstStmt(rows[1..])
  }

  /** The address a source breakpoint on this line gets. */
  function Target(t: Table, line: u64): Option<u64> {
    FirstStmt(RowsOfLine(Flatten(t), line))
  }

  /** The position of the first candidate row, or the number of rows. */
  function FirstIndex(rows: seq<Row>, line: u64): (i: nat)
    ensures i <= |rows|
    ensures forall j :: 0 <= j < i ==> !Candidate(rows[j], line)
    ensures i < |rows| ==> Candidate(rows[i], line)
  {
    if rows == [] || Candidate(rows[0], line) then 0
    else
      assert forall j :: 0 < j < |rows| ==> rows[j] == rows[1..][j - 1];
      1 + FirstIndex(rows[1..], line)
  }

  function FirstAddress(rows: seq<Row>, line: u64): Option<u64> {
    var i := FirstIndex(rows, line);
    if i < |rows| then Some(rows[i].address) else None
  }

  lemma {:induction false} FirstStmtIsFirst(rows: seq<Row>, line: u64)
    ensures FirstStmt(RowsOfLine(rows, line)) == FirstAddress(rows, line)
  {
    if rows == [] {
    } else {
      var tail := RowsOfLine(rows[1..], line);
      FirstStmtIsFirst(rows[1..], line);
      assert ([rows[0]] + tail)[1..] == tail && [] + tail == tail;
    }
  }

  /** The address a breakpoint gets is that of the first non-end is_stmt row of the line in emission
      order; without such a row there is none. */
  lemma TargetIsFirstCandidate(t: Table, line: u64)
    ensures Target(t, line) == FirstAddress(Flatten(t), line)
    ensures Target(t, line) == None <==> !HasCandidate(Flatten(t), line)
  {
    FirstStmtIsFirst(Flatten(t), line);
  }

  /** The same without the names above: an address is the target exactly if it is that of a row of
      the line that ends no sequence and has is_stmt, and no row before that is such a row. */
  lemma TargetOnRows(t: Table, line: u64, a: u64)
    ensures
      var rows := Flatten(t);
      Target(t, line) == Some(a) <==>
      exists i :: 0 <= i < |rows| &&
        (rows[i].address == a && rows[i].line == line && rows[i].isStmt && !rows[i].endSequence) &&
        forall j :: 0 <= j < i ==> !(rows[j].line == line && rows[j].isStmt && !rows[j].endSequence)
  {
    TargetIsFirstCandidate(t, line);
    hide Target;
    var rows, i := Flatten(t), FirstIndex(Flatten(t), line);
    assert i < |rows| ==> Candidate(rows[i], line);
  }

  predicate HasCandidate(s: seq<Row>, line: u64) {
    exists i :: 0 <= i < |s| && Candidate(s[i], line)
  }

  lemma FirstCandidateAppend(a: seq<Row>, b: seq<Row>, line: u64)
    ensures HasCandidate(a, line) ==> FirstStmt(RowsOfLine(a + b, line)) == FirstStmt(RowsOfLine(a, line))
    ensures !HasCandidate(a, line) ==> FirstStmt(RowsOfLine(a + b, line)) == FirstStmt(RowsOfLine(b, line))
  {
    RowsOfLineAppend(a, b, line);
    FirstStmtAppend(RowsOfLine(a, line), RowsOfLine(b, line));
    FirstStmtIsFirst(a, line);
  }

  lemma {:induction false} FirstStmtAppend(a: seq<Row>, b: seq<Row>)
    ensures FirstStmt(a + b) == if FirstStmt(a).Some? then FirstStmt(a) else FirstStmt(b)
  {
    if a == [] {
      assert a + b == b;
    } else {
      assert (a + b)[1..] == a[1..] + b;
      FirstStmtAppend(a[1..], b);
    }
  }

  /** The target comes from the first sequence that has a candidate. */
  lemma {:induction false} TargetInSequence(t: Table, line: u64, k: nat)
    requires k < |t| && HasCandidate(t[k], line) && forall j :: 0 <= j < k ==> !HasCandidate(t[j], line)
    ensures Target(t, line) == FirstStmt(RowsOfLine(t[k], line))
    decreases k
  {
    hide HasCandidate;
    FirstCandidateAppend(t[0], Flatten(t[1..]), line);
    if k > 0 {
      assert t[1..][k - 1] == t[k];
      forall j | 0 <= j < k - 1
        ensures !HasCandidate(t[1..][j], line)
      {
        assert t[1..][j] == t[j + 1];
      }
      TargetInSequence(t[1..], line, k - 1);
    }
  }

  /** Where addresses ascend, the target is the lowest candidate address of its sequence. */
  lemma TargetIsLowest(t: Table, line: u64, k: nat, i: nat)
    requires AllAscending(ByAddress, t)
    requires k < |t| && HasCandidate(t[k], line) && forall j :: 0 <= j < k ==> !HasCandidate(t[j], line)
    requires i < |t[k]| && Candidate(t[k][i], line)
    ensures Target(t, line).Some? && Target(t, line).value <= t[k][i].address
  {
    hide RowsOfLine, FirstStmt, Flatten, Candidate, FirstIndex, Target;
    TargetInSequence(t, line, k);
    FirstStmtIsFirst(t[k], line);
    assert Ascending(ByAddress, t[k]);
    assert FirstIndex(t[k], line) <= i;
  }

  /** So it is in the table of any program that never goes back or wraps around. */
  lemma DecodedTargetIsLowest(p: Params, prog: seq<Instr>, line: u64, k: nat, i: nat)
    requires Run(p, Start(p), prog).Done? && RunsForward(ByAddress, p, Start(p), prog)
    requires
      var t := Run(p, Start(p), prog).value.table;
      k < |t| && HasCandidate(t[k], line) && (forall j :: 0 <= j < k ==> !HasCandidate(t[j], line)) &&
      i < |t[k]| && Candidate(t[k][i], line)
    ensures
      var t := Run(p, Start(p), prog).value.table;
      Target(t, line).Some? && Target(t, line).value <= t[k][i].address
  {
    hide Target, HasCandidate, Candidate, Run, RunsForward, AllAscending;
    SequencesAscend(ByAddress, p, prog);
    TargetIsLowest(Run(p, Start(p), prog).value.table, line, k, i);
  }

  /** Where the rows of the line ascend over all sequences, the target is the lowest candidate of
      the whole table. */
  lemma AscendingLineTargetIsLowest(t: Table, line: u64, r: Row)
    requires Ascending(ByAddress, RowsOfLine(Flatten(t), line))
    requires r in Flatten(t) && Candidate(r, line)
    ensures Target(t, line).Some? && Target(t, line).value <= r.address
  {
    RowsOfLineMembers(Flatten(t), line);
    FirstStmtLowest(RowsOfLine(Flatten(t), line), r);
  }

  lemma {:induction false} FirstStmtLowest(rows: seq<Row>, r: Row)
    requires Ascending(ByAddress, rows) && r in rows && r.isStmt
    ensures FirstStmt(rows).Some? && FirstStmt(rows).value <= r.address
  {
    if rows[0].isStmt {
    } else {
      assert rows == [rows[0]] + rows[1..];
      AscendingAppend(ByAddress, [rows[0]], rows[1..]);
      FirstStmtLowest(rows[1..], r);
    }
  }
}

/**
 * What the decoded table is for every program: the emitted rows, in order, cut into sequences
 * after each end_sequence row; and when the rows of a sequence ascend by address or by operation.
 */
module LineTables {
  import opened Words
  import opened Wrappers
  import opened LineMachine
  import opened LineProgram

  // ----- rows of a run and their grouping -----

  /** The rows one instruction emits. */
  function Emits(p: Params, r: Registers, i: Instr): seq<Row>
    requires Executes(p, i)
  {
    match i
    case Special(opcode) =>
      [RowOf(MoveOps(p, r.(line := ToU32(r.line + SpecialLine(p, opcode))), SpecialAdvance(p, opcode)))]
    case Copy => [RowOf(r)]
    case EndSequence => [RowOf(r.(endSequence := true))]
    case _ => []
  }

  /** The rows a run emits, in order. */
  function Emitted(p: Params, m: Machine, prog: seq<Instr>): seq<Row>
    decreases |prog|
  {
    if prog == [] || !Executes(p, prog[0]) then []
    else Emits(p, m.regs, prog[0]) + Emitted(p, Exec(p, m, prog[0]), prog[1..])
  }

  /** Rows cut into sequences. */
  function Group(rows: seq<Row>): Table {
    if rows == [] then [] else Append(Group(rows[..|rows| - 1]), rows[|rows| - 1])
  }

  function EndCount(rows: seq<Row>): nat {
    if rows == [] then 0
    else EndCount(rows[..|rows| - 1]) + (if rows[|rows| - 1].endSequence then 1 else 0)
  }

  predicate NoEnd(s: seq<Row>) {
    forall i :: 0 <= i < |s| ==> !s[i].endSequence
  }

  /** A finished sequence: its last row, and no other, ends it. */
  predicate Closed(s: seq<Row>) {
    s != [] && s[|s| - 1].endSequence && NoEnd(s[..|s| - 1])
  }

  predicate Shaped(t: Table) {
    t != [] ==> (forall i :: 0 <= i < |t| - 1 ==> Closed(t[i])) && NoEnd(t[|t| - 1])
  }

  lemma {:induction false} FlattenSnoc(t: Table, s: seq<Row>)
    ensures Flatten(t + [s]) == Flatten(t) + s
  {
    if t == [] {
      assert Flatten([s]) == s + Flatten([]);
    } else {
      assert (t + [s])[1..] == t[1..] + [s];
      FlattenSnoc(t[1..], s);
    }
  }

  lemma FlattenAppend(t: Table, row: Row)
    ensures Flatten(Append(t, row)) == Flatten(t) + [row]
  {
    var open := if t == [] then [[]] else t;
    var init, last := open[..|open| - 1], open[|open| - 1];
    assert open == init + [last];
    FlattenSnoc(init, last);
    FlattenSnoc(init, last + [row]);
    var grown := open[|open| - 1 := last + [row]];
    assert grown == init + [last + [row]];
    FlattenSnoc(grown, []);
    assert Flatten([[]]) == [] + Flatten([]);
  }

  lemma FirstRow(row: Row)
    requires !row.endSequence
    ensures Append([], row) == [[row]]
  {
    var open: Table := [[]];
    assert open[0] + [row] == [row] && open[0 := [row]] == [[row]];
  }

  lemma RowCloses(s: seq<Row>, row: Row)
    requires NoEnd(s)
    ensures if row.endSequence then Closed(s + [row]) else NoEnd(s + [row])
  {
    assert (s + [row])[..|s|] == s;
  }

  lemma AppendParts(t: Table, row: Row)
    ensures
      var open, t' := if t == [] then [[]] else t, Append(t, row);
      var k := |open| - 1;
      && |t'| == |open| + (if row.endSequence then 1 else 0)
      && t'[..k] == open[..k] && t'[k] == open[k] + [row]
      && (row.endSequence ==> t'[k + 1] == [])
  {
  }

  lemma ShapedAppend(t: Table, row: Row)
    requires Shaped(t)
    ensures Shaped(Append(t, row))
    ensures |Append(t, row)| == (if t == [] then 1 else |t|) + (if row.endSequence then 1 else 0)
  {
    hide Append, Closed, NoEnd;
    var open := if t == [] then [[]] else t;
    var k, t' := |open| - 1, Append(t, row);
    AppendParts(t, row);
    NoEndEmpty();
    RowCloses(open[k], row);
    forall i | 0 <= i < k
      ensures Closed(t'[i])
    {
      assert t'[i] == t'[..k][i] == open[..k][i];
    }
  }

  lemma NoEndEmpty()
    ensures NoEnd([])
  {
  }

  /** Every table grouped from rows holds those rows in order, every sequence but the last is
      finished, the last has no end row, and the sequences number one more than the end rows. */
  lemma {:induction false} GroupShape(rows: seq<Row>)
    ensures Flatten(Group(rows)) == rows
    ensures Shaped(Group(rows))
    ensures |Group(rows)| == if rows == [] then 0 else 1 + EndCount(rows)
  {
    if rows == [] {
    } else {
      var init, last := rows[..|rows| - 1], rows[|rows| - 1];
      GroupShape(init);
      FlattenAppend(Group(init), last);
      ShapedAppend(Group(init), last);
      assert rows == init + [last];
    }
  }

  lemma ExecEmits(p: Params, m: Machine, i: Instr, before: seq<Row>)
    requires Executes(p, i) && m.table == Group(before)
    ensures Exec(p, m, i).table == Group(before + Emits(p, m.regs, i))
  {
    hide MoveOps, Append;
    var rows := Emits(p, m.regs, i);
    if rows == [] {
      assert before + [] == before;
    } else {
      assert rows == [rows[0]];
      assert (before + rows)[..|before|] == before;
    }
  }

  lemma {:induction false} RunEmits(p: Params, m: Machine, prog: seq<Instr>, before: seq<Row>)
    requires Run(p, m, prog).Done? && m.table == Group(before)
    ensures Run(p, m, prog).value.table == Group(before + Emitted(p, m, prog))
    decreases |prog|
  {
    hide Exec, Emits, Executes, Group;
    if prog == [] {
      assert before + [] == before;
    } else {
      var m', now := Exec(p, m, prog[0]), Emits(p, m.regs, prog[0]);
      ExecEmits(p, m, prog[0], before);
      RunEmits(p, m', prog[1..], before + now);
      assert before + now + Emitted(p, m', prog[1..]) == before + Emitted(p, m, prog);
    }
  }

  /** The table of any program that runs through is its emitted rows, grouped. */
  lemma TableIsGroupedRows(p: Params, prog: seq<Instr>)
    requires Run(p, Start(p), prog).Done?
    ensures
      var rows, t := Emitted(p, Start(p), prog), Run(p, Start(p), prog).value.table;
      && t == Group(rows) && Flatten(t) == rows && Shaped(t)
      && |t| == if rows == [] then 0 else 1 + EndCount(rows)
  {
    RunEmits(p, Start(p), prog, []);
    var rows := Emitted(p, Start(p), prog);
    assert [] + rows == rows;
    GroupShape(rows);
  }

  // ----- independence of sequences -----

  lemma {:induction false} EmittedAppend(p: Params, m: Machine, a: seq<Instr>, b: seq<Instr>)
    requires Run(p, m, a).Done?
    ensures Emitted(p, m, a + b) == Emitted(p, m, a) + Emitted(p, Run(p, m, a).value, b)
    decreases |a|
  {
    hide Exec, Executes, Emits;
    if a == [] {
      assert a + b == b;
    } else {
      assert (a + b)[0] == a[0] && (a + b)[1..] == a[1..] + b;
      EmittedAppend(p, Exec(p, m, a[0]), a[1..], b);
    }
  }

  lemma {:induction false} EmittedIgnoresTable(p: Params, r: Registers, t: Table, t': Table, prog: seq<Instr>)
    ensures Emitted(p, Machine(r, t), prog) == Emitted(p, Machine(r, t'), prog)
    ensures Run(p, Machine(r, t), prog).Done? <==> Run(p, Machine(r, t'), prog).Done?
    ensures Run(p, Machine(r, t), prog).Crash? ==> Run(p, Machine(r, t'), prog) == Run(p, Machine(r, t), prog)
    decreases |prog|
  {
    if prog == [] || !Executes(p, prog[0]) {
    } else {
      hide MoveOps, Append, Emits;
      var m, m' := Exec(p, Machine(r, t), prog[0]), Exec(p, Machine(r, t'), prog[0]);
      assert m.regs == m'.regs;
      EmittedIgnoresTable(p, m.regs, m.table, m'.table, prog[1..]);
    }
  }

  lemma RunAfterEndSequence(p: Params, m: Machine, prog: seq<Instr>)
    requires prog != [] && prog[|prog| - 1] == EndSequence && Run(p, m, prog).Done?
    ensures Run(p, m, prog).value.regs == Initial(p)
  {
    var init := prog[..|prog| - 1];
    assert prog == init + [EndSequence];
    RunAppend(p, m, init, [EndSequence]);
  }

  /** A program that ends with end_sequence does not influence what is decoded after it. */
  lemma SequencesAreIndependent(p: Params, a: seq<Instr>, b: seq<Instr>)
    requires a != [] && a[|a| - 1] == EndSequence && Run(p, Start(p), a).Done?
    ensures Run(p, Start(p), a + b).Done? <==> Run(p, Start(p), b).Done?
    ensures Emitted(p, Start(p), a + b) == Emitted(p, Start(p), a) + Emitted(p, Start(p), b)
  {
    EmittedAppend(p, Start(p), a, b);
    RunAppend(p, Start(p), a, b);
    RunAfterEndSequence(p, Start(p), a);
    EmittedIgnoresTable(p, Initial(p), [], Run(p, Start(p), a).value.table, b);
  }

  /** The same on bytes: for a complete program `s` that ends with end_sequence and any bytes `t`
      after it, decoding both gives the rows of `s` and then the rows of `t` decoded from scratch. */
  lemma SequenceBytesAreIndependent(p: Params, s: seq<u8>, t: seq<u8>)
    requires WholeProgram(p.opcodeBase, s) && s != []
    requires var prog := Parse(p.opcodeBase, s, |s|).instrs; prog[|prog| - 1] == EndSequence
    requires DecodeAll(p, s).Done?
    ensures DecodeAll(p, s + t).Done? <==> DecodeAll(p, t).Done?
    ensures DecodeAll(p, t).Done? ==>
            Flatten(DecodeAll(p, s + t).value.table) ==
            Flatten(DecodeAll(p, s).value.table) + Flatten(DecodeAll(p, t).value.table)
  {
    var a, b := Parse(p.opcodeBase, s, |s|).instrs, Parse(p.opcodeBase, t, |t|).instrs;
    ParseWholeAppend(p.opcodeBase, s, t);
    hide Parse, Run, Emitted, Flatten, Start, WholeProgram;
    SequencesAreIndependent(p, a, b);
    TableIsGroupedRows(p, a);
    if Run(p, Start(p), b).Done? {
      TableIsGroupedRows(p, b);
      TableIsGroupedRows(p, a + b);
    }
  }

  // ----- ascending rows -----

  /** The two readings of "increasing in the operation pointer": by address alone, as for machines
      with one operation per instruction, or by address and then op_index. */
  datatype Order = ByAddress | ByOperation

  /** Row `r` does not lie above row `s`. */
  predicate NotAbove(o: Order, r: Row, s: Row) {
    match o
    case ByAddress => r.address <= s.address
    case ByOperation => r.address < s.address || (r.address == s.address && r.opIndex <= s.opIndex)
  }

  /** The instruction does not go back within a sequence. */
  predicate StepsForward(o: Order, p: Params, m: Machine, i: Instr)
    requires Executes(p, i)
  {
    i.EndSequence? || NotAbove(o, RowOf(m.regs), RowOf(Exec(p, m, i).regs))
  }

  predicate RunsForward(o: Order, p: Params, m: Machine, prog: seq<Instr>)
    decreases |prog|
  {
    prog != [] && Executes(p, prog[0]) ==>
      StepsForward(o, p, m, prog[0]) && RunsForward(o, p, Exec(p, m, prog[0]), prog[1..])
  }

  /** Advancing by `n` operations wraps nothing around and, where op_index starts over, has an
      instruction width to move the address by. */
  predicate AdvanceFits(o: Order, p: Params, r: Registers, n: u64)
    requires p.maxOps > 0
  {
    && r.address + AddressStep(p, ToU64(r.opIndex + n)) < WORD
    && (o.ByOperation? ==> r.opIndex + n < WORD && (p.minInst > 0 || r.opIndex + n < p.maxOps))
  }

  /** Nothing wraps around, and neither set_address nor fixed_advance_pc goes back. */
  predicate StepFits(o: Order, p: Params, r: Registers, i: Instr)
    requires Executes(p, i)
  {
    match i
    case Special(opcode) => AdvanceFits(o, p, r, SpecialAdvance(p, opcode))
    case AdvancePc(n) => AdvanceFits(o, p, r, n)
    case ConstAddPc => AdvanceFits(o, p, r, ConstAdvance(p))
    case FixedAdvancePc(n) => r.address + n < WORD && (o.ByOperation? ==> n > 0 || r.opIndex == 0)
    case SetAddress(a) => r.address < a || (r.address == a && (o.ByOperation? ==> r.opIndex == 0))
    case _ => true
  }

  predicate RunFits(o: Order, p: Params, m: Machine, prog: seq<Instr>)
    decreases |prog|
  {
    prog != [] && Executes(p, prog[0]) ==>
      StepFits(o, p, m.regs, prog[0]) && RunFits(o, p, Exec(p, m, prog[0]), prog[1..])
  }

  predicate Ascending(o: Order, s: seq<Row>) {
    forall i, j :: 0 <= i < j < |s| ==> NotAbove(o, s[i], s[j])
  }

  predicate AllAscending(o: Order, t: Table) {
    forall k :: 0 <= k < |t| ==> Ascending(o, t[k])
  }

  /** No row of the open sequence lies above `row`. */
  predicate Below(o: Order, t: Table, row: Row) {
    forall r :: r in OpenSequence(t) ==> NotAbove(o, r, row)
  }

  /** The first and the last row bound every row. */
  predicate EndsBound(o: Order, s: seq<Row>) {
    forall i :: 0 <= i < |s| ==> NotAbove(o, s[0], s[i]) && NotAbove(o, s[i], s[|s| - 1])
  }

  // ----- when a table ascends -----

  /** No row lies below the row before it, unless that one ends a sequence. */
  predicate RowsAscend(o: Order, rows: seq<Row>) {
    forall i :: 0 <= i < |rows| - 1 ==> rows[i].endSequence || NotAbove(o, rows[i], rows[i + 1])
  }

  function OpenSequence(t: Table): seq<Row> {
    if t == [] then [] else t[|t| - 1]
  }

  lemma AppendOpens(t: Table, row: Row)
    ensures OpenSequence(Append(t, row)) == if row.endSequence then [] else OpenSequence(t) + [row]
  {
  }

  /** A row keeps the table ascending exactly if it does not lie below the last row of the open
      sequence. */
  lemma AppendAscends(o: Order, t: Table, row: Row)
    ensures
      var last := OpenSequence(t);
      AllAscending(o, Append(t, row)) <==>
      AllAscending(o, t) && (last != [] ==> NotAbove(o, last[|last| - 1], row))
  {
    var open := if t == [] then [[]] else t;
    var k, last, t' := |open| - 1, OpenSequence(t), Append(t, row);
    assert t'[k] == last + [row] && forall i :: 0 <= i < k ==> t'[i] == open[i];
    hide Append;
    SnocAscends(o, last, row);
    hide Ascending, NotAbove;
    assert Ascending(o, []) by { EmptyAscends(o); }
    if AllAscending(o, t') {
      assert forall i :: 0 <= i < k ==> Ascending(o, t'[i]);
      assert Ascending(o, t'[k]);
    }
  }

  lemma EmptyAscends(o: Order)
    ensures Ascending(o, [])
  {
  }

  lemma SnocAscends(o: Order, s: seq<Row>, row: Row)
    ensures Ascending(o, s + [row]) <==> Ascending(o, s) && (s != [] ==> NotAbove(o, s[|s| - 1], row))
  {
    var all := s + [row];
    assert forall i :: 0 <= i < |s| ==> all[i] == s[i];
    assert all[|s|] == row;
    if Ascending(o, all) {
      assert forall i, j :: 0 <= i < j < |s| ==> NotAbove(o, all[i], all[j]);
    }
  }

  lemma RowsAscendSnoc(o: Order, rows: seq<Row>, row: Row)
    ensures RowsAscend(o, rows + [row]) <==>
            RowsAscend(o, rows) &&
            (rows != [] ==> rows[|rows| - 1].endSequence || NotAbove(o, rows[|rows| - 1], row))
  {
    hide NotAbove;
    var all := rows + [row];
    assert forall i :: 0 <= i < |rows| ==> all[i] == rows[i];
    if RowsAscend(o, all) && rows != [] {
      assert all[|rows| - 1].endSequence || NotAbove(o, all[|rows| - 1], all[|rows| - 1 + 1]);
      assert forall i :: 0 <= i < |rows| - 1 ==> all[i].endSequence || NotAbove(o, all[i], all[i + 1]);
    }
  }

  lemma GroupOpens(rows: seq<Row>)
    requires rows != []
    ensures
      var last, open := rows[|rows| - 1], OpenSequence(Group(rows));
      if last.endSequence then open == [] else open != [] && open[|open| - 1] == last
  {
    hide Append;
    AppendOpens(Group(rows[..|rows| - 1]), rows[|rows| - 1]);
  }

  /** The table grouped from rows ascends in every sequence exactly if no row lies below the row
      before it in its sequence. */
  lemma {:induction false} GroupAscends(o: Order, rows: seq<Row>)
    ensures AllAscending(o, Group(rows)) <==> RowsAscend(o, rows)
  {
    hide Append, AllAscending, RowsAscend, OpenSequence, NotAbove;
    if rows == [] {
      EmptyTableAscends(o);
    } else {
      var init, last := rows[..|rows| - 1], rows[|rows| - 1];
      assert rows == init + [last];
      GroupAscends(o, init);
      AppendAscends(o, Group(init), last);
      RowsAscendSnoc(o, init, last);
      if init != [] {
        GroupOpens(init);
      } else {
        EmptyTableAscends(o);
      }
    }
  }

  lemma EmptyTableAscends(o: Order)
    ensures AllAscending(o, []) && RowsAscend(o, []) && OpenSequence([]) == []
  {
  }

  /** For every program that runs through: its table ascends exactly if its emitted rows do. */
  lemma TableAscendsExactly(o: Order, p: Params, prog: seq<Instr>)
    requires Run(p, Start(p), prog).Done?
    ensures AllAscending(o, Run(p, Start(p), prog).value.table) <==> RowsAscend(o, Emitted(p, Start(p), prog))
  {
    hide AllAscending, RowsAscend, Run, Emitted, Start;
    TableIsGroupedRows(p, prog);
    GroupAscends(o, Emitted(p, Start(p), prog));
  }

  // ----- programs that only step forward -----

  lemma AppendAscending(o: Order, t: Table, row: Row, next: Row)
    requires AllAscending(o, t) && Below(o, t, row) && (row.endSequence || NotAbove(o, row, next))
    ensures AllAscending(o, Append(t, row)) && Below(o, Append(t, row), next)
  {
    AppendAscends(o, t, row);
    AppendOpens(t, row);
    hide Append, AllAscending, OpenSequence;
  }

  lemma StepAscends(o: Order, p: Params, m: Machine, i: Instr)
    requires Executes(p, i) && StepsForward(o, p, m, i) && !m.regs.endSequence
    requires AllAscending(o, m.table) && Below(o, m.table, RowOf(m.regs))
    ensures var m' := Exec(p, m, i);
            AllAscending(o, m'.table) && Below(o, m'.table, RowOf(m'.regs)) && !m'.regs.endSequence
  {
    hide Append, AllAscending, Below, AddressStep, IndexStep, ToU64, ToU32, ToI64, SpecialLine;
    var next := RowOf(Exec(p, m, i).regs);
    BelowMono(o, m.table, RowOf(m.regs), next);
    if i.Special? {
      var r := m.regs.(line := ToU32(m.regs.line + SpecialLine(p, i.opcode)));
      var row := RowOf(MoveOps(p, r, SpecialAdvance(p, i.opcode)));
      BelowMono(o, m.table, next, row);
      AppendAscending(o, m.table, row, next);
    } else if i.Copy? {
      AppendAscending(o, m.table, RowOf(m.regs), next);
    } else if i.EndSequence? {
      var row := RowOf(m.regs.(endSequence := true));
      BelowMono(o, m.table, RowOf(m.regs), row);
      AppendAscending(o, m.table, row, next);
    }
  }

  lemma BelowMono(o: Order, t: Table, x: Row, y: Row)
    requires Below(o, t, x)
    ensures NotAbove(o, x, y) ==> Below(o, t, y)
  {
  }

  lemma {:induction false} RunAscends(o: Order, p: Params, m: Machine, prog: seq<Instr>)
    requires Run(p, m, prog).Done? && RunsForward(o, p, m, prog) && !m.regs.endSequence
    requires AllAscending(o, m.table) && Below(o, m.table, RowOf(m.regs))
    ensures AllAscending(o, Run(p, m, prog).value.table)
    decreases |prog|
  {
    hide Exec, Executes, StepsForward, AllAscending, Below;
    if prog == [] {
    } else {
      StepAscends(o, p, m, prog[0]);
      RunAscends(o, p, Exec(p, m, prog[0]), prog[1..]);
    }
  }

  /** If no instruction goes back within a sequence, the rows of every sequence ascend, so the first
      and the last bound all the others. */
  lemma SequencesAscend(o: Order, p: Params, prog: seq<Instr>)
    requires Run(p, Start(p), prog).Done? && RunsForward(o, p, Start(p), prog)
    ensures AllAscending(o, Run(p, Start(p), prog).value.table)
    ensures forall s :: s in Run(p, Start(p), prog).value.table ==> EndsBound(o, s)
  {
    RunAscends(o, p, Start(p), prog);
  }

  lemma AdvanceForward(o: Order, p: Params, r: Registers, n: u64)
    requires p.maxOps > 0 && AdvanceFits(o, p, r, n)
    ensures NotAbove(o, RowOf(r), RowOf(MoveOps(p, r, n)))
  {
    hide ToU64, AddressStep, IndexStep;
    var ops := ToU64(r.opIndex + n);
    WrapFits(r.address + AddressStep(p, ops));
    if o.ByOperation? {
      WrapFits(r.opIndex + n);
      StepOrIndex(p, ops);
    }
    StepNotNegative(p, ops);
  }

  lemma StepNotNegative(p: Params, ops: nat)
    requires p.maxOps > 0
    ensures AddressStep(p, ops) >= 0
  {
  }

  lemma StepOrIndex(p: Params, ops: nat)
    requires p.maxOps > 0 && (p.minInst > 0 || ops < p.maxOps)
    ensures AddressStep(p, ops) > 0 || IndexStep(p, ops) == ops
  {
    Quotient(ops, p.maxOps);
    var q := ops / p.maxOps;
    if ops >= p.maxOps {
      Positive(p.minInst, q);
    }
  }

  lemma Quotient(n: nat, d: nat)
    requires d > 0
    ensures if n < d then n % d == n else n / d > 0
  {
  }

  lemma Positive(c: int, q: int)
    requires c > 0 && q > 0
    ensures c * q > 0
  {
  }

  lemma AdvanceFitsAnyLine(o: Order, p: Params, r: Registers, line: u32, n: u64)
    requires p.maxOps > 0
    ensures AdvanceFits(o, p, r.(line := line), n) == AdvanceFits(o, p, r, n)
  {
    hide AddressStep, ToU64;
  }

  lemma FittingStepsForward(o: Order, p: Params, m: Machine, i: Instr)
    requires Executes(p, i) && StepFits(o, p, m.regs, i)
    ensures StepsForward(o, p, m, i)
  {
    hide Append, AdvanceFits, MoveOps, SpecialLine, ToU32, ToI64;
    if i.Special? {
      var n, r := SpecialAdvance(p, i.opcode), m.regs.(line := ToU32(m.regs.line + SpecialLine(p, i.opcode)));
      assert AdvanceFits(o, p, r, n) by { AdvanceFitsAnyLine(o, p, m.regs, r.line, n); }
      AdvanceForward(o, p, r, n);
    } else if i.AdvancePc? {
      AdvanceForward(o, p, m.regs, i.opAdvance);
    } else if i.ConstAddPc? {
      AdvanceForward(o, p, m.regs, ConstAdvance(p));
    }
  }

  lemma {:induction false} FittingRunsForward(o: Order, p: Params, m: Machine, prog: seq<Instr>)
    requires RunFits(o, p, m, prog)
    ensures RunsForward(o, p, m, prog)
    decreases |prog|
  {
    hide Exec, Executes, StepsForward, StepFits;
    if prog != [] && Executes(p, prog[0]) {
      FittingStepsForward(o, p, m, prog[0]);
      FittingRunsForward(o, p, Exec(p, m, prog[0]), prog[1..]);
    }
  }

  /** In particular if nothing wraps around and neither set_address nor fixed_advance_pc goes back. */
  lemma FittingSequencesAscend(o: Order, p: Params, prog: seq<Instr>)
    requires Run(p, Start(p), prog).Done? && RunFits(o, p, Start(p), prog)
    ensures AllAscending(o, Run(p, Start(p), prog).value.table)
    ensures forall s :: s in Run(p, Start(p), prog).value.table ==> EndsBound(o, s)
  {
    hide Run, Start, RunFits, RunsForward, AllAscending, EndsBound;
    FittingRunsForward(o, p, Start(p), prog);
    SequencesAscend(o, p, prog);
  }

  // ----- one operation per instruction: the address is the operation pointer -----

  predicate NoOpIndex(rows: seq<Row>) {
    forall i :: 0 <= i < |rows| ==> rows[i].opIndex == 0
  }

  lemma StepKeepsNoOpIndex(p: Params, m: Machine, i: Instr)
    requires p.maxOps <= 1 && Executes(p, i) && m.regs.opIndex == 0
    ensures Exec(p, m, i).regs.opIndex == 0 && NoOpIndex(Emits(p, m.regs, i))
  {
    hide Append, MoveOps, ToU64, ToU32, ToI64, SpecialLine;
    if i.Special? {
      ScalarMove(p, m.regs.(line := ToU32(m.regs.line + SpecialLine(p, i.opcode))), SpecialAdvance(p, i.opcode));
    } else if i.AdvancePc? {
      ScalarMove(p, m.regs, i.opAdvance);
    } else if i.ConstAddPc? {
      ScalarMove(p, m.regs, ConstAdvance(p));
    }
  }

  lemma ScalarMove(p: Params, r: Registers, n: u64)
    requires p.maxOps == 1
    ensures MoveOps(p, r, n).opIndex == 0
  {
    hide AddressStep, ToU64;
  }

  lemma {:induction false} ScalarRows(p: Params, m: Machine, prog: seq<Instr>)
    requires p.maxOps <= 1 && m.regs.opIndex == 0
    ensures NoOpIndex(Emitted(p, m, prog))
    decreases |prog|
  {
    hide Exec, Executes, Emits;
    if prog != [] && Executes(p, prog[0]) {
      StepKeepsNoOpIndex(p, m, prog[0]);
      ScalarRows(p, Exec(p, m, prog[0]), prog[1..]);
    }
  }

  /** The address is the operation pointer where instructions hold one operation: then a decoded
      table ascends in one order exactly if it does in the other. */
  lemma ScalarOrdersAgree(p: Params, prog: seq<Instr>)
    requires p.maxOps <= 1 && Run(p, Start(p), prog).Done?
    ensures
      var t := Run(p, Start(p), prog).value.table;
      AllAscending(ByOperation, t) <==> AllAscending(ByAddress, t)
  {
    ScalarRows(p, Start(p), prog);
    TableAscendsExactly(ByAddress, p, prog);
    TableAscendsExactly(ByOperation, p, prog);
    hide AllAscending, Emitted, Run;
  }

  // ----- the condition is needed -----

  lemma {:induction false} RunKeepsEndFlag(p: Params, m: Machine, prog: seq<Instr>)
    requires Run(p, m, prog).Done? && !m.regs.endSequence
    ensures !Run(p, m, prog).value.regs.endSequence
    decreases |prog|
  {
    if prog == [] {
    } else {
      ExecKeepsEndFlag(p, m, prog[0]);
      hide Exec, Executes;
      RunKeepsEndFlag(p, Exec(p, m, prog[0]), prog[1..]);
    }
  }

  lemma ExecKeepsEndFlag(p: Params, m: Machine, i: Instr)
    requires Executes(p, i) && !m.regs.endSequence
    ensures !Exec(p, m, i).regs.endSequence
  {
    hide Append, ToU64, ToU32, ToI64, SpecialLine, SpecialAdvance;
  }

  predicate SamePlace(r: Row, s: Row) {
    r.address == s.address && r.opIndex == s.opIndex
  }

  /** What `copy`, an instruction and `copy` emit: a row before and a row after it. */
  lemma CopiesAround(p: Params, m: Machine, i: Instr)
    requires Executes(p, i) && !i.EndSequence? && !m.regs.endSequence
    ensures Run(p, m, [Copy, i, Copy]).Done?
    ensures
      var rows := Emitted(p, m, [Copy, i, Copy]);
      && |rows| >= 2 && rows[0] == RowOf(m.regs)
      && SamePlace(rows[1], RowOf(Exec(p, m, i).regs))
  {
    var m1 := Exec(p, m, Copy);
    CopyEmits(p, m);
    SameMove(p, m, m1, i);
    hide Exec, Emits, Executes;
    var m2 := Exec(p, m1, i);
    CopyEmits(p, m2);
    EmittedCons(p, m, Copy, [i, Copy]);
    EmittedCons(p, m1, i, [Copy]);
    EmittedCons(p, m2, Copy, []);
    assert [Copy] + [i, Copy] == [Copy, i, Copy] && [i] + [Copy] == [i, Copy] && [Copy] + [] == [Copy];
  }

  lemma CopyEmits(p: Params, m: Machine)
    ensures Executes(p, Copy) && Emits(p, m.regs, Copy) == [RowOf(m.regs)]
    ensures Exec(p, m, Copy).regs == AfterRow(m.regs)
  {
  }

  lemma SetAddressEmits(p: Params, m: Machine, a: u64)
    ensures Executes(p, SetAddress(a)) && Emits(p, m.regs, SetAddress(a)) == []
    ensures Exec(p, m, SetAddress(a)).regs == m.regs.(address := a, opIndex := 0)
  {
  }

  lemma EndEmits(p: Params, m: Machine)
    ensures Executes(p, EndSequence) && Emits(p, m.regs, EndSequence) == [RowOf(m.regs.(endSequence := true))]
    ensures Exec(p, m, EndSequence).regs == Initial(p)
  {
  }

  lemma EmittedCons(p: Params, m: Machine, i: Instr, prog: seq<Instr>)
    requires Executes(p, i)
    ensures Emitted(p, m, [i] + prog) == Emits(p, m.regs, i) + Emitted(p, Exec(p, m, i), prog)
    ensures Run(p, m, [i] + prog) == Run(p, Exec(p, m, i), prog)
  {
    hide Exec, Emits, Executes;
    assert ([i] + prog)[1..] == prog;
  }

  /** Emitting a row first does not change where an instruction moves to. */
  lemma SameMove(p: Params, m: Machine, m1: Machine, i: Instr)
    requires Executes(p, i) && !i.EndSequence? && m1.regs == AfterRow(m.regs)
    ensures SamePlace(RowOf(Exec(p, m1, i).regs), RowOf(Exec(p, m, i).regs))
    ensures Emits(p, m1.regs, i) != [] ==> SamePlace(Emits(p, m1.regs, i)[0], RowOf(Exec(p, m, i).regs))
  {
    hide Append, AddressStep, IndexStep, ToU64, ToU32, ToI64, SpecialLine, SpecialAdvance;
  }

  /** The condition cannot be relaxed: after any program, an instruction that goes back between two
      rows gives a table that does not ascend. */
  lemma SteppingBackShows(o: Order, p: Params, prog: seq<Instr>, i: Instr)
    requires Run(p, Start(p), prog).Done? && Executes(p, i)
    requires !StepsForward(o, p, Run(p, Start(p), prog).value, i)
    ensures Run(p, Start(p), prog + [Copy, i, Copy]).Done?
    ensures !AllAscending(o, Run(p, Start(p), prog + [Copy, i, Copy]).value.table)
  {
    var m := Run(p, Start(p), prog).value;
    RunKeepsEndFlag(p, Start(p), prog);
    CopiesAround(p, m, i);
    hide Run, Exec, Emitted, AllAscending;
    RunAppend(p, Start(p), prog, [Copy, i, Copy]);
    EmittedAppend(p, Start(p), prog, [Copy, i, Copy]);
    TableAscendsExactly(o, p, prog + [Copy, i, Copy]);
    var before, after := Emitted(p, Start(p), prog), Emitted(p, m, [Copy, i, Copy]);
    var rows := before + after;
    assert rows[|before|] == after[0] && rows[|before| + 1] == after[1];
  }

  /** A program whose addresses go back, so that its one sequence does not ascend. */
  lemma AscentCanFail(p: Params)
    requires p.opcodeBase > 1
    ensures
      var d := DecodeAll(p, EncodeProgram([SetAddress(8), Copy, SetAddress(4), Copy]));
      d.Done? && !AllAscending(ByAddress, d.value.table)
  {
    var prog := [SetAddress(8), Copy, SetAddress(4), Copy];
    assert [SetAddress(8)][1..] == [];
    assert Run(p, Start(p), [SetAddress(8)]) == Done(Exec(p, Start(p), SetAddress(8)));
    SteppingBackShows(ByAddress, p, [SetAddress(8)], SetAddress(4));
    assert [SetAddress(8)] + [Copy, SetAddress(4), Copy] == prog;
    hide Run, DecodeAll, AllAscending;
    DecodeEncodedAll(p, prog);
  }

  /** Two operations per instruction: set_address goes back within one instruction, so that the one
      sequence ascends by address but not by operation. */
  lemma OperationAscentCanFail(p: Params)
    requires p.opcodeBase > 2 && p.maxOps > 1
    ensures
      var d := DecodeAll(p, EncodeProgram([SetAddress(8), AdvancePc(1), Copy, SetAddress(8), Copy]));
      d.Done? && AllAscending(ByAddress, d.value.table) && !AllAscending(ByOperation, d.value.table)
  {
    var prog := [SetAddress(8), AdvancePc(1), Copy, SetAddress(8), Copy];
    assert AllEncodable(p.opcodeBase, prog);
    hide Run, DecodeAll, AllAscending, Emitted, AllEncodable, Start;
    OperationGoesBack(p);
    TableAscendsExactly(ByAddress, p, prog);
    TableAscendsExactly(ByOperation, p, prog);
    DecodeEncodedAll(p, prog);
  }

  lemma OperationGoesBack(p: Params)
    requires p.maxOps > 1
    ensures
      var prog := [SetAddress(8), AdvancePc(1), Copy, SetAddress(8), Copy];
      var rows := Emitted(p, Start(p), prog);
      && Run(p, Start(p), prog).Done?
      && |rows| == 2 && rows[0].address == rows[1].address && rows[0].opIndex == 1 && rows[1].opIndex == 0
  {
    var m1 := Exec(p, Start(p), SetAddress(8));
    var m2 := Exec(p, m1, AdvancePc(1));
    var m3 := Exec(p, m2, Copy);
    var m4 := Exec(p, m3, SetAddress(8));
    SetAddressEmits(p, Start(p), 8);
    OneOperation(p, m1);
    CopyEmits(p, m2);
    SetAddressEmits(p, m3, 8);
    CopyEmits(p, m4);
    hide Exec, Emits, Executes;
    EmittedCons(p, Start(p), SetAddress(8), [AdvancePc(1), Copy, SetAddress(8), Copy]);
    EmittedCons(p, m1, AdvancePc(1), [Copy, SetAddress(8), Copy]);
    EmittedCons(p, m2, Copy, [SetAddress(8), Copy]);
    EmittedCons(p, m3, SetAddress(8), [Copy]);
    EmittedCons(p, m4, Copy, []);
    assert [SetAddress(8)] + [AdvancePc(1), Copy, SetAddress(8), Copy] ==
           [SetAddress(8), AdvancePc(1), Copy, SetAddress(8), Copy];
    assert [AdvancePc(1)] + [Copy, SetAddress(8), Copy] == [AdvancePc(1), Copy, SetAddress(8), Copy];
    assert [Copy] + [SetAddress(8), Copy] == [Copy, SetAddress(8), Copy];
    assert [SetAddress(8)] + [Copy] == [SetAddress(8), Copy] && [Copy] + [] == [Copy];
  }

  lemma OneOperation(p: Params, m: Machine)
    requires p.maxOps > 1 && m.regs.opIndex == 0
    ensures Executes(p, AdvancePc(1)) && Emits(p, m.regs, AdvancePc(1)) == []
    ensures Exec(p, m, AdvancePc(1)).regs == m.regs.(opIndex := 1)
  {
    assert 1 / p.maxOps == 0 && 1 % p.maxOps == 1;
    assert p.minInst * 0 == 0;
  }
}

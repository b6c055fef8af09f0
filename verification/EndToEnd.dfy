/**
 * From rows to a planted breakpoint: rows compiled and serialised into a `.debug_line` section,
 * parsed back, looked up, registered and injected into a spawned process.
 */
module EndToEnd {
  import opened Words
  import opened Wrappers
  import opened LineMachine
  import opened LineProgram
  import opened LineTables
  import opened LineCompiler
  import opened LineSection
  import opened LineLookup
  import opened Registry
  import opened Inferior
  import DM = DebugModel

  /** A unit whose program is the compiled form of these rows. */
  predicate Holds(u: LineUnit, rows: seq<Row>) {
    && u.params.opcodeBase >= 12 && RowsFit(u.params, rows) && SizeFits(u)
    && u.program == EncodeProgram(Compile(u.params, rows))
  }

  /** Such a unit can be written, and reads back as exactly these rows in order, cut into sequences
      after each end_sequence row. */
  lemma CompiledUnit(u: LineUnit, rows: seq<Row>)
    requires Holds(u, rows)
    ensures UnitFits(u) && UnitValue(u).table == Group(rows) && Flatten(UnitValue(u).table) == rows
  {
    assert Group([]) == [];
    hide CompileRows, SizeFits, Run, Group, DecodeAll, EncodeProgram;
    CompileRowsEncodable(u.params, 1, u.params.defaultIsStmt != 0, rows);
    RowsRun(u.params, Start(u.params), 1, u.params.defaultIsStmt != 0, rows, []);
    assert [] + rows == rows;
    GroupShape(rows);
    ProgramRoundTrip(u.params.opcodeBase, Compile(u.params, rows));
    DecodeEncodedAll(u.params, Compile(u.params, rows));
  }

  function TablesOf(units: seq<CompUnit>): (ts: seq<Table>)
    ensures |ts| == |units| && forall i :: 0 <= i < |ts| ==> ts[i] == units[i].table
  {
    if units == [] then [] else [units[0].table] + TablesOf(units[1..])
  }

  predicate AllHold(us: seq<LineUnit>, rows: seq<seq<Row>>) {
    |us| == |rows| && forall i :: 0 <= i < |us| ==> Holds(us[i], rows[i])
  }

  /** The section of the compiled units parses, and its tables flatten to the rows compiled. */
  lemma CompiledSection(us: seq<LineUnit>, rows: seq<seq<Row>>)
    requires AllHold(us, rows)
    ensures UnitsFit(us) && ReadSection(EncodeSection(us)).Done?
    ensures
      var ts := TablesOf(ReadSection(EncodeSection(us)).value);
      |ts| == |rows| && forall i :: 0 <= i < |rows| ==> Flatten(ts[i]) == rows[i]
  {
    hide Holds, UnitFits, UnitValue, Flatten, ReadSection, EncodeSection;
    forall i | 0 <= i < |us|
      ensures UnitFits(us[i]) && Flatten(UnitValue(us[i]).table) == rows[i]
    {
      CompiledUnit(us[i], rows[i]);
    }
    SectionRoundTrip(us);
    UnitValuesAt(us);
  }

  /** Setting a breakpoint on a line whose first is_stmt row lies in the text and spawning the
      program registers the address of that row and puts 0xcc, an INT3, where it is loaded, and nothing
      else; if the process starts right there, its memory stays as it is. */
  lemma BreakpointFromRows(
    us: seq<LineUnit>, rows: seq<seq<Row>>, textAddress: u64, text: seq<u8>, loadAddress: u64,
    unit: nat, line: u64, procLoad: u64, mem: Memory, entry: u64)
    requires AllHold(us, rows) && UnitsFit(us) && ReadSection(EncodeSection(us)).Done?
    requires unit < |rows| && line != 0 && FirstIndex(rows[unit], line) < |rows[unit]|
    requires
      var image := Image(textAddress, text, TablesOf(ReadSection(EncodeSection(us)).value), loadAddress);
      var a := rows[unit][FirstIndex(rows[unit], line)].address;
      && image.InText(a)
      && DM.TextMapped(image, procLoad, mem) && DM.TextLoaded(image, procLoad, mem)
    ensures
      var image := Image(textAddress, text, TablesOf(ReadSection(EncodeSection(us)).value), loadAddress);
      var a := rows[unit][FirstIndex(rows[unit], line)].address;
      var events := [DM.ToggleSourceBreakpoint(unit, line), DM.Spawn(procLoad, mem, entry)];
      && DM.CanRun(image, DM.INITIAL_WORLD, events)
      && var w := DM.RunEvents(image, DM.INITIAL_WORLD, events);
         && w.registries == Registries([Breakpoint(a, text[a - textAddress])], [SourceBreakpoint(a, unit, line)])
         && var x := DM.Real(image, procLoad, a);
            w.process == Some(DM.Process(if x == entry then mem else mem[x := 0xcc], entry, true))
  {
    hide Flatten, ReadSection, EncodeSection, FirstIndex, UnitFits, Holds, DM.Real, DM.TextMapped, DM.TextLoaded;
    CompiledSection(us, rows);
    var image := Image(textAddress, text, TablesOf(ReadSection(EncodeSection(us)).value), loadAddress);
    var a := rows[unit][FirstIndex(rows[unit], line)].address;
    TargetIsFirstCandidate(image.tables[unit], line);
    hide Target;
    ToggleThenSpawn(image, unit, line, a, procLoad, mem, entry);
  }

  lemma ToggleThenSpawn(image: Image, unit: nat, line: u64, a: u64, procLoad: u64, mem: Memory, entry: u64)
    requires LineOk(image, unit, line) && LineTarget(image, unit, line) == Some(a) && image.InText(a)
    requires DM.TextMapped(image, procLoad, mem) && DM.TextLoaded(image, procLoad, mem)
    ensures
      var events := [DM.ToggleSourceBreakpoint(unit, line), DM.Spawn(procLoad, mem, entry)];
      && DM.CanRun(image, DM.INITIAL_WORLD, events)
      && var w := DM.RunEvents(image, DM.INITIAL_WORLD, events);
         && w.registries == Registries([Breakpoint(a, image.TextByte(a))], [SourceBreakpoint(a, unit, line)])
         && var x := DM.Real(image, procLoad, a);
            w.process == Some(DM.Process(if x == entry then mem else mem[x := 0xcc], entry, true))
  {
    hide DM.Real, DM.TextMapped, DM.TextLoaded, LineTarget, LineOk;
    var e1, e2 := DM.ToggleSourceBreakpoint(unit, line), DM.Spawn(procLoad, mem, entry);
    var w1 := DM.Next(image, DM.INITIAL_WORLD, e1);
    assert [] + [Breakpoint(a, image.TextByte(a))] == [Breakpoint(a, image.TextByte(a))];
    assert [] + [SourceBreakpoint(a, unit, line)] == [SourceBreakpoint(a, unit, line)];
    assert w1.registries == Registries([Breakpoint(a, image.TextByte(a))], [SourceBreakpoint(a, unit, line)]);
    var w2 := DM.Next(image, w1, e2);
    assert [e1, e2][1..] == [e2] && [e2][1..] == [];
    var bps := w1.registries.breakpoints;
    assert bps[1..] == [];
    var x := DM.Real(image, procLoad, a);
    assert DM.Injected(image, procLoad, bps, mem, entry) ==
           DM.Injected(image, procLoad, bps[1..], if x == entry then mem else mem[x := INT3], entry);
    assert DM.CanRun(image, w2, []) && DM.Enabled(image, w1, e2);
    assert DM.CanRun(image, w1, [e2]) && DM.RunEvents(image, w1, [e2]) == w2;
  }
}

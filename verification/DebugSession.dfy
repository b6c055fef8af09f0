/**
 * The debugging session of `src/debug.c`: registries that are shifted and grown in place, with a
 * removal that calls itself through its counterpart while a caller is still iterating, and the
 * spawn, continue and signal handlers that act on the traced process. Every method is proved to
 * take the session from one state of `DebugModel` to the next.
 */
module DebugSession {
  import opened Words
  import opened Wrappers
  import opened LineMachine
  import opened LineLookup
  import opened Registry
  import opened Inferior
  import DM = DebugModel

  class Session {
    const image: Image
    var breakpoints: seq<Breakpoint>
    var srcBreakpoints: seq<SourceBreakpoint>
    var inferior: Inferior?
    var procLoadAddress: u64
    var inferiorRip: u64
    ghost var planted: set<u64>
    ghost var everPlanted: set<u64>

    ghost function Regs(): Registries
      reads this
    {
      Registries(breakpoints, srcBreakpoints)
    }

    /** The abstract state of the session. */
    ghost function State(): DM.World
      reads this, inferior
    {
      DM.World(Regs(),
               if inferior == null then None else Some(DM.Process(inferior.mem, inferior.rip, inferior.stopped)),
               procLoadAddress, inferiorRip, planted, everPlanted)
    }

    /** What the removals rely on. */
    ghost predicate Distinct()
      reads this
    {
      UniqueAddresses(breakpoints) && UniquePairs(srcBreakpoints)
    }

    constructor (program: Image)
      ensures image == program && State() == DM.INITIAL_WORLD
    {
      image := program;
      breakpoints, srcBreakpoints, inferior := [], [], null;
      procLoadAddress, inferiorRip := 0, 0;
      planted, everPlanted := {}, {};
    }

    // ----- registries -----

    /** The scan that each operation starts with. */
    method FindBreakpoint(address: u64) returns (i: nat)
      ensures i <= |breakpoints|
      ensures i < |breakpoints| ==> breakpoints[i].address == address
      ensures i == |breakpoints| <==> !Registered(breakpoints, address)
    {
      i := 0;
      while i < |breakpoints|
        invariant i <= |breakpoints|
        invariant forall j :: 0 <= j < i ==> breakpoints[j].address != address
      {
        if breakpoints[i].address == address {
          return;
        }
        i := i + 1;
      }
    }

    method FindSource(unit: nat, line: u64) returns (i: nat)
      ensures i == PairIndex(srcBreakpoints, unit, line)
    {
      i := 0;
      while i < |srcBreakpoints|
        invariant i <= |srcBreakpoints|
        invariant forall j :: 0 <= j < i ==> !IsPair(srcBreakpoints[j], unit, line)
      {
        if srcBreakpoints[i].unit == unit && srcBreakpoints[i].line == line {
          return;
        }
        i := i + 1;
      }
    }

    method AddBreakpoint(address: u64) returns (ok: bool)
      requires image.InText(address)
      modifies this`breakpoints
      ensures ok <==> !Registered(old(breakpoints), address)
      ensures breakpoints ==
              if ok then old(breakpoints) + [Breakpoint(address, image.text[address - image.textAddress])]
              else old(breakpoints)
      ensures Regs() == AddAddress(image, old(Regs()), address)
    {
      var i := FindBreakpoint(address);
      if i < |breakpoints| {
        return false;
      }
      breakpoints := breakpoints + [Breakpoint(address, image.TextByte(address))];
      return true;
    }

    /** Shifts the entries behind `i` down by one and drops the last. */
    method ShiftBreakpoints(i: nat)
      requires i < |breakpoints|
      modifies this`breakpoints
      ensures breakpoints == RemoveAt(old(breakpoints), i)
    {
      var j := i;
      while j < |breakpoints| - 1
        invariant i <= j < |breakpoints| == |old(breakpoints)|
        invariant forall k :: 0 <= k < i ==> breakpoints[k] == old(breakpoints)[k]
        invariant forall k :: i <= k < j ==> breakpoints[k] == old(breakpoints)[k + 1]
        invariant forall k :: j <= k < |breakpoints| ==> breakpoints[k] == old(breakpoints)[k]
      {
        breakpoints := breakpoints[j := breakpoints[j + 1]];
        j := j + 1;
      }
      breakpoints := breakpoints[..|breakpoints| - 1];
    }

    method ShiftSources(i: nat)
      requires i < |srcBreakpoints|
      modifies this`srcBreakpoints
      ensures srcBreakpoints == RemoveAt(old(srcBreakpoints), i)
    {
      var j := i;
      while j < |srcBreakpoints| - 1
        invariant i <= j < |srcBreakpoints| == |old(srcBreakpoints)|
        invariant forall k :: 0 <= k < i ==> srcBreakpoints[k] == old(srcBreakpoints)[k]
        invariant forall k :: i <= k < j ==> srcBreakpoints[k] == old(srcBreakpoints)[k + 1]
        invariant forall k :: j <= k < |srcBreakpoints| ==> srcBreakpoints[k] == old(srcBreakpoints)[k]
      {
        srcBreakpoints := srcBreakpoints[j := srcBreakpoints[j + 1]];
        j := j + 1;
      }
      srcBreakpoints := srcBreakpoints[..|srcBreakpoints| - 1];
    }

    /** Removes exactly the entries at this address from both registries and keeps the order of the
        rest, although the source entries are removed by a method that calls this one again. */
    method RemoveBreakpoint(address: u64)
      requires Distinct()
      modifies this`breakpoints, this`srcBreakpoints
      ensures Regs() == RemoveAddress(old(Regs()), address)
      ensures Distinct()
      decreases |srcBreakpoints|, 1
    {
      WithoutUnique(breakpoints, address);
      SourcesWithoutUnique(srcBreakpoints, address);
      var i := FindBreakpoint(address);
      if i < |breakpoints| {
        WithoutIsRemoveAt(breakpoints, i);
        ShiftBreakpoints(i);
      } else {
        WithoutNothing(breakpoints, address);
      }
      WithoutMembers(old(breakpoints), address);
      WithoutNothing(breakpoints, address);
      hide Without, SourcesWithout, Registered, UniqueAddresses, UniquePairs;
      i := 0;
      while i < |srcBreakpoints|
        invariant breakpoints == Without(old(breakpoints), address)
        invariant Distinct() && |srcBreakpoints| <= |old(srcBreakpoints)|
        invariant SourcesWithout(srcBreakpoints, address) == SourcesWithout(old(srcBreakpoints), address)
        invariant forall k :: 0 <= k < i && k < |srcBreakpoints| ==> srcBreakpoints[k].address != address
        decreases |srcBreakpoints| - i
      {
        var s := srcBreakpoints[i];
        if s.address == address {
          UniquePairIndex(srcBreakpoints, i);
          ghost var before := srcBreakpoints;
          SourcesWithoutUnique(before, address);
          RemoveSourceBreakpoint(s.unit, s.line);
          assert srcBreakpoints == SourcesWithout(before, address);
          NoneLeft(before, address);
        }
        i := i + 1;
      }
      SourcesWithoutNothing(srcBreakpoints, address);
    }

    method RemoveSourceBreakpoint(unit: nat, line: u64)
      requires Distinct()
      modifies this`breakpoints, this`srcBreakpoints
      ensures Regs() == RemoveSource(old(Regs()), unit, line)
      ensures Distinct()
      decreases |srcBreakpoints|, 0
    {
      var i := FindSource(unit, line);
      if i < |srcBreakpoints| {
        var address := srcBreakpoints[i].address;
        SourcesWithoutAfterRemoveAt(srcBreakpoints, i);
        assert UniquePairs(RemoveAt(srcBreakpoints, i));
        ShiftSources(i);
        RemoveBreakpoint(address);
      }
    }

    method ToggleBreakpoint(address: u64)
      requires Distinct() && image.InText(address)
      modifies this`breakpoints, this`srcBreakpoints
      ensures State() == DM.Next(image, old(State()), DM.ToggleBreakpoint(address))
    {
      var i := FindBreakpoint(address);
      if i < |breakpoints| {
        RemoveBreakpoint(address);
      } else {
        var _ := AddBreakpoint(address);
      }
    }

    /** Succeeds exactly when the pair is new, the line has a non-end is_stmt row, and the first such
        row in emission order has an unregistered address, which is then registered with its text
        byte. */
    method SetSourceBreakpoint(unit: nat, line: u64) returns (ok: bool)
      requires HasPair(srcBreakpoints, unit, line) || LineOk(image, unit, line)
      modifies this`breakpoints, this`srcBreakpoints
      ensures ok <==>
              && !HasPair(old(srcBreakpoints), unit, line) && unit < |image.tables|
              && var rows := Flatten(image.tables[unit]);
                 var i := FirstIndex(rows, line);
                 i < |rows| && !Registered(old(breakpoints), rows[i].address)
      ensures !ok ==> Regs() == old(Regs())
      ensures ok ==>
                && LineOk(image, unit, line)
                && var rows := Flatten(image.tables[unit]);
                   var a := rows[FirstIndex(rows, line)].address;
                   && image.InText(a)
                   && breakpoints == old(breakpoints) + [Breakpoint(a, image.text[a - image.textAddress])]
                   && srcBreakpoints == old(srcBreakpoints) + [SourceBreakpoint(a, unit, line)]
      ensures ok ==> Regs() == SetSource(image, old(Regs()), unit, line) != old(Regs())
    {
      hide Flatten, RowsOfLine, FirstIndex, Picked, AscendsIfApart;
      var k := FindSource(unit, line);
      if k < |srcBreakpoints| {
        return false;
      }
      TargetIsFirstCandidate(image.tables[unit], line);
      var selected := GetInstructionsForLine(image.tables[unit], line);
      ghost var target := FirstStmt(selected);
      assert selected[0..] == selected;
      var address := 0;
      var found := false;
      var i := 0;
      while i < |selected|
        invariant i <= |selected| && !found && FirstStmt(selected[i..]) == target
      {
        if selected[i].isStmt {
          found, address := true, selected[i].address;
          break;
        }
        assert selected[i..][1..] == selected[i + 1..];
        i := i + 1;
      }
      assert target == if found then Some(address) else None;
      if !found {
        return false;
      }
      ok := AddBreakpoint(address);
      if ok {
        srcBreakpoints := srcBreakpoints + [SourceBreakpoint(address, unit, line)];
      }
    }

    method ToggleSourceBreakpoint(unit: nat, line: u64)
      requires Distinct() && LineOk(image, unit, line)
      modifies this`breakpoints, this`srcBreakpoints
      ensures State() == DM.Next(image, old(State()), DM.ToggleSourceBreakpoint(unit, line))
    {
      var i := FindSource(unit, line);
      if i < |srcBreakpoints| {
        RemoveSourceBreakpoint(unit, line);
        return;
      }
      TargetIsFirstCandidate(image.tables[unit], line);
      hide FirstIndex, Flatten, Target;
      var _ := SetSourceBreakpoint(unit, line);
    }

    // ----- the traced process -----

    /** The word that starts at a registered address is mapped. */
    lemma BreakpointMapped(i: nat)
      requires i < |breakpoints| && DM.WorldInv(image, State()) && inferior != null
      ensures Mapped(inferior.mem, DM.Real(image, procLoadAddress, breakpoints[i].address), 8)
    {
      assert BreakpointOk(image, breakpoints[i]);
    }

    /** The loop of `inject_breakpoints`. */
    method PlantBreakpoints(rip: u64)
      requires inferior != null && inferior.stopped
      requires forall i :: 0 <= i < |breakpoints| ==>
                 Mapped(inferior.mem, DM.Real(image, procLoadAddress, breakpoints[i].address), 8)
      modifies inferior`mem
      ensures inferior.mem == DM.Injected(image, procLoadAddress, breakpoints, old(inferior.mem), rip)
    {
      hide DM.Real, Mapped;
      var i := 0;
      assert breakpoints[0..] == breakpoints;
      while i < |breakpoints|
        invariant i <= |breakpoints|
        invariant forall k :: 0 <= k < |breakpoints| ==>
                    Mapped(inferior.mem, DM.Real(image, procLoadAddress, breakpoints[k].address), 8)
        invariant DM.Injected(image, procLoadAddress, breakpoints[i..], inferior.mem, rip) ==
                  DM.Injected(image, procLoadAddress, breakpoints, old(inferior.mem), rip)
      {
        var realAddress := DM.Real(image, procLoadAddress, breakpoints[i].address);
        assert breakpoints[i..][1..] == breakpoints[i + 1..];
        i := i + 1;
        if realAddress == rip {
          continue;
        }
        forall k | 0 <= k < |breakpoints|
          ensures Mapped(inferior.mem[realAddress := INT3], DM.Real(image, procLoadAddress, breakpoints[k].address), 8)
        {
          DM.MappedStays(inferior.mem, realAddress, INT3, DM.Real(image, procLoadAddress, breakpoints[k].address), 8);
        }
        InjectByte(inferior, realAddress, INT3);
      }
      assert breakpoints[i..] == [];
    }

    method InjectBreakpoints()
      requires inferior != null && inferior.stopped && DM.WorldInv(image, State())
      modifies inferior`mem, this`planted, this`everPlanted
      ensures inferior == old(inferior) && State() == DM.Inject(image, old(State()))
      ensures DM.TrapsOnly(image, procLoadAddress, breakpoints, inferior.rip, old(inferior.mem), inferior.mem)
      ensures DM.WorldInv(image, State())
    {
      DM.InjectKeepsInv(image, State());
      DM.InjectedTrapsOnly(image, procLoadAddress, breakpoints, inferior.mem, inferior.rip);
      forall i | 0 <= i < |breakpoints|
        ensures Mapped(inferior.mem, DM.Real(image, procLoadAddress, breakpoints[i].address), 8)
      {
        BreakpointMapped(i);
      }
      hide DM.WorldInv, DM.Injected, Mapped, DM.Real, DM.Armed, DM.Addresses, DM.TrapsOnly;
      var rip := inferior.GetRip();
      PlantBreakpoints(rip);
      planted := planted + DM.Armed(image, procLoadAddress, breakpoints, rip);
      everPlanted := everPlanted + DM.Addresses(breakpoints);
    }

    /** `load`, `memory` and `entry` are what the system makes of the executed file. */
    method SpawnInferior(load: u64, memory: Memory, entry: u64)
      requires inferior == null && DM.WorldInv(image, State())
      requires DM.Enabled(image, State(), DM.Spawn(load, memory, entry))
      modifies this`inferior, this`procLoadAddress, this`planted, this`everPlanted
      ensures inferior != null && fresh(inferior)
      ensures State() == DM.Next(image, old(State()), DM.Spawn(load, memory, entry))
      ensures DM.WorldInv(image, State())
    {
      inferior := new Inferior(memory, entry);
      procLoadAddress := load;
      planted, everPlanted := {}, {};
      InjectBreakpoints();
    }

    method ContinueInferior()
      requires inferior != null && DM.WorldInv(image, State()) && DM.Enabled(image, State(), DM.Continue)
      modifies inferior, this`planted, this`everPlanted
      ensures inferior == old(inferior) && State() == DM.Next(image, old(State()), DM.Continue)
      ensures DM.WorldInv(image, State())
    {
      InjectBreakpoints();
      inferior.Cont();
    }

    /** A SIGTRAP stop: the loop over the breakpoints in `handle_inferior_signal`. */
    method HandleSigtrap()
      requires inferior != null && inferior.stopped && DM.WorldInv(image, State())
      modifies inferior, this`inferiorRip, this`planted
      ensures inferior == old(inferior) && State() == DM.HandleTrap(image, old(State()))
    {
      var rip: int := inferior.GetRip();
      rip := ToU64(rip - 1);
      var i := 0;
      while i < |breakpoints|
        invariant i <= |breakpoints| && State() == old(State()) && inferior == old(inferior)
        invariant forall j :: 0 <= j < i ==> DM.Real(image, procLoadAddress, breakpoints[j].address) != rip
      {
        var breakpoint := breakpoints[i];
        var realAddress := DM.Real(image, procLoadAddress, breakpoint.address);
        if realAddress == rip {
          BreakpointMapped(i);
          InjectByte(inferior, rip, breakpoint.originalByte);
          inferior.SetRip(rip);
          planted := planted - {breakpoint.address};
          break;
        }
        i := i + 1;
      }
      inferiorRip := rip;
    }

    /** One status that `waitpid` reports. */
    method HandleStatus(status: DM.WaitStatus)
      requires inferior != null && DM.WorldInv(image, State())
      requires status.Stopped? ==> inferior.stopped
      modifies this`inferior, this`inferiorRip, this`planted, this`everPlanted, inferior
      ensures State() == DM.AfterStatus(image, old(State()), status)
      ensures inferior == if status.Exited? then null else old(inferior)
      ensures inferior != null ==> inferior.stopped == old(inferior.stopped)
    {
      match status
      case Exited =>
        inferior := null;
        inferiorRip := 0;
        planted, everPlanted := {}, {};
      case Stopped(signal) =>
        if signal == DM.SIGTRAP {
          HandleSigtrap();
        }
      case Signaled =>
      case Continued =>
    }

    /** The loop over all that `waitpid` reports; after an exit there is no process to ask about. */
    method HandleInferiorSignal(statuses: seq<DM.WaitStatus>)
      requires inferior != null && DM.WorldInv(image, State())
      requires (exists s :: s in statuses && s.Stopped?) ==> inferior.stopped
      modifies this`inferior, this`inferiorRip, this`planted, this`everPlanted, inferior
      ensures State() == DM.AfterStatuses(image, old(State()), statuses)
      ensures DM.WorldInv(image, State())
      ensures inferior == null || inferior == old(inferior)
    {
      hide DM.WorldInv, DM.HandleTrap;
      var i := 0;
      assert statuses[0..] == statuses;
      while i < |statuses| && inferior != null
        invariant i <= |statuses| && DM.WorldInv(image, State())
        invariant inferior == null || inferior == old(inferior)
        invariant inferior != null && (exists s :: s in statuses && s.Stopped?) ==> inferior.stopped
        invariant DM.AfterStatuses(image, State(), statuses[i..]) == DM.AfterStatuses(image, old(State()), statuses)
      {
        assert statuses[i..][1..] == statuses[i + 1..] && statuses[i] in statuses;
        DM.StatusKeepsInv(image, State(), statuses[i]);
        HandleStatus(statuses[i]);
        i := i + 1;
      }
    }

    /** The process runs on, stops with a signal, and the debugger is told. */
    method WaitForStop(memory: Memory, rip: u64, signal: int)
      requires inferior != null && DM.WorldInv(image, State())
      requires DM.Enabled(image, State(), DM.Trap(memory, rip))
      modifies this`inferior, this`inferiorRip, this`planted, this`everPlanted, inferior
      ensures inferior == old(inferior) && DM.WorldInv(image, State())
      ensures State() == DM.Next(image, old(State()),
                                 if signal == 5 then DM.Trap(memory, rip) else DM.OtherStop(memory, rip))
    {
      DM.StoppedKeepsInv(image, State(), memory, rip);
      DM.HandleTrapKeepsInv(image, DM.StoppedAt(State(), memory, rip));
      hide DM.WorldInv, DM.HandleTrap, DM.Stops;
      inferior.RunUntilStop(memory, rip);
      DM.OneStatus(image, State(), DM.Stopped(signal));
      HandleInferiorSignal([DM.Stopped(signal)]);
    }

    /** The one file address that is loaded where the saved instruction pointer points to. */
    method GetInstructionPointerVma() returns (vma: u64)
      ensures forall a: u64 :: DM.Real(image, procLoadAddress, a) == inferiorRip <==> a == vma
    {
      vma := ToU64(inferiorRip + ToU64(image.loadAddress - procLoadAddress));
      DM.RelocationRoundTrip(image, procLoadAddress, inferiorRip);
      assert vma == DM.VmaOf(image, procLoadAddress, inferiorRip);
      hide DM.Real, DM.VmaOf;
      forall a: u64
        ensures DM.Real(image, procLoadAddress, a) == inferiorRip <==> a == vma
      {
        DM.RealInjective(image, procLoadAddress, a, vma);
      }
    }
  }

  /** After filtering no entry at the address is left. */
  lemma NoneLeft(srcs: seq<SourceBreakpoint>, address: u64)
    ensures forall k :: 0 <= k < |SourcesWithout(srcs, address)| ==> SourcesWithout(srcs, address)[k].address != address
    ensures SourcesWithout(SourcesWithout(srcs, address), address) == SourcesWithout(srcs, address)
  {
    var left := SourcesWithout(srcs, address);
    SourcesWithoutMembers(srcs, address);
    forall k | 0 <= k < |left|
      ensures left[k].address != address
    {
      assert left[k] in left;
    }
    SourcesWithoutNothing(left, address);
  }
}

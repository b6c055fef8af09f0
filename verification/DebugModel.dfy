/**
 * The debugger's step protocol as a state machine over values: spawning, planting INT3 bytes,
 * continuing, trapping and exiting, interleaved with breakpoint toggles; and what holds in every
 * state of every run.
 */
module DebugModel {
  import opened Words
  import opened Wrappers
  import opened Registry
  import opened Inferior

  datatype Process = Process(mem: Memory, rip: u64, stopped: bool)

  /** A debugging session. `planted` are the file addresses that hold an INT3 of ours;
      `everPlanted` are the addresses that were registered at some injection since the spawn. */
  datatype World = World(
    registries: Registries, process: Option<Process>, procLoadAddress: u64, inferiorRip: u64,
    planted: set<u64>, everPlanted: set<u64>)

  // ----- relocation -----

  /** `get_address_from_vma`, in 64-bit arithmetic. */
  function Real(image: Image, procLoad: u64, vma: u64): u64 {
    ToU64(ToU64(procLoad - image.loadAddress) + vma)
  }

  /** `get_instruction_pointer_vma`. */
  function VmaOf(image: Image, procLoad: u64, rip: u64): u64 {
    ToU64(rip + ToU64(image.loadAddress - procLoad))
  }

  /** For every pair of load addresses the two relocations are inverse, so distinct addresses stay
      distinct at run time. */
  lemma RelocationRoundTrip(image: Image, procLoad: u64, vma: u64)
    ensures VmaOf(image, procLoad, Real(image, procLoad, vma)) == vma
    ensures Real(image, procLoad, VmaOf(image, procLoad, vma)) == vma
  {
    hide ToU64;
    var up, down := procLoad - image.loadAddress, image.loadAddress - procLoad;
    WrapFits(vma);
    WrapInner(up, vma);
    WrapInner(down, vma);
    WrapSum(up + vma, down);
    WrapSum(vma + down, up);
  }

  lemma RealInjective(image: Image, procLoad: u64, a: u64, b: u64)
    ensures Real(image, procLoad, a) == Real(image, procLoad, b) <==> a == b
  {
    hide Real, VmaOf;
    RelocationRoundTrip(image, procLoad, a);
    RelocationRoundTrip(image, procLoad, b);
  }

  /** Relocation keeps distances and takes the load address of the file to that of the process. */
  lemma RealKeepsDistances(image: Image, procLoad: u64, a: u64, b: u64)
    ensures Real(image, procLoad, image.loadAddress) == procLoad
    ensures ToU64(Real(image, procLoad, b) - Real(image, procLoad, a)) == ToU64(b - a)
  {
    var d := procLoad - image.loadAddress;
    RealIs(image, procLoad, image.loadAddress);
    RealIs(image, procLoad, a);
    RealIs(image, procLoad, b);
    WrapFits(procLoad);
    WrapDifference(d + b, d + a);
  }

  lemma RealIs(image: Image, procLoad: u64, vma: u64)
    ensures Real(image, procLoad, vma) == ToU64(procLoad - image.loadAddress + vma)
  {
    hide ToU64;
    WrapInner(procLoad - image.loadAddress, vma);
  }

  // ----- injection -----

  /** Memory after planting an INT3 at every breakpoint except the one at `rip`. */
  function Injected(image: Image, procLoad: u64, bps: seq<Breakpoint>, mem: Memory, rip: u64): Memory
    decreases |bps|
  {
    if bps == [] then mem
    else
      var a := Real(image, procLoad, bps[0].address);
      Injected(image, procLoad, bps[1..], if a == rip then mem else mem[a := INT3], rip)
  }

  /** Every byte loaded from a breakpoint's address, save the one at `rip`, has become an INT3, and no
      other byte has changed. */
  ghost predicate TrapsOnly(
    image: Image, procLoad: u64, bps: seq<Breakpoint>, rip: u64, before: Memory, after: Memory)
  {
    forall x: u64 :: ByteAfter(image, procLoad, bps, rip, before, after, x)
  }

  predicate ByteAfter(
    image: Image, procLoad: u64, bps: seq<Breakpoint>, rip: u64, before: Memory, after: Memory, x: u64)
  {
    if x != rip && exists i :: 0 <= i < |bps| && Real(image, procLoad, bps[i].address) == x
    then x in after && after[x] == 0xcc
    else if x in before then x in after && after[x] == before[x]
    else x !in after
  }

  lemma {:induction false} InjectedTrapsOnly(
    image: Image, procLoad: u64, bps: seq<Breakpoint>, mem: Memory, rip: u64)
    ensures TrapsOnly(image, procLoad, bps, rip, mem, Injected(image, procLoad, bps, mem, rip))
    decreases |bps|
  {
    hide Real;
    if bps == [] {
    } else {
      var a := Real(image, procLoad, bps[0].address);
      var mem1 := if a == rip then mem else mem[a := INT3];
      var after := Injected(image, procLoad, bps, mem, rip);
      InjectedTrapsOnly(image, procLoad, bps[1..], mem1, rip);
      forall x: u64
        ensures ByteAfter(image, procLoad, bps, rip, mem, after, x)
      {
        assert ByteAfter(image, procLoad, bps[1..], rip, mem1, after, x);
        assert forall i :: 0 < i < |bps| ==> bps[i] == bps[1..][i - 1];
        assert forall i :: 0 <= i < |bps[1..]| ==> bps[1..][i] == bps[i + 1];
      }
    }
  }

  function Addresses(bps: seq<Breakpoint>): set<u64> {
    set i | 0 <= i < |bps| :: bps[i].address
  }

  /** The addresses an injection plants. */
  function Armed(image: Image, procLoad: u64, bps: seq<Breakpoint>, rip: u64): set<u64> {
    set a | a in Addresses(bps) && Real(image, procLoad, a) != rip
  }

  function Inject(image: Image, w: World): World
    requires w.process.Some?
  {
    var p, bps := w.process.value, w.registries.breakpoints;
    w.(process := Some(p.(mem := Injected(image, w.procLoadAddress, bps, p.mem, p.rip))),
       planted := w.planted + Armed(image, w.procLoadAddress, bps, p.rip),
       everPlanted := w.everPlanted + Addresses(bps))
  }

  // ----- traps -----

  /** The first breakpoint whose run-time address is `at`, or the number of breakpoints. */
  function TrapIndex(image: Image, procLoad: u64, bps: seq<Breakpoint>, at: u64): (i: nat)
    ensures i <= |bps|
    ensures forall j :: 0 <= j < i ==> Real(image, procLoad, bps[j].address) != at
    ensures i < |bps| ==> Real(image, procLoad, bps[i].address) == at
  {
    if bps == [] || Real(image, procLoad, bps[0].address) == at then 0
    else
      assert forall j :: 0 < j < |bps| ==> bps[j] == bps[1..][j - 1];
      1 + TrapIndex(image, procLoad, bps[1..], at)
  }

  /** What the debugger does about a SIGTRAP: restore the byte and rewind, if it is one of ours. */
  function HandleTrap(image: Image, w: World): World
    requires w.process.Some?
  {
    var p, bps := w.process.value, w.registries.breakpoints;
    var at := ToU64(p.rip - 1);
    var i := TrapIndex(image, w.procLoadAddress, bps, at);
    if i < |bps| then
      w.(process := Some(p.(mem := p.mem[at := bps[i].originalByte], rip := at)), inferiorRip := at,
         planted := w.planted - {bps[i].address})
    else w.(inferiorRip := at)
  }

  // ----- statuses -----

  const SIGTRAP: int := 5

  /** What `waitpid` reports of the process. */
  datatype WaitStatus = Exited | Stopped(signal: int) | Signaled | Continued

  function Ended(w: World): World {
    w.(process := None, inferiorRip := 0, planted := {}, everPlanted := {})
  }

  /** One status: an exit ends the process, a SIGTRAP stop is handled, others change nothing. */
  function AfterStatus(image: Image, w: World, status: WaitStatus): World
    requires w.process.Some?
  {
    match status
    case Exited => Ended(w)
    case Stopped(signal) => if signal == SIGTRAP then HandleTrap(image, w) else w
    case _ => w
  }

  /** Statuses one after another, as long as there is a process. */
  function AfterStatuses(image: Image, w: World, statuses: seq<WaitStatus>): World
    decreases |statuses|
  {
    if statuses == [] || w.process.None? then w
    else AfterStatuses(image, AfterStatus(image, w, statuses[0]), statuses[1..])
  }

  // ----- steps -----

  datatype Event =
    | ToggleBreakpoint(address: u64)
    | ToggleSourceBreakpoint(unit: nat, line: u64)
    | Spawn(procLoad: u64, mem: Memory, entry: u64)  // where the system loads the program
    | Continue
    | Trap(mem: Memory, rip: u64)                    // the process ran and stopped with SIGTRAP
    | OtherStop(mem: Memory, rip: u64)               // or with another signal
    | Exit

  /** The text is mapped, with room for the words that ptrace reads and writes. */
  predicate TextMapped(image: Image, procLoad: u64, mem: Memory) {
    forall a: u64 :: image.InText(a) ==> Mapped(mem, Real(image, procLoad, a), 8)
  }

  /** The process has the file's text. */
  predicate TextLoaded(image: Image, procLoad: u64, mem: Memory) {
    forall a: u64 :: image.InText(a) ==>
      Real(image, procLoad, a) in mem && mem[Real(image, procLoad, a)] == image.TextByte(a)
  }

  /** The process may write anything but its own text. */
  predicate TextKept(image: Image, procLoad: u64, before: Memory, after: Memory) {
    forall a: u64 :: image.InText(a) && Real(image, procLoad, a) in before ==>
      Real(image, procLoad, a) in after &&
      after[Real(image, procLoad, a)] == before[Real(image, procLoad, a)]
  }

  /** When a step can happen: the asserts of the toggles hold, ptrace is used on a stopped process
      only, and the process does not write its text. */
  predicate Enabled(image: Image, w: World, e: Event) {
    match e
    case ToggleBreakpoint(a) => image.InText(a)
    case ToggleSourceBreakpoint(unit, line) => LineOk(image, unit, line)
    case Spawn(procLoad, mem, _) =>
      w.process.None? && TextMapped(image, procLoad, mem) && TextLoaded(image, procLoad, mem)
    case Continue => w.process.Some? && w.process.value.stopped
    case Trap(mem, _) => Stops(image, w, mem)
    case OtherStop(mem, _) => Stops(image, w, mem)
    case Exit => w.process.Some? && !w.process.value.stopped
  }

  predicate Stops(image: Image, w: World, mem: Memory) {
    && w.process.Some? && !w.process.value.stopped
    && TextMapped(image, w.procLoadAddress, mem)
    && TextKept(image, w.procLoadAddress, w.process.value.mem, mem)
  }

  function StoppedAt(w: World, mem: Memory, rip: u64): World {
    w.(process := Some(Process(mem, rip, true)))
  }

  function Next(image: Image, w: World, e: Event): World
    requires Enabled(image, w, e)
  {
    match e
    case ToggleBreakpoint(a) => w.(registries := ToggleAddress(image, w.registries, a))
    case ToggleSourceBreakpoint(unit, line) => w.(registries := ToggleSource(image, w.registries, unit, line))
    case Spawn(procLoad, mem, entry) =>
      Inject(image, w.(process := Some(Process(mem, entry, true)), procLoadAddress := procLoad,
                       planted := {}, everPlanted := {}))
    case Continue =>
      var w1 := Inject(image, w);
      w1.(process := Some(w1.process.value.(stopped := false)))
    case Trap(mem, rip) => HandleTrap(image, StoppedAt(w, mem, rip))
    case OtherStop(mem, rip) => StoppedAt(w, mem, rip)
    case Exit => Ended(w)
  }

  /** A session before anything happened. */
  const INITIAL_WORLD: World := World(Registries([], []), None, 0, 0, {}, {})

  predicate CanRun(image: Image, w: World, es: seq<Event>)
    decreases |es|
  {
    es != [] ==> Enabled(image, w, es[0]) && CanRun(image, Next(image, w, es[0]), es[1..])
  }

  function RunEvents(image: Image, w: World, es: seq<Event>): World
    requires CanRun(image, w, es)
    decreases |es|
  {
    if es == [] then w else RunEvents(image, Next(image, w, es[0]), es[1..])
  }

  // ----- the invariant -----

  /** Byte for byte, the process has the file's text with an INT3 at the planted addresses. */
  predicate TextIsPlanted(image: Image, procLoad: u64, mem: Memory, planted: set<u64>) {
    forall a: u64 :: image.InText(a) ==>
      Real(image, procLoad, a) in mem &&
      mem[Real(image, procLoad, a)] == if a in planted then INT3 else image.TextByte(a)
  }

  predicate WorldInv(image: Image, w: World) {
    && Inv(image, w.registries) && w.planted <= w.everPlanted
    && (w.process.Some? ==>
         && TextMapped(image, w.procLoadAddress, w.process.value.mem)
         && TextIsPlanted(image, w.procLoadAddress, w.process.value.mem, w.planted))
  }

  lemma MappedStays(mem: Memory, x: u64, b: u8, a: u64, n: nat)
    requires Mapped(mem, a, n) && n <= 8
    ensures Mapped(mem[x := b], a, n)
    decreases n
  {
    if n > 0 { MappedStays(mem, x, b, ToU64(a + 1), n - 1); }
  }

  lemma TextMappedStays(image: Image, procLoad: u64, mem: Memory, x: u64, b: u8)
    requires TextMapped(image, procLoad, mem)
    ensures TextMapped(image, procLoad, mem[x := b])
  {
    hide Real, Mapped;
    forall a: u64 | image.InText(a)
      ensures Mapped(mem[x := b], Real(image, procLoad, a), 8)
    {
      MappedStays(mem, x, b, Real(image, procLoad, a), 8);
    }
  }

  /** Storing an INT3 at one text address plants that address. */
  lemma StorePlants(image: Image, procLoad: u64, mem: Memory, planted: set<u64>, vma: u64)
    requires TextIsPlanted(image, procLoad, mem, planted)
    ensures TextIsPlanted(image, procLoad, mem[Real(image, procLoad, vma) := INT3], planted + {vma})
  {
    hide Real;
    forall a: u64 | image.InText(a)
      ensures Real(image, procLoad, a) == Real(image, procLoad, vma) <==> a == vma
    {
      RealInjective(image, procLoad, a, vma);
    }
  }

  /** Storing the file's byte unplants it. */
  lemma StoreRestores(image: Image, procLoad: u64, mem: Memory, planted: set<u64>, vma: u64)
    requires TextIsPlanted(image, procLoad, mem, planted) && image.InText(vma)
    ensures TextIsPlanted(image, procLoad, mem[Real(image, procLoad, vma) := image.TextByte(vma)], planted - {vma})
  {
    hide Real;
    forall a: u64 | image.InText(a)
      ensures Real(image, procLoad, a) == Real(image, procLoad, vma) <==> a == vma
    {
      RealInjective(image, procLoad, a, vma);
    }
  }

  lemma ArmedCons(image: Image, procLoad: u64, bps: seq<Breakpoint>, rip: u64)
    requires bps != []
    ensures Addresses(bps) == {bps[0].address} + Addresses(bps[1..])
    ensures Armed(image, procLoad, bps, rip) ==
            (if Real(image, procLoad, bps[0].address) == rip then {} else {bps[0].address}) +
            Armed(image, procLoad, bps[1..], rip)
  {
    hide Real;
    forall i | 0 < i < |bps|
      ensures bps[i].address in Addresses(bps[1..])
    {
      assert bps[i].address == bps[1..][i - 1].address;
    }
    forall i | 0 <= i < |bps[1..]|
      ensures bps[1..][i].address in Addresses(bps)
    {
      assert bps[1..][i].address == bps[i + 1].address;
    }
    assert bps[0].address in Addresses(bps);
  }

  lemma {:induction false} InjectedPlants(
    image: Image, procLoad: u64, bps: seq<Breakpoint>, mem: Memory, rip: u64, planted: set<u64>)
    requires TextMapped(image, procLoad, mem) && TextIsPlanted(image, procLoad, mem, planted)
    ensures TextMapped(image, procLoad, Injected(image, procLoad, bps, mem, rip))
    ensures TextIsPlanted(image, procLoad, Injected(image, procLoad, bps, mem, rip),
                          planted + Armed(image, procLoad, bps, rip))
    decreases |bps|
  {
    hide TextMapped, TextIsPlanted, Real;
    if bps == [] {
      assert planted + Armed(image, procLoad, [], rip) == planted;
    } else {
      hide Armed, Addresses;
      var vma := bps[0].address;
      var a := Real(image, procLoad, vma);
      ArmedCons(image, procLoad, bps, rip);
      var rest := Armed(image, procLoad, bps[1..], rip);
      if a == rip {
        assert {} + rest == rest;
        InjectedPlants(image, procLoad, bps[1..], mem, rip, planted);
      } else {
        TextMappedStays(image, procLoad, mem, a, INT3);
        StorePlants(image, procLoad, mem, planted, vma);
        InjectedPlants(image, procLoad, bps[1..], mem[a := INT3], rip, planted + {vma});
        assert planted + {vma} + rest == planted + ({vma} + rest);
      }
    }
  }

  lemma InjectKeepsInv(image: Image, w: World)
    requires WorldInv(image, w) && w.process.Some?
    ensures WorldInv(image, Inject(image, w))
  {
    hide TextMapped, TextIsPlanted, Injected, Inv, Real;
    var p, bps := w.process.value, w.registries.breakpoints;
    InjectedPlants(image, w.procLoadAddress, bps, p.mem, p.rip, w.planted);
  }

  lemma StoppedKeepsInv(image: Image, w: World, mem: Memory, rip: u64)
    requires WorldInv(image, w) && Stops(image, w, mem)
    ensures WorldInv(image, StoppedAt(w, mem, rip))
  {
    hide Real, Mapped, Inv;
  }

  lemma HandleTrapKeepsInv(image: Image, w: World)
    requires WorldInv(image, w) && w.process.Some?
    ensures WorldInv(image, HandleTrap(image, w))
  {
    var p, bps := w.process.value, w.registries.breakpoints;
    var at := ToU64(p.rip - 1);
    var i := TrapIndex(image, w.procLoadAddress, bps, at);
    if i < |bps| {
      assert BreakpointOk(image, bps[i]);
      hide TextMapped, TextIsPlanted, Inv, Real;
      TextMappedStays(image, w.procLoadAddress, p.mem, at, bps[i].originalByte);
      StoreRestores(image, w.procLoadAddress, p.mem, w.planted, bps[i].address);
    }
  }

  lemma StatusKeepsInv(image: Image, w: World, status: WaitStatus)
    requires WorldInv(image, w) && w.process.Some?
    ensures WorldInv(image, AfterStatus(image, w, status))
  {
    HandleTrapKeepsInv(image, w);
    hide HandleTrap, Inv, TextMapped, TextIsPlanted;
  }

  lemma OneStatus(image: Image, w: World, status: WaitStatus)
    requires w.process.Some?
    ensures AfterStatuses(image, w, [status]) == AfterStatus(image, w, status)
  {
    hide AfterStatus;
    assert [status][1..] == [];
  }

  lemma NextKeepsInv(image: Image, w: World, e: Event)
    requires WorldInv(image, w) && Enabled(image, w, e)
    ensures WorldInv(image, Next(image, w, e))
  {
    hide Inv, TextMapped, Injected, Armed, Addresses, HandleTrap, ToggleAddress, ToggleSource, LineOk, Real;
    match e
    case ToggleBreakpoint(a) => TogglesKeepInv(image, w.registries, 0, 0, a);
    case ToggleSourceBreakpoint(unit, line) => TogglesKeepInv(image, w.registries, unit, line, 0);
    case Spawn(procLoad, mem, entry) =>
      var w1 := w.(process := Some(Process(mem, entry, true)), procLoadAddress := procLoad,
                   planted := {}, everPlanted := {});
      assert TextIsPlanted(image, procLoad, mem, {});
      InjectKeepsInv(image, w1);
    case Continue => InjectKeepsInv(image, w);
    case Trap(mem, rip) =>
      StoppedKeepsInv(image, w, mem, rip);
      HandleTrapKeepsInv(image, StoppedAt(w, mem, rip));
    case OtherStop(mem, rip) => StoppedKeepsInv(image, w, mem, rip);
    case Exit =>
  }

  lemma {:induction false} RunKeepsInv(image: Image, w: World, es: seq<Event>)
    requires WorldInv(image, w) && CanRun(image, w, es)
    ensures WorldInv(image, RunEvents(image, w, es))
    decreases |es|
  {
    hide WorldInv, Next, Enabled;
    if es == [] {
    } else {
      NextKeepsInv(image, w, es[0]);
      RunKeepsInv(image, Next(image, w, es[0]), es[1..]);
    }
  }

  // ----- what holds over whole runs -----

  /** In every state a session can reach, every text byte of the process is the file's byte or
      0xcc, an INT3, and it differs only at addresses registered at some injection since the spawn. */
  lemma TextIsSafe(image: Image, es: seq<Event>, a: u64)
    requires CanRun(image, INITIAL_WORLD, es) && image.InText(a)
    ensures
      var w := RunEvents(image, INITIAL_WORLD, es);
      w.process.Some? ==>
        var x := Real(image, w.procLoadAddress, a);
        && x in w.process.value.mem
        && w.process.value.mem[x] in {0xcc, image.text[a - image.textAddress]}
        && (w.process.value.mem[x] != image.text[a - image.textAddress] ==> a in w.everPlanted)
  {
    assert WorldInv(image, INITIAL_WORLD);
    RunKeepsInv(image, INITIAL_WORLD, es);
    hide RunEvents, CanRun, Inv, TextMapped, Real;
  }

  predicate AllArmed(image: Image, w: World) {
    w.process.Some? &&
    forall i :: 0 <= i < |w.registries.breakpoints| ==>
      var x := Real(image, w.procLoadAddress, w.registries.breakpoints[i].address);
      x != w.process.value.rip ==> x in w.process.value.mem && w.process.value.mem[x] == 0xcc
  }

  lemma InjectArms(image: Image, w: World)
    requires WorldInv(image, w) && w.process.Some?
    ensures AllArmed(image, Inject(image, w))
  {
    InjectKeepsInv(image, w);
    var w', bps := Inject(image, w), w.registries.breakpoints;
    hide Real, Injected, TextMapped;
    forall i | 0 <= i < |bps| && Real(image, w.procLoadAddress, bps[i].address) != w.process.value.rip
      ensures
        var x := Real(image, w.procLoadAddress, bps[i].address);
        x in w'.process.value.mem && w'.process.value.mem[x] == INT3
    {
      assert BreakpointOk(image, bps[i]);
      assert bps[i].address in Addresses(bps);
      assert bps[i].address in w'.planted;
    }
  }

  /** Right after every injection, at a spawn and at a continue, every registered address other than
      the instruction pointer holds 0xcc, an INT3. */
  lemma InjectionArmsAll(image: Image, es: seq<Event>, e: Event)
    requires CanRun(image, INITIAL_WORLD, es) && Enabled(image, RunEvents(image, INITIAL_WORLD, es), e)
    requires e.Spawn? || e.Continue?
    ensures AllArmed(image, Next(image, RunEvents(image, INITIAL_WORLD, es), e))
  {
    assert WorldInv(image, INITIAL_WORLD);
    RunKeepsInv(image, INITIAL_WORLD, es);
    var w := RunEvents(image, INITIAL_WORLD, es);
    hide RunEvents, CanRun, Inv, TextMapped, Real, Inject;
    if e.Continue? {
      InjectArms(image, w);
    } else {
      var w1 := w.(process := Some(Process(e.mem, e.entry, true)), procLoadAddress := e.procLoad,
                   planted := {}, everPlanted := {});
      assert TextIsPlanted(image, e.procLoad, e.mem, {});
      InjectArms(image, w1);
    }
  }

  /** A spawn leaves the process stopped at its entry and a continue lets it run from where it stands;
      either has changed its memory at the addresses of breakpoints only, to 0xcc, and not where it
      stands, and neither changes a breakpoint. */
  lemma InjectionIsExact(image: Image, w: World, e: Event)
    requires Enabled(image, w, e) && (e.Spawn? || e.Continue?)
    ensures
      var w', bps := Next(image, w, e), w.registries.breakpoints;
      && w'.process.Some? && w'.registries == w.registries && w'.inferiorRip == w.inferiorRip
      && w'.procLoadAddress == (if e.Spawn? then e.procLoad else w.procLoadAddress)
      && w'.process.value.rip == (if e.Spawn? then e.entry else w.process.value.rip)
      && w'.process.value.stopped == e.Spawn?
      && TrapsOnly(image, w'.procLoadAddress, bps, w'.process.value.rip,
                   if e.Spawn? then e.mem else w.process.value.mem, w'.process.value.mem)
  {
    hide TrapsOnly, Injected, TextMapped, TextLoaded;
    if e.Spawn? {
      InjectedTrapsOnly(image, e.procLoad, w.registries.breakpoints, e.mem, e.entry);
    } else {
      InjectedTrapsOnly(image, w.procLoadAddress, w.registries.breakpoints, w.process.value.mem, w.process.value.rip);
    }
  }

  /** After a trap behind a registered address, that byte is the file's again, the instruction
      pointer is back on it, and its reported file address is that of the breakpoint; behind any
      other address the process is left as it stopped. */
  lemma TrapRestores(image: Image, es: seq<Event>, mem: Memory, rip: u64, a: u64)
    requires CanRun(image, INITIAL_WORLD, es) && Enabled(image, RunEvents(image, INITIAL_WORLD, es), Trap(mem, rip))
    requires var w := RunEvents(image, INITIAL_WORLD, es); ToU64(rip - 1) == Real(image, w.procLoadAddress, a)
    ensures
      var w := RunEvents(image, INITIAL_WORLD, es);
      var w' := Next(image, w, Trap(mem, rip));
      var x := Real(image, w.procLoadAddress, a);
      && VmaOf(image, w'.procLoadAddress, w'.inferiorRip) == a
      && if Registered(w.registries.breakpoints, a)
         then image.InText(a) && w'.process == Some(Process(mem[x := image.TextByte(a)], x, true))
         else w'.process == Some(Process(mem, rip, true))
  {
    assert WorldInv(image, INITIAL_WORLD);
    RunKeepsInv(image, INITIAL_WORLD, es);
    var w := RunEvents(image, INITIAL_WORLD, es);
    hide RunEvents, CanRun, TextMapped, Real, VmaOf, Mapped, TextKept;
    var bps := w.registries.breakpoints;
    RelocationRoundTrip(image, w.procLoadAddress, a);
    var i := TrapIndex(image, w.procLoadAddress, bps, ToU64(rip - 1));
    if i < |bps| {
      RealInjective(image, w.procLoadAddress, bps[i].address, a);
      assert BreakpointOk(image, bps[i]);
    }
  }

  /** After an exit there is no process, and no saved instruction pointer; breakpoints stay. */
  lemma ExitForgets(image: Image, w: World)
    requires Enabled(image, w, Exit)
    ensures
      var w' := Next(image, w, Exit);
      w'.process == None && w'.inferiorRip == 0 && w'.planted == {} && w'.registries == w.registries
    ensures AfterStatus(image, w, Exited) == Next(image, w, Exit)
  {
  }

  /** Of the statuses only an exit and signal 5 do anything. */
  lemma OtherStatuses(image: Image, w: World, mem: Memory, rip: u64, signal: int)
    requires Enabled(image, w, OtherStop(mem, rip))
    ensures
      var stopped := Next(image, w, OtherStop(mem, rip));
      && stopped == w.(process := Some(Process(mem, rip, true)))
      && AfterStatus(image, stopped, Signaled) == stopped && AfterStatus(image, stopped, Continued) == stopped
      && AfterStatus(image, stopped, Stopped(signal)) ==
         if signal == 5 then Next(image, w, Trap(mem, rip)) else stopped
  {
    hide HandleTrap, Stops;
  }

  /** All statuses of a call count, one after another, until the process is gone. */
  lemma {:induction false} StatusesInTurn(image: Image, w: World, a: seq<WaitStatus>, b: seq<WaitStatus>)
    ensures AfterStatuses(image, w, a + b) == AfterStatuses(image, AfterStatuses(image, w, a), b)
    decreases |a|
  {
    hide AfterStatus;
    if a == [] || w.process.None? {
      assert a == [] ==> a + b == b;
    } else {
      assert (a + b)[0] == a[0] && (a + b)[1..] == a[1..] + b;
      StatusesInTurn(image, AfterStatus(image, w, a[0]), a[1..], b);
    }
  }

  lemma TogglesLeaveProcess(image: Image, w: World, e: Event)
    requires Enabled(image, w, e) && (e.ToggleBreakpoint? || e.ToggleSourceBreakpoint?)
    ensures Next(image, w, e).process == w.process && Next(image, w, e).planted == w.planted
    ensures Next(image, w, e).procLoadAddress == w.procLoadAddress
  {
  }

  /** The toggle takes away the registered address `a`. */
  predicate Removes(w: World, e: Event, a: u64) {
    match e
    case ToggleBreakpoint(b) => a == b && Registered(w.registries.breakpoints, a)
    case ToggleSourceBreakpoint(unit, line) =>
      var i := PairIndex(w.registries.sources, unit, line);
      i < |w.registries.sources| && w.registries.sources[i].address == a
    case _ => false
  }

  lemma RemovedIsUnregistered(image: Image, w: World, e: Event, a: u64)
    requires WorldInv(image, w) && Enabled(image, w, e) && Removes(w, e, a)
    ensures Registered(w.registries.breakpoints, a) && !Registered(Next(image, w, e).registries.breakpoints, a)
    ensures image.InText(a)
  {
    hide TextMapped, TextIsPlanted, LineOk, LineTarget, Registered;
    WithoutMembers(w.registries.breakpoints, a);
    if e.ToggleSourceBreakpoint? {
      assert SourceOk(image, w.registries.breakpoints,
                      w.registries.sources[PairIndex(w.registries.sources, e.unit, e.line)]);
    }
    RegisteredInText(image, w.registries, a);
  }

  lemma RegisteredInText(image: Image, r: Registries, a: u64)
    requires Inv(image, r) && Registered(r.breakpoints, a)
    ensures image.InText(a)
  {
    var i :| 0 <= i < |r.breakpoints| && r.breakpoints[i].address == a;
    assert BreakpointOk(image, r.breakpoints[i]);
  }

  /** In every reachable state: toggling off a breakpoint whose INT3 is planted unregisters its
      address but leaves the INT3 in the process, and when the process then traps on it, it is
      neither restored nor rewound. */
  lemma RemovedBreakpointStaysPlanted(image: Image, es: seq<Event>, e: Event, a: u64, mem: Memory, rip: u64)
    requires CanRun(image, INITIAL_WORLD, es) && Enabled(image, RunEvents(image, INITIAL_WORLD, es), e)
    requires
      var w := RunEvents(image, INITIAL_WORLD, es);
      w.process.Some? && a in w.planted && Removes(w, e, a)
    ensures
      var w := RunEvents(image, INITIAL_WORLD, es);
      var removed := Next(image, w, e);
      var x := Real(image, w.procLoadAddress, a);
      && Registered(w.registries.breakpoints, a) && !Registered(removed.registries.breakpoints, a)
      && removed.process == w.process
      && x in removed.process.value.mem && removed.process.value.mem[x] == 0xcc
      && (Enabled(image, removed, Trap(mem, rip)) && ToU64(rip - 1) == x ==>
           && x in mem && mem[x] == 0xcc
           && Next(image, removed, Trap(mem, rip)).process == Some(Process(mem, rip, true)))
  {
    assert WorldInv(image, INITIAL_WORLD);
    RunKeepsInv(image, INITIAL_WORLD, es);
    var w := RunEvents(image, INITIAL_WORLD, es);
    hide RunEvents, CanRun, Real, WorldInv, Registered, Removes;
    RemovedIsUnregistered(image, w, e, a);
    TogglesLeaveProcess(image, w, e);
    PlantedIsInt3(image, w, a);
    hide Next;
    var removed := Next(image, w, e);
    if Enabled(image, removed, Trap(mem, rip)) && ToU64(rip - 1) == Real(image, w.procLoadAddress, a) {
      StrayTrap(image, removed, mem, rip, a);
    }
  }

  lemma PlantedIsInt3(image: Image, w: World, a: u64)
    requires WorldInv(image, w) && w.process.Some? && a in w.planted && image.InText(a)
    ensures
      var x := Real(image, w.procLoadAddress, a);
      x in w.process.value.mem && w.process.value.mem[x] == INT3
  {
    hide Real, TextMapped, Inv;
  }

  /** A trap behind an unregistered address leaves the process as it stopped. */
  lemma StrayTrap(image: Image, w: World, mem: Memory, rip: u64, a: u64)
    requires Enabled(image, w, Trap(mem, rip)) && ToU64(rip - 1) == Real(image, w.procLoadAddress, a)
    requires image.InText(a) && !Registered(w.registries.breakpoints, a)
    requires var x := Real(image, w.procLoadAddress, a);
             x in w.process.value.mem && w.process.value.mem[x] == INT3
    ensures var x := Real(image, w.procLoadAddress, a);
            x in mem && mem[x] == INT3
    ensures Next(image, w, Trap(mem, rip)).process == Some(Process(mem, rip, true))
  {
    hide Real, TextMapped;
    var bps := w.registries.breakpoints;
    var i := TrapIndex(image, w.procLoadAddress, bps, ToU64(rip - 1));
    if i < |bps| {
      RealInjective(image, w.procLoadAddress, bps[i].address, a);
      assert false;
    }
  }

  lemma TrapUnplants(image: Image, w: World, mem: Memory, rip: u64, a: u64)
    requires WorldInv(image, w) && Enabled(image, w, Trap(mem, rip))
    requires Registered(w.registries.breakpoints, a) && ToU64(rip - 1) == Real(image, w.procLoadAddress, a)
    ensures
      var w' := Next(image, w, Trap(mem, rip));
      && a !in w'.planted && w'.process.Some? && w'.process.value.rip == Real(image, w.procLoadAddress, a)
      && image.InText(a) && w'.registries == w.registries && w'.procLoadAddress == w.procLoadAddress
      && Enabled(image, w', Continue)
  {
    hide TextMapped, TextIsPlanted, Real, Mapped, TextKept;
    var bps := w.registries.breakpoints;
    var i := TrapIndex(image, w.procLoadAddress, bps, ToU64(rip - 1));
    var k :| 0 <= k < |bps| && bps[k].address == a;
    RealInjective(image, w.procLoadAddress, bps[i].address, a);
    assert BreakpointOk(image, bps[i]);
  }

  lemma ContinueSkips(image: Image, w: World, a: u64)
    requires WorldInv(image, w) && Enabled(image, w, Continue) && image.InText(a)
    requires a !in w.planted && w.process.value.rip == Real(image, w.procLoadAddress, a)
    ensures
      var w', x := Next(image, w, Continue), Real(image, w.procLoadAddress, a);
      && w'.process.Some? && w'.registries == w.registries && w'.procLoadAddress == w.procLoadAddress
      && x in w'.process.value.mem && w'.process.value.mem[x] == image.TextByte(a)
  {
    hide TextMapped, Real, Injected, Inv;
    InjectKeepsInv(image, w);
  }

  lemma ContinueArms(image: Image, w: World, a: u64)
    requires WorldInv(image, w) && Enabled(image, w, Continue) && Registered(w.registries.breakpoints, a)
    requires w.process.value.rip != Real(image, w.procLoadAddress, a)
    ensures
      var w', x := Next(image, w, Continue), Real(image, w.procLoadAddress, a);
      w'.process.Some? && x in w'.process.value.mem && w'.process.value.mem[x] == INT3
  {
    hide TextMapped, Real, Injected, Inv;
    InjectArms(image, w);
  }

  lemma StopKeepsRegistries(image: Image, w: World, e: Event)
    requires Enabled(image, w, e) && (e.Trap? || e.OtherStop?)
    ensures var w' := Next(image, w, e);
            w'.registries == w.registries && w'.procLoadAddress == w.procLoadAddress && w'.process.Some? &&
            w'.process.value.stopped && Enabled(image, w', Continue)
  {
    hide Real, TextMapped, TextKept;
  }

  /** From any reachable state: a breakpoint the process is stopped on is out while the process is
      continued from it, and in again at the next continue from any other address. */
  lemma TrappedBreakpointRearms(image: Image, w: World, mem: Memory, rip: u64, stop: Event, a: u64)
    requires WorldInv(image, w) && Enabled(image, w, Trap(mem, rip))
    requires Registered(w.registries.breakpoints, a) && ToU64(rip - 1) == Real(image, w.procLoadAddress, a)
    requires stop.Trap? || stop.OtherStop?
    requires Enabled(image, Next(image, Next(image, w, Trap(mem, rip)), Continue), stop)
    ensures
      var left := Next(image, Next(image, w, Trap(mem, rip)), Continue);
      var again := Next(image, left, stop);
      var x := Real(image, w.procLoadAddress, a);
      && image.InText(a) && left.process.Some? && again.process.Some? && again.process.value.stopped
      && x in left.process.value.mem && left.process.value.mem[x] == image.TextByte(a)
      && (again.process.value.rip != x ==>
           var back := Next(image, again, Continue);
           back.process.Some? && x in back.process.value.mem && back.process.value.mem[x] == 0xcc)
  {
    hide WorldInv, Real, Registered, Next, Enabled;
    var trapped := Next(image, w, Trap(mem, rip));
    TrapUnplants(image, w, mem, rip, a);
    NextKeepsInv(image, w, Trap(mem, rip));
    ContinueSkips(image, trapped, a);
    NextKeepsInv(image, trapped, Continue);
    var left := Next(image, trapped, Continue);
    StopKeepsRegistries(image, left, stop);
    NextKeepsInv(image, left, stop);
    var again := Next(image, left, stop);
    if again.process.value.rip != Real(image, w.procLoadAddress, a) {
      ContinueArms(image, again, a);
    }
  }

  /** In every state a session can reach, toggling a source breakpoint twice restores both registries
      up to order, and exactly if it was absent, and leaves the process alone. */
  lemma ToggleTwiceRestores(image: Image, es: seq<Event>, unit: nat, line: u64)
    requires CanRun(image, INITIAL_WORLD, es) && LineOk(image, unit, line)
    ensures
      var w, e := RunEvents(image, INITIAL_WORLD, es), ToggleSourceBreakpoint(unit, line);
      var w2 := Next(image, Next(image, w, e), e);
      && SameUpToOrder(w2.registries, w.registries)
      && (!HasPair(w.registries.sources, unit, line) ==> w2 == w)
      && w2.process == w.process
  {
    assert WorldInv(image, INITIAL_WORLD);
    RunKeepsInv(image, INITIAL_WORLD, es);
    hide RunEvents, CanRun, ToggleSource, Inv, LineOk, SameUpToOrder;
    ToggleSourceTwice(image, RunEvents(image, INITIAL_WORLD, es).registries, unit, line);
  }

  /** In every state a session can reach and set a source breakpoint in: once it is set, toggling its
      address twice leaves the address registered and the source breakpoint gone. */
  lemma SourceIsLost(image: Image, es: seq<Event>, unit: nat, line: u64)
    requires CanRun(image, INITIAL_WORLD, es) && LineOk(image, unit, line)
    requires CanSet(image, RunEvents(image, INITIAL_WORLD, es).registries, unit, line)
    ensures
      var a := LineTarget(image, unit, line).value;
      var w1 := Next(image, RunEvents(image, INITIAL_WORLD, es), ToggleSourceBreakpoint(unit, line));
      && HasPair(w1.registries.sources, unit, line)
      && image.InText(a)
      && var w3 := Next(image, Next(image, w1, ToggleBreakpoint(a)), ToggleBreakpoint(a));
         Registered(w3.registries.breakpoints, a) && !HasPair(w3.registries.sources, unit, line)
  {
    hide RunEvents, CanRun, LineTarget, ToggleSource, ToggleAddress, HasPair, Registered;
    SetThenToggleTwice(image, RunEvents(image, INITIAL_WORLD, es).registries, unit, line);
  }

  /** So it is lost in a session that does nothing else. */
  lemma SmallImageLosesSource()
    ensures LineOk(SMALL_IMAGE, 0, 1) && LineTarget(SMALL_IMAGE, 0, 1) == Some(0)
    ensures
      var w1 := Next(SMALL_IMAGE, INITIAL_WORLD, ToggleSourceBreakpoint(0, 1));
      var w3 := Next(SMALL_IMAGE, Next(SMALL_IMAGE, w1, ToggleBreakpoint(0)), ToggleBreakpoint(0));
      HasPair(w1.registries.sources, 0, 1) && !HasPair(w3.registries.sources, 0, 1)
  {
    SmallImageTarget();
    hide LineTarget, ToggleAddress, ToggleSource;
    SourceIsLost(SMALL_IMAGE, [], 0, 1);
  }
}

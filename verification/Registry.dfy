/**
 * The two breakpoint registries of `src/debug.c` as values: what adding, removing and toggling
 * make of them, the invariant all of these keep, and what toggling twice restores.
 */
module Registry {
  import opened Words
  import opened Wrappers
  import opened LineMachine
  import opened LineLookup

  datatype Breakpoint = Breakpoint(address: u64, originalByte: u8)

  datatype SourceBreakpoint = SourceBreakpoint(address: u64, unit: nat, line: u64)

  datatype Registries = Registries(breakpoints: seq<Breakpoint>, sources: seq<SourceBreakpoint>)

  /** The debugged program as loaded from its file: the `.text` section, the decoded line tables and
      the load address of the file. None of it changes during a session. */
  datatype Image = Image(textAddress: u64, text: seq<u8>, tables: seq<Table>, loadAddress: u64) {
    /** What `get_text_data` asserts. */
    predicate InText(address: u64) {
      textAddress <= address < textAddress + |text|
    }

    function TextByte(address: u64): u8
      requires InText(address)
    {
      text[address - textAddress]
    }
  }

  // ----- lookups -----

  predicate Registered(bps: seq<Breakpoint>, address: u64) {
    exists i :: 0 <= i < |bps| && bps[i].address == address
  }

  predicate IsPair(s: SourceBreakpoint, unit: nat, line: u64) {
    s.unit == unit && s.line == line
  }

  /** The first entry for the pair, or the number of entries. */
  function PairIndex(srcs: seq<SourceBreakpoint>, unit: nat, line: u64): (i: nat)
    ensures i <= |srcs|
    ensures forall j :: 0 <= j < i ==> !IsPair(srcs[j], unit, line)
    ensures i < |srcs| ==> IsPair(srcs[i], unit, line)
  {
    if srcs == [] || IsPair(srcs[0], unit, line) then 0
    else
      assert forall j :: 0 < j < |srcs| ==> srcs[j] == srcs[1..][j - 1];
      1 + PairIndex(srcs[1..], unit, line)
  }

  predicate HasPair(srcs: seq<SourceBreakpoint>, unit: nat, line: u64) {
    PairIndex(srcs, unit, line) < |srcs|
  }

  // ----- removal -----

  /** The breakpoints at other addresses, in order. */
  function Without(bps: seq<Breakpoint>, address: u64): seq<Breakpoint> {
    if bps == [] then []
    else (if bps[0].address == address then [] else [bps[0]]) + Without(bps[1..], address)
  }

  function SourcesWithout(srcs: seq<SourceBreakpoint>, address: u64): seq<SourceBreakpoint> {
    if srcs == [] then []
    else (if srcs[0].address == address then [] else [srcs[0]]) + SourcesWithout(srcs[1..], address)
  }

  function RemoveAddress(r: Registries, address: u64): Registries {
    Registries(Without(r.breakpoints, address), SourcesWithout(r.sources, address))
  }

  /** A source breakpoint goes together with the breakpoint at its address. */
  function RemoveSource(r: Registries, unit: nat, line: u64): Registries {
    var i := PairIndex(r.sources, unit, line);
    if i < |r.sources| then RemoveAddress(r, r.sources[i].address) else r
  }

  function RemoveAt<T>(s: seq<T>, i: nat): seq<T>
    requires i < |s|
  {
    s[..i] + s[i + 1..]
  }

  // ----- adding and toggling -----

  function AddAddress(image: Image, r: Registries, address: u64): Registries
    requires image.InText(address)
  {
    if Registered(r.breakpoints, address) then r
    else r.(breakpoints := r.breakpoints + [Breakpoint(address, image.TextByte(address))])
  }

  function ToggleAddress(image: Image, r: Registries, address: u64): Registries
    requires image.InText(address)
  {
    if Registered(r.breakpoints, address) then RemoveAddress(r, address) else AddAddress(image, r, address)
  }

  /** What the asserts and the array access on the way of a source breakpoint ask for. */
  predicate LineOk(image: Image, unit: nat, line: u64) {
    && unit < |image.tables| && line != 0
    && match Target(image.tables[unit], line) { case None => true case Some(a) => image.InText(a) }
  }

  function LineTarget(image: Image, unit: nat, line: u64): Option<u64> {
    if unit < |image.tables| then Target(image.tables[unit], line) else None
  }

  predicate CanSet(image: Image, r: Registries, unit: nat, line: u64) {
    && !HasPair(r.sources, unit, line)
    && LineTarget(image, unit, line).Some?
    && !Registered(r.breakpoints, LineTarget(image, unit, line).value)
  }

  function SetSource(image: Image, r: Registries, unit: nat, line: u64): Registries
    requires LineOk(image, unit, line)
  {
    if CanSet(image, r, unit, line) then
      var a := LineTarget(image, unit, line).value;
      AddAddress(image, r, a).(sources := r.sources + [SourceBreakpoint(a, unit, line)])
    else r
  }

  function ToggleSource(image: Image, r: Registries, unit: nat, line: u64): Registries
    requires LineOk(image, unit, line)
  {
    if HasPair(r.sources, unit, line) then RemoveSource(r, unit, line) else SetSource(image, r, unit, line)
  }

  // ----- the invariant -----

  predicate UniqueAddresses(bps: seq<Breakpoint>) {
    forall i, j :: 0 <= i < j < |bps| ==> bps[i].address != bps[j].address
  }

  predicate UniquePairs(srcs: seq<SourceBreakpoint>) {
    forall i, j :: 0 <= i < j < |srcs| ==> !IsPair(srcs[i], srcs[j].unit, srcs[j].line)
  }

  predicate UniqueSourceAddresses(srcs: seq<SourceBreakpoint>) {
    forall i, j :: 0 <= i < j < |srcs| ==> srcs[i].address != srcs[j].address
  }

  /** A breakpoint keeps the byte the file has at its address. */
  predicate BreakpointOk(image: Image, b: Breakpoint) {
    image.InText(b.address) && b.originalByte == image.TextByte(b.address)
  }

  /** A source breakpoint stands where a fresh lookup of its line would put it. */
  predicate SourceOk(image: Image, bps: seq<Breakpoint>, s: SourceBreakpoint) {
    s.line != 0 && LineTarget(image, s.unit, s.line) == Some(s.address) && Registered(bps, s.address)
  }

  predicate Inv(image: Image, r: Registries) {
    && UniqueAddresses(r.breakpoints) && UniquePairs(r.sources) && UniqueSourceAddresses(r.sources)
    && (forall i :: 0 <= i < |r.breakpoints| ==> BreakpointOk(image, r.breakpoints[i]))
    && (forall i :: 0 <= i < |r.sources| ==> SourceOk(image, r.breakpoints, r.sources[i]))
  }

  // ----- what filtering keeps -----

  lemma {:induction false} WithoutMembers(bps: seq<Breakpoint>, a: u64)
    ensures forall b :: b in Without(bps, a) <==> b in bps && b.address != a
    ensures !Registered(Without(bps, a), a)
    ensures forall x :: x != a ==> (Registered(Without(bps, a), x) <==> Registered(bps, x))
  {
    if bps == [] {
    } else {
      WithoutMembers(bps[1..], a);
      assert bps == [bps[0]] + bps[1..];
    }
    RegisteredIsMember(bps);
    RegisteredIsMember(Without(bps, a));
  }

  lemma RegisteredIsMember(bps: seq<Breakpoint>)
    ensures forall x :: Registered(bps, x) <==> exists b :: b in bps && b.address == x
  {
  }

  lemma {:induction false} WithoutUnique(bps: seq<Breakpoint>, a: u64)
    requires UniqueAddresses(bps)
    ensures UniqueAddresses(Without(bps, a))
  {
    if bps == [] {
    } else {
      var tail := Without(bps[1..], a);
      TailUnique(bps);
      WithoutUnique(bps[1..], a);
      WithoutMembers(bps[1..], a);
      hide Without, Registered;
      assert forall i :: 0 <= i < |tail| ==> tail[i] in bps[1..];
      ConsUnique(bps[0], tail);
      WithoutUnfold(bps, a);
    }
  }

  lemma WithoutUnfold(bps: seq<Breakpoint>, a: u64)
    requires bps != []
    ensures Without(bps, a) == (if bps[0].address == a then Without(bps[1..], a) else [bps[0]] + Without(bps[1..], a))
  {
    var tail := Without(bps[1..], a);
    assert [] + tail == tail;
  }

  lemma TailUnique(bps: seq<Breakpoint>)
    requires bps != [] && UniqueAddresses(bps)
    ensures UniqueAddresses(bps[1..])
    ensures forall b :: b in bps[1..] ==> b.address != bps[0].address
  {
    forall b | b in bps[1..]
      ensures b.address != bps[0].address
    {
      var i :| 0 <= i < |bps[1..]| && bps[1..][i] == b;
      assert bps[i + 1] == b;
    }
  }

  lemma ConsUnique(b: Breakpoint, tail: seq<Breakpoint>)
    requires UniqueAddresses(tail)
    ensures (forall x :: x in tail ==> x.address != b.address) ==> UniqueAddresses([b] + tail)
  {
  }

  lemma {:induction false} SourcesWithoutMembers(srcs: seq<SourceBreakpoint>, a: u64)
    ensures forall s :: s in SourcesWithout(srcs, a) <==> s in srcs && s.address != a
  {
    if srcs == [] {
    } else {
      SourcesWithoutMembers(srcs[1..], a);
      assert srcs == [srcs[0]] + srcs[1..];
    }
  }

  lemma SourcesUnfold(srcs: seq<SourceBreakpoint>, a: u64)
    requires srcs != []
    ensures SourcesWithout(srcs, a) ==
            (if srcs[0].address == a then SourcesWithout(srcs[1..], a) else [srcs[0]] + SourcesWithout(srcs[1..], a))
  {
    var tail := SourcesWithout(srcs[1..], a);
    assert [] + tail == tail;
  }

  lemma {:induction false} SourcesWithoutUnique(srcs: seq<SourceBreakpoint>, a: u64)
    ensures |SourcesWithout(srcs, a)| <= |srcs|
    ensures UniquePairs(srcs) ==> UniquePairs(SourcesWithout(srcs, a))
    ensures UniqueSourceAddresses(srcs) ==> UniqueSourceAddresses(SourcesWithout(srcs, a))
  {
    if srcs == [] {
    } else {
      var tail := SourcesWithout(srcs[1..], a);
      SourcesWithoutUnique(srcs[1..], a);
      SourcesWithoutMembers(srcs[1..], a);
      SourcesUnfold(srcs, a);
      hide SourcesWithout;
      forall i | 0 <= i < |tail|
        ensures exists j :: 0 < j < |srcs| && tail[i] == srcs[j]
      {
        assert tail[i] in srcs[1..];
        var j :| 0 <= j < |srcs[1..]| && srcs[1..][j] == tail[i];
        assert srcs[j + 1] == tail[i];
      }
    }
  }

  lemma {:induction false} WithoutNothing(bps: seq<Breakpoint>, a: u64)
    requires !Registered(bps, a)
    ensures Without(bps, a) == bps
  {
    if bps == [] {
    } else {
      assert bps[0].address != a;
      assert forall i :: 0 <= i < |bps[1..]| ==> bps[1..][i] == bps[i + 1];
      WithoutNothing(bps[1..], a);
    }
  }

  lemma {:induction false} SourcesWithoutNothing(srcs: seq<SourceBreakpoint>, a: u64)
    requires forall i :: 0 <= i < |srcs| ==> srcs[i].address != a
    ensures SourcesWithout(srcs, a) == srcs
  {
    if srcs == [] {
    } else {
      SourcesWithoutNothing(srcs[1..], a);
    }
  }

  lemma {:induction false} WithoutAppend(a: seq<Breakpoint>, b: seq<Breakpoint>, address: u64)
    ensures Without(a + b, address) == Without(a, address) + Without(b, address)
  {
    if a == [] {
      assert a + b == b;
    } else {
      assert (a + b)[1..] == a[1..] + b;
      WithoutAppend(a[1..], b, address);
    }
  }

  lemma {:induction false} SourcesWithoutAppend(a: seq<SourceBreakpoint>, b: seq<SourceBreakpoint>, address: u64)
    ensures SourcesWithout(a + b, address) == SourcesWithout(a, address) + SourcesWithout(b, address)
  {
    if a == [] {
      assert a + b == b;
    } else {
      assert (a + b)[1..] == a[1..] + b;
      SourcesWithoutAppend(a[1..], b, address);
    }
  }

  lemma WithoutOne(b: Breakpoint, s: SourceBreakpoint)
    ensures Without([b], b.address) == [] && SourcesWithout([s], s.address) == []
  {
    assert Without([], b.address) == [] && SourcesWithout([], s.address) == [];
  }

  lemma OthersElsewhere(bps: seq<Breakpoint>, i: nat)
    requires i < |bps| && UniqueAddresses(bps)
    ensures !Registered(bps[..i], bps[i].address) && !Registered(bps[i + 1..], bps[i].address)
  {
  }

  /** Dropping the one entry at an address is filtering it out. */
  lemma WithoutIsRemoveAt(bps: seq<Breakpoint>, i: nat)
    requires i < |bps| && UniqueAddresses(bps)
    ensures Without(bps, bps[i].address) == RemoveAt(bps, i)
  {
    hide Without, SourcesWithout, Registered, UniqueAddresses;
    var b, before, after := bps[i], bps[..i], bps[i + 1..];
    OthersElsewhere(bps, i);
    assert bps == before + ([b] + after);
    WithoutAppend(before, [b] + after, b.address);
    WithoutAppend([b], after, b.address);
    WithoutNothing(before, b.address);
    WithoutNothing(after, b.address);
    WithoutOne(b, SourceBreakpoint(0, 0, 0));
    assert [] + after == after;
  }

  /** Filtering afterwards makes up for dropping one of the entries first. */
  lemma SourcesWithoutAfterRemoveAt(srcs: seq<SourceBreakpoint>, i: nat)
    requires i < |srcs|
    ensures SourcesWithout(RemoveAt(srcs, i), srcs[i].address) == SourcesWithout(srcs, srcs[i].address)
  {
    hide Without, SourcesWithout;
    var s, before, after := srcs[i], srcs[..i], srcs[i + 1..];
    assert srcs == before + ([s] + after);
    SourcesWithoutAppend(before, [s] + after, s.address);
    SourcesWithoutAppend([s], after, s.address);
    SourcesWithoutAppend(before, after, s.address);
    WithoutOne(Breakpoint(0, 0), s);
    var tail := SourcesWithout(after, s.address);
    assert [] + tail == tail;
  }

  lemma UniquePairIndex(srcs: seq<SourceBreakpoint>, i: nat)
    requires i < |srcs| && UniquePairs(srcs)
    ensures PairIndex(srcs, srcs[i].unit, srcs[i].line) == i
  {
    var k := PairIndex(srcs, srcs[i].unit, srcs[i].line);
    assert k <= i by {
      if k > i { assert IsPair(srcs[i], srcs[i].unit, srcs[i].line); }
    }
  }

  // ----- every operation keeps the invariant -----

  lemma RemoveAddressKeepsInv(image: Image, r: Registries, a: u64)
    requires Inv(image, r)
    ensures Inv(image, RemoveAddress(r, a))
  {
    var r' := RemoveAddress(r, a);
    WithoutUnique(r.breakpoints, a);
    WithoutMembers(r.breakpoints, a);
    SourcesWithoutUnique(r.sources, a);
    SourcesWithoutMembers(r.sources, a);
    hide Registered, BreakpointOk;
    forall i | 0 <= i < |r'.breakpoints|
      ensures BreakpointOk(image, r'.breakpoints[i])
    {
      assert r'.breakpoints[i] in r.breakpoints;
    }
    forall i | 0 <= i < |r'.sources|
      ensures SourceOk(image, r'.breakpoints, r'.sources[i])
    {
      var s := r'.sources[i];
      assert s in r'.sources && s in r.sources && s.address != a;
      assert SourceOk(image, r.breakpoints, s);
    }
  }

  lemma AppendRegisters(bps: seq<Breakpoint>, b: Breakpoint)
    ensures forall x :: Registered(bps + [b], x) <==> Registered(bps, x) || x == b.address
  {
    forall x
      ensures Registered(bps + [b], x) <==> Registered(bps, x) || x == b.address
    {
      if Registered(bps, x) {
        var i :| 0 <= i < |bps| && bps[i].address == x;
        assert (bps + [b])[i].address == x;
      }
      assert (bps + [b])[|bps|].address == b.address;
    }
  }

  lemma AddAddressKeepsInv(image: Image, r: Registries, a: u64)
    requires Inv(image, r) && image.InText(a)
    ensures Inv(image, AddAddress(image, r, a))
    ensures Registered(AddAddress(image, r, a).breakpoints, a)
  {
    if !Registered(r.breakpoints, a) {
      var b := Breakpoint(a, image.TextByte(a));
      AppendRegisters(r.breakpoints, b);
      assert UniqueAddresses(r.breakpoints + [b]);
    }
  }

  lemma SetSourceKeepsInv(image: Image, r: Registries, unit: nat, line: u64)
    requires Inv(image, r) && LineOk(image, unit, line)
    ensures Inv(image, SetSource(image, r, unit, line))
  {
    if CanSet(image, r, unit, line) {
      var a := LineTarget(image, unit, line).value;
      AddAddressKeepsInv(image, r, a);
      var r' := SetSource(image, r, unit, line);
      hide Target;
      forall i | 0 <= i < |r.sources|
        ensures r.sources[i].address != a
      {
        assert SourceOk(image, r.breakpoints, r.sources[i]);
      }
      hide Registered, LineTarget;
      assert UniquePairs(r'.sources) && UniqueSourceAddresses(r'.sources);
    }
  }

  lemma TogglesKeepInv(image: Image, r: Registries, unit: nat, line: u64, a: u64)
    requires Inv(image, r)
    ensures LineOk(image, unit, line) ==> Inv(image, ToggleSource(image, r, unit, line))
    ensures image.InText(a) ==> Inv(image, ToggleAddress(image, r, a))
  {
    hide Inv, Target, SetSource, AddAddress, RemoveAddress;
    if LineOk(image, unit, line) {
      if HasPair(r.sources, unit, line) {
        RemoveAddressKeepsInv(image, r, r.sources[PairIndex(r.sources, unit, line)].address);
      } else {
        SetSourceKeepsInv(image, r, unit, line);
      }
    }
    if image.InText(a) {
      RemoveAddressKeepsInv(image, r, a);
      AddAddressKeepsInv(image, r, a);
    }
  }

  /** For a source breakpoint that is set, the asserts hold. */
  lemma PresentLineOk(image: Image, r: Registries, unit: nat, line: u64)
    requires Inv(image, r) && HasPair(r.sources, unit, line)
    ensures LineOk(image, unit, line)
  {
    var s := r.sources[PairIndex(r.sources, unit, line)];
    assert SourceOk(image, r.breakpoints, s);
    var k :| 0 <= k < |r.breakpoints| && r.breakpoints[k].address == s.address;
    assert BreakpointOk(image, r.breakpoints[k]);
  }

  // ----- toggling twice -----

  /** The same entries, in whatever order. */
  predicate SameUpToOrder(r: Registries, s: Registries) {
    multiset(r.breakpoints) == multiset(s.breakpoints) && multiset(r.sources) == multiset(s.sources)
  }

  /** A source breakpoint that is not there: setting it, if that succeeds, and removing it again
      leaves both registries exactly as they were. */
  lemma ToggleAbsentTwice(image: Image, r: Registries, unit: nat, line: u64)
    requires Inv(image, r) && LineOk(image, unit, line) && !HasPair(r.sources, unit, line)
    ensures ToggleSource(image, ToggleSource(image, r, unit, line), unit, line) == r
  {
    if CanSet(image, r, unit, line) {
      var a := LineTarget(image, unit, line).value;
      var b, s := Breakpoint(a, image.TextByte(a)), SourceBreakpoint(a, unit, line);
      var r' := ToggleSource(image, r, unit, line);
      hide Target;
      assert r' == Registries(r.breakpoints + [b], r.sources + [s]);
      forall i | 0 <= i < |r.sources|
        ensures r.sources[i].address != a
      {
        assert SourceOk(image, r.breakpoints, r.sources[i]);
      }
      hide LineTarget;
      PairIndexAppend(r.sources, s);
      WithoutAppend(r.breakpoints, [b], a);
      SourcesWithoutAppend(r.sources, [s], a);
      WithoutNothing(r.breakpoints, a);
      SourcesWithoutNothing(r.sources, a);
      assert Without([b], a) == [] && SourcesWithout([s], a) == [];
    }
  }

  lemma {:induction false} PairIndexAppend(srcs: seq<SourceBreakpoint>, s: SourceBreakpoint)
    requires !HasPair(srcs, s.unit, s.line)
    ensures PairIndex(srcs + [s], s.unit, s.line) == |srcs|
  {
    var k := PairIndex(srcs + [s], s.unit, s.line);
    assert forall j :: 0 <= j < |srcs| ==> (srcs + [s])[j] == srcs[j];
    assert IsPair((srcs + [s])[|srcs|], s.unit, s.line);
  }

  /** A source breakpoint that is there: it comes back, with its breakpoint, at the end. */
  lemma TogglePresentTwice(image: Image, r: Registries, unit: nat, line: u64)
    requires Inv(image, r) && LineOk(image, unit, line) && HasPair(r.sources, unit, line)
    ensures SameUpToOrder(ToggleSource(image, ToggleSource(image, r, unit, line), unit, line), r)
  {
    var i := PairIndex(r.sources, unit, line);
    var s := r.sources[i];
    var a := s.address;
    assert SourceOk(image, r.breakpoints, s);
    var k :| 0 <= k < |r.breakpoints| && r.breakpoints[k].address == a;
    assert BreakpointOk(image, r.breakpoints[k]);
    hide Target, LineTarget;
    WithoutIsRemoveAt(r.breakpoints, k);
    SourcesWithoutIsRemoveAt(r.sources, i);
    WithoutMembers(r.breakpoints, a);
    RemovedPairIsGone(r.sources, i);
    var r1 := ToggleSource(image, r, unit, line);
    assert r1 == Registries(RemoveAt(r.breakpoints, k), RemoveAt(r.sources, i));
    assert CanSet(image, r1, unit, line);
    var r2 := ToggleSource(image, r1, unit, line);
    assert r2 == Registries(RemoveAt(r.breakpoints, k) + [r.breakpoints[k]], RemoveAt(r.sources, i) + [s]);
    MoveToEnd(r.breakpoints, k);
    MoveToEnd(r.sources, i);
  }

  lemma SourcesWithoutIsRemoveAt(srcs: seq<SourceBreakpoint>, i: nat)
    requires i < |srcs| && UniqueSourceAddresses(srcs)
    ensures SourcesWithout(srcs, srcs[i].address) == RemoveAt(srcs, i)
  {
    hide SourcesWithout;
    SourcesWithoutAfterRemoveAt(srcs, i);
    assert forall k :: 0 <= k < |RemoveAt(srcs, i)| ==> RemoveAt(srcs, i)[k].address != srcs[i].address;
    SourcesWithoutNothing(RemoveAt(srcs, i), srcs[i].address);
  }

  lemma RemovedPairIsGone(srcs: seq<SourceBreakpoint>, i: nat)
    requires i < |srcs| && UniquePairs(srcs)
    ensures !HasPair(RemoveAt(srcs, i), srcs[i].unit, srcs[i].line)
  {
    var s := srcs[i];
    forall j | 0 <= j < |RemoveAt(srcs, i)|
      ensures !IsPair(RemoveAt(srcs, i)[j], s.unit, s.line)
    {
    }
  }

  lemma MoveToEnd<T>(s: seq<T>, i: nat)
    requires i < |s|
    ensures multiset(RemoveAt(s, i) + [s[i]]) == multiset(s)
  {
    assert s == s[..i] + [s[i]] + s[i + 1..];
  }

  /** In every state of the registries, toggling a source breakpoint twice restores both of them up
      to order, and exactly if it was absent. */
  lemma ToggleSourceTwice(image: Image, r: Registries, unit: nat, line: u64)
    requires Inv(image, r) && LineOk(image, unit, line)
    ensures
      var r2 := ToggleSource(image, ToggleSource(image, r, unit, line), unit, line);
      SameUpToOrder(r2, r) && (!HasPair(r.sources, unit, line) ==> r2 == r)
  {
    hide ToggleSource, Inv, LineOk;
    if HasPair(r.sources, unit, line) {
      TogglePresentTwice(image, r, unit, line);
    } else {
      ToggleAbsentTwice(image, r, unit, line);
    }
  }

  /** Toggling a bare address twice restores the breakpoints up to order, but a source breakpoint
      at that address is lost: the registries come back if and only if there was none. */
  lemma ToggleAddressTwice(image: Image, r: Registries, a: u64)
    requires Inv(image, r) && image.InText(a)
    ensures
      var r2 := ToggleAddress(image, ToggleAddress(image, r, a), a);
      && multiset(r2.breakpoints) == multiset(r.breakpoints)
      && (SameUpToOrder(r2, r) <==> forall i :: 0 <= i < |r.sources| ==> r.sources[i].address != a)
  {
    if Registered(r.breakpoints, a) {
      var k :| 0 <= k < |r.breakpoints| && r.breakpoints[k].address == a;
      assert BreakpointOk(image, r.breakpoints[k]);
      WithoutIsRemoveAt(r.breakpoints, k);
      WithoutMembers(r.breakpoints, a);
      MoveToEnd(r.breakpoints, k);
      SourcesWithoutMembers(r.sources, a);
      if forall i :: 0 <= i < |r.sources| ==> r.sources[i].address != a {
        SourcesWithoutNothing(r.sources, a);
      } else {
        var i :| 0 <= i < |r.sources| && r.sources[i].address == a;
        assert r.sources[i] in multiset(r.sources);
        assert r.sources[i] !in multiset(SourcesWithout(r.sources, a));
      }
    } else {
      var b := Breakpoint(a, image.TextByte(a));
      AppendRegisters(r.breakpoints, b);
      WithoutAppend(r.breakpoints, [b], a);
      WithoutNothing(r.breakpoints, a);
      assert Without([b], a) == [];
      forall i | 0 <= i < |r.sources|
        ensures r.sources[i].address != a
      {
        assert SourceOk(image, r.breakpoints, r.sources[i]);
      }
      SourcesWithoutNothing(r.sources, a);
    }
  }

  /** A source breakpoint that has just been set does not survive its address being toggled twice. */
  lemma SetThenToggleTwice(image: Image, r: Registries, unit: nat, line: u64)
    requires LineOk(image, unit, line) && CanSet(image, r, unit, line)
    ensures
      var a, r1 := LineTarget(image, unit, line).value, ToggleSource(image, r, unit, line);
      && HasPair(r1.sources, unit, line) && Registered(r1.breakpoints, a) && image.InText(a)
      && var r3 := ToggleAddress(image, ToggleAddress(image, r1, a), a);
         Registered(r3.breakpoints, a) && !HasPair(r3.sources, unit, line)
  {
    var a, r1 := LineTarget(image, unit, line).value, ToggleSource(image, r, unit, line);
    hide Target;
    var s := SourceBreakpoint(a, unit, line);
    assert r1.sources == r.sources + [s] && r1.sources[|r.sources|] == s;
    AppendRegisters(r.breakpoints, Breakpoint(a, image.TextByte(a)));
    var r2 := ToggleAddress(image, r1, a);
    WithoutMembers(r1.breakpoints, a);
    SourcesWithoutMembers(r1.sources, a);
    AppendRegisters(r2.breakpoints, Breakpoint(a, image.TextByte(a)));
  }

  const SMALL_ROW: Row := Row(0, 0, 1, 1, 0, 0, false, true, false, false, false)

  /** One byte of text, and a row of line 1 at it. */
  const SMALL_IMAGE: Image := Image(0, [0x90], [[[SMALL_ROW]]], 0)

  lemma SmallImageTarget()
    ensures LineTarget(SMALL_IMAGE, 0, 1) == Some(0) && LineOk(SMALL_IMAGE, 0, 1)
  {
    TargetIsFirstCandidate([[SMALL_ROW]], 1);
    assert Flatten([[SMALL_ROW]]) == [SMALL_ROW] by { assert [[SMALL_ROW]][1..] == []; }
    assert FirstAddress([SMALL_ROW], 1) == Some(0);
    hide Target;
  }
}

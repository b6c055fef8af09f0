/**
 * The VLIW operation pointer, and rewrites of line-number programs that leave the decoded table
 * unchanged: special opcodes spelled out, const_add_pc as an advance_pc, advances merged.
 */
module LineRewrites {
  import opened Words
  import opened Wrappers
  import opened LineMachine
  import opened LineProgram

  // ----- the operation pointer -----

  /** Address and op_index as one number, scaled to whole instructions (section 6.2.2). */
  function OpPointer(p: Params, r: Registers): int {
    p.maxOps * r.address + p.minInst * r.opIndex
  }

  predicate OpIndexInRange(p: Params, r: Registers) {
    r.opIndex < p.maxOps
  }

  lemma {:induction false} OpIndexStaysInRange(p: Params, m: Machine, prog: seq<Instr>)
    requires OpIndexInRange(p, m.regs) && Run(p, m, prog).Done?
    ensures OpIndexInRange(p, Run(p, m, prog).value.regs)
    decreases |prog|
  {
    if prog == [] {
    } else {
      ExecOpIndex(p, m, prog[0]);
      hide Exec, Executes;
      OpIndexStaysInRange(p, Exec(p, m, prog[0]), prog[1..]);
    }
  }

  lemma ExecOpIndex(p: Params, m: Machine, i: Instr)
    requires OpIndexInRange(p, m.regs) && Executes(p, i)
    ensures OpIndexInRange(p, Exec(p, m, i).regs)
  {
    hide Append, ToU64, ToU32, ToI64, SpecialLine;
  }

  /** How often the 64-bit address wraps around when advancing by `n` operations. */
  function Wraps(p: Params, r: Registers, n: u64): int
    requires p.maxOps > 0
  {
    (r.address + AddressStep(p, r.opIndex + n)) / WORD
  }

  /** Advancing by `n` operations raises the operation pointer by exactly `n` instructions' worth,
      save for the wrap-arounds of the address; where the sum of op_index and `n` wraps around too,
      it moves by what is left of `n`, and the address stays. */
  lemma AdvanceRaisesOpPointer(p: Params, r: Registers, n: u64)
    requires OpIndexInRange(p, r)
    ensures r.opIndex + n < WORD ==>
              OpPointer(p, MoveOps(p, r, n)) ==
              OpPointer(p, r) + p.minInst * n - p.maxOps * (WORD * Wraps(p, r, n))
    ensures r.opIndex + n >= WORD ==>
              OpPointer(p, MoveOps(p, r, n)) == OpPointer(p, r) + p.minInst * (n - WORD)
  {
    if r.opIndex + n < WORD {
      OpPointerRises(p, r, n);
    } else {
      MergedWraps(p, r, n);
      hide MoveOps;
      Distribute(p.minInst, r.opIndex, n - WORD, 0);
    }
  }

  lemma OpPointerRises(p: Params, r: Registers, n: u64)
    requires p.maxOps > 0 && r.opIndex + n < WORD
    ensures OpPointer(p, MoveOps(p, r, n)) ==
            OpPointer(p, r) + p.minInst * n - p.maxOps * (WORD * Wraps(p, r, n))
  {
    var ops, k := r.opIndex + n, Wraps(p, r, n);
    MoveOpsUnwrapped(p, r, n);
    Distribute(p.maxOps, r.address, AddressStep(p, ops), WORD * k);
    MulDivMod(p.minInst, ops, p.maxOps);
    hide MoveOps, Wraps;
    Distribute(p.minInst, r.opIndex, n, 0);
  }

  lemma MoveOpsUnwrapped(p: Params, r: Registers, n: u64)
    requires p.maxOps > 0 && r.opIndex + n < WORD
    ensures MoveOps(p, r, n).address == r.address + AddressStep(p, r.opIndex + n) - WORD * Wraps(p, r, n)
    ensures MoveOps(p, r, n).opIndex == IndexStep(p, r.opIndex + n)
  {
    hide AddressStep;
  }

  lemma Distribute(a: int, x: int, y: int, z: int)
    ensures a * (x + y - z) == a * x + a * y - a * z
  {
  }

  lemma MulDivMod(c: int, n: int, d: int)
    requires d > 0
    ensures d * (c * (n / d)) + c * (n % d) == c * n
  {
    calc {
      c * n;
      c * (d * (n / d) + n % d);
      c * (d * (n / d)) + c * (n % d);
      d * (c * (n / d)) + c * (n % d);
    }
  }

  // ----- merging two advances -----

  /** When two advances from a given `op_index` may be merged, although the 64-bit sum of `op_index`
      and the merged operand can wrap: only a power-of-two instruction width survives that. */
  predicate Mergeable(p: Params, opIndex: u64, a: u64, b: u64)
    requires p.maxOps > 0
  {
    || opIndex + a + b < WORD
    || opIndex + a < p.maxOps
    || opIndex + a >= WORD
    || (WORD % p.maxOps == 0 && p.minInst % p.maxOps == 0)
  }

  lemma AddMultiple(k: int, y: int, d: int)
    requires d > 0
    ensures (d * k + y) / d == k + y / d && (d * k + y) % d == y % d
  {
    var q, m := y / d, y % d;
    assert d * k + y == d * (k + q) + m by { assert d * (k + q) == d * k + d * q; }
    DivModUnique(d * k + y, d, k + q, m);
  }

  /** Dividing in two steps, carrying the remainder, is dividing once. */
  lemma DivTwice(x: nat, b: nat, d: nat)
    requires d > 0
    ensures x / d + (x % d + b) / d == (x + b) / d && (x % d + b) % d == (x + b) % d
  {
    assert x + b == d * (x / d) + (x % d + b);
    AddMultiple(x / d, x % d + b, d);
  }

  /** Two advances of which neither sum wraps. */
  lemma MoveTwice(p: Params, r: Registers, a: u64, b: u64)
    requires p.maxOps > 0 && r.opIndex + a < WORD
    requires IndexStep(p, r.opIndex + a) + b < WORD
    ensures
      var r', z := MoveOps(p, MoveOps(p, r, a), b), r.opIndex + a + b;
      r' == r.(address := ToU64(r.address + AddressStep(p, z)), opIndex := IndexStep(p, z))
  {
    hide MoveOps, ToU64, AddressStep, IndexStep;
    var x := r.opIndex + a;
    MoveOpsFits(p, r, a);
    MoveOpsFits(p, MoveOps(p, r, a), b);
    StepTwice(p, x, b);
    WrapInner(r.address + AddressStep(p, x), AddressStep(p, IndexStep(p, x) + b));
  }

  lemma StepTwice(p: Params, x: nat, b: nat)
    requires p.maxOps > 0
    ensures AddressStep(p, x) + AddressStep(p, IndexStep(p, x) + b) == AddressStep(p, x + b)
    ensures IndexStep(p, IndexStep(p, x) + b) == IndexStep(p, x + b)
  {
    DivTwice(x, b, p.maxOps);
    Distribute(p.minInst, x / p.maxOps, (x % p.maxOps + b) / p.maxOps, 0);
  }

  lemma MoveOpsFits(p: Params, r: Registers, n: u64)
    requires p.maxOps > 0 && r.opIndex + n < WORD
    ensures
      var ops := r.opIndex + n;
      MoveOps(p, r, n) == r.(address := ToU64(r.address + AddressStep(p, ops)), opIndex := IndexStep(p, ops))
  {
    WrapFits(r.opIndex + n);
    hide ToU64, AddressStep, IndexStep;
  }

  lemma ModOfLarge(x: nat, d: nat)
    requires 0 < d <= x
    ensures x % d <= x - d
  {
    AddMultiple(1, x - d, d);
    assert d * 1 + (x - d) == x;
  }

  /** The merged operand wraps past 2^64: nearly nothing is left of the advance. */
  lemma MergedWraps(p: Params, r: Registers, n: u64)
    requires OpIndexInRange(p, r) && r.opIndex + n >= WORD
    ensures MoveOps(p, r, n) == r.(opIndex := r.opIndex + n - WORD)
  {
    MoveSmall(p, r, n, r.opIndex + n - WORD);
  }

  /** An advance that stays inside the instruction, possibly after a wrap-around of the sum. */
  lemma MoveSmall(p: Params, r: Registers, n: u64, ops: nat)
    requires ops < p.maxOps && ToU64(r.opIndex + n) == ops
    ensures MoveOps(p, r, n) == r.(opIndex := ops)
  {
    DivModUnique(ops, p.maxOps, 0, ops);
    assert p.minInst * 0 == 0;
  }

  /** Going round all 64 bits lands on the same operation exactly for these widths. */
  lemma FullCircle(z: nat, d: nat, c: nat, address: u64)
    requires 0 < d && WORD <= z < WORD + d && d < 0x100 && c < 0x100
    ensures z % d == z - WORD && ToU64(address + c * (z / d)) == address <==>
            WORD % d == 0 && c % d == 0
  {
    var k := WORD / d;
    assert WORD == d * k + WORD % d;
    if WORD % d == 0 {
      assert z == d * k + (z - WORD);
      AddMultiple(k, z - WORD, d);
      DivModUnique(z - WORD, d, 0, z - WORD);
      CircleAddress(d, k, c, address);
    } else if z % d == z - WORD {
      assert WORD == d * (z / d);
      DivModUnique(WORD, d, z / d, 0);
      assert false;
    }
  }

  lemma CircleAddress(d: nat, k: nat, c: nat, address: u64)
    requires d > 0 && d * k == WORD
    ensures ToU64(address + c * k) == address <==> c % d == 0
  {
    var q, m := c / d, c % d;
    calc {
      c * k;
      (d * q + m) * k;
      (d * q) * k + m * k;
      { assert (d * q) * k == q * (d * k); }
      q * WORD + m * k;
    }
    assert m * k < WORD by { MulMono(k, m + 1, d); assert k * (m + 1) == m * k + k; assert k * d == d * k; }
    CircleRemainder(address, q, m * k);
    assert m == 0 ==> m * k == 0;
    assert m > 0 ==> m * k >= k;
  }

  lemma CircleRemainder(address: u64, q: nat, x: nat)
    requires x < WORD
    ensures ToU64(address + (q * WORD + x)) == address <==> x == 0
  {
  }

  lemma MergeFits(p: Params, r: Registers, a: u64, b: u64)
    requires OpIndexInRange(p, r) && a + b < WORD && r.opIndex + a + b < WORD
    ensures MoveOps(p, MoveOps(p, r, a), b) == MoveOps(p, r, a + b)
  {
    hide MoveOps, ToU64, AddressStep, IndexStep;
    IndexStepAtMost(p, r.opIndex + a);
    MoveTwice(p, r, a, b);
    MoveOpsFits(p, r, a + b);
  }

  lemma IndexStepAtMost(p: Params, ops: nat)
    requires p.maxOps > 0
    ensures IndexStep(p, ops) <= ops
    ensures ops >= p.maxOps ==> IndexStep(p, ops) <= ops - p.maxOps
  {
    if ops < p.maxOps {
      DivModUnique(ops, p.maxOps, 0, ops);
    } else {
      ModOfLarge(ops, p.maxOps);
    }
  }

  lemma MergeWrapsTogether(p: Params, r: Registers, a: u64, b: u64)
    requires OpIndexInRange(p, r) && a + b < WORD && r.opIndex + a + b >= WORD
    requires r.opIndex + a < p.maxOps || r.opIndex + a >= WORD
    ensures MoveOps(p, MoveOps(p, r, a), b) == MoveOps(p, r, a + b)
  {
    MergedWraps(p, r, a + b);
    var x := if r.opIndex + a < WORD then r.opIndex + a else r.opIndex + a - WORD;
    SmallSum(p, r, a, x);
    SmallSum(p, r.(opIndex := x), b, r.opIndex + a + b - WORD);
  }

  lemma MergeWrapsApart(p: Params, r: Registers, a: u64, b: u64)
    requires OpIndexInRange(p, r) && a + b < WORD && r.opIndex + a + b >= WORD
    requires p.maxOps <= r.opIndex + a < WORD
    ensures MoveOps(p, MoveOps(p, r, a), b) == MoveOps(p, r, a + b) <==>
            WORD % p.maxOps == 0 && p.minInst % p.maxOps == 0
  {
    var z := r.opIndex + a + b;
    hide MoveOps, ToU64, AddressStep, IndexStep;
    IndexStepAtMost(p, r.opIndex + a);
    StepsFullCircle(p, z, r.address);
    MergedWraps(p, r, a + b);
    MoveTwice(p, r, a, b);
  }

  lemma StepsFullCircle(p: Params, z: nat, address: u64)
    requires p.maxOps > 0 && WORD <= z < WORD + p.maxOps
    ensures IndexStep(p, z) == z - WORD && ToU64(address + AddressStep(p, z)) == address <==>
            WORD % p.maxOps == 0 && p.minInst % p.maxOps == 0
  {
    FullCircle(z, p.maxOps, p.minInst, address);
  }

  /** Exactly when merging two advances is harmless. */
  lemma MergeIffMergeable(p: Params, r: Registers, a: u64, b: u64)
    requires OpIndexInRange(p, r) && a + b < WORD
    ensures MoveOps(p, MoveOps(p, r, a), b) == MoveOps(p, r, a + b) <==> Mergeable(p, r.opIndex, a, b)
  {
    hide MoveOps;
    if r.opIndex + a + b < WORD {
      MergeFits(p, r, a, b);
    } else if r.opIndex + a < p.maxOps || r.opIndex + a >= WORD {
      MergeWrapsTogether(p, r, a, b);
    } else {
      MergeWrapsApart(p, r, a, b);
    }
  }

  lemma SmallSum(p: Params, r: Registers, n: u64, ops: nat)
    requires ops < p.maxOps && (r.opIndex + n == ops || r.opIndex + n == ops + WORD)
    ensures MoveOps(p, r, n) == r.(opIndex := ops)
  {
    MoveSmall(p, r, n, ops);
  }

  // ----- rewrites of whole programs -----

  /** Every special opcode spelled out with standard ones. */
  function ExpandSpecials(p: Params, prog: seq<Instr>): seq<Instr> {
    if prog == [] then []
    else SpellOut(p, prog[0]) + ExpandSpecials(p, prog[1..])
  }

  function SpellOut(p: Params, i: Instr): seq<Instr> {
    if i.Special? && Executes(p, i)
    then [AdvanceLine(SpecialLine(p, i.opcode)), AdvancePc(SpecialAdvance(p, i.opcode)), Copy]
    else [i]
  }

  /** Every const_add_pc as the advance_pc of special opcode 255's advance. */
  function ExpandConstAdds(p: Params, prog: seq<Instr>): seq<Instr> {
    if prog == [] then []
    else
      [if prog[0].ConstAddPc? && Executes(p, prog[0]) then AdvancePc(ConstAdvance(p)) else prog[0]] +
      ExpandConstAdds(p, prog[1..])
  }

  /** Two operands whose advances may be merged wherever they stand in a program. */
  predicate MergeSafe(p: Params, a: u64, b: u64) {
    && p.maxOps > 0 && a + b < WORD
    && (a == 0 || b == 0 || a + b + p.maxOps <= WORD || (WORD % p.maxOps == 0 && p.minInst % p.maxOps == 0))
  }

  /** Adjacent advances merged, as long as they may be. */
  function MergeAdvances(p: Params, prog: seq<Instr>): seq<Instr>
    decreases |prog|
  {
    if |prog| < 2 then prog
    else if prog[0].AdvancePc? && prog[1].AdvancePc? && MergeSafe(p, prog[0].opAdvance, prog[1].opAdvance)
    then MergeAdvances(p, [AdvancePc(prog[0].opAdvance + prog[1].opAdvance)] + prog[2..])
    else [prog[0]] + MergeAdvances(p, prog[1..])
  }

  lemma SpelledOutRuns(p: Params, m: Machine, i: Instr)
    ensures Run(p, m, SpellOut(p, i)) == Run(p, m, [i])
  {
    if i.Special? && Executes(p, i) {
      hide MoveOps, Append, ToU32, ToI64;
      var m1 := Exec(p, m, AdvanceLine(SpecialLine(p, i.opcode)));
      LineWraps(m.regs.line, SpecialLine(p, i.opcode));
      var m2 := Exec(p, m1, AdvancePc(SpecialAdvance(p, i.opcode)));
      assert Exec(p, m2, Copy) == Exec(p, m, i);
      RunThree(p, m, AdvanceLine(SpecialLine(p, i.opcode)), AdvancePc(SpecialAdvance(p, i.opcode)), Copy);
      RunOne(p, m, i);
    }
  }

  lemma LineWraps(line: u32, n: int)
    requires -0x80 <= n < 0x200
    ensures ToU32(ToI64(line + n)) == ToU32(line + n)
  {
  }

  lemma RunOne(p: Params, m: Machine, i: Instr)
    ensures Run(p, m, [i]) == if Executes(p, i) then Done(Exec(p, m, i)) else Crash(FaultOf(p, i))
  {
    hide Exec, Executes, FaultOf;
    assert [i][1..] == [];
  }

  lemma RunThree(p: Params, m: Machine, i: Instr, j: Instr, k: Instr)
    requires Executes(p, i) && Executes(p, j) && Executes(p, k)
    ensures Run(p, m, [i, j, k]) == Done(Exec(p, Exec(p, Exec(p, m, i), j), k))
  {
    hide Exec, Executes;
    assert [i, j, k] == [i] + ([j] + [k]);
    RunOne(p, m, i);
    RunAppend(p, m, [i], [j] + [k]);
    RunOne(p, Exec(p, m, i), j);
    RunAppend(p, Exec(p, m, i), [j], [k]);
    RunOne(p, Exec(p, Exec(p, m, i), j), k);
  }

  /** The first instruction may be replaced by a list that runs alike. */
  lemma RunReplaceFirst(p: Params, m: Machine, prog: seq<Instr>, head: seq<Instr>, tail: seq<Instr>)
    requires prog != [] && Run(p, m, head) == Run(p, m, [prog[0]])
    requires Run(p, m, [prog[0]]).Done? ==>
               Run(p, Run(p, m, head).value, tail) == Run(p, Run(p, m, head).value, prog[1..])
    ensures Run(p, m, head + tail) == Run(p, m, prog)
  {
    RunAppend(p, m, head, tail);
    RunAppend(p, m, [prog[0]], prog[1..]);
    assert prog == [prog[0]] + prog[1..];
  }

  /** Spelling out special opcodes changes neither registers nor table, in any state. */
  lemma {:induction false} ExpandSpecialsRuns(p: Params, m: Machine, prog: seq<Instr>)
    ensures Run(p, m, ExpandSpecials(p, prog)) == Run(p, m, prog)
    decreases |prog|
  {
    hide SpellOut, Exec, Executes, FaultOf;
    if prog == [] {
    } else {
      SpelledOutRuns(p, m, prog[0]);
      RunOne(p, m, prog[0]);
      if Executes(p, prog[0]) {
        ExpandSpecialsRuns(p, Exec(p, m, prog[0]), prog[1..]);
      }
      RunReplaceFirst(p, m, prog, SpellOut(p, prog[0]), ExpandSpecials(p, prog[1..]));
    }
  }

  /** Writing const_add_pc as advance_pc changes neither registers nor table, in any state. */
  lemma {:induction false} ExpandConstAddsRuns(p: Params, m: Machine, prog: seq<Instr>)
    ensures Run(p, m, ExpandConstAdds(p, prog)) == Run(p, m, prog)
    decreases |prog|
  {
    if prog == [] {
    } else {
      var i := prog[0];
      var j := if i.ConstAddPc? && Executes(p, i) then AdvancePc(ConstAdvance(p)) else i;
      ConstAddIsAdvance(p, m, i);
      hide Exec, Executes, FaultOf;
      RunOne(p, m, i);
      RunOne(p, m, j);
      if Executes(p, i) {
        ExpandConstAddsRuns(p, Exec(p, m, i), prog[1..]);
      }
      RunReplaceFirst(p, m, prog, [j], ExpandConstAdds(p, prog[1..]));
    }
  }

  lemma ConstAddIsAdvance(p: Params, m: Machine, i: Instr)
    ensures i.ConstAddPc? && Executes(p, i) ==>
              Executes(p, AdvancePc(ConstAdvance(p))) && Exec(p, m, AdvancePc(ConstAdvance(p))) == Exec(p, m, i)
  {
  }

  lemma MergeSafeMerges(p: Params, m: Machine, a: u64, b: u64)
    requires OpIndexInRange(p, m.regs) && MergeSafe(p, a, b)
    ensures Run(p, m, [AdvancePc(a), AdvancePc(b)]) == Run(p, m, [AdvancePc(a + b)])
  {
    MergeIffMergeable(p, m.regs, a, b);
    hide MoveOps, Append;
    var m1 := Exec(p, m, AdvancePc(a));
    assert [AdvancePc(a), AdvancePc(b)] == [AdvancePc(a)] + [AdvancePc(b)];
    RunAppend(p, m, [AdvancePc(a)], [AdvancePc(b)]);
    RunOne(p, m, AdvancePc(a));
    RunOne(p, m1, AdvancePc(b));
    RunOne(p, m, AdvancePc(a + b));
  }

  /** Merging advances changes neither registers nor table, in any reachable state. */
  lemma {:induction false} MergeAdvancesRuns(p: Params, m: Machine, prog: seq<Instr>)
    requires OpIndexInRange(p, m.regs)
    ensures Run(p, m, MergeAdvances(p, prog)) == Run(p, m, prog)
    decreases |prog|
  {
    hide Exec, Executes, FaultOf;
    if |prog| < 2 {
    } else if prog[0].AdvancePc? && prog[1].AdvancePc? && MergeSafe(p, prog[0].opAdvance, prog[1].opAdvance) {
      var a, b := prog[0].opAdvance, prog[1].opAdvance;
      assert prog == [AdvancePc(a), AdvancePc(b)] + prog[2..];
      MergeSafeMerges(p, m, a, b);
      RunAppend(p, m, [AdvancePc(a), AdvancePc(b)], prog[2..]);
      RunAppend(p, m, [AdvancePc(a + b)], prog[2..]);
      MergeAdvancesRuns(p, m, [AdvancePc(a + b)] + prog[2..]);
    } else {
      RunOne(p, m, prog[0]);
      if Executes(p, prog[0]) {
        ExecOpIndex(p, m, prog[0]);
        MergeAdvancesRuns(p, Exec(p, m, prog[0]), prog[1..]);
      }
      RunReplaceFirst(p, m, prog, [prog[0]], MergeAdvances(p, prog[1..]));
    }
  }

  /** A row after three advances, and after the last two of them merged. */
  function SplitAdvances(k: u64, a: u64, b: u64): seq<Instr> {
    [AdvancePc(k), AdvancePc(a), AdvancePc(b), Copy]
  }

  function MergedAdvances(k: u64, a: u64, b: u64): seq<Instr>
    requires a + b < WORD
  {
    [AdvancePc(k), AdvancePc(a + b), Copy]
  }

  lemma SplitRuns(p: Params, k: u64, a: u64, b: u64)
    requires p.maxOps > 0
    ensures Run(p, Start(p), SplitAdvances(k, a, b)) ==
            Done(Emit(Machine(MoveOps(p, MoveOps(p, MoveOps(p, Initial(p), k), a), b), [])))
  {
    hide MoveOps, Emit;
    var m1 := Exec(p, Start(p), AdvancePc(k));
    var m2 := Exec(p, m1, AdvancePc(a));
    var m3 := Exec(p, m2, AdvancePc(b));
    RunOne(p, Start(p), AdvancePc(k));
    RunThree(p, m1, AdvancePc(a), AdvancePc(b), Copy);
    RunAppend(p, Start(p), [AdvancePc(k)], [AdvancePc(a), AdvancePc(b), Copy]);
    assert SplitAdvances(k, a, b) == [AdvancePc(k)] + [AdvancePc(a), AdvancePc(b), Copy];
    assert Exec(p, m3, Copy) == Emit(m3);
  }

  lemma MergedRuns(p: Params, k: u64, n: u64)
    requires p.maxOps > 0
    ensures Run(p, Start(p), [AdvancePc(k), AdvancePc(n), Copy]) ==
            Done(Emit(Machine(MoveOps(p, MoveOps(p, Initial(p), k), n), [])))
  {
    hide MoveOps, Emit;
    RunThree(p, Start(p), AdvancePc(k), AdvancePc(n), Copy);
  }

  lemma RowsShowMoves(r: Registers, s: Registers)
    requires r != s && s == r.(address := s.address, opIndex := s.opIndex) && !r.endSequence
    ensures Emit(Machine(r, [])).table != Emit(Machine(s, [])).table
  {
    assert Append([], RowOf(r))[0] == [RowOf(r)] && Append([], RowOf(s))[0] == [RowOf(s)];
  }

  /** Where merging is not harmless, a program shows it: its rows differ. */
  lemma MergeShows(p: Params, k: u64, a: u64, b: u64)
    requires k < p.maxOps && a + b < WORD && !Mergeable(p, k, a, b)
    ensures
      var split, merged := Run(p, Start(p), SplitAdvances(k, a, b)), Run(p, Start(p), MergedAdvances(k, a, b));
      split.Done? && merged.Done? && split.value.table != merged.value.table
  {
    var r := Initial(p).(opIndex := k);
    SmallSum(p, Initial(p), k, k);
    MergeIffMergeable(p, r, a, b);
    MoveFrame(p, r, a);
    MoveFrame(p, MoveOps(p, r, a), b);
    MoveFrame(p, r, a + b);
    hide MoveOps, Run, Emit;
    SplitRuns(p, k, a, b);
    MergedRuns(p, k, a + b);
    RowsShowMoves(MoveOps(p, MoveOps(p, r, a), b), MoveOps(p, r, a + b));
  }

  lemma MoveFrame(p: Params, r: Registers, n: u64)
    requires p.maxOps > 0
    ensures var s := MoveOps(p, r, n); s == r.(address := s.address, opIndex := s.opIndex)
  {
    hide AddressStep, IndexStep, ToU64;
  }

  /** `MergeSafe` is not stricter than it has to be: where it fails, the merged program has another
      table than the original for some advance in front, and so have its bytes. */
  lemma MergeSafeIsNeeded(p: Params, a: u64, b: u64, t: seq<u8>) returns (k: u64)
    requires p.maxOps > 0 && a + b < WORD && !MergeSafe(p, a, b)
    ensures k < p.maxOps
    ensures
      var split, merged := Run(p, Start(p), SplitAdvances(k, a, b)), Run(p, Start(p), MergedAdvances(k, a, b));
      split.Done? && merged.Done? && split.value.table != merged.value.table
    ensures p.opcodeBase > 2 ==>
              var split, merged := EncodeProgram(SplitAdvances(k, a, b)), EncodeProgram(MergedAdvances(k, a, b));
              DecodeBytes(p, split + t, |split|) != DecodeBytes(p, merged + t, |merged|)
  {
    k := if a + p.maxOps <= WORD then p.maxOps - 1 else WORD - 1 - a;
    MergeShows(p, k, a, b);
    if p.opcodeBase > 2 {
      assert AllEncodable(p.opcodeBase, SplitAdvances(k, a, b));
      assert AllEncodable(p.opcodeBase, MergedAdvances(k, a, b));
      hide Run, DecodeBytes, EncodeProgram, SplitAdvances, MergedAdvances, AllEncodable;
      DecodeEncoded(p, SplitAdvances(k, a, b), t);
      DecodeEncoded(p, MergedAdvances(k, a, b), t);
    }
  }

  /** Three operations per instruction: the bytes of a program with two large advances and of the
      same program with the two merged decode to different tables. */
  lemma MergeCanFail()
    ensures
      var p := Params(1, 3, 0, 0, 1, 13);
      var split := EncodeProgram(SplitAdvances(1, WORD - 2, 1));
      var merged := EncodeProgram(MergedAdvances(1, WORD - 2, 1));
      && DecodeAll(p, split).Done? && DecodeAll(p, merged).Done?
      && DecodeAll(p, split).value.table != DecodeAll(p, merged).value.table
  {
    var p := Params(1, 3, 0, 0, 1, 13);
    var x, y := SplitAdvances(1, WORD - 2, 1), MergedAdvances(1, WORD - 2, 1);
    assert !Mergeable(p, 1, WORD - 2, 1);
    MergeShows(p, 1, WORD - 2, 1);
    assert AllEncodable(p.opcodeBase, x) && AllEncodable(p.opcodeBase, y);
    hide Run, DecodeAll, EncodeProgram, SplitAdvances, MergedAdvances, AllEncodable;
    DecodeEncodedAll(p, x);
    DecodeEncodedAll(p, y);
  }

  /** Every fixed_advance_pc as the set_address it amounts to in the state it runs in. */
  function ResolveFixed(p: Params, m: Machine, prog: seq<Instr>): seq<Instr>
    decreases |prog|
  {
    if prog == [] || !Executes(p, prog[0]) then prog
    else
      [if prog[0].FixedAdvancePc? then SetAddress(ToU64(m.regs.address + prog[0].fixedAdvance)) else prog[0]] +
      ResolveFixed(p, Exec(p, m, prog[0]), prog[1..])
  }

  lemma {:induction false} ResolveFixedRuns(p: Params, m: Machine, prog: seq<Instr>)
    ensures Run(p, m, ResolveFixed(p, m, prog)) == Run(p, m, prog)
    decreases |prog|
  {
    if prog == [] || !Executes(p, prog[0]) {
    } else {
      var i := prog[0];
      var j := if i.FixedAdvancePc? then SetAddress(ToU64(m.regs.address + i.fixedAdvance)) else i;
      FixedIsAbsolute(p, m, i);
      hide Exec, Executes, FaultOf;
      RunOne(p, m, i);
      RunOne(p, m, j);
      ResolveFixedRuns(p, Exec(p, m, i), prog[1..]);
      RunReplaceFirst(p, m, prog, [j], ResolveFixed(p, Exec(p, m, i), prog[1..]));
    }
  }

  lemma FixedIsAbsolute(p: Params, m: Machine, i: Instr)
    ensures i.FixedAdvancePc? ==>
              Exec(p, m, SetAddress(ToU64(m.regs.address + i.fixedAdvance))) == Exec(p, m, i)
  {
  }

  /** Rows do not record the instruction set: a program without its set_isa instructions, and
      without those the decoder ignores, has the same table. */
  function DropUnseen(prog: seq<Instr>): seq<Instr> {
    if prog == [] then []
    else (if prog[0].SetIsa? || prog[0].Ignored? then [] else [prog[0]]) + DropUnseen(prog[1..])
  }

  predicate SameButIsa(m: Machine, n: Machine) {
    m == n.(regs := n.regs.(isa := m.regs.isa))
  }

  lemma ExecIgnoresIsa(p: Params, m: Machine, n: Machine, i: Instr)
    requires SameButIsa(m, n) && Executes(p, i)
    ensures SameButIsa(Exec(p, m, i), Exec(p, n, i))
    ensures i.SetIsa? || i.Ignored? ==> SameButIsa(Exec(p, m, i), n)
  {
    hide Append, AddressStep, IndexStep, ToU64, ToU32, ToI64, SpecialLine, SpecialAdvance;
  }

  lemma {:induction false} DropUnseenRuns(p: Params, m: Machine, n: Machine, prog: seq<Instr>)
    requires SameButIsa(m, n)
    ensures match Run(p, m, prog) {
              case Crash(fault) => Run(p, n, DropUnseen(prog)) == Crash(fault)
              case Done(m') => Run(p, n, DropUnseen(prog)).Done? && SameButIsa(m', Run(p, n, DropUnseen(prog)).value)
            }
    decreases |prog|
  {
    if prog == [] {
    } else {
      var i, tail := prog[0], DropUnseen(prog[1..]);
      assert i.SetIsa? || i.Ignored? ==> Executes(p, i);
      if Executes(p, i) { ExecIgnoresIsa(p, m, n, i); }
      hide Exec, Executes, FaultOf, SameButIsa;
      if i.SetIsa? || i.Ignored? {
        assert [] + tail == tail;
        DropUnseenRuns(p, Exec(p, m, i), n, prog[1..]);
      } else {
        assert ([i] + tail)[1..] == tail;
        if Executes(p, i) { DropUnseenRuns(p, Exec(p, m, i), Exec(p, n, i), prog[1..]); }
      }
    }
  }

  /** All three rewrites, one after another. */
  function Normalise(p: Params, prog: seq<Instr>): seq<Instr> {
    MergeAdvances(p, ExpandConstAdds(p, ExpandSpecials(p, prog)))
  }

  lemma NormaliseRuns(p: Params, m: Machine, prog: seq<Instr>)
    requires OpIndexInRange(p, m.regs)
    ensures Run(p, m, Normalise(p, prog)) == Run(p, m, prog)
  {
    ExpandSpecialsRuns(p, m, prog);
    ExpandConstAddsRuns(p, m, ExpandSpecials(p, prog));
    MergeAdvancesRuns(p, m, ExpandConstAdds(p, ExpandSpecials(p, prog)));
  }

  lemma {:induction false} ExpandSpecialsEncodable(p: Params, prog: seq<Instr>)
    requires p.opcodeBase > 3 && AllEncodable(p.opcodeBase, prog)
    ensures AllEncodable(p.opcodeBase, ExpandSpecials(p, prog))
  {
    if prog == [] {
    } else {
      ExpandSpecialsEncodable(p, prog[1..]);
      assert AllEncodable(p.opcodeBase, SpellOut(p, prog[0]));
    }
  }

  lemma {:induction false} ExpandConstAddsEncodable(p: Params, prog: seq<Instr>)
    requires p.opcodeBase > 3 && AllEncodable(p.opcodeBase, prog)
    ensures AllEncodable(p.opcodeBase, ExpandConstAdds(p, prog))
  {
    if prog == [] {
    } else {
      ExpandConstAddsEncodable(p, prog[1..]);
    }
  }

  lemma {:induction false} MergeAdvancesEncodable(p: Params, prog: seq<Instr>)
    requires p.opcodeBase > 3 && AllEncodable(p.opcodeBase, prog)
    ensures AllEncodable(p.opcodeBase, MergeAdvances(p, prog))
    decreases |prog|
  {
    if |prog| < 2 {
    } else if prog[0].AdvancePc? && prog[1].AdvancePc? && MergeSafe(p, prog[0].opAdvance, prog[1].opAdvance) {
      MergeAdvancesEncodable(p, [AdvancePc(prog[0].opAdvance + prog[1].opAdvance)] + prog[2..]);
    } else {
      MergeAdvancesEncodable(p, prog[1..]);
    }
  }

  /** With the standard opcodes 2 and 3 available, the serialised rewritten program decodes to the
      same table as the serialised original, and stops at the same byte. */
  lemma NormalisedBytesDecodeAlike(p: Params, prog: seq<Instr>, t: seq<u8>)
    requires p.maxOps > 0 && p.opcodeBase > 3 && AllEncodable(p.opcodeBase, prog)
    ensures
      var before, after := EncodeProgram(prog), EncodeProgram(Normalise(p, prog));
      DecodeBytes(p, after + t, |after|) == DecodeBytes(p, before + t, |before|)
  {
    ExpandSpecialsEncodable(p, prog);
    ExpandConstAddsEncodable(p, ExpandSpecials(p, prog));
    MergeAdvancesEncodable(p, ExpandConstAdds(p, ExpandSpecials(p, prog)));
    assert AllEncodable(p.opcodeBase, Normalise(p, prog));
    hide Run, DecodeBytes, Normalise;
    DecodeEncoded(p, prog, t);
    DecodeEncoded(p, Normalise(p, prog), t);
    NormaliseRuns(p, Start(p), prog);
  }
}

/** What every run of the simulator keeps, and runs of skipped, of data-processing and of
    predicated instructions. */
module Runs {
  import opened Words
  import opened Memory
  import opened Machine
  import opened Alu
  import opened Conditions
  import opened DataProcessing
  import opened Instruction
  import LoadStore

  //////////////////////////////////////////////////////////////////////////////
  // Every run from creation
  //////////////////////////////////////////////////////////////////////////////

  /** What can happen to the processor: a step, an exception from the interrupt line, and the
      writes of the debugger. */
  datatype Event =
    | Clock
    | Interrupt(e: Byte, uninit: Word)
    | DebugRegister(r: Reg, v: Word)
    | DebugCpsr(v: Word)
    | DebugByte(address: Word, b: Byte)

  function After(p: Platform, s: State, ev: Event): (State, Outcome) {
    match ev
    case Clock => Step(p, s)
    case Interrupt(e, uninit) => Raise(p, s, e, uninit)
    case DebugRegister(r, v) => (WriteReg(s, r, v), Ret(0))
    case DebugCpsr(v) => (WriteCpsr(s, v), Ret(0))
    case DebugByte(address, b) => (WriteBytes(s, address, [b]), Reply(Admit(|s.mem|, address, 1)))
  }

  /** The state after a history; an access outside the memory array ends the run. */
  function Run(p: Platform, s: State, evs: seq<Event>): (State, bool) {
    if evs == [] then (s, true)
    else
      var (t, alive) := Run(p, s, evs[..|evs| - 1]);
      if !alive then (t, false) else
      var (u, r) := After(p, t, evs[|evs| - 1]);
      (u, !r.Lost?)
  }

  function Clocks(evs: seq<Event>): nat {
    if evs == [] then 0 else Clocks(evs[..|evs| - 1]) + if evs[|evs| - 1].Clock? then 1 else 0
  }

  /** Bits 10..15 and 20..23 of the CPSR are 0, the SPSR cell is 0, and the memory has its size. */
  ghost predicate Sound(s: State, size: nat) {
    && (forall i: nat :: 10 <= i < 16 || 20 <= i < 24 ==> BitAt(s.regs[16], i) == 0)
    && s.regs[17] == 0 && |s.mem| == size
  }

  /** A cell 16 that the mask leaves alone. */
  predicate Masked(s: State) {
    Unreserved(s.regs[16]) == s.regs[16]
  }

  lemma MaskedBits(s: State)
    requires Masked(s)
    ensures forall i: nat :: 10 <= i < 16 || 20 <= i < 24 ==> BitAt(s.regs[16], i) == 0
  {
    hide Unreserved, High;
    forall i: nat | 10 <= i < 16 || 20 <= i < 24
      ensures BitAt(s.regs[16], i) == 0
    {
      UnreservedBits(s.regs[16], i);
    }
  }

  /** One instruction body keeps the invariant and the cycle count. */
  predicate Keeps(s: State, t: State) {
    && (Masked(s) ==> Masked(t))
    && t.regs[17] == s.regs[17] && |t.mem| == |s.mem| && t.cycles == s.cycles
  }

  lemma WriteCpsrKeeps(s: State, v: Word)
    ensures Keeps(s, WriteCpsr(s, v))
  {
    UnreservedTwice(v);
  }

  lemma OperateKeeps(s: State, op: Opcode, sets: Bit, rn: Reg, rd: Reg, b: Word, sc: Bit)
    ensures Keeps(s, Operate(s, op, sets, rn, rd, b, sc))
  {
    hide NewFlags, Computed, Unreserved, ReadReg, StateFlags, Pack;
    var f := NewFlags(op, ReadReg(s, rn), b, StateFlags(s).c, sc, ReadReg(s, rd));
    FlagsRoundTrip(s, f);
    WriteCpsrKeeps(s, 0xFFFF_FFFF);
    SetFlagsKeeps(s, f);
  }

  lemma SetFlagsKeeps(s: State, f: Flags)
    ensures Keeps(s, SetFlags(s, f))
  {
    hide Unreserved, Pack;
    PackUnpack(Cpsr(s) % 0x1000_0000, f);
    WriteCpsrKeeps(s, Cpsr(s) % 0x1000_0000 + Pack(f));
  }

  lemma {:induction false} StoreListKeeps(s: State, ins: Word, address: Word, i: nat)
    requires i <= 15
    ensures Keeps(s, LoadStore.StoreList(s, ins, address, i).0)
    decreases 15 - i
  {
    hide BitAt, ReadReg, Unreserved, Admit, Store;
    if i == 15 {
    } else if BitAt(ins, i) == 0 {
      StoreListKeeps(s, ins, address, i + 1);
    } else {
      var next := LoadStore.Next(ins, address);
      var at := if LoadStore.Before(ins) then next else address;
      StoreListKeeps(WriteBytes(s, at, [ToByte(ReadReg(s, i))]), ins, next, i + 1);
    }
  }

  lemma {:induction false} LoadListKeeps(s: State, ins: Word, value: Byte, i: nat)
    requires i <= 15
    ensures Keeps(s, LoadStore.LoadList(s, ins, value, i))
    decreases 15 - i
  {
    hide BitAt, Unreserved;
    if i < 15 {
      LoadListKeeps(if BitAt(ins, i) == 1 then WriteReg(s, i, value) else s, ins, value, i + 1);
    }
  }

  lemma SingleKeeps(p: Platform, s: State, ins: Word)
    ensures Keeps(s, LoadStore.Single(p, s, ins).0)
  {
    hide Unreserved, ReadReg, BitAt, Field, Admit, Store, Encode, Decode, Wrap;
  }

  lemma MultipleKeeps(p: Platform, s: State, ins: Word)
    ensures Keeps(s, LoadStore.Multiple(s, ins).0)
  {
    hide Unreserved, ReadReg, BitAt, Keeps, LoadStore.StoreList, LoadStore.LoadList;
    var address := ReadReg(s, LoadStore.SourceOf(ins));
    StoreListKeeps(s, ins, address, 0);
    if Admit(|s.mem|, address, 1).Done? { LoadListKeeps(s, ins, s.mem[Cell(address, 0)], 0); }
    KeepsSame(s);
  }

  lemma KeepsSame(s: State)
    ensures Keeps(s, s)
  {
  }

  lemma PerformKeeps(p: Platform, s: State, ins: Word)
    ensures Keeps(s, Perform(p, s, ins).0)
  {
    hide Keeps, Operate, Branch, LoadStore.Single, LoadStore.Multiple, Field;
    ProcessKeeps(p, s, ins);
    SingleKeeps(p, s, ins);
    MultipleKeeps(p, s, ins);
    BranchKeeps(s, ins);
    KeepsSame(s);
  }

  lemma ProcessKeeps(p: Platform, s: State, ins: Word)
    ensures Keeps(s, RegisterForm(p, s, ins)) && Keeps(s, ImmediateForm(p, s, ins))
  {
    hide Keeps, Operate, Shifter.ShifterOperand, Shifter.ImmediateOperand;
    var (b, sc) := Shifter.ShifterOperand(p, s, ins);
    var (b', sc') := Shifter.ImmediateOperand(p, s, ins);
    OperateKeeps(s, OpcodeOf(ins), SetsOf(ins), RnOf(ins), RdOf(ins), b, sc);
    OperateKeeps(s, OpcodeOf(ins), SetsOf(ins), RnOf(ins), RdOf(ins), b', sc');
  }

  lemma BranchKeeps(s: State, ins: Word)
    ensures Keeps(s, Branch(s, ins).0)
  {
    hide Unreserved, ReadReg, CheckCond, BitAt;
  }

  lemma RaiseKeeps(p: Platform, s: State, e: Byte, uninit: Word)
    ensures Keeps(s, Raise(p, s, e, uninit).0)
  {
    hide Unreserved, ReadReg, WordAt, Admit;
    UnreservedTwice(0x1D3);
  }

  /** A step keeps the invariant and counts one cycle. */
  lemma StepKeeps(p: Platform, s: State)
    ensures Keeps(s.(cycles := Plus(s.cycles, 1)), Step(p, s).0)
  {
    hide Perform, Raise, CheckCond, Admit, WordAt, Unreserved;
    var t := Cycle(p, s).0;
    if Admit(|s.mem|, s.regs[15], 4).Done? { PerformKeeps(p, Tick(s), WordAt(p, s, s.regs[15])); }
    var r := Cycle(p, s).1;
    if r.Ret? { RaiseKeeps(p, t, ToByte(r.code), 0); }
  }

  lemma EventKeeps(p: Platform, s: State, ev: Event)
    ensures Keeps(s.(cycles := if ev.Clock? then Plus(s.cycles, 1) else s.cycles), After(p, s, ev).0)
  {
    hide Step, Raise, Unreserved, Admit;
    match ev
    case Clock => StepKeeps(p, s);
    case Interrupt(e, uninit) => RaiseKeeps(p, s, e, uninit);
    case DebugRegister(r, v) =>
    case DebugCpsr(v) => WriteCpsrKeeps(s, v);
    case DebugByte(address, b) =>
  }

  lemma {:induction false} RunKeeps(p: Platform, s: State, evs: seq<Event>)
    requires Masked(s)
    ensures var (t, alive) := Run(p, s, evs);
      Masked(t) && t.regs[17] == s.regs[17] && |t.mem| == |s.mem| && (alive ==> t.cycles == Wrap(s.cycles + Clocks(evs)))
  {
    hide After, Unreserved;
    if evs == [] {
    } else {
      var before, ev := evs[..|evs| - 1], evs[|evs| - 1];
      RunKeeps(p, s, before);
      EventKeeps(p, Run(p, s, before).0, ev);
      WrapWrap(s.cycles + Clocks(before), 1);
    }
  }

  /** Every run from creation, whatever the program, the interrupts, the debugger and the host do:
      the invariant holds at the end, and the cycle counter counts the steps modulo 2^32. */
  lemma EveryRun(p: Platform, mem: seq<Byte>, evs: seq<Event>)
    ensures var s := Created(Snapshot(seq(NB_REGISTER, _ => 0), mem, 0));
      var (t, alive) := Run(p, s, evs);
      Sound(t, |mem|) && (alive ==> t.cycles == Wrap(Clocks(evs)))
  {
    hide Run, Unreserved, BitAt;
    var s := Created(Snapshot(seq(NB_REGISTER, _ => 0), mem, 0));
    UnreservedTwice(0x1D3);
    RunKeeps(p, s, evs);
    MaskedBits(Run(p, s, evs).0);
  }

  //////////////////////////////////////////////////////////////////////////////
  // Sequences of steps
  //////////////////////////////////////////////////////////////////////////////

  /** n steps, and whether each of them returned 0. */
  function NSteps(p: Platform, s: State, n: nat): (State, bool) {
    if n == 0 then (s, true)
    else
      var (t, ok) := NSteps(p, s, n - 1);
      var (u, r) := Step(p, t);
      (u, ok && r == Ret(0))
  }

  /** The word the next step of s will fetch. */
  function Fetched(p: Platform, s: State): Word
    requires Readable(s, s.regs[15], 4)
  {
    WordAt(p, s, s.regs[15])
  }

  /** The processor after n fetches and nothing else. */
  function Ticks(s: State, n: nat): State {
    s.(regs := s.regs[15 := Wrap(s.regs[15] + 4 * n)], cycles := Wrap(s.cycles + n))
  }

  /** The n words from the pc on are readable and their conditions are false in s. */
  ghost predicate AllSkipped(p: Platform, s: State, n: nat) {
    forall i {:trigger Ticks(s, i)} :: 0 <= i < n ==>
      var t := Ticks(s, i);
      Readable(t, t.regs[15], 4) && CheckFlags(CondOf(Fetched(p, t)), StateFlags(s)) == 0
  }

  lemma SkipIsTick(p: Platform, s: State)
    requires Readable(s, s.regs[15], 4) && CheckCond(s, Fetched(p, s)) == 0
    ensures Step(p, s) == (Tick(s), Ret(0))
  {
    hide WordAt, Unreserved, FlagsOf, CheckFlags, Perform, Admit;
  }

  /** A run of n instructions with false conditions advances the pc by 4n and the cycle count by
      n, both modulo 2^32, and changes nothing else. */
  lemma {:induction false} SkippedRun(p: Platform, s: State, n: nat)
    requires AllSkipped(p, s, n)
    ensures NSteps(p, s, n) == (Ticks(s, n), true)
  {
    hide Step, WordAt, Unreserved, FlagsOf, CheckFlags;
    if n == 0 {
      assert Ticks(s, 0).regs == s.regs;
    } else {
      assert AllSkipped(p, s, n - 1);
      SkippedRun(p, s, n - 1);
      var t := Ticks(s, n - 1);
      SkipIsTick(p, t);
      WrapWrap(s.regs[15] + 4 * (n - 1), 4);
      WrapWrap(s.cycles + (n - 1), 1);
      assert Tick(t).regs == Ticks(s, n).regs && Tick(t).cycles == Ticks(s, n).cycles;
    }
  }

  /** A data-processing instruction that does not copy the SPSR. */
  predicate KeepsMode(ins: Word) {
    Field(ins, 25, 3) in {0, 1} && (IsCompare(OpcodeOf(ins)) || SetsOf(ins) == 0 || RdOf(ins) != 15)
  }

  predicate KeepsFlags(ins: Word) {
    Field(ins, 25, 3) in {0, 1} && !IsCompare(OpcodeOf(ins)) && SetsOf(ins) == 0
  }

  /** Each of the n instructions executed from s is readable and satisfies the predicate. */
  ghost predicate RunsOnly(p: Platform, s: State, n: nat, allowed: Word -> bool) {
    forall i {:trigger NSteps(p, s, i)} :: 0 <= i < n ==>
      var t := NSteps(p, s, i).0; Readable(t, t.regs[15], 4) && allowed(Fetched(p, t))
  }

  lemma ExecuteKeepsMode(s: State, ins: Word, b: Word, sc: Bit)
    requires IsCompare(OpcodeOf(ins)) || SetsOf(ins) == 0 || RdOf(ins) != 15
    ensures var t := Execute(s, ins, b, sc);
      && Cpsr(t) % 0x1000_0000 == Cpsr(s) % 0x1000_0000 && t.mem == s.mem
      && (SetsOf(ins) == 0 && !IsCompare(OpcodeOf(ins)) ==> t.regs[16] == s.regs[16])
      && (IsCompare(OpcodeOf(ins)) || RdOf(ins) != 15 ==> t.regs[15] == s.regs[15])
  {
    hide NewFlags, Unreserved, ReadReg, StateFlags, Pack, Result;
    FlagsRoundTrip(s, NewFlags(OpcodeOf(ins), ReadReg(s, RnOf(ins)), b, StateFlags(s).c, sc, ReadReg(s, RdOf(ins))));
  }

  /** A step that fetches such an instruction, executed or skipped. */
  lemma StepKeepsMode(p: Platform, s: State)
    requires Readable(s, s.regs[15], 4) && KeepsMode(Fetched(p, s))
    ensures var (t, r) := Step(p, s);
      && r == Ret(0) && t.mem == s.mem && Cpsr(t) % 0x1000_0000 == Cpsr(s) % 0x1000_0000
      && (KeepsFlags(Fetched(p, s)) ==> Cpsr(t) == Cpsr(s))
  {
    hide WordAt, Unreserved, FlagsOf, CheckFlags, Admit, Execute, Shifter.ShifterOperand, Shifter.ImmediateOperand, Field;
    var ins, t := Fetched(p, s), Tick(s);
    var (b, sc) := Shifter.ShifterOperand(p, t, ins);
    var (b', sc') := Shifter.ImmediateOperand(p, t, ins);
    ExecuteKeepsMode(t, ins, b, sc);
    ExecuteKeepsMode(t, ins, b', sc');
  }

  /** Any run of data-processing instructions that never has S = 1 with rd = pc outside the
      compares keeps bits 27..0 of the CPSR and the memory, and returns 0 throughout. */
  lemma {:induction false} DataRunKeepsMode(p: Platform, s: State, n: nat)
    requires RunsOnly(p, s, n, KeepsMode)
    ensures var (t, ok) := NSteps(p, s, n);
      ok && t.mem == s.mem && Cpsr(t) % 0x1000_0000 == Cpsr(s) % 0x1000_0000
  {
    hide Step, WordAt, Unreserved;
    if n == 0 {
    } else {
      DataRunKeepsMode(p, s, n - 1);
      StepKeepsMode(p, NSteps(p, s, n - 1).0);
    }
  }

  /** With S = 0 and no compare the whole CPSR is kept. */
  lemma {:induction false} DataRunKeepsFlags(p: Platform, s: State, n: nat)
    requires RunsOnly(p, s, n, KeepsFlags)
    ensures var (t, ok) := NSteps(p, s, n); ok && t.mem == s.mem && Cpsr(t) == Cpsr(s)
  {
    hide Step, WordAt, Unreserved;
    if n == 0 {
    } else {
      DataRunKeepsFlags(p, s, n - 1);
      StepKeepsMode(p, NSteps(p, s, n - 1).0);
    }
  }

  //////////////////////////////////////////////////////////////////////////////
  // Predicated if and else
  //////////////////////////////////////////////////////////////////////////////

  /** Conditions 2k and 2k + 1 exclude each other and one of them holds, for all flags, exactly
      when the pair is not GT and LE: as coded, both can fail. */
  lemma Complementary(cond: nat)
    requires cond < 14 && cond % 2 == 0
    ensures (forall f: Flags :: (CheckFlags(cond, f) == 1) != (CheckFlags(cond + 1, f) == 1)) <==> cond != 12
    ensures forall f: Flags :: !(CheckFlags(cond, f) == 1 && CheckFlags(cond + 1, f) == 1)
  {
    var f := Flags(0, 0, 0, 1);
    assert CheckFlags(12, f) == 0 && CheckFlags(13, f) == 0;
  }

  predicate Opposite(c: nat, d: nat) {
    c < 12 && d == if c % 2 == 0 then c + 1 else c - 1
  }

  lemma OppositeAnswers(c: nat, d: nat, f: Flags)
    requires Opposite(c, d)
    ensures CheckFlags(c, f) in {0, 1} && CheckFlags(d, f) == 1 - CheckFlags(c, f)
  {
  }

  /** Two consecutive instructions under opposite conditions, the first a non-compare with S = 0
      that does not write the pc. If its condition holds the first one takes effect and the second
      is skipped; otherwise the first one is skipped and the second is performed. */
  lemma IfElse(p: Platform, s: State)
    requires Readable(s, s.regs[15], 4) && Readable(Tick(s), Tick(s).regs[15], 4)
    requires KeepsFlags(Fetched(p, s)) && RdOf(Fetched(p, s)) != 15
    requires Opposite(CondOf(Fetched(p, s)), CondOf(Fetched(p, Tick(s))))
    ensures var first := Step(p, s);
      if CheckCond(s, Fetched(p, s)) == 1
      then first == (Process(p, Tick(s), Fetched(p, s)), Ret(0)) && Step(p, first.0) == (Tick(first.0), Ret(0))
      else first == (Tick(s), Ret(0)) && Cycle(p, first.0) == Perform(p, Tick(first.0), Fetched(p, Tick(s)))
  {
    hide WordAt, Unreserved, FlagsOf, CheckFlags, Admit, Execute, Operand, Raise;
    var ins, t := Fetched(p, s), Tick(s);
    OppositeAnswers(CondOf(ins), CondOf(Fetched(p, t)), StateFlags(s));
    assert StateFlags(t) == StateFlags(s);
    if CheckCond(s, ins) == 1 {
      FirstTaken(p, s);
      var u := Step(p, s).0;
      assert Fetched(p, u) == Fetched(p, t) by { SameFetch(p, t, u); }
      SkipIsTick(p, u);
    } else {
      SkipIsTick(p, s);
      TakenIsPerform(p, t);
    }
  }

  lemma TakenIsPerform(p: Platform, s: State)
    requires Readable(s, s.regs[15], 4) && CheckCond(s, Fetched(p, s)) == 1
    ensures Cycle(p, s) == Perform(p, Tick(s), Fetched(p, s))
  {
    hide WordAt, Unreserved, FlagsOf, CheckFlags, Perform, Admit;
  }

  lemma SameFetch(p: Platform, t: State, u: State)
    requires Readable(t, t.regs[15], 4) && u.regs[15] == t.regs[15] && u.mem == t.mem
    ensures Readable(u, u.regs[15], 4) && Fetched(p, u) == Fetched(p, t)
  {
  }

  lemma FirstTaken(p: Platform, s: State)
    requires Readable(s, s.regs[15], 4) && KeepsFlags(Fetched(p, s)) && RdOf(Fetched(p, s)) != 15
    requires CheckCond(s, Fetched(p, s)) == 1
    ensures var t, u := Tick(s), Step(p, s).0;
      && Step(p, s).1 == Ret(0) && u == Process(p, t, Fetched(p, s))
      && u.regs[15] == t.regs[15] && u.regs[16] == t.regs[16] && u.mem == t.mem
  {
    hide WordAt, Unreserved, FlagsOf, CheckFlags, Admit, Execute, Operand, Field, ImmediateForm, RegisterForm;
    var ins, t := Fetched(p, s), Tick(s);
    FormOf(ins);
    var (b, sc) := Operand(p, t, ins);
    ProcessIs(p, t, ins);
    ExecuteKeepsMode(t, ins, b, sc);
  }

  /** Bits 27..25 are 0 or 1: bit 25 tells which. */
  lemma FormOf(ins: Word)
    ensures Field(ins, 25, 3) == 1 ==> IsImmediate(ins)
    ensures Field(ins, 25, 3) == 0 ==> !IsImmediate(ins)
  {
    hide High;
  }
}

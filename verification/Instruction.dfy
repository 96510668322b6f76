/** Branches, exceptions, and the fetch/check/dispatch step (arm_branch_other.c,
    arm_exception.c, arm_instruction.c, arm_core.c). */
module Instruction {
  import opened Words
  import opened Memory
  import opened Machine
  import opened Registers
  import opened ArmCore
  import opened Conditions
  import opened DataProcessing
  import LoadStore

  const RESET: Byte := 1
  const SOFTWARE_INTERRUPT: Byte := 8
  const END_SIMULATION: Byte := 9

  //////////////////////////////////////////////////////////////////////////////
  // What the code computes
  //////////////////////////////////////////////////////////////////////////////

  /** The displacement is the negated 24-bit field: XOR with the mask, minus the mask. */
  function Branch(s: State, ins: Word): (State, Outcome) {
    var pc := ReadReg(s, 15);
    if CheckCond(s, ins) != 1 then (s, Ret(-1))
    else
      var linked := if BitAt(ins, 24) == 1 then WriteReg(s, 14, Plus(pc, 4)) else s;
      (WriteReg(linked, 15, Minus(pc, ins % 0x100_0000)), Ret(0))
  }

  /** A reset, or a software interrupt, whose number is read back from memory; uninit is the
      value of the uninitialised local that is used when that read is refused. */
  function Raise(p: Platform, s: State, e: Byte, uninit: Word): (State, Outcome) {
    if e == SOFTWARE_INTERRUPT then
      var address := Minus(ReadReg(s, 15), 8);
      var a := Admit(|s.mem|, address, 4);
      var number := (if a.Done? then WordAt(p, s, address) else uninit) % 0x100_0000;
      (s, if a.Stray? then Lost else if number == 0x12_3456 then Ret(END_SIMULATION) else if number == 1 then Ret(0) else Ret(e))
    else if e == RESET then (WriteReg(WriteCpsr(s, 0x1D3), 15, 0), Ret(e))
    else (s, Ret(e))
  }

  /** The instruction dispatched on bits 27..25. */
  function Perform(p: Platform, s: State, ins: Word): (State, Outcome) {
    var kind := Field(ins, 25, 3);
    if kind == 0 then (RegisterForm(p, s, ins), Ret(0))
    else if kind == 1 then (ImmediateForm(p, s, ins), Ret(0))
    else if kind == 2 then LoadStore.Single(p, s, ins)
    else if kind == 4 then LoadStore.Multiple(s, ins)
    else if kind == 5 then Branch(s, ins)
    else (s, Ret(UNDEFINED_INSTRUCTION))
  }

  /** A fetched instruction under its condition. */
  function Conditional(p: Platform, s: State, ins: Word): (State, Outcome) {
    if CheckCond(s, ins) != 0 then Perform(p, s, ins) else (s, Ret(0))
  }

  function Cycle(p: Platform, s: State): (State, Outcome) {
    var a := Admit(|s.mem|, s.regs[15], 4);
    if a.Done? then Conditional(p, Tick(s), WordAt(p, s, s.regs[15])) else (Tick(s), Reply(a))
  }

  /** arm_step: a non-zero result becomes a uint8_t and is raised. */
  function Step(p: Platform, s: State): (State, Outcome) {
    var (s', r) := Cycle(p, s);
    if r.Lost? || r == Ret(0) then (s', r) else Raise(p, s', ToByte(r.code), 0)
  }

  /** The state in which arm_create leaves the processor. */
  function Created(s: State): State {
    WriteReg(WriteReg(WriteCpsr(s, 0x1D3), 15, 0), 13, Wrap(|s.mem|))
  }

  /** A 24-bit field as a signed number. */
  function SignExtend24(field: nat): int {
    if field < 0x80_0000 then field else field - 0x100_0000
  }

  /** The manual's target is the pc plus four times the signed field, and its link the next
      instruction. A taken branch reaches that target exactly when the field is 0, and a branch
      with link never leaves that link. */
  lemma BranchTarget(s: State, ins: Word)
    requires CheckCond(s, ins) == 1
    ensures var field, t := ins % 0x100_0000, Branch(s, ins).0;
      && (t.regs[15] == Plus(ReadReg(s, 15), 4 * SignExtend24(field)) <==> field == 0)
      && (BitAt(ins, 24) == 1 ==> t.regs[14] != Minus(ReadReg(s, 15), 4))
  {
    hide CheckCond, ReadReg, High;
    BranchOffsets(ReadReg(s, 15), ins % 0x100_0000);
  }

  lemma BranchOffsets(pc: Word, field: nat)
    requires field < 0x100_0000
    ensures Minus(pc, field) == Plus(pc, 4 * SignExtend24(field)) <==> field == 0
    ensures Plus(pc, 4) != Minus(pc, 4)
  {
    var d := 4 * SignExtend24(field) + field;
    WrapWrap(pc - field, d);
    if d % WORD == 0 {
      assert d == 0;
    }
  }

  //////////////////////////////////////////////////////////////////////////////
  // The code
  //////////////////////////////////////////////////////////////////////////////

  method BranchOp(p: Core, ins: Word) returns (r: Outcome)
    requires p.Valid()
    modifies p.reg.cells
    ensures (p.Abs(), r) == Branch(old(p.Abs()), ins)
  {
    hide CheckFlags, FlagsOf, Unreserved;
    var offset := ins % 0x100_0000;
    var displacement: int := (0xFF_FFFF - offset) - 0xFF_FFFF;
    var pc := p.ReadRegister(15);
    var cpsr := p.ReadCpsr();
    if CheckFlags(CondOf(ins), FlagsOf(cpsr)) == 1 {
      if BitAt(ins, 24) == 1 { p.WriteRegister(14, Plus(pc, 4)); }
      p.WriteRegister(15, Plus(pc, displacement));
      r := Ret(0);
    } else {
      r := Ret(-1);
    }
  }

  method Exception(p: Core, e: Byte, uninit: Word) returns (r: Outcome)
    requires p.Valid()
    modifies p.reg.cells
    ensures (p.Abs(), r) == Raise(p.platform, old(p.Abs()), e, uninit)
  {
    if e == SOFTWARE_INTERRUPT {
      var pc := p.ReadRegister(15);
      var a, instruction := p.ReadWord(Minus(pc, 8), uninit);
      if a.Stray? { return Lost; }
      var number := instruction % 0x100_0000;
      if number == 0x12_3456 { return Ret(END_SIMULATION); }
      if number == 1 { return Ret(0); }
    }
    if e == RESET {
      p.WriteCpsr(0x1D3);
      p.WriteRegister(15, 0);
    }
    r := Ret(e);
  }

  method ExecuteInstruction(p: Core) returns (r: Outcome)
    requires p.Valid()
    modifies p`cycleCount, p.reg.cells, p.mem.value
    ensures (p.Abs(), r) == Cycle(p.platform, old(p.Abs()))
  {
    hide RegisterForm, ImmediateForm, LoadStore.Single, LoadStore.Multiple, Branch, Field, CheckFlags, FlagsOf, Unreserved;
    var before: Word := *;
    var a, ins := p.Fetch(before);
    if !a.Done? { return Reply(a); }
    r := Ret(0);
    var cpsr := p.ReadCpsr();
    if CheckFlags(CondOf(ins), FlagsOf(cpsr)) != 0 {
      var kind := Field(ins, 25, 3);
      match kind
      case 0 => r := DataProcessingShift(p, ins);
      case 1 => r := DataProcessingImmediate(p, ins);
      case 2 => r := LoadStore.LoadStoreSingle(p, ins);
      case 4 => r := LoadStore.LoadStoreMultiple(p, ins);
      case 6 => r := Ret(UNDEFINED_INSTRUCTION);
      case 5 => r := BranchOp(p, ins);
      case _ => r := Ret(UNDEFINED_INSTRUCTION);
    }
  }

  method ArmStep(p: Core) returns (r: Outcome)
    requires p.Valid()
    modifies p`cycleCount, p.reg.cells, p.mem.value
    ensures (p.Abs(), r) == Step(p.platform, old(p.Abs()))
  {
    hide Cycle, Raise;
    r := ExecuteInstruction(p);
    if r.Ret? && r.code != 0 {
      r := Exception(p, ToByte(r.code), 0);
    }
  }

  method ArmCreate(platform: Platform, reg: RegisterFile, mem: ByteMemory) returns (p: Core)
    requires reg.Valid() && mem.Valid() && reg.cells as object != mem.value as object
    modifies reg.cells
    ensures fresh(p) && p.Valid() && p.platform == platform && p.reg == reg && p.mem == mem
    ensures p.Abs() == Created(Snapshot(old(reg.cells[..]), old(mem.value[..]), 0))
  {
    p := new Core(platform, reg, mem);
    var _ := Exception(p, RESET, 0);
    p.WriteRegister(13, Wrap(mem.taille));
  }
}

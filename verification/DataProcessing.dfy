/** Decoding and running one data-processing instruction (arm_data_processing.c). */
module DataProcessing {
  import opened Words
  import opened Machine
  import opened ArmCore
  import opened Alu
  import opened Shifter
  import Conditions

  function OpcodeOf(ins: Word): Opcode {
    Pow2Values(); Field(ins, 21, 4)
  }

  function SetsOf(ins: Word): Bit {
    Pow2Values(); Field(ins, 20, 1)
  }

  function RnOf(ins: Word): Reg {
    Pow2Values(); Field(ins, 16, 4)
  }

  function RdOf(ins: Word): Reg {
    Pow2Values(); Field(ins, 12, 4)
  }

  /** The fields of a data-processing instruction word. */
  datatype Fields = Fields(cond: nat, immediate: Bit, op: Opcode, sets: Bit, rn: Reg, rd: Reg, low: nat)

  /** The instruction word of section A3.4 of the manual: condition, 00, I, opcode, S, rn, rd and the
      12 bits of the shifter operand. */
  function Assemble(f: Fields): Word
    requires f.cond < 16 && f.low < 0x1000
  {
    var i: int, op: int, sets: int, rn: int, rd: int := f.immediate, f.op, f.sets, f.rn, f.rd;
    f.cond * 0x1000_0000 + i * 0x200_0000 + op * 0x20_0000 + sets * 0x10_0000 + rn * 0x1_0000 + rd * 0x1000 + f.low
  }

  /** Decoding recovers every field of an assembled word. */
  lemma DecodeAssembled(f: Fields)
    requires f.cond < 16 && f.low < 0x1000
    ensures var ins := Assemble(f);
      && Conditions.CondOf(ins) == f.cond && Field(ins, 25, 3) == f.immediate && (IsImmediate(ins) <==> f.immediate == 1)
      && OpcodeOf(ins) == f.op && SetsOf(ins) == f.sets && RnOf(ins) == f.rn && RdOf(ins) == f.rd && Field(ins, 0, 12) == f.low
  {
    hide Low, High, Pow2;
    var w, i: int, op: int, sets: int, rn: int, rd: int := Assemble(f), f.immediate, f.op, f.sets, f.rn, f.rd;
    DecodePowers();
    var low25 := op * 0x20_0000 + sets * 0x10_0000 + rn * 0x1_0000 + rd * 0x1000 + f.low;
    FieldIs(w, 28, 0x1000_0000, 4, 0x10, f.cond, 0, i * 0x200_0000 + low25);
    FieldIs(w, 25, 0x200_0000, 3, 8, i, f.cond, low25);
    FieldIs(w, 25, 0x200_0000, 1, 2, i, f.cond * 4, low25);
    FieldIs(w, 21, 0x20_0000, 4, 0x10, op, f.cond * 8 + i, sets * 0x10_0000 + rn * 0x1_0000 + rd * 0x1000 + f.low);
    FieldIs(w, 20, 0x10_0000, 1, 2, sets, f.cond * 0x80 + i * 0x10 + op, rn * 0x1_0000 + rd * 0x1000 + f.low);
    FieldIs(w, 16, 0x1_0000, 4, 0x10, rn, f.cond * 0x100 + i * 0x20 + op * 2 + sets, rd * 0x1000 + f.low);
    FieldIs(w, 12, 0x1000, 4, 0x10, rd, f.cond * 0x1000 + i * 0x200 + op * 0x20 + sets * 0x10 + rn, f.low);
    FieldIs(w, 0, 1, 12, 0x1000, f.low, f.cond * 0x1_0000 + i * 0x2000 + op * 0x200 + sets * 0x100 + rn * 0x10 + rd, 0);
    Bit25(w);
  }

  lemma DecodePowers()
    ensures Pow2(0) == 1 && Pow2(1) == 2 && Pow2(3) == 8 && Pow2(4) == 0x10 && Pow2(12) == 0x1000 && Pow2(16) == 0x1_0000
    ensures Pow2(20) == 0x10_0000 && Pow2(21) == 0x20_0000 && Pow2(25) == 0x200_0000 && Pow2(28) == 0x1000_0000
  {
    assert Pow2(12) == 0x1000;
    assert Pow2(20) == 0x10_0000;
  }

  lemma Bit25(w: Word)
    ensures BitAt(w, 25) == Field(w, 25, 1)
  {
  }

  /** v is the field of the given width above the bits of weight p. */
  lemma FieldIs(w: Word, lo: nat, p: nat, width: nat, q: nat, v: nat, above: nat, below: nat)
    requires p == Pow2(lo) && q == Pow2(width) && v < q && below < p
    requires w == p * (v + q * above) + below
    ensures Field(w, lo, width) == v
  {
    hide Low, High, Pow2;
    DivUnique(w, p, v + q * above, below);
    LowHigh(w, lo, p);
    DivUnique(v + q * above, q, above, v);
    LowHigh(High(w, lo), width, q);
  }

  /** The state after an instruction whose operand and shifter carry are b and sc. */
  function Execute(s: State, ins: Word, b: Word, sc: Bit): State {
    Operate(s, OpcodeOf(ins), SetsOf(ins), RnOf(ins), RdOf(ins), b, sc)
  }

  function RegisterForm(p: Platform, s: State, ins: Word): State {
    var (b, sc) := ShifterOperand(p, s, ins);
    Execute(s, ins, b, sc)
  }

  function ImmediateForm(p: Platform, s: State, ins: Word): State {
    var (b, sc) := ImmediateOperand(p, s, ins);
    Execute(s, ins, b, sc)
  }

  /** Bit 25 chooses the form. */
  predicate IsImmediate(ins: Word) {
    BitAt(ins, 25) == 1
  }

  function Operand(p: Platform, s: State, ins: Word): (Word, Bit) {
    if IsImmediate(ins) then ImmediateOperand(p, s, ins) else ShifterOperand(p, s, ins)
  }

  /** Either form of data-processing instruction. */
  function Process(p: Platform, s: State, ins: Word): State {
    if IsImmediate(ins) then ImmediateForm(p, s, ins) else RegisterForm(p, s, ins)
  }

  /** What an instruction that sets the flags and does not write the pc leaves behind. */
  lemma ProcessEffect(p: Platform, s: State, ins: Word)
    requires SetsOf(ins) == 1 && RdOf(ins) != 15 && !IsCompare(OpcodeOf(ins))
    ensures var (b, sc) := Operand(p, s, ins);
      var a, c, s' := ReadReg(s, RnOf(ins)), StateFlags(s).c, Process(p, s, ins);
      && s'.regs[RdOf(ins)] == Result(OpcodeOf(ins), a, b, c)
      && StateFlags(s') == NewFlags(OpcodeOf(ins), a, b, c, sc, ReadReg(s, RdOf(ins)))
      && (forall r: Reg :: r != RdOf(ins) ==> s'.regs[r] == s.regs[r])
      && s'.regs[17] == s.regs[17] && s'.mem == s.mem && s'.cycles == s.cycles
  {
    hide ReadReg, StateFlags, NewFlags, Operand, Result;
    var (b, sc) := Operand(p, s, ins);
    assert Process(p, s, ins) == Execute(s, ins, b, sc) by { ProcessIs(p, s, ins); }
    var f := NewFlags(OpcodeOf(ins), ReadReg(s, RnOf(ins)), b, StateFlags(s).c, sc, ReadReg(s, RdOf(ins)));
    FlagsRoundTrip(s, f);
    FlagsInCell16(WriteReg(SetFlags(s, f), RdOf(ins), Computed(s, OpcodeOf(ins), RnOf(ins), b)), SetFlags(s, f));
  }

  lemma ProcessIs(p: Platform, s: State, ins: Word)
    ensures Process(p, s, ins) == Execute(s, ins, Operand(p, s, ins).0, Operand(p, s, ins).1)
  {
    hide Execute, ImmediateOperand, ShifterOperand;
  }

  lemma FlagsInCell16(s: State, t: State)
    requires s.regs[16] == t.regs[16]
    ensures StateFlags(s) == StateFlags(t)
  {
  }

  /** The switch that both forms share. */
  method Dispatch(p: Core, op: Opcode, sets: Bit, rn: Reg, rd: Reg, b: Word, carryOut: Bit)
    requires p.Valid()
    modifies p.reg.cells
    ensures p.Abs() == Operate(old(p.Abs()), op, sets, rn, rd, b, carryOut)
  {
    hide Flagged, Computed;
    var dest: Word;
    match op
    case 0 => dest := AndOp(p, sets, rn, rd, b, carryOut); p.WriteRegister(rd, dest);
    case 1 => dest := Eor(p, sets, rn, rd, b, carryOut); p.WriteRegister(rd, dest);
    case 2 => dest := Sub(p, sets, rn, rd, b, carryOut); p.WriteRegister(rd, dest);
    case 3 => dest := Rsb(p, sets, rn, rd, b, carryOut); p.WriteRegister(rd, dest);
    case 4 => dest := Add(p, sets, rn, rd, b, carryOut); p.WriteRegister(rd, dest);
    case 5 => dest := Adc(p, sets, rn, rd, b, carryOut); p.WriteRegister(rd, dest);
    case 6 => dest := Sbc(p, sets, rn, rd, b, carryOut); p.WriteRegister(rd, dest);
    case 7 => dest := Rsc(p, sets, rn, rd, b, carryOut); p.WriteRegister(rd, dest);
    case 8 => Tst(p, rn, rd, b, carryOut);
    case 9 => Teq(p, rn, rd, b, carryOut);
    case 10 => Cmp(p, rn, rd, b, carryOut);
    case 11 => Cmn(p, rn, rd, b, carryOut);
    case 12 => dest := Orr(p, sets, rn, rd, b, carryOut); p.WriteRegister(rd, dest);
    case 13 => dest := Mov(p, sets, rn, rd, b, carryOut); p.WriteRegister(rd, dest);
    case 14 => dest := Bic(p, sets, rn, rd, b, carryOut); p.WriteRegister(rd, dest);
    case 15 => dest := Mvn(p, sets, rn, rd, b, carryOut); p.WriteRegister(rd, dest);
  }

  method DataProcessingShift(p: Core, ins: Word) returns (r: Outcome)
    requires p.Valid()
    modifies p.reg.cells
    ensures r == Ret(0) && p.Abs() == RegisterForm(p.platform, old(p.Abs()), ins)
  {
    hide Operate, ShifterOperand;
    var b, carryOut := Shift(p, ins);
    Dispatch(p, OpcodeOf(ins), SetsOf(ins), RnOf(ins), RdOf(ins), b, carryOut);
    r := Ret(0);
  }

  method DataProcessingImmediate(p: Core, ins: Word) returns (r: Outcome)
    requires p.Valid()
    modifies p.reg.cells
    ensures r == Ret(0) && p.Abs() == ImmediateForm(p.platform, old(p.Abs()), ins)
  {
    hide Operate, ImmediateOperand;
    var b, carryOut := Rotate(p, ins);
    Dispatch(p, OpcodeOf(ins), SetsOf(ins), RnOf(ins), RdOf(ins), b, carryOut);
    r := Ret(0);
  }
}

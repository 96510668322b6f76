/** The sixteen data-processing operations and their flags (arm_data_processing.c). */
module Alu {
  import opened Words
  import opened Machine
  import opened ArmCore

  /** 0 AND, 1 EOR, 2 SUB, 3 RSB, 4 ADD, 5 ADC, 6 SBC, 7 RSC, 8 TST, 9 TEQ, A CMP, B CMN, C ORR, D MOV, E BIC, F MVN. */
  type Opcode = op: int | 0 <= op < 16

  predicate IsCompare(op: Opcode) {
    8 <= op < 12
  }

  predicate IsLogical(op: Opcode) {
    op in {0, 1, 8, 9, 12, 13, 14, 15}
  }

  //////////////////////////////////////////////////////////////////////////////
  // What the code computes
  //////////////////////////////////////////////////////////////////////////////

  function ToBit(b: bool): Bit {
    if b then 1 else 0
  }

  /** The value of an operation on rn = a, shifter operand b and carry flag c. */
  function Result(op: Opcode, a: Word, b: Word, c: Bit): Word {
    match op
    case 0 => And(a, b)
    case 1 => Xor(a, b)
    case 2 => Wrap(a - b)
    case 3 => Wrap(b - a)
    case 4 => Wrap(a + b)
    case 5 => Wrap(a + b + c)
    case 6 => Wrap(a - b - (1 - c))
    case 7 => Wrap(b - a - (1 - c))
    case 8 => And(a, b)
    case 9 => Xor(a, b)
    case 10 => Wrap(a - b)
    case 11 => Wrap(a + b)
    case 12 => Or(a, b)
    case 13 => b
    case 14 => And(a, Not(b))
    case 15 => Not(b)
  }

  /** The word from which the code takes N and Z: AND and EOR look at the old rd, SBC and RSC
      at one less than their result. */
  function Tested(op: Opcode, a: Word, b: Word, c: Bit, oldRd: Word): Word {
    if op == 0 || op == 1 then oldRd
    else if op == 6 || op == 7 then Minus(Result(op, a, b, c), 1)
    else Result(op, a, b, c)
  }

  /** The code's carry; sc is the shifter carry. */
  function CarryFlag(op: Opcode, a: Word, b: Word, c: Bit, sc: Bit): Bit {
    match op
    case 2 => ToBit(a >= b)
    case 3 => ToBit(b >= a)
    case 4 => ToBit(a + b >= WORD)
    case 5 => ToBit(a + Plus(b, c) >= WORD)
    case 6 => ToBit(a >= Minus(b, 1 - c))
    case 7 => ToBit(b >= Minus(a, 1 - c))
    case 10 => ToBit(a >= b)
    case 11 => ToBit(a + b >= WORD)
    case _ => sc
  }

  /** The code's overflow: the carry or borrow of an unsigned operation, 0 for a logical one. */
  function OverflowFlag(op: Opcode, a: Word, b: Word, c: Bit): Bit {
    match op
    case 2 => ToBit(a < b)
    case 3 => ToBit(b < a)
    case 4 => ToBit(a + b >= WORD)
    case 5 => ToBit(a + Plus(b, c) >= WORD)
    case 6 => ToBit(a < Plus(b, 2 - c))
    case 7 => ToBit(b < Plus(a, 2 - c))
    case 10 => ToBit(a < b)
    case 11 => ToBit(a + b >= WORD)
    case _ => 0
  }

  function NewFlags(op: Opcode, a: Word, b: Word, c: Bit, sc: Bit, oldRd: Word): Flags {
    var t := Tested(op, a, b, c, oldRd);
    Flags(t / 0x8000_0000, ToBit(t == 0), CarryFlag(op, a, b, c, sc), OverflowFlag(op, a, b, c))
  }

  /** S = 0 leaves the CPSR alone; S = 1 on the pc copies the SPSR, which reads as all ones. */
  function UpdateFlags(s: State, sets: Bit, rd: Reg, f: Flags): State {
    if sets == 0 then s
    else if rd == 15 then WriteCpsr(s, 0xFFFF_FFFF)
    else SetFlags(s, f)
  }

  /** The state after the flags are set and before rd is written. */
  function Flagged(s: State, op: Opcode, sets: Bit, rn: Reg, rd: Reg, b: Word, sc: Bit): State {
    var f := NewFlags(op, ReadReg(s, rn), b, StateFlags(s).c, sc, ReadReg(s, rd));
    if IsCompare(op) then SetFlags(s, f) else UpdateFlags(s, sets, rd, f)
  }

  function Computed(s: State, op: Opcode, rn: Reg, b: Word): Word {
    Result(op, ReadReg(s, rn), b, StateFlags(s).c)
  }

  /** One data-processing operation with its shifter operand b already computed. */
  function Operate(s: State, op: Opcode, sets: Bit, rn: Reg, rd: Reg, b: Word, sc: Bit): State {
    var s' := Flagged(s, op, sets, rn, rd, b, sc);
    if IsCompare(op) then s' else WriteReg(s', rd, Computed(s, op, rn, b))
  }

  //////////////////////////////////////////////////////////////////////////////
  // The code
  //////////////////////////////////////////////////////////////////////////////

  /** The v argument that stands for an unaffected flag: -1 as a uint8_t. */
  const UNAFFECTED: Byte := 255

  /** The flags packed as the code packs them; UNAFFECTED clears V. */
  function Packed(low: Word, n: Bit, z: Bit, c: Bit, v: Byte): Word
    requires low < 0x1000_0000 && (v <= 1 || v == UNAFFECTED)
  {
    PackUnpack(low, Flags(n, z, c, if v == UNAFFECTED then 0 else v));
    low + Pack(Flags(n, z, c, if v == UNAFFECTED then 0 else v))
  }

  method UpdateCpsr(p: Core, dest: Word, sets: Bit, rd: Reg, c: Bit, v: Byte)
    requires p.Valid() && (v <= 1 || v == UNAFFECTED)
    modifies p.reg.cells
    ensures p.Abs() == UpdateFlags(old(p.Abs()), sets, rd,
                                   Flags(dest / 0x8000_0000, ToBit(dest == 0), c, if v == UNAFFECTED then 0 else v))
  {
    hide Bitwise, Pow2, Unreserved, Pack;
    Pow2Values();
    var n: Bit := Shr(p.platform, dest, 31) % 2;
    var z: Bit := if dest == 0 then 1 else 0;
    if sets == 1 && rd == 15 {
      var has := p.reg.CurrentModeHasSpsr();
      if has {
        var spsr := p.reg.ReadSpsr();
        p.WriteCpsr(spsr);
      }
    } else if sets == 1 {
      var cpsr := p.ReadCpsr();
      var newCpsr := Or(Or(Or(And(cpsr, 0x0FFF_FFFF), Shl(p.platform, c, 29)),
                              Shl(p.platform, n, 31)), Shl(p.platform, z, 30));
      ghost var low := cpsr % 0x1000_0000;
      AndLow(cpsr, 28, 32);
      PackNzc(p.platform, low, n, z, c);
      if v != UNAFFECTED {
        newCpsr := Or(newCpsr, Shl(p.platform, v, 28));
        PackV(p.platform, low, n, z, c, v);
      }
      p.WriteCpsr(newCpsr);
    }
  }

  /** Bit 32 of the 64-bit sum. */
  function CarryFromAdd(a: Word, b: Word): (c: Bit)
    ensures c == 1 <==> a + b >= WORD
  {
    (a + b) / WORD % 2
  }

  /** __builtin_add_overflow and __builtin_sub_overflow on uint32_t. */
  function AddOverflow(a: Word, b: Word): (Word, Bit) {
    (Plus(a, b), ToBit(a + b >= WORD))
  }

  function SubOverflow(a: Word, b: Word): (Word, Bit) {
    (Minus(a, b), ToBit(a - b < 0))
  }

  lemma AdcSums(a: Word, b: Word, c: Bit)
    ensures Plus(a, Plus(b, c)) == Plus(Plus(a, b), c) == Wrap(a + b + c)
  {
    hide Wrap;
    WrapWrap(b + c, a);
    WrapWrap(a + b, c);
  }

  lemma SbcDifferences(a: Word, b: Word, nc: int)
    requires 0 <= nc <= 1
    ensures Minus(a, Minus(b, -1 - nc)) == Minus(Wrap(a - b - nc), 1)
    ensures Minus(Minus(a, b), nc) == Wrap(a - b - nc)
    ensures Minus(b, -1 - nc) == Plus(b, 1 + nc)
  {
    WrapWrap(a, b + 1 + nc);
    WrapWrap(a - b - nc, -1);
    WrapWrap(a - b, -nc);
  }

  method AndOp(p: Core, sets: Bit, rn: Reg, rd: Reg, op2: Word, carryOut: Bit) returns (dest: Word)
    requires p.Valid()
    modifies p.reg.cells
    ensures p.Abs() == Flagged(old(p.Abs()), 0, sets, rn, rd, op2, carryOut)
    ensures dest == Computed(old(p.Abs()), 0, rn, op2)
  {
    var src := p.ReadRegister(rn);
    dest := p.ReadRegister(rd);
    UpdateCpsr(p, dest, sets, rd, carryOut, UNAFFECTED);
    dest := And(src, op2);
  }

  method Eor(p: Core, sets: Bit, rn: Reg, rd: Reg, op2: Word, carryOut: Bit) returns (dest: Word)
    requires p.Valid()
    modifies p.reg.cells
    ensures p.Abs() == Flagged(old(p.Abs()), 1, sets, rn, rd, op2, carryOut)
    ensures dest == Computed(old(p.Abs()), 1, rn, op2)
  {
    var src := p.ReadRegister(rn);
    dest := p.ReadRegister(rd);
    UpdateCpsr(p, dest, sets, rd, carryOut, UNAFFECTED);
    dest := Xor(src, op2);
  }

  method Sub(p: Core, sets: Bit, rn: Reg, rd: Reg, op2: Word, carryOut: Bit) returns (dest: Word)
    requires p.Valid()
    modifies p.reg.cells
    ensures p.Abs() == Flagged(old(p.Abs()), 2, sets, rn, rd, op2, carryOut)
    ensures dest == Computed(old(p.Abs()), 2, rn, op2)
  {
    var src := p.ReadRegister(rn);
    var c: Bit := if src < op2 then 0 else 1;
    var (difference, v) := SubOverflow(src, op2);
    dest := difference;
    UpdateCpsr(p, dest, sets, rd, c, v);
  }

  method Rsb(p: Core, sets: Bit, rn: Reg, rd: Reg, op2: Word, carryOut: Bit) returns (dest: Word)
    requires p.Valid()
    modifies p.reg.cells
    ensures p.Abs() == Flagged(old(p.Abs()), 3, sets, rn, rd, op2, carryOut)
    ensures dest == Computed(old(p.Abs()), 3, rn, op2)
  {
    var src := p.ReadRegister(rn);
    var c: Bit := if op2 < src then 0 else 1;
    var (difference, v) := SubOverflow(op2, src);
    dest := difference;
    UpdateCpsr(p, dest, sets, rd, c, v);
  }

  method Add(p: Core, sets: Bit, rn: Reg, rd: Reg, op2: Word, carryOut: Bit) returns (dest: Word)
    requires p.Valid()
    modifies p.reg.cells
    ensures p.Abs() == Flagged(old(p.Abs()), 4, sets, rn, rd, op2, carryOut)
    ensures dest == Computed(old(p.Abs()), 4, rn, op2)
  {
    hide UpdateFlags, SetFlags, ReadReg, FlagsOf, Unreserved;
    var src := p.ReadRegister(rn);
    var c := CarryFromAdd(src, op2);
    var (sum, v) := AddOverflow(src, op2);
    dest := sum;
    UpdateCpsr(p, dest, sets, rd, c, v);
  }

  /** The carry is added to the second operand in 32 bits before the carry out is taken. */
  method Adc(p: Core, sets: Bit, rn: Reg, rd: Reg, op2: Word, carryOut: Bit) returns (dest: Word)
    requires p.Valid()
    modifies p.reg.cells
    ensures p.Abs() == Flagged(old(p.Abs()), 5, sets, rn, rd, op2, carryOut)
    ensures dest == Computed(old(p.Abs()), 5, rn, op2)
  {
    hide UpdateFlags, SetFlags, ReadReg, FlagsOf, Unreserved;
    hide Wrap;
    var src := p.ReadRegister(rn);
    var cpsr := p.ReadCpsr();
    var carry := FlagsOf(cpsr).c;
    var c := CarryFromAdd(src, Plus(op2, carry));
    AdcSums(src, op2, carry);
    var (sum, v) := AddOverflow(src, Plus(op2, carry));
    dest := sum;
    UpdateCpsr(p, dest, sets, rd, c, v);
    dest := Plus(Plus(src, op2), carry);
  }

  /** The borrow is taken from op2 instead of src, and ~notCarry is -1 or -2. */
  method Sbc(p: Core, sets: Bit, rn: Reg, rd: Reg, op2: Word, carryOut: Bit) returns (dest: Word)
    requires p.Valid()
    modifies p.reg.cells
    ensures p.Abs() == Flagged(old(p.Abs()), 6, sets, rn, rd, op2, carryOut)
    ensures dest == Computed(old(p.Abs()), 6, rn, op2)
  {
    hide UpdateFlags, SetFlags, ReadReg, FlagsOf, Unreserved;
    hide Wrap;
    var src := p.ReadRegister(rn);
    var cpsr := p.ReadCpsr();
    var notCarry: int := 1 - FlagsOf(cpsr).c;
    var c: Bit := if src < Minus(op2, notCarry) then 0 else 1;
    SbcDifferences(src, op2, notCarry);
    var (difference, v) := SubOverflow(src, Minus(op2, -1 - notCarry));
    dest := difference;
    UpdateCpsr(p, dest, sets, rd, c, v);
    dest := Minus(Minus(src, op2), notCarry);
  }

  method Rsc(p: Core, sets: Bit, rn: Reg, rd: Reg, op2: Word, carryOut: Bit) returns (dest: Word)
    requires p.Valid()
    modifies p.reg.cells
    ensures p.Abs() == Flagged(old(p.Abs()), 7, sets, rn, rd, op2, carryOut)
    ensures dest == Computed(old(p.Abs()), 7, rn, op2)
  {
    hide UpdateFlags, SetFlags, ReadReg, FlagsOf, Unreserved;
    hide Wrap;
    var src := p.ReadRegister(rn);
    var cpsr := p.ReadCpsr();
    var notCarry: int := 1 - FlagsOf(cpsr).c;
    var c: Bit := if op2 < Minus(src, notCarry) then 0 else 1;
    SbcDifferences(op2, src, notCarry);
    var (difference, v) := SubOverflow(op2, Minus(src, -1 - notCarry));
    dest := difference;
    UpdateCpsr(p, dest, sets, rd, c, v);
    dest := Minus(Minus(op2, src), notCarry);
  }

  method Tst(p: Core, rn: Reg, rd: Reg, op2: Word, carryOut: Bit)
    requires p.Valid()
    modifies p.reg.cells
    ensures forall sets: Bit :: p.Abs() == Flagged(old(p.Abs()), 8, sets, rn, rd, op2, carryOut)
  {
    var src := p.ReadRegister(rn);
    UpdateCpsr(p, And(src, op2), 1, 0, carryOut, UNAFFECTED);
  }

  method Teq(p: Core, rn: Reg, rd: Reg, op2: Word, carryOut: Bit)
    requires p.Valid()
    modifies p.reg.cells
    ensures forall sets: Bit :: p.Abs() == Flagged(old(p.Abs()), 9, sets, rn, rd, op2, carryOut)
  {
    var src := p.ReadRegister(rn);
    UpdateCpsr(p, Xor(src, op2), 1, 0, carryOut, UNAFFECTED);
  }

  method Cmp(p: Core, rn: Reg, rd: Reg, op2: Word, carryOut: Bit)
    requires p.Valid()
    modifies p.reg.cells
    ensures forall sets: Bit :: p.Abs() == Flagged(old(p.Abs()), 10, sets, rn, rd, op2, carryOut)
  {
    var src := p.ReadRegister(rn);
    var c: Bit := if src < op2 then 0 else 1;
    var (aluOut, v) := SubOverflow(src, op2);
    UpdateCpsr(p, aluOut, 1, 0, c, v);
  }

  method Cmn(p: Core, rn: Reg, rd: Reg, op2: Word, carryOut: Bit)
    requires p.Valid()
    modifies p.reg.cells
    ensures forall sets: Bit :: p.Abs() == Flagged(old(p.Abs()), 11, sets, rn, rd, op2, carryOut)
  {
    hide SetFlags, ReadReg, FlagsOf, Unreserved;
    var src := p.ReadRegister(rn);
    var c := CarryFromAdd(src, op2);
    var (aluOut, v) := AddOverflow(src, op2);
    UpdateCpsr(p, aluOut, 1, 0, c, v);
  }

  method Orr(p: Core, sets: Bit, rn: Reg, rd: Reg, op2: Word, carryOut: Bit) returns (dest: Word)
    requires p.Valid()
    modifies p.reg.cells
    ensures p.Abs() == Flagged(old(p.Abs()), 12, sets, rn, rd, op2, carryOut)
    ensures dest == Computed(old(p.Abs()), 12, rn, op2)
  {
    var src := p.ReadRegister(rn);
    dest := Or(src, op2);
    UpdateCpsr(p, dest, sets, rd, carryOut, UNAFFECTED);
  }

  method Mov(p: Core, sets: Bit, rn: Reg, rd: Reg, op2: Word, carryOut: Bit) returns (dest: Word)
    requires p.Valid()
    modifies p.reg.cells
    ensures p.Abs() == Flagged(old(p.Abs()), 13, sets, rn, rd, op2, carryOut)
    ensures dest == Computed(old(p.Abs()), 13, rn, op2)
  {
    dest := op2;
    UpdateCpsr(p, dest, sets, rd, carryOut, UNAFFECTED);
  }

  method Bic(p: Core, sets: Bit, rn: Reg, rd: Reg, op2: Word, carryOut: Bit) returns (dest: Word)
    requires p.Valid()
    modifies p.reg.cells
    ensures p.Abs() == Flagged(old(p.Abs()), 14, sets, rn, rd, op2, carryOut)
    ensures dest == Computed(old(p.Abs()), 14, rn, op2)
  {
    var src := p.ReadRegister(rn);
    dest := And(src, Not(op2));
    UpdateCpsr(p, dest, sets, rd, carryOut, UNAFFECTED);
  }

  method Mvn(p: Core, sets: Bit, rn: Reg, rd: Reg, op2: Word, carryOut: Bit) returns (dest: Word)
    requires p.Valid()
    modifies p.reg.cells
    ensures p.Abs() == Flagged(old(p.Abs()), 15, sets, rn, rd, op2, carryOut)
    ensures dest == Computed(old(p.Abs()), 15, rn, op2)
  {
    dest := Not(op2);
    UpdateCpsr(p, dest, sets, rd, carryOut, UNAFFECTED);
  }

  //////////////////////////////////////////////////////////////////////////////
  // The flag word assembled by OR is the sum of its fields
  //////////////////////////////////////////////////////////////////////////////

  lemma PackNzc(p: Platform, low: Word, n: Bit, z: Bit, c: Bit)
    requires low < 0x1000_0000
    ensures Or(Or(Or(low, Shl(p, c, 29)), Shl(p, n, 31)), Shl(p, z, 30)) == low + Pack(Flags(n, z, c, 0))
  {
    hide Bitwise, Pow2;
    Pow2Values();
    var nBit: int, zBit: int, cBit: int := n, z, c;
    ShlBit(p, c, 29, 0x2000_0000);
    ShlBit(p, n, 31, 0x8000_0000);
    ShlBit(p, z, 30, 0x4000_0000);
    OrNibble(low, 0, 2 * cBit);
    OrNibble(low, 2 * cBit, 8 * nBit);
    OrNibble(low, 2 * cBit + 8 * nBit, 4 * zBit);
    NibbleOrs(n, z, c, 0);
  }

  lemma PackV(p: Platform, low: Word, n: Bit, z: Bit, c: Bit, v: Bit)
    requires low < 0x1000_0000
    ensures low + Pack(Flags(n, z, c, 0)) < WORD
    ensures Or(low + Pack(Flags(n, z, c, 0)), Shl(p, v, 28)) == low + Pack(Flags(n, z, c, v))
  {
    hide Bitwise, Pow2;
    Pow2Values();
    var nBit: int, zBit: int, cBit: int := n, z, c;
    ShlBit(p, v, 28, 0x1000_0000);
    OrNibble(low, 2 * cBit + 8 * nBit + 4 * zBit, v);
    NibbleOrs(n, z, c, v);
  }

  lemma ShlBit(p: Platform, b: Bit, n: nat, w: nat)
    requires n < 32 && w == Pow2(n) < WORD
    ensures Shl(p, b, n) == if b == 1 then w else 0
  {
  }

  /** OR on words that agree below bit 28 with a word and with zero acts on the top nibbles. */
  lemma OrNibble(low: nat, t: nat, u: nat)
    requires low < 0x1000_0000 && t < 16 && u < 16
    ensures Or(low + 0x1000_0000 * t, 0x1000_0000 * u) == low + 0x1000_0000 * Bitwise(OR, t, u, 4)
  {
    hide Bitwise, Pow2, Low, High, Join;
    Pow2Values();
    JoinIs(low, t, 28, 0x1000_0000);
    JoinIs(0, u, 28, 0x1000_0000);
    JoinParts(low, t, 28);
    JoinParts(0, u, 28);
    BitwiseSplit(OR, Join(low, t, 28), Join(0, u, 28), 28, 32);
    WithZero(low, 28);
    Narrow(low, 28);
    JoinIs(low, Bitwise(OR, t, u, 4), 28, 0x1000_0000);
  }

  lemma NibbleOrs(n: Bit, z: Bit, c: Bit, v: Bit)
    ensures var nBit: int, zBit: int, cBit: int := n, z, c;
      Bitwise(OR, 0, 2 * cBit, 4) == 2 * cBit
      && Bitwise(OR, 2 * cBit, 8 * nBit, 4) == 2 * cBit + 8 * nBit
      && Bitwise(OR, 2 * cBit + 8 * nBit, 4 * zBit, 4) == 2 * cBit + 8 * nBit + 4 * zBit
      && Bitwise(OR, 2 * cBit + 8 * nBit + 4 * zBit, v, 4) == 2 * cBit + 8 * nBit + 4 * zBit + v
  {
    hide Bitwise, Low, High, Join;
    var nBit: int, zBit: int, cBit: int := n, z, c;
    WithZero(2 * cBit, 4);
    Narrow(2 * cBit, 4);
    OrDisjoint(2 * cBit, n, 8 * nBit, 3, 8, 4);
    BitwiseStep(OR, 2 * cBit + 8 * nBit, 4 * zBit, 4);
    BitwiseStep(OR, cBit + 4 * nBit, 2 * zBit, 3);
    OrDisjoint(z, n, 2 * nBit, 1, 2, 2);
    OrDisjoint(v, cBit + 4 * nBit + 2 * zBit, 2 * cBit + 8 * nBit + 4 * zBit, 1, 2, 4);
  }
}

/** What a data-processing instruction does, read off the instruction word by division and off the
    cells of the register file, without the decoding functions of the model. */
module Effects {
  import opened Words
  import opened Machine
  import opened Alu
  import opened Shifter
  import opened Conditions
  import opened DataProcessing
  import opened BarrelShifter
  import opened ManualFlags
  import Forms

  //////////////////////////////////////////////////////////////////////////////
  // Reading the word, the flags and the registers
  //////////////////////////////////////////////////////////////////////////////

  lemma Decoded(ins: Word)
    ensures CondOf(ins) == ins / 0x1000_0000 && Field(ins, 25, 3) == ins / 0x200_0000 % 8
    ensures IsImmediate(ins) <==> ins / 0x200_0000 % 2 == 1
    ensures OpcodeOf(ins) == ins / 0x20_0000 % 0x10 && SetsOf(ins) == ins / 0x10_0000 % 2
    ensures RnOf(ins) == ins / 0x1_0000 % 0x10 && RdOf(ins) == ins / 0x1000 % 0x10
    ensures Field(ins, 8, 4) == ins / 0x100 % 0x10 && Field(ins, 0, 4) == ins % 0x10 && Field(ins, 0, 8) == ins % 0x100
    ensures Field(ins, 4, 1) == ins / 0x10 % 2 && Field(ins, 5, 2) == ins / 0x20 % 4 && Field(ins, 7, 5) == ins / 0x80 % 0x20
  {
    hide Field, High, Pow2;
    DecodePowers();
    assert Pow2(2) == 4 && Pow2(5) == 0x20 && Pow2(7) == 0x80 && Pow2(8) == 0x100 by { SmallPowers(); }
    FieldValue(ins, 28, 0x1000_0000, 4, 0x10);
    FieldValue(ins, 25, 0x200_0000, 3, 8);
    BitValue(ins, 25, 0x200_0000);
    FieldValue(ins, 21, 0x20_0000, 4, 0x10);
    FieldValue(ins, 20, 0x10_0000, 1, 2);
    FieldValue(ins, 16, 0x1_0000, 4, 0x10);
    FieldValue(ins, 12, 0x1000, 4, 0x10);
    FieldValue(ins, 8, 0x100, 4, 0x10);
    FieldValue(ins, 0, 1, 4, 0x10);
    FieldValue(ins, 0, 1, 8, 0x100);
    FieldValue(ins, 4, 0x10, 1, 2);
    FieldValue(ins, 5, 0x20, 2, 4);
    FieldValue(ins, 7, 0x80, 5, 0x20);
  }

  lemma SmallPowers()
    ensures Pow2(2) == 4 && Pow2(5) == 0x20 && Pow2(7) == 0x80 && Pow2(8) == 0x100
  {
  }

  /** The flags are bits 31..28 of cell 16, masked or not. */
  lemma FlagCells(s: State)
    ensures StateFlags(s) == Flags(s.regs[16] / 0x8000_0000, s.regs[16] / 0x4000_0000 % 2,
                                   s.regs[16] / 0x2000_0000 % 2, s.regs[16] / 0x1000_0000 % 2)
  {
    hide Unreserved;
    var v := s.regs[16];
    UnreservedParts(v);
    TopNibble(v);
    TopNibble(Unreserved(v));
  }

  lemma TopNibble(v: Word)
    ensures v / 0x8000_0000 == v / 0x100_0000 / 0x80 && v / 0x4000_0000 == v / 0x100_0000 / 0x40
    ensures v / 0x2000_0000 == v / 0x100_0000 / 0x20 && v / 0x1000_0000 == v / 0x100_0000 / 0x10
  {
    DivDiv(v, 0x100_0000, 0x80);
    DivDiv(v, 0x100_0000, 0x40);
    DivDiv(v, 0x100_0000, 0x20);
    DivDiv(v, 0x100_0000, 0x10);
  }

  /** A register reads as its cell; the pc as its cell plus 4, modulo 2^32, without bit 1. */
  lemma RegisterReads(s: State, r: Reg)
    ensures r != 15 ==> ReadReg(s, r) == s.regs[r]
    ensures var pc := (s.regs[15] as int + 4) % WORD;
      r == 15 ==> ReadReg(s, 15) / 4 == pc / 4 && ReadReg(s, 15) % 4 == pc % 2
  {
  }

  //////////////////////////////////////////////////////////////////////////////
  // Registers after a data-processing instruction
  //////////////////////////////////////////////////////////////////////////////

  /** x is the value the operation writes: an integer sum or difference modulo 2^32, or the gate of
      the operation on every bit. */
  ghost predicate IsResult(op: nat, a: Word, b: Word, c: Bit, x: Word) {
    match op
    case 2 => (a - b - x) % WORD == 0
    case 3 => (b - a - x) % WORD == 0
    case 4 => (a + b - x) % WORD == 0
    case 5 => (a + b + c - x) % WORD == 0
    case 6 => (a - b + c - 1 - x) % WORD == 0
    case 7 => (b - a + c - 1 - x) % WORD == 0
    case 13 => x == b
    case _ => forall i: nat :: i < 32 ==> BitsOfResult(op, BitAt(a, i), BitAt(b, i), BitAt(x, i))
  }

  lemma ResultIs(op: Opcode, a: Word, b: Word, c: Bit)
    ensures IsResult(op, a, b, c, Result(op, a, b, c))
  {
    hide Wrap, BitAt;
    var r, x: int, y: int, nc: int := Result(op, a, b, c), a, b, 1 - c;
    if IsLogical(op) {
      hide And, Or, Xor, Not;
      forall i: nat | i < 32
        ensures BitsOfResult(op, BitAt(a, i), BitAt(b, i), BitAt(r, i))
      {
        LogicalBits(a, b, c, i);
      }
    } else {
      Congruent(x - y);
      Congruent(y - x);
      Congruent(x + y);
      Congruent(x + y + 1 - nc);
      Congruent(x - y - nc);
      Congruent(y - x - nc);
    }
  }

  /** One bit of a logical result. */
  predicate BitsOfResult(op: nat, a: Bit, b: Bit, x: Bit) {
    x == 1 <==>
      match op
      case 0 => a == 1 && b == 1
      case 1 => a != b
      case 12 => a == 1 || b == 1
      case 14 => a == 1 && b == 0
      case 15 => b == 0
      case _ => x == 1
  }

  lemma Congruent(t: int)
    ensures (t - Wrap(t)) % WORD == 0
  {
    DivUnique(t - t % WORD, WORD, t / WORD, 0);
  }

  /** Every data-processing instruction, with either S and any rd: a compare keeps r0..r15, any
      other operation writes its result to rd and keeps the other fifteen; S = 0 outside the
      compares keeps the CPSR cell; the SPSR cell, the memory and the cycle count stay. */
  lemma RegistersAfter(p: Platform, s: State, ins: Word)
    ensures var op, rn: Reg, rd: Reg := ins / 0x20_0000 % 0x10, ins / 0x1_0000 % 0x10, ins / 0x1000 % 0x10;
      var compare, sets := 8 <= op < 12, ins / 0x10_0000 % 2;
      var t, c: Bit := Process(p, s, ins), s.regs[16] / 0x2000_0000 % 2;
      && (compare ==> forall r: Reg :: t.regs[r] == s.regs[r])
      && (!compare ==> IsResult(op, ReadReg(s, rn), Operand(p, s, ins).0, c, t.regs[rd]))
      && (!compare ==> forall r: Reg :: r != rd ==> t.regs[r] == s.regs[r])
      && (!compare && sets == 0 ==> t.regs[16] == s.regs[16])
      && t.regs[17] == s.regs[17] && t.mem == s.mem && t.cycles == s.cycles
  {
    hide ReadReg, StateFlags, NewFlags, Operand, Result, IsResult, Unreserved, Pack, Process;
    Decoded(ins);
    FlagCells(s);
    ProcessIs(p, s, ins);
    ResultIs(OpcodeOf(ins), ReadReg(s, RnOf(ins)), Operand(p, s, ins).0, StateFlags(s).c);
  }

  //////////////////////////////////////////////////////////////////////////////
  // Flags after a data-processing instruction
  //////////////////////////////////////////////////////////////////////////////

  /** Cell 16 after the flags are set: they are in bits 31..28, and the bits below are those read
      before. */
  ghost predicate FlagsLeft(before: Word, after: Word, n: bool, z: bool, c: bool, v: bool) {
    && (after / 0x8000_0000 == 1 <==> n) && (after / 0x4000_0000 % 2 == 1 <==> z)
    && (after / 0x2000_0000 % 2 == 1 <==> c) && (after / 0x1000_0000 % 2 == 1 <==> v)
    && forall i: nat :: i < 28 ==> BitAt(after, i) == if 10 <= i < 16 || 20 <= i < 24 then 0 else BitAt(before, i)
  }

  lemma SetFlagsLeaves(s: State, f: Flags)
    ensures FlagsLeft(s.regs[16], SetFlags(s, f).regs[16], f.n == 1, f.z == 1, f.c == 1, f.v == 1)
  {
    hide Unreserved, Pack, FlagsOf, BitAt, StateFlags;
    FlagsRoundTrip(s, f);
    FlagCells(SetFlags(s, f));
    var before, after := s.regs[16], SetFlags(s, f).regs[16];
    UnreservedTwice(Cpsr(s) % 0x1000_0000 + Pack(f));
    assert after % 0x1000_0000 == Unreserved(before) % 0x1000_0000;
    forall i: nat | i < 28
      ensures BitAt(after, i) == if 10 <= i < 16 || 20 <= i < 24 then 0 else BitAt(before, i)
    {
      Pow2Values();
      LowBits(after, i, 28, 0x1000_0000);
      LowBits(Unreserved(before), i, 28, 0x1000_0000);
      UnreservedBits(before, i);
    }
  }

  /** The compares, whatever S and rd are. TST and TEQ look at the bits of both operands, CMP and CMN
      at their integer difference and sum; sc is the shifter carry. */
  ghost predicate CompareLeaves(op: nat, a: Word, b: Word, sc: Bit, before: Word, after: Word) {
    match op
    case 8 => FlagsLeft(before, after, BitAt(a, 31) == 1 && BitAt(b, 31) == 1,
                        forall i: nat :: i < 32 ==> !(BitAt(a, i) == 1 && BitAt(b, i) == 1), sc == 1, false)
    case 9 => FlagsLeft(before, after, BitAt(a, 31) != BitAt(b, 31), a == b, sc == 1, false)
    case 10 => FlagsLeft(before, after, 0 <= a - b - 0x8000_0000 || -0x8000_0000 <= a - b < 0, a == b, a >= b, a < b)
    case 11 => FlagsLeft(before, after, 0x8000_0000 <= a + b < WORD || 0x1_8000_0000 <= a + b,
                         a + b == 0 || a + b == WORD, a + b >= WORD, a + b >= WORD)
    case _ => true
  }

  lemma CompareFlags(p: Platform, s: State, ins: Word)
    ensures var op, rn: Reg := ins / 0x20_0000 % 0x10, ins / 0x1_0000 % 0x10;
      var (b, sc) := Operand(p, s, ins);
      CompareLeaves(op, ReadReg(s, rn), b, sc, s.regs[16], Process(p, s, ins).regs[16])
  {
    hide ReadReg, StateFlags, Operand, SetFlags, Process, FlagsLeft, Result, BitAt;
    Decoded(ins);
    var (b, sc) := Operand(p, s, ins);
    var op, a, c, old_ := OpcodeOf(ins), ReadReg(s, RnOf(ins)), StateFlags(s).c, ReadReg(s, RdOf(ins));
    var f := NewFlags(op, a, b, c, sc, old_);
    ProcessIs(p, s, ins);
    SetFlagsLeaves(s, f);
    if IsCompare(op) { TestedBits(op, a, b, c); }
  }

  /** The sign and the zero test of the four compared values. */
  lemma TestedBits(op: Opcode, a: Word, b: Word, c: Bit)
    requires IsCompare(op)
    ensures var r := Result(op, a, b, c);
      && (op == 8 ==> (r / 0x8000_0000 == 1 <==> BitAt(a, 31) == 1 && BitAt(b, 31) == 1))
      && (op == 8 ==> (r == 0 <==> forall i: nat :: i < 32 ==> !(BitAt(a, i) == 1 && BitAt(b, i) == 1)))
      && (op == 9 ==> (r / 0x8000_0000 == 1 <==> BitAt(a, 31) != BitAt(b, 31)) && (r == 0 <==> a == b))
      && (op == 10 ==> (r / 0x8000_0000 == 1 <==> (0 <= a - b - 0x8000_0000 || -0x8000_0000 <= a - b < 0)) && (r == 0 <==> a == b))
      && (op == 11 ==> (r / 0x8000_0000 == 1 <==> (0x8000_0000 <= a + b < WORD || 0x1_8000_0000 <= a + b)))
      && (op == 11 ==> (r == 0 <==> a + b == 0 || a + b == WORD))
  {
    hide BitAt, Bitwise;
    if op == 8 {
      TopBit(And(a, b));
      ZeroIffNoBit(And(a, b));
      forall i: nat | i < 32
        ensures BitAt(And(a, b), i) == 1 <==> BitAt(a, i) == 1 && BitAt(b, i) == 1
      {
        BitwiseBit(AND, a, b, i, 32);
      }
    } else if op == 9 {
      TopBit(Xor(a, b));
      ZeroIffNoBit(Xor(a, b));
      forall i: nat | i < 32
        ensures BitAt(Xor(a, b), i) == 1 <==> BitAt(a, i) != BitAt(b, i)
      {
        BitwiseBit(XOR, a, b, i, 32);
      }
      Pow2Values();
      if forall i: nat :: i < 32 ==> BitAt(a, i) == BitAt(b, i) { SameBits(a, b, 32); }
    }
  }

  lemma TopBit(x: Word)
    ensures BitAt(x, 31) == x / 0x8000_0000
  {
    hide BitAt;
    Pow2Values();
    BitValue(x, 31, 0x8000_0000);
  }

  lemma ZeroIffNoBit(x: Word)
    ensures x == 0 <==> forall i: nat :: i < 32 ==> BitAt(x, i) != 1
  {
    hide BitAt;
    Pow2Values();
    forall i: nat | i < 32
      ensures BitAt(0, i) == 0
    {
      NoBit(i);
    }
    if forall i: nat :: i < 32 ==> BitAt(x, i) != 1 { SameBits(x, 0, 32); }
  }

  lemma NoBit(i: nat)
    ensures BitAt(0, i) == 0
  {
    ZeroBits(i);
  }

  /** A number is determined by its bits. */
  lemma {:induction false} SameBits(x: nat, y: nat, n: nat)
    requires x < Pow2(n) && y < Pow2(n) && forall i: nat :: i < n ==> BitAt(x, i) == BitAt(y, i)
    ensures x == y
  {
    if n == 0 {
    } else {
      forall i: nat | i < n - 1
        ensures BitAt(x / 2, i) == BitAt(y / 2, i)
      {
        assert BitAt(x, i + 1) == BitAt(y, i + 1);
      }
      SameBits(x / 2, y / 2, n - 1);
      assert BitAt(x, 0) == BitAt(y, 0);
    }
  }

  /** N and Z of an operation with S = 1 that writes rd (not the pc) are the sign and the zero test
      of the value written, except for AND and EOR, which test the old rd, and for SBC and RSC,
      which test one less than the value; C and V are those of the unsigned operation as coded, and of
      a logical one the shifter carry and 0. On the pc the cell becomes all ones under the mask. */
  lemma WrittenFlags(p: Platform, s: State, ins: Word)
    requires !(8 <= ins / 0x20_0000 % 0x10 < 12) && ins / 0x10_0000 % 2 == 1
    ensures var op, rn: Reg, rd: Reg := ins / 0x20_0000 % 0x10, ins / 0x1_0000 % 0x10, ins / 0x1000 % 0x10;
      var t, a, (b, sc), c: Bit := Process(p, s, ins), ReadReg(s, rn), Operand(p, s, ins), s.regs[16] / 0x2000_0000 % 2;
      var x := t.regs[rd];
      if rd == 15 then t.regs[16] == 0xFF0F_03FF
      else FlagsLeft(s.regs[16], t.regs[16], WrittenSign(op, s.regs[rd], x), WrittenZero(op, s.regs[rd], x),
                     WrittenCarry(op, a, b, c, sc), WrittenOverflow(op, a, b, c))
  {
    hide ReadReg, StateFlags, Operand, SetFlags, Process, FlagsLeft, Result, NewFlags, WriteCpsr;
    hide WrittenSign, WrittenZero, WrittenCarry, WrittenOverflow;
    Decoded(ins);
    FlagCells(s);
    var (b, sc) := Operand(p, s, ins);
    var op, rd, a, c, old_ := OpcodeOf(ins), RdOf(ins), ReadReg(s, RnOf(ins)), StateFlags(s).c, ReadReg(s, RdOf(ins));
    ProcessIs(p, s, ins);
    if rd == 15 {
      AllOnes(s);
    } else {
      RegisterReads(s, rd);
      SetFlagsLeaves(s, NewFlags(op, a, b, c, sc, old_));
      WrittenFlagsAre(op, a, b, c, sc, old_);
    }
  }

  lemma AllOnes(s: State)
    ensures WriteCpsr(s, 0xFFFF_FFFF).regs[16] == 0xFF0F_03FF
  {
  }

  predicate WrittenSign(op: nat, oldRd: Word, x: Word) {
    if op < 2 then oldRd >= 0x8000_0000 else if op == 6 || op == 7 then x == 0 || x > 0x8000_0000 else x >= 0x8000_0000
  }

  predicate WrittenZero(op: nat, oldRd: Word, x: Word) {
    if op < 2 then oldRd == 0 else if op == 6 || op == 7 then x == 1 else x == 0
  }

  predicate WrittenCarry(op: nat, a: Word, b: Word, c: Bit, sc: Bit) {
    match op
    case 2 => a >= b
    case 3 => b >= a
    case 4 => a + b >= WORD
    case 5 => a + b + c >= WORD && !(b == MAX && c == 1)
    case 6 => if c == 1 then a >= b else if b == 0 then a == MAX else a + 1 >= b
    case 7 => if c == 1 then b >= a else if a == 0 then b == MAX else b + 1 >= a
    case _ => sc == 1
  }

  predicate WrittenOverflow(op: nat, a: Word, b: Word, c: Bit) {
    match op
    case 2 => a < b
    case 3 => b < a
    case 4 => a + b >= WORD
    case 5 => a + b + c >= WORD && !(b == MAX && c == 1)
    case 6 => a < (b + 2 - c) % WORD
    case 7 => b < (a + 2 - c) % WORD
    case _ => false
  }

  lemma WrittenFlagsAre(op: Opcode, a: Word, b: Word, c: Bit, sc: Bit, oldRd: Word)
    requires !IsCompare(op)
    ensures var f, x := NewFlags(op, a, b, c, sc, oldRd), Result(op, a, b, c);
      && (f.n == 1 <==> WrittenSign(op, oldRd, x)) && (f.z == 1 <==> WrittenZero(op, oldRd, x))
      && (f.c == 1 <==> WrittenCarry(op, a, b, c, sc)) && (f.v == 1 <==> WrittenOverflow(op, a, b, c))
  {
    hide Result, Wrap, CarryFlag, OverflowFlag, WrittenCarry, WrittenOverflow;
    WrapSum(Result(op, a, b, c) - 1);
    WrittenCarryIs(op, a, b, c, sc);
    WrittenOverflowIs(op, a, b, c);
  }

  lemma WrittenCarryIs(op: Opcode, a: Word, b: Word, c: Bit, sc: Bit)
    requires !IsCompare(op)
    ensures CarryFlag(op, a, b, c, sc) == 1 <==> WrittenCarry(op, a, b, c, sc)
  {
    hide Wrap;
    WrapSum(b + c);
    WrapSum(b - (1 - c));
    WrapSum(a - (1 - c));
  }

  lemma WrittenOverflowIs(op: Opcode, a: Word, b: Word, c: Bit)
    requires !IsCompare(op)
    ensures OverflowFlag(op, a, b, c) == 1 <==> WrittenOverflow(op, a, b, c)
  {
    hide Wrap;
    WrapSum(b + c);
    assert Plus(b, 2 - c) == (b + 2 - c) % WORD && Plus(a, 2 - c) == (a + 2 - c) % WORD by { WrapIs(b + 2 - c); WrapIs(a + 2 - c); }
  }

  lemma WrapSum(t: int)
    requires -1 <= t <= WORD
    ensures Wrap(t) == if t < 0 then MAX else if t == WORD then 0 else t
  {
  }

  lemma WrapIs(t: int)
    ensures Wrap(t) == t % WORD
  {
  }

  //////////////////////////////////////////////////////////////////////////////
  // The shifter operand
  //////////////////////////////////////////////////////////////////////////////

  /** The register form: mode in bits 6..5, rm in bits 3..0, and the amount in bits 11..7 or, with
      bit 4 set, in the low byte of the register of bits 11..8. */
  lemma RegisterOperand(p: Platform, s: State, ins: Word)
    requires ins / 0x200_0000 % 2 == 0
    ensures var mode: Mode, rm: Reg, c: Bit := ins / 0x20 % 4, ins % 0x10, s.regs[16] / 0x2000_0000 % 2;
      var x, (b, sc) := ReadReg(s, rm), Operand(p, s, ins);
      if ins / 0x10 % 2 == 0 then
        var n := ins / 0x80 % 0x20;
        && (n > 0 ==> (b, sc) == Steps(mode, x, c, n))
        && (n == 0 && mode == 0 ==> (b, sc) == (x, c))
        && (n == 0 && mode == 1 ==> b == x && sc == Steps(1, x, c, 32).1)
        && (n == 0 && mode == 2 ==> (b, sc) == Steps(2, x, c, 32))
        && (n == 0 && mode == 3 ==> (if c == 1 then b == x / 2 + 0x8000_0000 else b == x / 2) && sc == x % 2)
      else
        var rs: Reg := ins / 0x100 % 0x10;
        var n := ReadReg(s, rs) % 0x100;
        && (0 < n < 32 ==> b == Steps(mode, x, c, n).0)
        && (0 < n < 32 && (mode != 3 || n < 16) ==> sc == Steps(mode, x, c, n).1)
        && (n == 0 ==> sc == c) && (n == 0 && mode < 2 ==> b == x)
        && (n == 32 ==> mode < 3 ==> sc == if mode == 0 then x % 2 else if mode == 1 then x / 0x8000_0000 else 0)
        && (n > 32 ==> mode < 3 ==> sc == 0)
  {
    hide ReadReg, StateFlags, Steps, ImmediateShift, RegisterShift, Field;
    Decoded(ins);
    FlagCells(s);
    var mode: Mode, rm: Reg, c := ins / 0x20 % 4, ins % 0x10, StateFlags(s).c;
    var x := ReadReg(s, rm);
    if ins / 0x10 % 2 == 0 {
      ImmediateIsSteps(mode, x, ins / 0x80 % 0x20, c);
      UnshiftedAmounts(x, c);
    } else {
      var rs: Reg := ins / 0x100 % 0x10;
      var n := ReadReg(s, rs) % 0x100;
      if 0 < n < 32 {
        RegisterIsSteps(p, mode, x, n, c);
        if n < 16 { RorCarryRight(p, x, n, c); }
      } else {
        FarAmounts(p, mode, x, n, c);
      }
    }
  }

  lemma UnshiftedAmounts(x: Word, c: Bit)
    ensures ImmediateShift(0, x, 0, c) == (x, c) && ImmediateShift(1, x, 0, c).0 == x
    ensures var (b, sc) := ImmediateShift(3, x, 0, c);
      (if c == 1 then b == x / 2 + 0x8000_0000 else b == x / 2) && sc == x % 2
  {
  }

  lemma FarAmounts(p: Platform, mode: Mode, x: Word, n: Byte, c: Bit)
    requires n == 0 || n >= 32
    ensures var (b, sc) := RegisterShift(p, mode, x, n, c);
      && (n == 0 ==> sc == c && (mode < 2 ==> b == x))
      && (n == 32 ==> mode < 3 ==> sc == if mode == 0 then x % 2 else if mode == 1 then x / 0x8000_0000 else 0)
      && (n > 32 ==> mode < 3 ==> sc == 0)
  {
    hide Asr, Ror;
    assert Pow2(0) == 1;
  }

  /** The immediate form: an 8-bit field rotated right, one bit at a time, by twice the field in
      bits 11..8; unrotated it keeps the C flag. */
  lemma RotatedOperand(p: Platform, s: State, ins: Word)
    requires ins / 0x200_0000 % 2 == 1
    ensures var imm: Word, r, c: Bit := ins % 0x100, ins / 0x100 % 0x10, s.regs[16] / 0x2000_0000 % 2;
      && (r > 0 ==> Operand(p, s, ins) == Steps(3, imm, c, 2 * r))
      && (r == 0 ==> Operand(p, s, ins).1 == c && (p.shl(imm, 32) in {0, imm} ==> Operand(p, s, ins).0 == imm))
  {
    hide StateFlags, Steps, ImmediateOperand, Field;
    Decoded(ins);
    FlagCells(s);
    if ins / 0x100 % 0x10 > 0 {
      Forms.ImmediateIsRotation(p, s, ins);
    } else {
      Forms.UnrotatedImmediate(p, s, ins);
    }
  }
}

/** The shifter operand (arm_data_processing.c, shift and rotate). */
module Shifter {
  import opened Words
  import opened Machine
  import opened ArmCore

  const LSL := 0
  const LSR := 1
  const ASR := 2
  const ROR := 3

  /** A shift mode: bits 6..5 of a register-form instruction. */
  type Mode = m: int | 0 <= m < 4

  //////////////////////////////////////////////////////////////////////////////
  // What the code computes
  //////////////////////////////////////////////////////////////////////////////

  /** The value of a shift by less than 32. */
  function Shifted(mode: Mode, x: Word, n: nat): Word
    requires n < 32
  {
    match mode
    case 0 => Wrap(x * Pow2(n))
    case 1 => DivBound(x, Pow2(n)); x / Pow2(n)
    case 2 => Wrap(Signed(x) / Pow2(n))
    case 3 => Wrap(x / Pow2(n) + x % Pow2(n) * Pow2(32 - n))
  }

  /** The last bit shifted out by a shift by 1..31. */
  function LastOut(mode: Mode, x: Word, n: nat): Bit
    requires 0 < n < 32
  {
    BitAt(x, if mode == LSL then 32 - n else n - 1)
  }

  /** A shift whose amount is the 5-bit field n of the instruction: 0 means LSL #0, an unshifted
      LSR, ASR #32 and RRX respectively. */
  function ImmediateShift(mode: Mode, x: Word, n: nat, c: Bit): (Word, Bit)
    requires n < 32
  {
    if n > 0 then (Shifted(mode, x, n), LastOut(mode, x, n))
    else match mode
      case 0 => (x, c)
      case 1 => (x, x / 0x8000_0000)
      case 2 => (if x < 0x8000_0000 then 0 else 0xFFFF_FFFF, x / 0x8000_0000)
      case 3 => RotateExtend(x, c)
  }

  /** RRX: the carry enters at the top and bit 0 leaves. */
  function RotateExtend(x: Word, c: Bit): (Word, Bit) {
    var top: int := c;
    (x / 2 + top * 0x8000_0000, x % 2)
  }

  /** A shift whose amount is the low byte of a register. Outside 1..31 the value is what the
      host makes of the C shifts. */
  function RegisterShift(p: Platform, mode: Mode, x: Word, n: Byte, c: Bit): (Word, Bit) {
    if 0 < n < 32 then (Shifted(mode, x, n), if mode == ROR then GetBit(p, x, n % 16 - 1) else LastOut(mode, x, n))
    else match mode
      case 0 => (Shl(p, x, n), if n == 0 then c else if n == 32 then x % 2 else 0)
      case 1 => (Shr(p, x, n), if n == 0 then c else if n == 32 then x / 0x8000_0000 else 0)
      case 2 => (Asr(p, x, n), if n == 0 then c else 0)
      case 3 => (Ror(p, x, n), if n == 0 then c else GetBit(p, x, n % 16 - 1))
  }

  /** The second operand and the shifter carry of a register-form instruction. */
  function ShifterOperand(p: Platform, s: State, ins: Word): (Word, Bit) {
    Pow2Values();
    var mode: Mode, rm: Reg, c := Field(ins, 5, 2), Field(ins, 0, 4), StateFlags(s).c;
    if Field(ins, 4, 1) == 0 then
      ImmediateShift(mode, ReadReg(s, rm), Field(ins, 7, 5), c)
    else
      RegisterShift(p, mode, ReadReg(s, rm), ReadReg(s, Field(ins, 8, 4)) % 0x100, c)
  }

  /** The second operand and the shifter carry of an immediate-form instruction. */
  function ImmediateOperand(p: Platform, s: State, ins: Word): (Word, Bit) {
    Pow2Values();
    var imm: Byte, r := Field(ins, 0, 8), Field(ins, 8, 4);
    var value := Or(Shr(p, imm, 2 * r), Shl(p, imm, 32 - 2 * r));
    (value, if r == 0 then StateFlags(s).c else value / 0x8000_0000)
  }

  //////////////////////////////////////////////////////////////////////////////
  // The code
  //////////////////////////////////////////////////////////////////////////////

  method Shift(p: Core, ins: Word) returns (value: Word, carryOut: Bit)
    requires p.Valid()
    ensures (value, carryOut) == ShifterOperand(p.platform, p.Abs(), ins)
  {
    hide Field, Unreserved, Low, High, Bitwise;
    Pow2Values();
    var rm: Reg := Field(ins, 0, 4);
    var cpsr := p.ReadCpsr();
    var carry := FlagsOf(cpsr).c;
    var mode: Mode := Field(ins, 5, 2);
    value := p.ReadRegister(rm);
    var x := value;
    if Field(ins, 4, 1) == 0 {
      var imm := Field(ins, 7, 5);
      if mode == LSL && imm == 0 { return value, carry; }
      value, carryOut := ShiftByImmediate(p.platform, mode, x, imm, carry);
    } else {
      var rs := p.ReadRegister(Field(ins, 8, 4));
      value, carryOut := ShiftByRegister(p.platform, mode, x, rs % 0x100, carry);
    }
  }

  method ShiftByImmediate(p: Platform, mode: Mode, x: Word, imm: nat, carry: Bit) returns (value: Word, carryOut: Bit)
    requires imm < 32
    ensures (value, carryOut) == ImmediateShift(mode, x, imm, carry)
  {
    match mode
    case 0 =>
      value := Shl(p, x, imm);
      if imm == 0 {
        value, carryOut := x, carry;
      } else {
        carryOut := GetBit(p, x, 32 - imm);
        LowHigh(x, 32 - imm, Pow2(32 - imm));
      }
    case 1 =>
      value := Shr(p, x, imm);
      if imm == 0 {
        Pow2Values();
        carryOut := GetBit(p, x, 31);
      } else {
        carryOut := GetBit(p, x, imm - 1);
        LowHigh(x, imm - 1, Pow2(imm - 1));
      }
    case 2 =>
      value := Asr(p, x, imm);
      if imm == 0 {
        Pow2Values();
        if GetBit(p, x, 31) == 0 {
          value := 0;
          carryOut := GetBit(p, x, 31);
        } else {
          value := 0xFFFF_FFFF;
          carryOut := GetBit(p, x, 31);
        }
      } else {
        carryOut := GetBit(p, x, imm - 1);
        LowHigh(x, imm - 1, Pow2(imm - 1));
        AsrIs(p, x, imm);
      }
    case 3 =>
      if imm != 0 {
        value := Ror(p, x, imm);
        carryOut := GetBit(p, x, imm - 1);
        LowHigh(x, imm - 1, Pow2(imm - 1));
        RorIs(p, x, imm);
      } else {
        value := Or(Shr(p, x, 1), Shl(p, carry, 31));
        carryOut := GetBit(p, x, 0);
        RrxIs(p, x, carry);
      }
  }

  method ShiftByRegister(p: Platform, mode: Mode, x: Word, amount: Byte, carry: Bit) returns (value: Word, carryOut: Bit)
    ensures (value, carryOut) == RegisterShift(p, mode, x, amount, carry)
  {
    match mode
    case 0 =>
      value := Shl(p, x, amount);
      if amount == 0 {
        carryOut := carry;
      } else if amount < 32 {
        carryOut := GetBit(p, x, 32 - amount);
        LowHigh(x, 32 - amount, Pow2(32 - amount));
      } else if amount == 32 {
        carryOut := GetBit(p, x, 0);
      } else {
        carryOut := 0;
      }
    case 1 =>
      value := Shr(p, x, amount);
      if amount == 0 {
        carryOut := carry;
      } else if amount < 32 {
        carryOut := GetBit(p, x, amount - 1);
        LowHigh(x, amount - 1, Pow2(amount - 1));
      } else if amount == 32 {
        Pow2Values();
        carryOut := GetBit(p, x, 31);
      } else {
        carryOut := 0;
      }
    case 2 =>
      value := Asr(p, x, amount);
      if amount == 0 {
        carryOut := carry;
      } else if amount < 32 {
        carryOut := GetBit(p, x, amount - 1);
        LowHigh(x, amount - 1, Pow2(amount - 1));
        AsrIs(p, x, amount);
      } else {
        carryOut := 0;
      }
    case 3 =>
      value := Ror(p, x, amount);
      if amount == 0 {
        carryOut := carry;
      } else {
        // The test for a multiple of 32 is a mask with (0x1F == 0), so it never holds.
        carryOut := GetBit(p, x, amount % 16 - 1);
        if amount < 32 { RorIs(p, x, amount); }
      }
  }

  method Rotate(p: Core, ins: Word) returns (immediate: Word, carryOut: Bit)
    requires p.Valid()
    ensures (immediate, carryOut) == ImmediateOperand(p.platform, p.Abs(), ins)
  {
    hide Field, Unreserved, Low, High, Bitwise;
    Pow2Values();
    var immed8: Byte := Field(ins, 0, 8);
    var rotateImm := Field(ins, 8, 4);
    immediate := Or(Shr(p.platform, immed8, 2 * rotateImm), Shl(p.platform, immed8, 32 - 2 * rotateImm));
    if rotateImm == 0 {
      var cpsr := p.ReadCpsr();
      carryOut := GetBit(p.platform, cpsr, 29);
    } else {
      carryOut := GetBit(p.platform, immediate, 31);
    }
  }

  //////////////////////////////////////////////////////////////////////////////
  // The masks and shifts of asr, ror and RRX in arithmetic
  //////////////////////////////////////////////////////////////////////////////

  lemma RrxIs(p: Platform, x: Word, c: Bit)
    ensures Or(Shr(p, x, 1), Shl(p, c, 31)) == RotateExtend(x, c).0
  {
    hide Bitwise, Pow2;
    Pow2Values();
    if c == 1 {
      OrDisjoint(x / 2, 1, 0x8000_0000, 31, 0x8000_0000, 32);
    } else {
      OrDisjoint(x / 2, 0, 0, 31, 0x8000_0000, 32);
    }
  }

  lemma RorIs(p: Platform, x: Word, n: Byte)
    requires 0 < n < 32
    ensures Ror(p, x, n) == Shifted(ROR, x, n)
  {
    hide Bitwise, Pow2;
    var a, b := Halves(n);
    var q, r := x / a, x % a;
    RorParts(x, a, b);
    OrDisjoint(q, r, r * b, 32 - n, b, 32);
  }

  lemma AsrIs(p: Platform, x: Word, n: Byte)
    requires 0 < n < 32
    ensures Asr(p, x, n) == Shifted(ASR, x, n)
  {
    hide Bitwise, Pow2, Wrap;
    var a, b := Halves(n);
    var q: int := x / a;
    RorParts(x, a, b);
    SignBit(p, x);
    if x < 0x8000_0000 {
      OrDisjoint(q, 0, 0, 32 - n, b, 32);
      QuotientWraps(q);
    } else {
      AsrParts(x, a, b);
      OrDisjoint(q, a - 1, WORD - b, 32 - n, b, 32);
      QuotientWraps(q - b);
    }
  }

  lemma SignBit(p: Platform, x: Word)
    ensures GetBit(p, x, 31) == 1 <==> x >= 0x8000_0000
  {
    hide Pow2;
    Pow2Values();
  }

  lemma QuotientWraps(q: int)
    requires 0 <= q + WORD < 2 * WORD
    ensures Wrap(q) == if q < 0 then q + WORD else q
  {
  }

  lemma Halves(n: nat) returns (a: nat, b: nat)
    requires 0 < n < 32
    ensures a == Pow2(n) && b == Pow2(32 - n) && a * b == WORD && 0 < a < WORD && 0 < b < WORD
    ensures Pow2(32 - (32 - n)) == a
  {
    Pow2Values();
    Pow2Add(n, 32 - n);
    a, b := Pow2(n), Pow2(32 - n);
    MulMono(b, 2, a);
    MulMono(a, 2, b);
  }

  /** Splitting x at bit n and moving the low part up by 32 - n. */
  lemma RorParts(x: Word, a: nat, b: nat)
    requires a > 0 && b > 0 && a * b == WORD
    ensures 0 <= x / a < b && 0 <= x % a < a
    ensures Wrap(x * b) == x % a * b == b * (x % a)
  {
    var q, r := x / a, x % a;
    DivBound(x, a);
    if q >= b { MulMono(a, b, q); }
    assert 0 <= r * b < WORD by { ProductBound(r, a, b); }
    Distribute(q, r, a, b);
    DivUnique(x * b, WORD, q, r * b);
  }

  lemma Distribute(q: int, r: int, a: int, b: int)
    ensures (a * q + r) * b == (a * b) * q + r * b
  {
  }

  /** The sign bits: a run of ones of weight b, and the quotient of a negative number. */
  lemma AsrParts(x: Word, a: nat, b: nat)
    requires a > 0 && 0 < b < WORD && a * b == WORD
    ensures Wrap(0xFFFF_FFFF * b) == WORD - b == b * (a - 1)
    ensures (x - WORD) / a == x / a - b
  {
    DivUnique(0xFFFF_FFFF * b, WORD, b - 1, WORD - b);
    var q, r := x / a, x % a;
    assert a * (q - b) == a * q - WORD;
    DivUnique(x - WORD, a, q - b, r);
  }

  lemma ProductBound(r: nat, a: nat, b: nat)
    requires r < a && b > 0
    ensures 0 <= r * b < a * b
  {
    MulMono(b, r + 1, a);
    MulMono(b, 0, r);
  }
}

/** Rotated immediates, and the agreement of the immediate and the register form. */
module Forms {
  import opened Words
  import opened Machine
  import opened Alu
  import opened Shifter
  import opened DataProcessing
  import opened BarrelShifter

  function ImmediateField(ins: Word): Byte {
    Pow2Values(); Field(ins, 0, 8)
  }

  function RotateField(ins: Word): (r: nat)
    ensures r < 16
  {
    Pow2Values(); Field(ins, 8, 4)
  }

  /** The immediate operand is the 8-bit field rotated right, one bit at a time, by twice the
      4-bit field, and its carry is the last bit moved; rotating by the rest of a full turn
      recovers the field. */
  lemma ImmediateIsRotation(p: Platform, s: State, ins: Word)
    requires RotateField(ins) > 0
    ensures ImmediateOperand(p, s, ins) == Steps(ROR, ImmediateField(ins), StateFlags(s).c, 2 * RotateField(ins))
    ensures Shifted(ROR, ImmediateOperand(p, s, ins).0, 32 - 2 * RotateField(ins)) == ImmediateField(ins)
  {
    hide Field, Pow2, Shifted, High, Low;
    var imm: Word, n := ImmediateField(ins), 2 * RotateField(ins);
    RorIs(p, imm, n);
    ShiftIsSteps(ROR, imm, StateFlags(s).c, n);
    TopIsLastOut(imm, n);
    RotateBack(imm, n);
  }

  /** The bit a rotation moves last is the top bit of its result. */
  lemma TopIsLastOut(x: Word, n: nat)
    requires 0 < n < 32
    ensures Shifted(ROR, x, n) / 0x8000_0000 == LastOut(ROR, x, n)
  {
    RorMore(x, n - 1);
    TopOfRotation(Shifted(ROR, x, n - 1));
  }

  lemma TopOfRotation(y: Word)
    ensures OneBit(ROR, y).0 / 0x8000_0000 == y % 2 == OneBit(ROR, y).1
  {
  }

  lemma RotateBack(x: Word, n: nat)
    requires 0 < n < 32
    ensures Shifted(ROR, Shifted(ROR, x, n), 32 - n) == x
  {
    hide Pow2;
    var a, b := Halves(n);
    var q, r := x / a, x % a;
    RorParts(x, a, b);
    var y := q + r * b;
    assert 0 <= y < WORD by { TwoParts(q, r, a, b); }
    assert Shifted(ROR, x, n) == y;
    DivUnique(y, b, r, q);
    assert Shifted(ROR, y, 32 - n) == Wrap(r + q * a);
    assert r + q * a == x;
  }

  lemma TwoParts(q: nat, r: nat, a: nat, b: nat)
    requires q < b && r < a && a * b == WORD
    ensures 0 <= q + r * b < WORD
  {
    MulMono(b, r + 1, a);
    MulMono(b, 0, r);
  }

  /** Without a rotation the code shifts the field left by 32, which C leaves to the host: the
      operand is the field if and only if that adds no bit, as it does on a host where such a shift
      gives 0 or the value itself. The carry is the C flag. */
  lemma UnrotatedImmediate(p: Platform, s: State, ins: Word)
    requires RotateField(ins) == 0
    ensures ImmediateOperand(p, s, ins).1 == StateFlags(s).c
    ensures ImmediateOperand(p, s, ins).0 == ImmediateField(ins) <==> Or(ImmediateField(ins), p.shl(ImmediateField(ins), 32)) == ImmediateField(ins)
    ensures p.shl(ImmediateField(ins), 32) in {0, ImmediateField(ins)} ==> ImmediateOperand(p, s, ins).0 == ImmediateField(ins)
  {
    hide Field, Bitwise;
    var imm: Word := ImmediateField(ins);
    Pow2Values();
    WithZero(imm, 32);
    Narrow(imm, 32);
    OrSame(imm, 32);
  }

  lemma {:induction false} OrSame(x: nat, n: nat)
    ensures Bitwise(OR, x, x, n) == Low(x, n)
  {
    if n == 0 {
    } else {
      OrSame(x / 2, n - 1);
    }
  }

  /** reg is the register form of imm: the same operation on rm under LSL #0. */
  predicate RegisterTwin(imm: Word, reg: Word) {
    && IsImmediate(imm) && !IsImmediate(reg)
    && OpcodeOf(imm) == OpcodeOf(reg) && SetsOf(imm) == SetsOf(reg) && RnOf(imm) == RnOf(reg) && RdOf(imm) == RdOf(reg)
    && Field(reg, 4, 1) == 0 && Field(reg, 5, 2) == LSL && Field(reg, 7, 5) == 0
  }

  function RmOf(ins: Word): Reg {
    Pow2Values(); Field(ins, 0, 4)
  }

  /** The operation uses the shifter carry for the flags. */
  predicate ShowsCarry(ins: Word) {
    IsLogical(OpcodeOf(ins)) && (IsCompare(OpcodeOf(ins)) || (SetsOf(ins) == 1 && RdOf(ins) != 15))
  }

  /** With the immediate value in rm both forms leave the same state; only a logical operation that
      sets flags can tell them apart, and it does exactly when the immediate is rotated and its top
      bit differs from the C flag. */
  lemma FormsAgree(p: Platform, s: State, imm: Word, reg: Word)
    requires RegisterTwin(imm, reg) && ReadReg(s, RmOf(reg)) == ImmediateOperand(p, s, imm).0
    ensures !ShowsCarry(imm) ==> Process(p, s, imm) == Process(p, s, reg)
    ensures ShowsCarry(imm) ==>
      var carryKept := RotateField(imm) == 0 || ImmediateOperand(p, s, imm).0 / 0x8000_0000 == StateFlags(s).c;
      Process(p, s, imm) == Process(p, s, reg) <==> carryKept
  {
    hide ReadReg, Execute, StateFlags, ImmediateOperand;
    var (b, sc) := ImmediateOperand(p, s, imm);
    assert Process(p, s, imm) == Execute(s, imm, b, sc) by { ProcessIs(p, s, imm); }
    assert Process(p, s, reg) == Execute(s, reg, b, StateFlags(s).c) by { ProcessIs(p, s, reg); }
    assert Execute(s, reg, b, StateFlags(s).c) == Execute(s, imm, b, StateFlags(s).c) by { SameExecute(s, imm, reg, b, StateFlags(s).c); }
    CarryShows(s, imm, b, sc, StateFlags(s).c);
    ImmediateCarry(p, s, imm);
  }

  lemma SameExecute(s: State, imm: Word, reg: Word, b: Word, sc: Bit)
    requires RegisterTwin(imm, reg)
    ensures Execute(s, reg, b, sc) == Execute(s, imm, b, sc)
  {
    hide Operate;
  }

  lemma ImmediateCarry(p: Platform, s: State, imm: Word)
    ensures ImmediateOperand(p, s, imm).1
         == if RotateField(imm) == 0 then StateFlags(s).c else ImmediateOperand(p, s, imm).0 / 0x8000_0000
  {
    hide Field, StateFlags, Or;
  }

  /** Two shifter carries lead to the same state unless they differ and are shown. */
  lemma CarryShows(s: State, ins: Word, b: Word, sc: Bit, sc': Bit)
    ensures Execute(s, ins, b, sc) == Execute(s, ins, b, sc') <==> !ShowsCarry(ins) || sc == sc'
  {
    hide ReadReg, StateFlags, Result, SetFlags, Tested, WriteCpsr;
    var op, a, c, oldRd := OpcodeOf(ins), ReadReg(s, RnOf(ins)), StateFlags(s).c, ReadReg(s, RdOf(ins));
    var f, f' := NewFlags(op, a, b, c, sc, oldRd), NewFlags(op, a, b, c, sc', oldRd);
    if !ShowsCarry(ins) {
      if !IsLogical(op) { assert f == f'; }
    } else if sc != sc' {
      FlagsRoundTrip(s, f);
      FlagsRoundTrip(s, f');
      if Execute(s, ins, b, sc) == Execute(s, ins, b, sc') {
        FlagsInCell16(SetFlags(s, f), Execute(s, ins, b, sc));
        FlagsInCell16(SetFlags(s, f'), Execute(s, ins, b, sc'));
      }
    }
  }
}

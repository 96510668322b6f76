/** The flags of the ARM Architecture Reference Manual (ARM DDI 0100, section A4.1) against the
    flags the code computes, and the comparisons they decide. */
module ManualFlags {
  import opened Words
  import opened Machine
  import opened Alu
  import opened DataProcessing
  import opened Conditions

  const MAX: nat := 0xFFFF_FFFF

  /** A word without its sign bit. */
  function Low31(x: Word): nat {
    x % 0x8000_0000
  }

  //////////////////////////////////////////////////////////////////////////////
  // The manual
  //////////////////////////////////////////////////////////////////////////////

  /** CarryFrom and NOT BorrowFrom: unsigned, over the integers. */
  function ManualCarry(op: Opcode, a: Word, b: Word, c: Bit, sc: Bit): Bit {
    match op
    case 2 => ToBit(a - b >= 0)
    case 3 => ToBit(b - a >= 0)
    case 4 => ToBit(a + b >= WORD)
    case 5 => ToBit(a + b + c >= WORD)
    case 6 => ToBit(a - b - (1 - c) >= 0)
    case 7 => ToBit(b - a - (1 - c) >= 0)
    case 10 => ToBit(a - b >= 0)
    case 11 => ToBit(a + b >= WORD)
    case _ => sc
  }

  function OutOfRange(t: int): Bit {
    ToBit(!(-0x8000_0000 <= t < 0x8000_0000))
  }

  /** OverflowFrom: signed; the logical operations leave V as it is. */
  function ManualOverflow(op: Opcode, a: Word, b: Word, c: Bit, oldV: Bit): Bit {
    match op
    case 2 => OutOfRange(Signed(a) - Signed(b))
    case 3 => OutOfRange(Signed(b) - Signed(a))
    case 4 => OutOfRange(Signed(a) + Signed(b))
    case 5 => OutOfRange(Signed(a) + Signed(b) + c)
    case 6 => OutOfRange(Signed(a) - Signed(b) - (1 - c))
    case 7 => OutOfRange(Signed(b) - Signed(a) - (1 - c))
    case 10 => OutOfRange(Signed(a) - Signed(b))
    case 11 => OutOfRange(Signed(a) + Signed(b))
    case _ => oldV
  }

  function Manual(op: Opcode, a: Word, b: Word, c: Bit, sc: Bit, oldV: Bit): Flags {
    var r := Result(op, a, b, c);
    Flags(r / 0x8000_0000, ToBit(r == 0), ManualCarry(op, a, b, c, sc), ManualOverflow(op, a, b, c, oldV))
  }

  //////////////////////////////////////////////////////////////////////////////
  // Where the code agrees
  //////////////////////////////////////////////////////////////////////////////

  /** x - y - nc computed by SBC (or RSC, with the operands exchanged) sets the manual's C. */
  predicate BorrowChainOk(x: Word, y: Word, nc: Bit) {
    nc == 0 || (if y == 0 then x == 0 || x == MAX else x != y && x != y - 1)
  }

  /** The operands for which the flags of one operation are those of the manual. */
  predicate Agrees(op: Opcode, a: Word, b: Word, c: Bit, oldV: Bit, oldRd: Word) {
    match op
    case 2 => Low31(a) >= Low31(b)
    case 3 => Low31(b) >= Low31(a)
    case 4 => Low31(a) + Low31(b) < 0x8000_0000
    case 5 => Low31(a) + Low31(b) + c < 0x8000_0000
    case 6 => SbcAgrees(a, b, 1 - c)
    case 7 => SbcAgrees(b, a, 1 - c)
    case 10 => Low31(a) >= Low31(b)
    case 11 => Low31(a) + Low31(b) < 0x8000_0000
    case 0 => oldV == 0 && SameSignAndZero(oldRd, And(a, b))
    case 1 => oldV == 0 && SameSignAndZero(oldRd, Xor(a, b))
    case _ => oldV == 0
  }

  predicate SameSignAndZero(x: Word, y: Word) {
    x / 0x8000_0000 == y / 0x8000_0000 && (x == 0 <==> y == 0)
  }

  /** SBC tests its result minus one, compares with y - nc, and takes V from y + nc + 1. */
  predicate SbcAgrees(x: Word, y: Word, nc: Bit) {
    && Wrap(x - y - nc) !in {0, 1, 0x8000_0000}
    && BorrowChainOk(x, y, nc)
    && (y + 1 + nc >= WORD || Low31(x) >= Low31(y) + nc)
  }

  /** For every operation and all operands: the code's flags are the manual's exactly under
      Agrees. */
  lemma FlagsAgree(op: Opcode, a: Word, b: Word, c: Bit, sc: Bit, oldV: Bit, oldRd: Word)
    ensures NewFlags(op, a, b, c, sc, oldRd) == Manual(op, a, b, c, sc, oldV) <==> Agrees(op, a, b, c, oldV, oldRd)
  {
    hide NewFlags, Manual, Agrees;
    if op in {2, 3, 4, 10, 11} {
      PlainAgree(op, a, b, c, sc, oldV, oldRd);
    } else if op in {5, 6, 7} {
      CarryingAgree(op, a, b, c, sc, oldV, oldRd);
    } else {
      LogicalAgree(op, a, b, c, sc, oldV, oldRd);
    }
  }

  lemma LogicalAgree(op: Opcode, a: Word, b: Word, c: Bit, sc: Bit, oldV: Bit, oldRd: Word)
    requires IsLogical(op)
    ensures NewFlags(op, a, b, c, sc, oldRd) == Manual(op, a, b, c, sc, oldV) <==> Agrees(op, a, b, c, oldV, oldRd)
  {
    hide And, Or, Xor, Signed, OutOfRange, Low31, Wrap;
  }

  lemma PlainAgree(op: Opcode, a: Word, b: Word, c: Bit, sc: Bit, oldV: Bit, oldRd: Word)
    requires op in {2, 3, 4, 10, 11}
    ensures NewFlags(op, a, b, c, sc, oldRd) == Manual(op, a, b, c, sc, oldV) <==> Agrees(op, a, b, c, oldV, oldRd)
  {
    hide Signed, OutOfRange, Low31, Wrap;
    SubOverflowAgrees(a, b);
    SubOverflowAgrees(b, a);
    PlusZero(b);
    AddOverflowAgrees(a, b, 0);
  }

  lemma CarryingAgree(op: Opcode, a: Word, b: Word, c: Bit, sc: Bit, oldV: Bit, oldRd: Word)
    requires op in {5, 6, 7}
    ensures NewFlags(op, a, b, c, sc, oldRd) == Manual(op, a, b, c, sc, oldV) <==> Agrees(op, a, b, c, oldV, oldRd)
  {
    hide Signed, OutOfRange, Low31, Wrap;
    match op
    case 5 => AddOverflowAgrees(a, b, c);
    case 6 => SbcFlags(a, b, 1 - c);
    case 7 => SbcFlags(b, a, 1 - c);
  }

  lemma PlusZero(b: Word)
    ensures Plus(b, 0) == b
  {
  }

  /** The unsigned borrow is the signed overflow exactly when nothing is borrowed from bit 31. */
  lemma SubOverflowAgrees(a: Word, b: Word)
    ensures ToBit(a < b) == OutOfRange(Signed(a) - Signed(b)) <==> Low31(a) >= Low31(b)
  {
  }

  lemma AddOverflowAgrees(a: Word, b: Word, c: Bit)
    ensures (a + Plus(b, c) >= WORD <==> a + b + c >= WORD)
         && ToBit(a + b + c >= WORD) == OutOfRange(Signed(a) + Signed(b) + c)
       <==> Low31(a) + Low31(b) + c < 0x8000_0000
  {
  }

  lemma SbcFlags(x: Word, y: Word, nc: Bit)
    ensures SbcAgrees(x, y, nc) <==>
      var r := Wrap(x - y - nc);
      && Minus(r, 1) / 0x8000_0000 == r / 0x8000_0000 && (Minus(r, 1) == 0 <==> r == 0)
      && (x >= Minus(y, nc) <==> x - y - nc >= 0)
      && ToBit(x < Plus(y, 1 + nc)) == OutOfRange(Signed(x) - Signed(y) - nc)
  {
    hide Signed, OutOfRange, Low31, BorrowChainOk;
    SbcTested(Wrap(x - y - nc));
    SbcCarryAgrees(x, y, nc);
    if Wrap(x - y - nc) !in {0, 1, 0x8000_0000} && BorrowChainOk(x, y, nc) { SbcOverflow(x, y, nc); }
  }

  lemma SbcTested(r: Word)
    ensures Minus(r, 1) / 0x8000_0000 == r / 0x8000_0000 && (Minus(r, 1) == 0 <==> r == 0)
       <==> r !in {0, 1, 0x8000_0000}
  {
  }

  lemma SbcOverflow(x: Word, y: Word, nc: Bit)
    requires Wrap(x - y - nc) !in {0, 1, 0x8000_0000} && BorrowChainOk(x, y, nc)
    ensures ToBit(x < Plus(y, 1 + nc)) == OutOfRange(Signed(x) - Signed(y) - nc)
       <==> y + 1 + nc >= WORD || Low31(x) >= Low31(y) + nc
  {
  }

  lemma SbcCarryAgrees(x: Word, y: Word, nc: Bit)
    ensures (x >= Minus(y, nc) <==> x - y - nc >= 0) <==> BorrowChainOk(x, y, nc)
  {
  }

  /** Inputs on which flags of the code differ from the manual's: AND looks at the old rd, ADD and
      CMP set V for an unsigned carry or borrow, ADC loses a carry, SBC takes N and Z from one less
      than its result, and a logical operation clears V. */
  lemma FlagCounterexamples()
    ensures NewFlags(0, 1, 0, 0, 0, 7).z == 0 && Result(0, 1, 0, 0) == 0
    ensures NewFlags(4, MAX, 1, 0, 0, 0).v == 1 && Manual(4, MAX, 1, 0, 0, 0).v == 0
    ensures NewFlags(10, 1, 2, 0, 0, 0).v == 1 && Manual(10, 1, 2, 0, 0, 0).v == 0
    ensures NewFlags(5, 0, MAX, 1, 0, 0).c == 0 && Manual(5, 0, MAX, 1, 0, 0).c == 1
    ensures NewFlags(6, 5, 5, 1, 0, 0).z == 0 && Result(6, 5, 5, 1) == 0
    ensures NewFlags(13, 0, 1, 0, 0, 0).v == 0 && Manual(13, 0, 1, 0, 0, 1).v == 1
  {
    hide Bitwise, Low, Pow2;
    WithZero(1, 32);
  }

  /** The logical results bit by bit. */
  lemma LogicalBits(a: Word, b: Word, c: Bit, i: nat)
    requires i < 32
    ensures BitAt(Result(0, a, b, c), i) == ToBit(BitAt(a, i) == 1 && BitAt(b, i) == 1)
    ensures BitAt(Result(1, a, b, c), i) == ToBit(BitAt(a, i) != BitAt(b, i))
    ensures BitAt(Result(12, a, b, c), i) == ToBit(BitAt(a, i) == 1 || BitAt(b, i) == 1)
    ensures BitAt(Result(14, a, b, c), i) == ToBit(BitAt(a, i) == 1 && BitAt(b, i) == 0)
    ensures BitAt(Result(15, a, b, c), i) == 1 - BitAt(b, i)
  {
    hide Bitwise, High, Pow2, Wrap;
    BitwiseBit(AND, a, b, i, 32);
    BitwiseBit(XOR, a, b, i, 32);
    BitwiseBit(OR, a, b, i, 32);
    BitwiseBit(AND, a, Not(b), i, 32);
    assert Pow2(32) == WORD by { Pow2Values(); }
    NotBit(b, i, 32);
  }

  lemma {:induction false} NotBit(x: nat, i: nat, n: nat)
    requires i < n && x < Pow2(n)
    ensures BitAt(Pow2(n) - 1 - x, i) == 1 - BitAt(x, i)
  {
    if i == 0 {
      assert (Pow2(n) - 1 - x) % 2 == 1 - x % 2;
    } else {
      assert (Pow2(n) - 1 - x) / 2 == Pow2(n - 1) - 1 - x / 2;
      NotBit(x / 2, i - 1, n - 1);
    }
  }

  /** The C flag alone: ADC loses a carry only when the second operand is all ones and a carry
      comes in; SBC and RSC are wrong near equality and for a zero subtrahend. */
  lemma CarryAgrees(op: Opcode, a: Word, b: Word, c: Bit, sc: Bit)
    ensures CarryFlag(op, a, b, c, sc) == ManualCarry(op, a, b, c, sc) <==>
      match op
      case 5 => !(b == MAX && c == 1)
      case 6 => BorrowChainOk(a, b, 1 - c)
      case 7 => BorrowChainOk(b, a, 1 - c)
      case _ => true
  {
    if op == 6 { SbcCarryAgrees(a, b, 1 - c); }
    if op == 7 { SbcCarryAgrees(b, a, 1 - c); }
  }

  //////////////////////////////////////////////////////////////////////////////
  // Comparisons
  //////////////////////////////////////////////////////////////////////////////

  /** The condition table of the header file and of the manual: LE is Z set or N different from V. */
  predicate ManualCondition(cond: nat, f: Flags)
    requires cond < 15
  {
    if cond == 13 then f.z == 1 || f.n != f.v else CheckFlags(cond, f) == 1
  }

  /** LE as coded, with AND for OR, answers as the header says exactly when Z and N != V agree. */
  lemma LeAgrees(f: Flags)
    ensures (CheckFlags(13, f) == 1 <==> ManualCondition(13, f)) <==> (f.z == 1 <==> f.n != f.v)
  {
  }

  /** After CMP the unsigned conditions of any later instruction decide the unsigned comparison,
      through the packed CPSR. */
  lemma UnsignedAfterCmp(s: State, cmp: Word, b: Word, sc: Bit, next: Word)
    requires OpcodeOf(cmp) == 10
    ensures var a, t := ReadReg(s, RnOf(cmp)), Execute(s, cmp, b, sc);
      && (CondOf(next) == 0 ==> (CheckCond(t, next) == 1 <==> a == b))
      && (CondOf(next) == 1 ==> (CheckCond(t, next) == 1 <==> a != b))
      && (CondOf(next) == 2 ==> (CheckCond(t, next) == 1 <==> a >= b))
      && (CondOf(next) == 3 ==> (CheckCond(t, next) == 1 <==> a < b))
      && (CondOf(next) == 8 ==> (CheckCond(t, next) == 1 <==> a > b))
      && (CondOf(next) == 9 ==> (CheckCond(t, next) == 1 <==> a <= b))
  {
    CmpFlags(s, cmp, b, sc);
  }

  /** The flags CMP leaves behind. */
  lemma CmpFlags(s: State, cmp: Word, b: Word, sc: Bit)
    requires OpcodeOf(cmp) == 10
    ensures var a := ReadReg(s, RnOf(cmp));
      StateFlags(Execute(s, cmp, b, sc)) == Flags(Wrap(a - b) / 0x8000_0000, ToBit(a == b), ToBit(a >= b), ToBit(a < b))
  {
    hide ReadReg, StateFlags, SetFlags;
    var f := NewFlags(10, ReadReg(s, RnOf(cmp)), b, StateFlags(s).c, sc, ReadReg(s, RdOf(cmp)));
    FlagsRoundTrip(s, f);
  }

  /** The signed conditions as coded: GE, LT and GT decide the signed comparison exactly when the
      subtraction borrows nothing from the sign bit, and LE, which tests Z AND N != V, never
      holds after CMP, so it is right exactly when the answer is no. */
  lemma SignedAfterCmp(s: State, cmp: Word, b: Word, sc: Bit, next: Word)
    requires OpcodeOf(cmp) == 10
    ensures var a, t := ReadReg(s, RnOf(cmp)), Execute(s, cmp, b, sc);
      && (CondOf(next) == 10 ==> ((CheckCond(t, next) == 1 <==> Signed(a) >= Signed(b)) <==> Low31(a) >= Low31(b)))
      && (CondOf(next) == 11 ==> ((CheckCond(t, next) == 1 <==> Signed(a) < Signed(b)) <==> Low31(a) >= Low31(b)))
      && (CondOf(next) == 12 ==> ((CheckCond(t, next) == 1 <==> Signed(a) > Signed(b)) <==> Low31(a) >= Low31(b)))
      && (CondOf(next) == 13 ==> CheckCond(t, next) == 0)
  {
    CmpFlags(s, cmp, b, sc);
    SignedCompare(ReadReg(s, RnOf(cmp)), b);
  }

  lemma SignedCompare(a: Word, b: Word)
    ensures (Wrap(a - b) / 0x8000_0000 == ToBit(a < b)) == (Signed(a) >= Signed(b)) <==> Low31(a) >= Low31(b)
  {
  }

  /** A pair of equal sign for which GE as coded gives the wrong answer. */
  lemma SignedCounterexample()
    ensures Signed(1) < Signed(2) && CheckFlags(10, NewFlags(10, 1, 2, 0, 0, 0)) == 1
    ensures Signed(1) <= Signed(2) && CheckFlags(13, NewFlags(10, 1, 2, 0, 0, 0)) == 0
  {
  }

  /** With the manual's V and the header's LE the four signed conditions decide the signed
      comparison for all operands. */
  lemma MeantAfterCmp(a: Word, b: Word, c: Bit, sc: Bit, oldV: Bit)
    ensures var f := Manual(10, a, b, c, sc, oldV);
      && (ManualCondition(10, f) <==> Signed(a) >= Signed(b))
      && (ManualCondition(11, f) <==> Signed(a) < Signed(b))
      && (ManualCondition(12, f) <==> Signed(a) > Signed(b))
      && (ManualCondition(13, f) <==> Signed(a) <= Signed(b))
  {
    var d := Signed(a) - Signed(b);
    assert Wrap(a - b) == Wrap(d);
    assert Wrap(d) / 0x8000_0000 == 1 <==> (-0x8000_0000 <= d < 0 || d >= 0x8000_0000);
  }
}

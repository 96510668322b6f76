/** The barrel shifter refines a shifter that moves one bit at a time. */
module BarrelShifter {
  import opened Words
  import opened Shifter

  /** One single-bit step and the bit it shifts out. */
  function OneBit(mode: Mode, x: Word): (Word, Bit) {
    var top: int, bottom: int := x / 0x8000_0000, x % 2;
    match mode
    case 0 => (Wrap(2 * x), top)
    case 1 => (x / 2, bottom)
    case 2 => (x / 2 + top * 0x8000_0000, bottom)
    case 3 => (x / 2 + bottom * 0x8000_0000, bottom)
  }

  /** n single-bit steps; with none the carry is the one that came in. */
  function Steps(mode: Mode, x: Word, c: Bit, n: nat): (Word, Bit) {
    if n == 0 then (x, c) else OneBit(mode, Steps(mode, x, c, n - 1).0)
  }

  //////////////////////////////////////////////////////////////////////////////
  // One more bit
  //////////////////////////////////////////////////////////////////////////////

  lemma LslMore(x: Word, n: nat)
    requires n < 31
    ensures OneBit(LSL, Shifted(LSL, x, n)) == (Shifted(LSL, x, n + 1), LastOut(LSL, x, n + 1))
  {
    hide Pow2, High, Low;
    var a, b := Pow2(n), Pow2(31 - n);
    assert a * b == 0x8000_0000 && Pow2(n + 1) == 2 * a by { PowersOfWord(n); }
    var q, bit, ra := x / b / 2, x / b % 2, x % b * a;
    assert BitAt(x, 31 - n) == bit by { LowHigh(x, 31 - n, b); }
    assert 0 <= ra < 0x8000_0000 by { ProductBound(x % b, b, a); }
    Regroup(x, a, b);
    LslOnce(x * a, q, bit, ra);
    assert x * Pow2(n + 1) == 2 * (x * a) by { Double(x, a, Pow2(n + 1)); }
  }

  lemma Double(x: int, a: int, b: int)
    requires b == 2 * a
    ensures x * b == 2 * (x * a)
  {
  }

  lemma LslOnce(t: nat, q: int, bit: Bit, r: nat)
    requires r < 0x8000_0000 && t == WORD * q + 0x8000_0000 * bit + r
    ensures OneBit(LSL, Wrap(t)) == (Wrap(2 * t), bit)
  {
    var top: int := bit;
    DivUnique(t, WORD, q, 0x8000_0000 * top + r);
    DivUnique(0x8000_0000 * top + r, 0x8000_0000, top, r);
    DivUnique(2 * t, WORD, 2 * q + top, 2 * r);
  }

  lemma Regroup(x: nat, a: nat, b: nat)
    requires a > 0 && b > 0 && a * b == 0x8000_0000
    ensures x * a == WORD * (x / b / 2) + 0x8000_0000 * (x / b % 2) + x % b * a
  {
    var q, r := x / b, x % b;
    Distribute(q, r, b, a);
    assert b * a == 0x8000_0000;
  }

  lemma PowersOfWord(n: nat)
    requires n < 32
    ensures n < 31 ==> Pow2(n) * Pow2(31 - n) == 0x8000_0000
    ensures Pow2(n) * Pow2(32 - n) == WORD && Pow2(32 - n) % 2 == 0
    ensures Pow2(n + 1) == 2 * Pow2(n) && Pow2(32 - n) == 2 * Pow2(31 - n)
  {
    Pow2Values();
    Pow2Add(n, 32 - n);
    if n < 31 { Pow2Add(n, 31 - n); }
  }

  lemma LsrMore(x: Word, n: nat)
    requires n < 31
    ensures OneBit(LSR, Shifted(LSR, x, n)) == (Shifted(LSR, x, n + 1), LastOut(LSR, x, n + 1))
  {
    hide High, Low;
    LowHigh(x, n, Pow2(n));
    DivDiv(x, Pow2(n), 2);
  }

  /** Keeping the sign while halving is halving the signed value, rounding down. */
  lemma HalveSigned(y: Word)
    ensures OneBit(ASR, y).0 == Wrap(Signed(y) / 2)
    ensures Signed(OneBit(ASR, y).0) == Signed(y) / 2
  {
  }

  lemma SignedWrap(t: int)
    requires -0x8000_0000 <= t < 0x8000_0000
    ensures Signed(Wrap(t)) == t && Wrap(t) % 2 == t % 2
  {
  }

  lemma SignedQuotient(x: Word, a: nat)
    requires a > 0
    ensures -0x8000_0000 <= Signed(x) / a < 0x8000_0000
  {
    var t := Signed(x);
    var q, r := t / a, t % a;
    assert t == a * q + r;
    if q < -0x8000_0000 {
      MulMono(a, q, -0x8000_0001);
      MulMono(0x8000_0001, 1, a);
    } else if q >= 0x8000_0000 {
      MulMono(a, 0x8000_0000, q);
      MulMono(0x8000_0000, 1, a);
    }
  }

  /** Below the word size the quotients of the unsigned and of the signed value have equal parity. */
  lemma SignedParity(x: Word, a: nat, b: nat)
    requires a > 0 && b > 0 && b % 2 == 0 && a * b == WORD
    ensures Signed(x) / a % 2 == x / a % 2
  {
    if x >= 0x8000_0000 {
      var q, r := x / a, x % a;
      assert x - WORD == a * (q - b) + r by { assert a * (q - b) == a * q - a * b; }
      DivUnique(x - WORD, a, q - b, r);
    }
  }

  lemma AsrMore(x: Word, n: nat)
    requires n < 32
    ensures var (y, d) := OneBit(ASR, Shifted(ASR, x, n));
      y == Wrap(Signed(x) / Pow2(n + 1)) && d == BitAt(x, n)
  {
    hide High, Low, Pow2, Signed;
    var a := Pow2(n);
    PowersOfWord(n);
    SignedQuotient(x, a);
    SignedWrap(Signed(x) / a);
    HalveSigned(Shifted(ASR, x, n));
    DivDiv(Signed(x), a, 2);
    SignedParity(x, a, Pow2(32 - n));
    LowHigh(x, n, a);
  }

  lemma RorMore(x: Word, n: nat)
    requires n < 31
    ensures OneBit(ROR, Shifted(ROR, x, n)) == (Shifted(ROR, x, n + 1), LastOut(ROR, x, n + 1))
  {
    hide High, Low, Pow2;
    var a, h := Pow2(n), Pow2(31 - n);
    PowersOfWord(n);
    LowHigh(x, n, a);
    DivDiv(x, a, 2);
    RorBound(x, a, h);
    var q, rh := x / a, x % a * h;
    assert Shifted(ROR, x, n) == q + 2 * rh by { assert x % a * (2 * h) == 2 * rh; }
    assert x % (a * 2) * h == rh + 0x8000_0000 * (q % 2) by { RorLow(x % a, q % 2, a, h, 0x8000_0000); }
    RorHalve(q, rh);
    assert Shifted(ROR, x, n + 1) == Wrap(q / 2 + (rh + 0x8000_0000 * (q % 2)));
  }

  lemma RorHalve(q: nat, rh: nat)
    requires q + 2 * rh < WORD
    ensures OneBit(ROR, q + 2 * rh) == (Wrap(q / 2 + (rh + 0x8000_0000 * (q % 2))), q % 2)
  {
  }

  lemma RorLow(r: int, bit: int, a: int, h: int, w: int)
    requires a * h == w
    ensures (r + a * bit) * h == r * h + w * bit
  {
    assert (a * bit) * h == (a * h) * bit;
  }

  lemma RorBound(x: Word, a: nat, h: nat)
    requires a > 0 && h > 0 && a * h == 0x8000_0000
    ensures 0 <= x % a * h && 0 <= x / a + 2 * (x % a * h) < WORD
  {
    var q, r := x / a, x % a;
    assert a * (2 * h) == WORD;
    RorParts(x, a, 2 * h);
    MulMono(h, r, a - 1);
    MulMono(h, 0, r);
  }

  //////////////////////////////////////////////////////////////////////////////
  // The refinement
  //////////////////////////////////////////////////////////////////////////////

  /** A shift by n is n single-bit steps, and its carry is the last bit shifted out. */
  lemma {:induction false} ShiftIsSteps(mode: Mode, x: Word, c: Bit, n: nat)
    requires n < 32
    ensures Steps(mode, x, c, n).0 == Shifted(mode, x, n)
    ensures n > 0 ==> Steps(mode, x, c, n).1 == LastOut(mode, x, n)
  {
    if n == 0 {
      Pow2Values();
      SignedWrap(Signed(x));
    } else {
      ShiftIsSteps(mode, x, c, n - 1);
      match mode
      case 0 => LslMore(x, n - 1);
      case 1 => LsrMore(x, n - 1);
      case 2 => AsrMore(x, n - 1);
      case 3 => RorMore(x, n - 1);
    }
  }

  /** The immediate encodings: all amounts 1..31, and ASR #0 as 32 steps. LSR #0 shifts out the
      right bit but leaves the value unshifted, so it is 32 steps only for the value 0. */
  lemma ImmediateIsSteps(mode: Mode, x: Word, n: nat, c: Bit)
    requires n < 32
    ensures n > 0 ==> ImmediateShift(mode, x, n, c) == Steps(mode, x, c, n)
    ensures ImmediateShift(LSL, x, 0, c) == Steps(LSL, x, c, 0)
    ensures ImmediateShift(ASR, x, 0, c) == Steps(ASR, x, c, 32)
    ensures ImmediateShift(LSR, x, 0, c).1 == Steps(LSR, x, c, 32).1
    ensures ImmediateShift(LSR, x, 0, c).0 == Steps(LSR, x, c, 32).0 <==> x == 0
  {
    ShiftIsSteps(mode, x, c, n);
    ThirtyTwoSteps(x, c);
  }

  lemma ThirtyTwoSteps(x: Word, c: Bit)
    ensures Steps(ASR, x, c, 32) == (if x < 0x8000_0000 then 0 else 0xFFFF_FFFF, x / 0x8000_0000)
    ensures Steps(LSR, x, c, 32) == (0, x / 0x8000_0000)
  {
    hide Steps;
    Pow2Values();
    ShiftIsSteps(ASR, x, c, 31);
    ShiftIsSteps(LSR, x, c, 31);
    var y := Shifted(ASR, x, 31);
    assert Steps(ASR, x, c, 32) == OneBit(ASR, y) by { StepsMore(ASR, x, c, 31); }
    assert Steps(LSR, x, c, 32) == OneBit(LSR, x / 0x8000_0000) by { StepsMore(LSR, x, c, 31); }
    assert y == if x < 0x8000_0000 then 0 else 0xFFFF_FFFF by { SignBits(x); }
  }

  lemma StepsMore(mode: Mode, x: Word, c: Bit, n: nat)
    ensures Steps(mode, x, c, n + 1) == OneBit(mode, Steps(mode, x, c, n).0)
  {
  }

  lemma SignBits(x: Word)
    ensures Wrap(Signed(x) / 0x8000_0000) == if x < 0x8000_0000 then 0 else 0xFFFF_FFFF
  {
  }

  /** The register encodings for amounts 1..31: LSL, LSR and ASR are single-bit steps, and so is
      the value of ROR. */
  lemma RegisterIsSteps(p: Platform, mode: Mode, x: Word, n: Byte, c: Bit)
    requires 0 < n < 32
    ensures mode != ROR ==> RegisterShift(p, mode, x, n, c) == Steps(mode, x, c, n)
    ensures RegisterShift(p, mode, x, n, c).0 == Steps(mode, x, c, n).0
  {
    ShiftIsSteps(mode, x, c, n);
  }

  /** A register amount of 0 moves nothing: certainly for LSL and LSR, for ASR of a value without
      sign, and for the carry always. */
  lemma RegisterByZero(p: Platform, mode: Mode, x: Word, c: Bit)
    ensures RegisterShift(p, mode, x, 0, c).1 == c
    ensures mode == LSL || mode == LSR || (mode == ASR && x < 0x8000_0000) ==> RegisterShift(p, mode, x, 0, c) == Steps(mode, x, c, 0)
  {
    hide Bitwise, Low, High, Ror, Asr;
    assert Pow2(0) == 1;
    assert Steps(mode, x, c, 0) == (x, c);
    AsrByZero(p, x);
  }

  lemma AsrByZero(p: Platform, x: Word)
    ensures x < 0x8000_0000 ==> Asr(p, x, 0) == x
  {
    hide Bitwise, Low, High;
    Pow2Values();
    WithZero(x, 32);
    Narrow(x, 32);
    assert Shr(p, x, 0) == x;
  }

  /** The carry of a register ROR is the last bit shifted out, whatever the value and the host,
      exactly for the amounts below 16: the code masks the amount with 0x0F. */
  lemma RegisterRorCarry(n: Byte, c: Bit)
    requires 0 < n < 32
    ensures (forall p: Platform, x: Word :: RegisterShift(p, ROR, x, n, c).1 == Steps(ROR, x, c, n).1) <==> n < 16
  {
    hide RegisterShift, Steps;
    if n < 16 {
      forall p: Platform, x: Word
        ensures RegisterShift(p, ROR, x, n, c).1 == Steps(ROR, x, c, n).1
      {
        RorCarryRight(p, x, n, c);
      }
    } else {
      var p, x := RorCarryWrong(n, c);
    }
  }

  lemma RorCarryRight(p: Platform, x: Word, n: Byte, c: Bit)
    requires 0 < n < 16
    ensures RegisterShift(p, ROR, x, n, c).1 == Steps(ROR, x, c, n).1
  {
    hide Shifted, Steps, Pow2;
    ShiftIsSteps(ROR, x, c, n);
    LowHigh(x, n - 1, Pow2(n - 1));
    assert n % 16 == n;
  }

  /** The word whose only set bit is the one a rotation by n shifts out last. */
  lemma RorCarryWrong(n: Byte, c: Bit) returns (p: Platform, x: Word)
    requires 16 <= n < 32
    ensures RegisterShift(p, ROR, x, n, c).1 != Steps(ROR, x, c, n).1
  {
    hide Shifted, Steps, Pow2, High;
    p := Platform(false, (x, i) => 0, (x, i) => 0);
    x := Pow2Word(n - 1);
    ShiftIsSteps(ROR, x, c, n);
    OnlyBit(n - 1, n - 1);
    assert Steps(ROR, x, c, n).1 == 1;
    if n > 16 {
      OnlyBit(n - 1, n - 17);
      LowHigh(x, n - 17, Pow2(n - 17));
      assert n % 16 - 1 == n - 17;
    }
    assert RegisterShift(p, ROR, x, n, c).1 == 0;
  }

  function Pow2Word(k: nat): (w: Word)
    ensures w == Pow2(k)
    requires k < 32
  {
    PowersOfWord(k);
    MulMono(Pow2(k), 2, Pow2(32 - k));
    Pow2(k)
  }

  lemma {:induction false} OnlyBit(k: nat, i: nat)
    ensures BitAt(Pow2(k), i) == if i == k then 1 else 0
  {
    if k == 0 || i == 0 {
      if k == 0 && i > 0 { ZeroBits(i - 1); }
    } else {
      OnlyBit(k - 1, i - 1);
    }
  }
}

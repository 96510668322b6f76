/** Unsigned machine words as integers with the wrap-around written out.

    The bitwise operators of C are defined one bit at a time (Bitwise) and are connected to
    division, remainder and addition by the lemmas below, so that everything above this
    module can be specified arithmetically and still be written with the masks of the source.

    A shift whose amount is negative or not smaller than the width is undefined in C: Platform
    supplies its result, so every theorem that takes a Platform holds whatever a host does. */
module Words {

  const WORD: nat := 0x1_0000_0000

  type Bit = x: int | 0 <= x < 2
  type Byte = x: int | 0 <= x < 0x100
  type Half = x: int | 0 <= x < 0x1_0000
  type Word = x: int | 0 <= x < 0x1_0000_0000

  function Wrap(x: int): Word {
    x % WORD
  }

  /** uint32_t addition and subtraction. */
  function Plus(x: int, y: int): Word {
    Wrap(x + y)
  }

  function Minus(x: int, y: int): Word {
    Wrap(x - y)
  }

  /** Wrapping early or late makes no difference. */
  lemma WrapWrap(x: int, y: int)
    ensures Wrap(Wrap(x) + y) == Wrap(x + y)
    ensures Wrap(x - Wrap(y)) == Wrap(x - y)
  {
    assert Wrap(x) == x - WORD * (x / WORD);
    assert Wrap(y) == y - WORD * (y / WORD);
  }

  function Pow2(n: nat): (r: nat)
    ensures r > 0
  {
    if n == 0 then 1 else 2 * Pow2(n - 1)
  }

  /** Two's-complement reading of a word. */
  function Signed(x: Word): int {
    if x < 0x8000_0000 then x else x - WORD
  }

  function BitAt(x: nat, i: nat): Bit {
    High(x, i) % 2
  }

  /** The k low bits, taken one at a time. */
  function Low(x: nat, k: nat): (r: nat)
    ensures r < Pow2(k)
  {
    if k == 0 then 0 else x % 2 + 2 * Low(x / 2, k - 1)
  }

  /** What is left after dropping k low bits one at a time. */
  function High(x: nat, k: nat): nat {
    if k == 0 then x else High(x / 2, k - 1)
  }

  //////////////////////////////////////////////////////////////////////////////
  // Bitwise operators
  //////////////////////////////////////////////////////////////////////////////

  type Gate = (bool, bool) -> bool

  const AND: Gate := (a, b) => a && b
  const OR: Gate := (a, b) => a || b
  const XOR: Gate := (a, b) => a != b

  function Parity(x: nat): bool { x % 2 == 1 }

  function Digit(b: bool): Bit { if b then 1 else 0 }

  /** The gate applied to the n low bits of both operands. */
  function Bitwise(g: Gate, x: nat, y: nat, n: nat): (r: nat)
    ensures r < Pow2(n)
  {
    if n == 0 then 0 else Digit(g(Parity(x), Parity(y))) + 2 * Bitwise(g, x / 2, y / 2, n - 1)
  }

  function And(x: Word, y: Word): Word {
    Pow2Values(); Bitwise(AND, x, y, 32)
  }

  function Or(x: Word, y: Word): Word {
    Pow2Values(); Bitwise(OR, x, y, 32)
  }

  function Xor(x: Word, y: Word): Word {
    Pow2Values(); Bitwise(XOR, x, y, 32)
  }

  function Not(x: Word): Word {
    0xFFFF_FFFF - x
  }

  //////////////////////////////////////////////////////////////////////////////
  // Shifts (util.h, util.c)
  //////////////////////////////////////////////////////////////////////////////

  /** What the build and the host decide: the byte order of the simulated memory, and the result
      of a 32-bit shift whose amount is outside 0..31. */
  datatype Platform = Platform(bigEndian: bool, shl: (Word, int) -> Word, shr: (Word, int) -> Word)

  function Shl(p: Platform, x: Word, n: int): Word {
    if 0 <= n < 32 then Wrap(x * Pow2(n)) else p.shl(x, n)
  }

  function Shr(p: Platform, x: Word, n: int): Word {
    if 0 <= n < 32 then DivBound(x, Pow2(n)); x / Pow2(n) else p.shr(x, n)
  }

  function GetBit(p: Platform, x: Word, i: int): Bit {
    Shr(p, x, i) % 2
  }

  function Asr(p: Platform, value: Word, shift: Byte): Word {
    Or(Shr(p, value, shift), if GetBit(p, value, 31) == 1 then Shl(p, 0xFFFF_FFFF, 32 - shift) else 0)
  }

  function Ror(p: Platform, value: Word, rotation: Byte): Word {
    Or(Shr(p, value, rotation), Shl(p, value, 32 - rotation))
  }

  function Reverse2(x: Half): Half {
    x % 0x100 * 0x100 + x / 0x100
  }

  function Reverse4(x: Word): Word {
    x % 0x100 * 0x100_0000 + x / 0x100 % 0x100 * 0x1_0000 + x / 0x1_0000 % 0x100 * 0x100 + x / 0x100_0000
  }

  //////////////////////////////////////////////////////////////////////////////
  // Division by powers of two
  //////////////////////////////////////////////////////////////////////////////

  lemma Pow2Values()
    ensures Pow2(1) == 2 && Pow2(4) == 0x10 && Pow2(6) == 0x40 && Pow2(8) == 0x100 && Pow2(10) == 0x400
    ensures Pow2(16) == 0x1_0000 && Pow2(24) == 0x100_0000 && Pow2(28) == 0x1000_0000
    ensures Pow2(29) == 0x2000_0000 && Pow2(30) == 0x4000_0000
    ensures Pow2(31) == 0x8000_0000 && Pow2(32) == WORD && Pow2(33) == 2 * WORD
  {
    assert Pow2(8) == 0x100;
    assert Pow2(16) == 0x1_0000;
    assert Pow2(24) == 0x100_0000;
    assert Pow2(32) == WORD;
  }

  lemma {:induction false} Pow2Add(m: nat, n: nat)
    ensures Pow2(m + n) == Pow2(m) * Pow2(n)
  {
    if m == 0 {
    } else {
      Pow2Add(m - 1, n);
      calc {
        Pow2(m + n);
        2 * (Pow2(m - 1) * Pow2(n));
        (2 * Pow2(m - 1)) * Pow2(n);
      }
    }
  }

  /** Quotient and remainder are unique. */
  lemma DivUnique(x: int, d: int, q: int, r: int)
    requires 0 <= r < d && x == d * q + r
    ensures x / d == q && x % d == r
  {
    var q', r' := x / d, x % d;
    assert x == d * q' + r';
    assert d * (q' - q) == r - r';
    if q' > q {
      MulMono(d, 1, q' - q);
    } else if q' < q {
      MulMono(d, q' - q, -1);
    }
  }

  lemma MulMono(d: int, x: int, y: int)
    requires 0 <= d && x <= y
    ensures d * x <= d * y
  {
  }

  lemma DivBound(x: nat, d: nat)
    requires d > 0
    ensures 0 <= x / d <= x
  {
    var q, r := x / d, x % d;
    assert x == d * q + r;
    assert q >= 0;
    MulMono(q, 1, d);
  }

  /** Dividing by a * b is dividing by a and then by b, and the remainders compose. */
  lemma DivDiv(x: int, a: nat, b: nat)
    requires a > 0 && b > 0
    ensures a * b > 0
    ensures x / (a * b) == x / a / b
    ensures x % (a * b) == x % a + a * (x / a % b)
  {
    var q, r := x / a, x % a;
    var q2, r2 := q / b, q % b;
    assert x == a * q + r && q == b * q2 + r2;
    assert a * (r2 + 1) <= a * b by { MulMono(a, r2 + 1, b); }
    assert a * q == a * b * q2 + a * r2 by {
      assert a * (b * q2 + r2) == a * (b * q2) + a * r2;
      assert a * (b * q2) == a * b * q2;
    }
    assert a * (r2 + 1) == a * r2 + a;
    assert a * r2 >= 0 by { MulMono(a, 0, r2); }
    DivUnique(x, a * b, q2, r + a * r2);
  }

  lemma ModMod(x: int, a: nat, b: nat)
    requires a > 0 && b > 0
    ensures a * b > 0 && x % (a * b) % a == x % a
  {
    DivDiv(x, a, b);
    DivUnique(x % (a * b), a, x / a % b, x % a);
  }

  /** Taking bits one at a time is dividing by a power of two. */
  lemma {:induction false} LowHigh(x: nat, k: nat, p: nat)
    requires p == Pow2(k)
    ensures Low(x, k) == x % p && High(x, k) == x / p
  {
    if k == 0 {
    } else {
      LowHigh(x / 2, k - 1, Pow2(k - 1));
      DivDiv(x, 2, Pow2(k - 1));
    }
  }

  lemma {:induction false} ZeroBits(i: nat)
    ensures High(0, i) == 0
  {
    if i == 0 {
    } else {
      ZeroBits(i - 1);
    }
  }

  /** The k low bits of lo under hi. */
  function Join(lo: nat, hi: nat, k: nat): nat {
    if k == 0 then hi else lo % 2 + 2 * Join(lo / 2, hi, k - 1)
  }

  lemma {:induction false} JoinIs(lo: nat, hi: nat, k: nat, p: nat)
    requires lo < p == Pow2(k)
    ensures Join(lo, hi, k) == lo + p * hi
  {
    if k == 0 {
    } else {
      JoinIs(lo / 2, hi, k - 1, Pow2(k - 1));
      assert 2 * (Pow2(k - 1) * hi) == p * hi;
    }
  }

  lemma {:induction false} Narrow(x: nat, k: nat)
    requires x < Pow2(k)
    ensures Low(x, k) == x && High(x, k) == 0 && Join(x, 0, k) == x
  {
    if k == 0 {
    } else {
      Narrow(x / 2, k - 1);
    }
  }

  lemma {:induction false} JoinParts(lo: nat, hi: nat, k: nat)
    requires lo < Pow2(k)
    ensures Low(Join(lo, hi, k), k) == lo && High(Join(lo, hi, k), k) == hi
  {
    if k == 0 {
    } else {
      JoinParts(lo / 2, hi, k - 1);
    }
  }

  //////////////////////////////////////////////////////////////////////////////
  // Bitwise operators and arithmetic
  //////////////////////////////////////////////////////////////////////////////

  /** A bitwise operator acts on the k low bits and on the other bits independently. */
  lemma {:induction false} BitwiseSplit(g: Gate, x: nat, y: nat, k: nat, n: nat)
    requires k <= n
    ensures Bitwise(g, x, y, n)
         == Join(Bitwise(g, Low(x, k), Low(y, k), k), Bitwise(g, High(x, k), High(y, k), n - k), k)
    decreases k
  {
    if k == 0 {
    } else {
      BitwiseSplit(g, x / 2, y / 2, k - 1, n - 1);
      LowStep(x, k);
      LowStep(y, k);
      BitwiseStep(g, Low(x, k), Low(y, k), k);
    }
  }

  lemma LowStep(x: nat, k: nat)
    requires k > 0
    ensures Low(x, k) / 2 == Low(x / 2, k - 1) && Parity(Low(x, k)) == Parity(x)
  {
  }

  lemma BitwiseStep(g: Gate, x: nat, y: nat, n: nat)
    requires n > 0
    ensures Bitwise(g, x, y, n) / 2 == Bitwise(g, x / 2, y / 2, n - 1)
    ensures Bitwise(g, x, y, n) % 2 == Digit(g(Parity(x), Parity(y)))
  {
  }

  /** Bit i of the result is the gate applied to bit i of the operands. */
  lemma {:induction false} BitwiseBit(g: Gate, x: nat, y: nat, i: nat, n: nat)
    requires i < n
    ensures BitAt(Bitwise(g, x, y, n), i) == Digit(g(BitAt(x, i) == 1, BitAt(y, i) == 1))
  {
    if i == 0 {
    } else {
      BitwiseBit(g, x / 2, y / 2, i - 1, n - 1);
      BitwiseStep(g, x, y, n);
    }
  }

  lemma {:induction false} AndOnes(x: nat, n: nat)
    ensures Bitwise(AND, x, Pow2(n) - 1, n) == Low(x, n)
  {
    if n == 0 {
    } else {
      AndOnes(x / 2, n - 1);
      assert (Pow2(n) - 1) / 2 == Pow2(n - 1) - 1;
    }
  }

  lemma {:induction false} WithZero(x: nat, n: nat)
    ensures Bitwise(AND, x, 0, n) == 0
    ensures Bitwise(OR, x, 0, n) == Bitwise(OR, 0, x, n) == Low(x, n)
  {
    if n == 0 {
    } else {
      WithZero(x / 2, n - 1);
    }
  }

  /** Joining a field above bit k with one below it is addition. */
  lemma OrDisjoint(x: nat, y: nat, z: nat, k: nat, p: nat, n: nat)
    requires k <= n && x < p == Pow2(k) && y < Pow2(n - k) && z == p * y
    ensures Bitwise(OR, x, z, n) == Bitwise(OR, z, x, n) == x + z
  {
    hide Bitwise, Low, High, Join, Pow2;
    OrJoin(x, y, k, n);
    JoinIs(0, y, k, p);
    JoinIs(x, y, k, p);
  }

  lemma OrJoin(x: nat, y: nat, k: nat, n: nat)
    requires k <= n && x < Pow2(k) && y < Pow2(n - k)
    ensures Bitwise(OR, x, Join(0, y, k), n) == Bitwise(OR, Join(0, y, k), x, n) == Join(x, y, k)
  {
    hide Bitwise, Low, High, Join, Pow2;
    JoinParts(0, y, k);
    Narrow(x, k);
    Narrow(y, n - k);
    BitwiseSplit(OR, x, Join(0, y, k), k, n);
    BitwiseSplit(OR, Join(0, y, k), x, k, n);
    WithZero(x, k);
    WithZero(y, n - k);
  }

  /** A mask of k ones keeps the k low bits. */
  lemma AndLow(x: nat, k: nat, n: nat)
    requires k <= n
    ensures Bitwise(AND, x, Pow2(k) - 1, n) == x % Pow2(k)
  {
    var lo := Bitwise(AND, Low(x, k), Pow2(k) - 1, k);
    assert lo == x % Pow2(k) by {
      AndOnes(Low(x, k), k);
      Narrow(Low(x, k), k);
      LowHigh(x, k, Pow2(k));
    }
    assert Bitwise(AND, x, Pow2(k) - 1, n) == Join(lo, 0, k) by {
      BitwiseSplit(AND, x, Pow2(k) - 1, k, n);
      Narrow(Pow2(k) - 1, k);
      WithZero(High(x, k), n - k);
    }
    Narrow(lo, k);
  }

  /** The mask that clears bit 1. */
  lemma AndClearBit1(x: Word)
    ensures And(x, 0xFFFF_FFFD) == x - x / 2 % 2 * 2
  {
    Pow2Values();
    BitwiseStep(AND, x, 0xFFFF_FFFD, 32);
    BitwiseStep(AND, x / 2, 0x7FFF_FFFE, 31);
    assert Bitwise(AND, x / 2 / 2, 0x3FFF_FFFF, 30) == x / 2 / 2 by {
      AndOnes(x / 2 / 2, 30);
      Narrow(x / 2 / 2, 30);
    }
  }

  /** One step of a mask made of runs of ones and zeros: the k lowest mask bits are all equal. */
  lemma AndRun(x: nat, q: nat, ones: bool, mask: nat, whole: nat, k: nat, p: nat, n: nat)
    requires k <= n && p == Pow2(k) && q == x / p
    requires whole == (if ones then p - 1 else 0) + p * mask
    ensures Bitwise(AND, x, whole, n) == (if ones then x % p else 0) + p * Bitwise(AND, q, mask, n - k)
  {
    hide Bitwise, Low, High, Join, Pow2;
    var run, hi := if ones then p - 1 else 0, Bitwise(AND, High(x, k), mask, n - k);
    AndJoin(x, ones, mask, k, n);
    JoinIs(run, mask, k, p);
    JoinIs(if ones then Low(x, k) else 0, hi, k, p);
    LowHigh(x, k, p);
  }

  lemma AndJoin(x: nat, ones: bool, mask: nat, k: nat, n: nat)
    requires k <= n
    ensures Bitwise(AND, x, Join(if ones then Pow2(k) - 1 else 0, mask, k), n)
         == Join(if ones then Low(x, k) else 0, Bitwise(AND, High(x, k), mask, n - k), k)
  {
    hide Bitwise, Low, High, Join, Pow2;
    var run := if ones then Pow2(k) - 1 else 0;
    JoinParts(run, mask, k);
    BitwiseSplit(AND, x, Join(run, mask, k), k, n);
    AndOnes(Low(x, k), k);
    Narrow(Low(x, k), k);
    WithZero(Low(x, k), k);
  }

  /** The mask ~0x00F0FC00: bits 10..15 and 20..23 are cleared. */
  lemma AndUnreserved(x: Word)
    ensures And(x, 0xFF0F_03FF) == x % 0x400 + x / 0x1_0000 % 0x10 * 0x1_0000 + x / 0x100_0000 * 0x100_0000
  {
    hide Bitwise, Pow2;
    var b := x / 0x400;
    var tail := Bitwise(AND, b, 0x3F_C3C0, 22);
    assert And(x, 0xFF0F_03FF) == x % 0x400 + 0x400 * tail by {
      Pow2Values();
      AndRun(x, b, true, 0x3F_C3C0, 0xFF0F_03FF, 10, 0x400, 32);
    }
    AndUnreserved22(b);
    assert b / 0x40 == x / 0x1_0000 && b / 0x4000 == x / 0x100_0000;
  }

  lemma AndUnreserved22(b: nat)
    requires b < 0x40_0000
    ensures Bitwise(AND, b, 0x3F_C3C0, 22) == 0x40 * (b / 0x40 % 0x10) + 0x4000 * (b / 0x4000)
  {
    hide Bitwise, Pow2;
    Pow2Values();
    var c, d := b / 0x40, b / 0x400;
    assert c / 0x10 == d && d / 0x10 == b / 0x4000;
    AndRun(b, c, false, 0xFF0F, 0x3F_C3C0, 6, 0x40, 22);
    AndRun(c, d, true, 0xFF0, 0xFF0F, 4, 0x10, 16);
    AndUnreserved12(d);
  }

  lemma AndUnreserved12(d: nat)
    requires d < 0x1000
    ensures Bitwise(AND, d, 0xFF0, 12) == 0x10 * (d / 0x10)
  {
    hide Bitwise;
    Pow2Values();
    AndRun(d, d / 0x10, false, 0xFF, 0xFF0, 4, 0x10, 12);
    AndLow(d / 0x10, 8, 8);
  }
}

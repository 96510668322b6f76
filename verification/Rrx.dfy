/** MOVS rd, rd, RRX rotates the 33 bits of the C flag and rd. */
module Rrx {
  import opened Words
  import opened Machine
  import opened Alu
  import opened Shifter
  import opened BarrelShifter
  import opened DataProcessing

  /** The encodings of MOVS rd, rd, RRX with rd not the pc. */
  predicate IsRrx(ins: Word) {
    && !IsImmediate(ins) && OpcodeOf(ins) == 13 && SetsOf(ins) == 1 && RdOf(ins) != 15
    && Field(ins, 0, 4) == RdOf(ins) && Field(ins, 4, 1) == 0 && Field(ins, 5, 2) == ROR && Field(ins, 7, 5) == 0
  }

  /** The C flag above rd. */
  function Linked(s: State, rd: Reg): nat {
    var c: int, x: int := StateFlags(s).c, s.regs[rd];
    c * WORD + x
  }

  /** 33 bits rotated right by m. */
  function Rotate33(x: nat, m: nat): int
    requires m <= 33
  {
    x / Pow2(m) + x % Pow2(m) * Pow2(33 - m)
  }

  function Repeat(p: Platform, s: State, ins: Word, k: nat): State {
    if k == 0 then s else Process(p, Repeat(p, s, ins, k - 1), ins)
  }

  /** One rotation by one bit. */
  function RotateOnce(x: nat): nat {
    x / 2 + x % 2 * WORD
  }

  lemma OneRrx(p: Platform, s: State, ins: Word)
    requires IsRrx(ins)
    ensures var rd, s' := RdOf(ins), Process(p, s, ins);
      && Linked(s', rd) == RotateOnce(Linked(s, rd))
      && (forall r: Reg :: r != rd ==> s'.regs[r] == s.regs[r]) && s'.mem == s.mem
  {
    hide StateFlags, Field, Result;
    var rd := RdOf(ins);
    var c, x := StateFlags(s).c, s.regs[rd];
    assert Operand(p, s, ins) == RotateExtend(x, c) by { assert Pow2(4) == 16; }
    ProcessEffect(p, s, ins);
    var top: int, v: int, bit: int := c, x, x % 2;
    assert (top * WORD + v) / 2 == top * 0x8000_0000 + v / 2 && (top * WORD + v) % 2 == bit;
    MovResult(ReadReg(s, RnOf(ins)), RotateExtend(x, c).0, c);
  }

  lemma MovResult(a: Word, b: Word, c: Bit)
    ensures Result(13, a, b, c) == b
  {
  }

  lemma Pow33(m: nat)
    requires m <= 32
    ensures Pow2(m) * Pow2(32 - m) == WORD && Pow2(33 - m) == 2 * Pow2(32 - m) && Pow2(m + 1) == 2 * Pow2(m)
  {
    Pow2Values();
    Pow2Add(m, 32 - m);
  }

  lemma RotateMore(x: nat, m: nat)
    requires x < 2 * WORD && m <= 32
    ensures 0 <= Rotate33(x, m)
    ensures RotateOnce(Rotate33(x, m)) == Rotate33(x, m + 1)
  {
    hide Pow2;
    var a, h := Pow2(m), Pow2(32 - m);
    Pow33(m);
    DivDiv(x, a, 2);
    DivBound(x, a);
    var q, r := x / a, x % a;
    var rh := r * h;
    MulMono(h, 0, r);
    assert Rotate33(x, m) == q + 2 * rh by { assert r * (2 * h) == 2 * rh; }
    assert (r + a * (q % 2)) * h == rh + WORD * (q % 2) by { RorLow(r, q % 2, a, h, WORD); }
    assert (q + 2 * rh) / 2 == q / 2 + rh && (q + 2 * rh) % 2 == q % 2;
  }

  lemma FullTurn(x: nat)
    requires x < 2 * WORD
    ensures Rotate33(x, 0) == x && Rotate33(x, 33) == x
  {
    Pow2Values();
    DivUnique(x, 2 * WORD, 0, x);
  }

  /** k of them are a rotation of the 33 bits by k modulo 33, and touch no other register and no
      memory. */
  lemma {:induction false} RrxRotates(p: Platform, s: State, ins: Word, k: nat)
    requires IsRrx(ins)
    ensures var rd, t := RdOf(ins), Repeat(p, s, ins, k);
      && Linked(t, rd) == Rotate33(Linked(s, rd), k % 33)
      && (forall r: Reg :: r != rd ==> t.regs[r] == s.regs[r]) && t.mem == s.mem
  {
    hide Process, IsRrx, Linked, Rotate33, RotateOnce;
    var x := Linked(s, RdOf(ins));
    assert x < 2 * WORD by { LinkedBound(s, RdOf(ins)); }
    FullTurn(x);
    if k == 0 {
    } else {
      RrxRotates(p, s, ins, k - 1);
      OneRrx(p, Repeat(p, s, ins, k - 1), ins);
      RotateMore(x, (k - 1) % 33);
      assert k % 33 == if (k - 1) % 33 == 32 then 0 else (k - 1) % 33 + 1;
    }
  }

  lemma LinkedBound(s: State, rd: Reg)
    ensures Linked(s, rd) < 2 * WORD
  {
  }

  /** 33 of them restore both rd and the C flag. */
  lemma ThirtyThreeRestore(p: Platform, s: State, ins: Word)
    requires IsRrx(ins)
    ensures var rd, t := RdOf(ins), Repeat(p, s, ins, 33);
      t.regs[rd] == s.regs[rd] && StateFlags(t).c == StateFlags(s).c
  {
    hide Repeat, StateFlags, Rotate33;
    RrxRotates(p, s, ins, 33);
    LinkedBound(s, RdOf(ins));
    FullTurn(Linked(s, RdOf(ins)));
    Unlink(s, Repeat(p, s, ins, 33), RdOf(ins));
  }

  lemma Unlink(s: State, t: State, rd: Reg)
    requires Linked(s, rd) == Linked(t, rd)
    ensures t.regs[rd] == s.regs[rd] && StateFlags(t).c == StateFlags(s).c
  {
    hide StateFlags;
  }
}

/** The state of the simulated processor as a value, and what its accessors (registers.c,
    arm_core.c) mean on it. */
module Machine {
  import opened Words
  import opened Memory

  /** r0..r12, sp, lr, pc, CPSR, SPSR. */
  const NB_REGISTER: nat := 18

  /** A register number taken from a 4-bit field of an instruction. */
  type Reg = r: int | 0 <= r < 16

  datatype Snapshot = Snapshot(regs: seq<Word>, mem: seq<Byte>, cycles: Word)
  type State = s: Snapshot | |s.regs| == NB_REGISTER witness Snapshot(seq(NB_REGISTER, _ => 0), [], 0)

  datatype Flags = Flags(n: Bit, z: Bit, c: Bit, v: Bit)

  /** Results of the C functions that return an int, plus an access outside the memory array. */
  datatype Outcome = Ret(code: int) | Lost

  /** A width-bit field of an instruction word. */
  function Field(ins: Word, lo: nat, width: nat): (r: nat)
    ensures r < Pow2(width)
  {
    Low(High(ins, lo), width)
  }

  /** The field is what the shift and the mask of the source extract. */
  lemma FieldIsMask(p: Platform, ins: Word, lo: nat, width: nat)
    requires lo < 32 && width <= 32
    ensures Bitwise(AND, Shr(p, ins, lo), Pow2(width) - 1, 32) == Field(ins, lo, width)
    ensures Field(ins, lo, width) == ins / Pow2(lo) % Pow2(width)
  {
    hide Bitwise, Low, High, Pow2;
    LowHigh(ins, lo, Pow2(lo));
    LowHigh(High(ins, lo), width, Pow2(width));
    AndLow(High(ins, lo), width, 32);
  }

  /** Fields and bits by division. */
  lemma FieldValue(ins: Word, lo: nat, p: nat, width: nat, q: nat)
    requires p == Pow2(lo) && q == Pow2(width)
    ensures Field(ins, lo, width) == ins / p % q
  {
    hide Low, High, Pow2;
    LowHigh(ins, lo, p);
    LowHigh(High(ins, lo), width, q);
  }

  lemma BitValue(x: nat, i: nat, p: nat)
    requires p == Pow2(i)
    ensures BitAt(x, i) == x / p % 2
  {
    hide High;
    LowHigh(x, i, p);
  }

  /** A value without the reserved bits 10..15 and 20..23 of the CPSR. */
  function Unreserved(v: Word): Word {
    var low: int, mid: int, high: int := v % 0x400, v / 0x1_0000 % 0x10, v / 0x100_0000;
    UnreservedDecomposition(v);
    low + mid * 0x1_0000 + high * 0x100_0000
  }

  /** Reading the pc yields the address of the instruction plus 8, with bit 1 cleared. */
  function ReadReg(s: State, r: Reg): Word {
    if r == 15 then var pc := Plus(s.regs[15], 4); pc - pc / 2 % 2 * 2 else s.regs[r]
  }

  function WriteReg(s: State, r: Reg, v: Word): State {
    s.(regs := s.regs[r := v])
  }

  function Cpsr(s: State): Word {
    Unreserved(s.regs[16])
  }

  function WriteCpsr(s: State, v: Word): State {
    s.(regs := s.regs[16 := Unreserved(v)])
  }

  function FlagsOf(cpsr: Word): Flags {
    Flags(cpsr / 0x8000_0000, cpsr / 0x4000_0000 % 2, cpsr / 0x2000_0000 % 2, cpsr / 0x1000_0000 % 2)
  }

  function StateFlags(s: State): Flags {
    FlagsOf(Cpsr(s))
  }

  /** The four flags in bits 31..28. */
  function Pack(f: Flags): Word {
    var n: int, z: int, c: int, v: int := f.n, f.z, f.c, f.v;
    n * 0x8000_0000 + z * 0x4000_0000 + c * 0x2000_0000 + v * 0x1000_0000
  }

  function SetFlags(s: State, f: Flags): State {
    WriteCpsr(s, Cpsr(s) % 0x1000_0000 + Pack(f))
  }

  /** Advancing over one instruction: what a fetch does to the processor. */
  function Tick(s: State): State {
    s.(regs := s.regs[15 := Plus(s.regs[15], 4)], cycles := Plus(s.cycles, 1))
  }

  /** After the fetch an instruction reads its own address plus 8 as the pc, exactly when bit 1 of
      its address is clear. */
  lemma PcReadsAhead(s: State)
    ensures ReadReg(Tick(s), 15) == Plus(s.regs[15], 8) <==> s.regs[15] / 2 % 2 == 0
  {
    var pc: int := s.regs[15];
    WrapWrap(pc + 4, 4);
    ClearBit1(Plus(pc, 8), pc);
  }

  lemma ClearBit1(v: Word, pc: Word)
    requires v == Plus(pc, 8)
    ensures v / 2 % 2 == pc / 2 % 2
  {
    var w := if pc < WORD - 8 then pc + 8 else pc + 8 - WORD;
    assert v == w;
  }

  predicate Readable(s: State, address: Word, n: nat)
    requires n > 0
  {
    Admit(|s.mem|, address, n).Done?
  }

  function WordAt(p: Platform, s: State, address: Word): Word
    requires Readable(s, address, 4)
  {
    assert Pow256(4) == WORD;
    Decode(Load(s.mem, address, 4), p.bigEndian)
  }

  function HalfAt(p: Platform, s: State, address: Word): Half
    requires Readable(s, address, 2)
  {
    assert Pow256(2) == 0x1_0000;
    Decode(Load(s.mem, address, 2), p.bigEndian)
  }

  /** The bytes of v stored at address, when the access is admitted. */
  function WriteBytes(s: State, address: Word, bytes: seq<Byte>): State
    requires |bytes| > 0
  {
    if Readable(s, address, |bytes|) then s.(mem := Store(s.mem, address, bytes)) else s
  }

  function Reply(a: Access): Outcome {
    match a
    case Done => Ret(0)
    case Refused => Ret(-1)
    case Stray => Lost
  }

  //////////////////////////////////////////////////////////////////////////////
  // Reserved bits and flags
  //////////////////////////////////////////////////////////////////////////////

  lemma UnreservedTwice(v: Word)
    ensures Unreserved(Unreserved(v)) == Unreserved(v)
  {
    UnreservedParts(v);
    UnreservedParts(Unreserved(v));
  }

  /** The mask keeps the top byte, bits 19..16 and bits 9..0, and nothing else. */
  lemma UnreservedParts(v: Word)
    ensures Unreserved(v) / 0x100_0000 == v / 0x100_0000
    ensures Unreserved(v) / 0x1_0000 % 0x10 == v / 0x1_0000 % 0x10
    ensures Unreserved(v) % 0x400 == v % 0x400
  {
    var a, b, c := v % 0x400, v / 0x1_0000 % 0x10, v / 0x100_0000;
    DivUnique(Unreserved(v), 0x100_0000, c, a + b * 0x1_0000);
    DivUnique(Unreserved(v), 0x1_0000, b + c * 0x100, a);
    DivUnique(Unreserved(v), 0x400, b * 0x40 + c * 0x4000, a);
    DivUnique(b + c * 0x100, 0x10, c * 0x10, b);
  }

  predicate ReservedBit(i: nat) {
    10 <= i < 16 || 20 <= i < 24
  }

  /** The mask bit by bit: bits 10..15 and 20..23 become 0 and every other bit stays. */
  lemma UnreservedBits(v: Word, i: nat)
    requires i < 32
    ensures BitAt(Unreserved(v), i) == if ReservedBit(i) then 0 else BitAt(v, i)
  {
    hide Bitwise, High, Unreserved;
    AndUnreserved(v);
    assert Unreserved(v) == And(v, 0xFF0F_03FF) by { UnreservedSum(v); }
    BitwiseBit(AND, v, 0xFF0F_03FF, i, 32);
    MaskBits(i);
  }

  lemma UnreservedSum(v: Word)
    ensures Unreserved(v) == v % 0x400 + v / 0x1_0000 % 0x10 * 0x1_0000 + v / 0x100_0000 * 0x100_0000
  {
  }

  /** The bits of the constant ~0x00F0FC00. */
  lemma MaskBits(i: nat)
    requires i < 32
    ensures BitAt(0xFF0F_03FF, i) == if ReservedBit(i) then 0 else 1
  {
    if i < 10 {
      OnesBit(0x3F_C3C0, i, 10, 0x400);
    } else {
      SkipBits(0xFF0F_03FF, 0x3F_C3C0, i, 10, 0x400);
      if i < 16 {
        ZerosBit(0xFF0F, i - 10, 6, 0x40);
      } else {
        SkipBits(0x3F_C3C0, 0xFF0F, i - 10, 6, 0x40);
        if i < 20 {
          OnesBit(0xFF0, i - 16, 4, 0x10);
        } else {
          SkipBits(0xFF0F, 0xFF0, i - 16, 4, 0x10);
          if i < 24 {
            ZerosBit(0xFF, i - 20, 4, 0x10);
          } else {
            SkipBits(0xFF0, 0xFF, i - 20, 4, 0x10);
            OnesBit(0, i - 24, 8, 0x100);
          }
        }
      }
    }
  }

  lemma {:induction false} OnesBit(rest: nat, i: nat, k: nat, p: nat)
    requires i < k && p == Pow2(k)
    ensures BitAt(p - 1 + p * rest, i) == 1
  {
    if i == 0 {
      assert p * rest == 2 * (Pow2(k - 1) * rest);
    } else {
      var h := Pow2(k - 1);
      assert p * rest == 2 * (h * rest);
      assert (p - 1 + p * rest) / 2 == h - 1 + h * rest;
      OnesBit(rest, i - 1, k - 1, h);
    }
  }

  lemma {:induction false} ZerosBit(rest: nat, i: nat, k: nat, p: nat)
    requires i < k && p == Pow2(k)
    ensures BitAt(p * rest, i) == 0
  {
    var h := Pow2(k - 1);
    assert p * rest == 2 * (h * rest);
    if i > 0 { ZerosBit(rest, i - 1, k - 1, h); }
  }

  /** Bit i is bit i - k of what is left without the k low bits. */
  lemma {:induction false} SkipBits(x: nat, q: nat, i: nat, k: nat, p: nat)
    requires k <= i && p == Pow2(k) && q == x / p
    ensures BitAt(x, i) == BitAt(q, i - k)
  {
    if k == 0 {
    } else {
      DivDiv(x, 2, Pow2(k - 1));
      SkipBits(x / 2, q, i - 1, k - 1, Pow2(k - 1));
    }
  }

  /** The bits below k depend on the remainder only. */
  lemma {:induction false} LowBits(x: nat, i: nat, k: nat, p: nat)
    requires i < k && p == Pow2(k)
    ensures BitAt(x, i) == BitAt(x % p, i)
  {
    DivDiv(x, 2, Pow2(k - 1));
    var h := Pow2(k - 1);
    assert x % p == x % 2 + 2 * (x / 2 % h);
    if i > 0 { LowBits(x / 2, i - 1, k - 1, h); }
  }

  /** Writing flags and reading them back; the bits below are those read before. */
  lemma FlagsRoundTrip(s: State, f: Flags)
    ensures StateFlags(SetFlags(s, f)) == f
    ensures Cpsr(SetFlags(s, f)) % 0x1000_0000 == Cpsr(s) % 0x1000_0000
    ensures Cpsr(SetFlags(s, f)) == Cpsr(s) % 0x1000_0000 + Pack(f)
  {
    hide Unreserved, Pack, FlagsOf;
    var low := Cpsr(s) % 0x1000_0000;
    PackUnpack(low, f);
    UnreservedTwice(s.regs[16]);
    UnreservedJoin(Cpsr(s), low + Pack(f));
  }

  lemma PackUnpack(low: nat, f: Flags)
    requires low < 0x1000_0000
    ensures low + Pack(f) < WORD
    ensures FlagsOf(low + Pack(f)) == f && (low + Pack(f)) % 0x1000_0000 == low
  {
    var w, n: int, z: int, c: int, v: int := low + Pack(f), f.n, f.z, f.c, f.v;
    var t := n * 8 + z * 4 + c * 2 + v;
    DivUnique(w, 0x1000_0000, t, low);
    assert w / 0x2000_0000 == t / 2 && w / 0x4000_0000 == t / 4 && w / 0x8000_0000 == t / 8 by {
      DivDiv(w, 0x1000_0000, 2);
      DivDiv(w, 0x1000_0000, 4);
      DivDiv(w, 0x1000_0000, 8);
    }
  }

  /** Replacing the top four bits of a word without reserved bits sets none. */
  lemma UnreservedJoin(v: Word, w: Word)
    requires Unreserved(v) == v && w % 0x1000_0000 == v % 0x1000_0000
    ensures Unreserved(w) == w
  {
    UnreservedDecomposition(v);
    UnreservedDecomposition(w);
    FieldOfLow(v, 0x400, 0x40, 0x1000);
    FieldOfLow(w, 0x400, 0x40, 0x1000);
    FieldOfLow(v, 0x10_0000, 0x10, 0x10);
    FieldOfLow(w, 0x10_0000, 0x10, 0x10);
  }

  /** A word is its kept parts and its reserved parts. */
  lemma UnreservedDecomposition(v: Word)
    ensures v == v % 0x400 + v / 0x400 % 0x40 * 0x400 + v / 0x1_0000 % 0x10 * 0x1_0000
                 + v / 0x10_0000 % 0x10 * 0x10_0000 + v / 0x100_0000 * 0x100_0000
  {
    DivDiv(v, 0x400, 0x40);
    DivDiv(v, 0x1_0000, 0x10);
    DivDiv(v, 0x10_0000, 0x10);
  }

  /** A field of the 28 low bits. */
  lemma FieldOfLow(x: nat, a: nat, b: nat, c: nat)
    requires a > 0 && b > 0 && c > 0 && a * (b * c) == 0x1000_0000
    ensures x % 0x1000_0000 / a % b == x / a % b
  {
    assert b * c > 0 by { MulMono(b, 1, c); }
    DivDiv(x, a, b * c);
    DivUnique(x % 0x1000_0000, a, x / a % (b * c), x % a);
    DivDiv(x / a, b, c);
    DivUnique(x / a % (b * c), b, x / a / b % c, x / a % b);
  }
}

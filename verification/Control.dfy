/** What a step does around the instruction body, read off the fetched word and the cells of the
    register file: condition, fetch, dispatch, branch, exception and creation. */
module Control {
  import opened Words
  import opened Memory
  import opened Machine
  import opened Alu
  import opened Conditions
  import opened DataProcessing
  import opened ByteMap
  import opened Instruction
  import opened Runs
  import opened Effects

  //////////////////////////////////////////////////////////////////////////////
  // Conditions
  //////////////////////////////////////////////////////////////////////////////

  /** The fetched instruction runs if its condition, bits 31..28 of the word, holds of bits 31..28 of
      cell 16: the table of the header except for LE (Z and N != V). AL and 0xF always run. */
  predicate Holds(cond: nat, cpsr: Word) {
    var n, z, c, v := cpsr / 0x8000_0000 == 1, cpsr / 0x4000_0000 % 2 == 1, cpsr / 0x2000_0000 % 2 == 1, cpsr / 0x1000_0000 % 2 == 1;
    match cond
    case 0 => z
    case 1 => !z
    case 2 => c
    case 3 => !c
    case 4 => n
    case 5 => !n
    case 6 => v
    case 7 => !v
    case 8 => c && !z
    case 9 => !c || z
    case 10 => n <==> v
    case 11 => !(n <==> v)
    case 12 => !z && (n <==> v)
    case 13 => z && !(n <==> v)
    case _ => true
  }

  lemma ConditionDecides(p: Platform, s: State)
    requires Readable(s, s.regs[15], 4)
    ensures var ins := Fetched(p, s);
      Cycle(p, s) == if Holds(ins / 0x1000_0000, s.regs[16]) then Perform(p, Tick(s), ins) else (Tick(s), Ret(0))
  {
    hide WordAt, Admit, StateFlags, Perform, CondOf;
    Decoded(Fetched(p, s));
    FlagCells(s);
    FlagsInCell16(s, Tick(s));
  }

  /** AL: the instruction is performed from every state. */
  lemma AlwaysPerformed(p: Platform, s: State)
    requires Readable(s, s.regs[15], 4) && Fetched(p, s) / 0x1000_0000 == 14
    ensures Cycle(p, s) == Perform(p, Tick(s), Fetched(p, s))
  {
    hide WordAt, Admit, Perform, Tick;
    ConditionDecides(p, s);
  }

  /** After an arithmetic instruction with S = 1 other than SBC and RSC, or ORR, MOV, BIC, MVN, the
      conditions MI and PL of the next instruction decide the sign of the value written; after ADD, VS and
      VC decide whether the unsigned sum exceeds 32 bits. */
  lemma SignAndCarryDecided(p: Platform, s: State, ins: Word, next: Word)
    requires ins / 0x20_0000 % 0x10 in {2, 3, 4, 5, 12, 13, 14, 15} && ins / 0x10_0000 % 2 == 1 && ins / 0x1000 % 0x10 != 15
    ensures var rn: Reg, rd: Reg := ins / 0x1_0000 % 0x10, ins / 0x1000 % 0x10;
      var t, a, b := Process(p, s, ins), ReadReg(s, rn), Operand(p, s, ins).0;
      && (next / 0x1000_0000 == 4 ==> (CheckCond(t, next) == 1 <==> t.regs[rd] >= 0x8000_0000))
      && (next / 0x1000_0000 == 5 ==> (CheckCond(t, next) == 1 <==> t.regs[rd] < 0x8000_0000))
      && (ins / 0x20_0000 % 0x10 == 4 && next / 0x1000_0000 == 6 ==> (CheckCond(t, next) == 1 <==> a + b >= WORD))
      && (ins / 0x20_0000 % 0x10 == 4 && next / 0x1000_0000 == 7 ==> (CheckCond(t, next) == 1 <==> a + b < WORD))
  {
    hide ReadReg, Operand, Process, StateFlags, CondOf;
    Decoded(next);
    WrittenFlags(p, s, ins);
    FlagCells(Process(p, s, ins));
  }

  //////////////////////////////////////////////////////////////////////////////
  // Fetch, dispatch, exceptions, creation
  //////////////////////////////////////////////////////////////////////////////

  /** Byte i of the word at address lies at address + i, modulo 2^32; its weight follows the byte
      order of the build. */
  predicate ByteLies(p: Platform, s: State, address: int, w: Word, i: nat)
    requires i < 4
  {
    var at := (address + i) % WORD;
    at < |s.mem| && w / Pow256(if p.bigEndian then 3 - i else i) % 0x100 == s.mem[at]
  }

  /** The four bytes of a fetched or loaded word. */
  lemma WordBytes(p: Platform, s: State, address: Word)
    requires Readable(s, address, 4)
    ensures var w := WordAt(p, s, address);
      ByteLies(p, s, address, w, 0) && ByteLies(p, s, address, w, 1) && ByteLies(p, s, address, w, 2) && ByteLies(p, s, address, w, 3)
  {
    hide ByteLies;
    WordByte(p, s, address, 0);
    WordByte(p, s, address, 1);
    WordByte(p, s, address, 2);
    WordByte(p, s, address, 3);
  }

  lemma WordByte(p: Platform, s: State, address: Word, i: nat)
    requires Readable(s, address, 4) && i < 4
    ensures ByteLies(p, s, address, WordAt(p, s, address), i)
  {
    hide Decode, Pow256;
    assert Cell(address, i) < |s.mem|;
    DecodeAt(Load(s.mem, address, 4), p.bigEndian, i);
  }

  /** Bits 27..25: 0 and 1 are data processing, 5 a branch, 3, 6 and 7 are undefined. */
  lemma DispatchedOn(p: Platform, s: State, ins: Word)
    ensures var kind := ins / 0x200_0000 % 8;
      && (kind < 2 ==> Perform(p, s, ins) == (Process(p, s, ins), Ret(0)))
      && (kind in {3, 6, 7} ==> Perform(p, s, ins) == (s, Ret(7)))
      && (kind == 5 ==> Perform(p, s, ins) == Branch(s, ins))
  {
    hide Field, RegisterForm, ImmediateForm, Branch, IsImmediate;
    Decoded(ins);
  }

  /** The branch as coded: its condition is tested again, the pc drops by the 24-bit field from the
      value it reads as, bit 24 saves that value plus 4 in r14, and nothing else changes. */
  lemma BranchAsCoded(p: Platform, s: State, ins: Word)
    ensures var (t, r), pc := Branch(s, ins), ReadReg(s, 15);
      && (r == Ret(0) <==> ins / 0x1000_0000 != 15 && Holds(ins / 0x1000_0000, s.regs[16]))
      && (r != Ret(0) ==> (t, r) == (s, Ret(-1)))
      && (r == Ret(0) ==> (pc - ins % 0x100_0000 - t.regs[15]) % WORD == 0)
      && (r == Ret(0) && ins / 0x100_0000 % 2 == 1 ==> (pc + 4 - t.regs[14]) % WORD == 0)
      && (r == Ret(0) && ins / 0x100_0000 % 2 == 0 ==> t.regs[14] == s.regs[14])
      && (forall i: nat :: i < 18 && i != 14 && i != 15 ==> t.regs[i] == s.regs[i]) && t.mem == s.mem && t.cycles == s.cycles
  {
    hide ReadReg, StateFlags, CondOf, BitAt, Wrap;
    Decoded(ins);
    FlagCells(s);
    Pow2Values();
    BitValue(ins, 24, 0x100_0000);
    var pc: int, field: int := ReadReg(s, 15), ins % 0x100_0000;
    Congruent(pc - field);
    Congruent(pc + 4);
  }

  /** A fetch that is refused, and an undefined instruction, raise 255 and 7 after the pc and the
      cycle count have advanced, and change nothing else. */
  lemma FailedSteps(p: Platform, s: State)
    ensures s.regs[15] + 3 < WORD && s.regs[15] + 3 > |s.mem| ==> Step(p, s) == (Tick(s), Ret(255))
    ensures Readable(s, s.regs[15], 4) && Holds(Fetched(p, s) / 0x1000_0000, s.regs[16]) && Fetched(p, s) / 0x200_0000 % 8 in {3, 6, 7}
      ==> Step(p, s) == (Tick(s), Ret(7))
  {
    hide WordAt, Perform, CheckCond, Inside, ReadReg, Holds;
    if Readable(s, s.regs[15], 4) {
      ConditionDecides(p, s);
      DispatchedOn(p, Tick(s), Fetched(p, s));
    }
  }

  /** A step whose instruction returns 0 is its performance. */
  lemma StepPerforms(p: Platform, s: State)
    requires Readable(s, s.regs[15], 4) && Holds(Fetched(p, s) / 0x1000_0000, s.regs[16])
    ensures var (t, r) := Perform(p, Tick(s), Fetched(p, s));
      r == Ret(0) || r.Lost? ==> Step(p, s) == (t, r)
  {
    hide WordAt, Perform, Cycle, Holds, Raise, Tick;
    ConditionDecides(p, s);
  }

  /** The state of a new processor: pc 0, sp the memory size, and a CPSR with mode SVC (bits 4..0),
      ARM state (bit 5), and FIQ, IRQ and aborts masked (bits 6, 7, 8), all else clear. */
  lemma CreatedState(s: State)
    ensures var t := Created(s);
      && t.regs[15] == 0 && (|s.mem| - t.regs[13]) % WORD == 0
      && t.regs[16] % 0x20 == 0x13 && t.regs[16] / 0x20 % 2 == 0 && t.regs[16] / 0x40 % 2 == 1 && t.regs[16] / 0x80 % 2 == 1
      && t.regs[16] / 0x100 == 1
      && (forall i: nat :: i < 18 && i !in {13, 15, 16} ==> t.regs[i] == s.regs[i]) && t.mem == s.mem && t.cycles == s.cycles
  {
    Congruent(|s.mem|);
  }

  /** Exceptions: 1 resets pc and CPSR and keeps all else; 8 answers 9 for the number 0x123456, 0 for
      1, and itself otherwise; every exception but 1 keeps the whole state, and every one but 8
      answers itself. */
  lemma ExceptionAnswers(p: Platform, s: State, e: Byte, uninit: Word)
    ensures var (t, r) := Raise(p, s, e, uninit);
      && (e != 1 ==> t == s) && (e != 8 ==> r == Ret(e))
      && (e == 1 ==> t.regs[15] == 0 && t.regs[16] == 0x1D3 && t.mem == s.mem && t.cycles == s.cycles)
      && (e == 1 ==> forall i: nat :: i < 18 && i != 15 && i != 16 ==> t.regs[i] == s.regs[i])
      && (e == 8 ==>
            var at := (ReadReg(s, 15) - 8) % WORD;
            && (at + 4 <= |s.mem| && at + 4 <= WORD ==>
                  var number := WordAt(p, s, at) % 0x100_0000;
                  r == Ret(if number == 0x12_3456 then 9 else if number == 1 then 0 else 8)))
  {
    hide WordAt, ReadReg;
    var at := (ReadReg(s, 15) - 8) % WORD;
    if at + 4 <= |s.mem| && at + 4 <= WORD { WholeInside(|s.mem|, at, 4); }
  }

  lemma WholeInside(size: nat, address: Word, n: nat)
    requires 0 < n && address + n <= size && address + n <= WORD
    ensures Admit(size, address, n).Done?
  {
    assert forall i :: 0 <= i < n ==> Cell(address, i) == address + i;
  }
}

/** One step on a load or store, from the fetched word: which transfer its bits select, and what
    that transfer leaves in the registers and the memory, as coded. */
module Transfers {
  import opened Words
  import opened Memory
  import opened Machine
  import opened DataProcessing
  import opened Instruction
  import opened Runs
  import opened Effects
  import opened Control
  import opened StmPlacement
  import LoadStore

  /** The next instruction is readable, its condition holds, and its class, bits 27..25, is kind. */
  predicate Performs(p: Platform, s: State, kind: nat) {
    Readable(s, s.regs[15], 4) && Holds(Fetched(p, s) / 0x1000_0000, s.regs[16]) && Fetched(p, s) / 0x200_0000 % 8 == kind
  }

  /** The bits L (20) and B (22). */
  function LoadBit(ins: Word): nat { ins / 0x10_0000 % 2 }

  function ByteBit(ins: Word): nat { ins / 0x40_0000 % 2 }

  /** The target register of a single transfer: r4 or r0, by bit 14. */
  function Target(ins: Word): Reg {
    if ins / 0x4000 % 2 == 1 then 4 else 0
  }

  /** Bits 14, 20, 21, 24, 25 and 26 of the word, as the code tests them. */
  lemma TransferBits(ins: Word)
    ensures LoadStore.DestOf(ins) == Target(ins) && BitAt(ins, 20) == LoadBit(ins)
    ensures BitAt(ins, 21) == ins / 0x20_0000 % 2 && BitAt(ins, 24) == ins / 0x100_0000 % 2
    ensures BitAt(ins, 25) == ins / 0x200_0000 % 2 && BitAt(ins, 26) == ins / 0x200_0000 / 2 % 2
    ensures Field(ins, 2, 2) == ins / 4 % 4
  {
    hide BitAt, Field, Pow2;
    DecodePowers();
    TransferPowers();
    BitValue(ins, 14, 0x4000);
    BitValue(ins, 20, 0x10_0000);
    BitValue(ins, 21, 0x20_0000);
    BitValue(ins, 24, 0x100_0000);
    BitValue(ins, 25, 0x200_0000);
    BitValue(ins, 26, 0x400_0000);
    FieldValue(ins, 2, 4, 2, 4);
    DivDiv(ins, 0x200_0000, 2);
  }

  lemma TransferPowers()
    ensures Pow2(2) == 4 && Pow2(14) == 0x4000 && Pow2(24) == 0x100_0000 && Pow2(26) == 0x400_0000
  {
    Pow2Values();
    assert Pow2(14) == 0x10 * Pow2(10) && Pow2(26) == 4 * Pow2(24);
  }

  /** Class 2 is a single transfer and class 4 a multiple one; both return 0 or leave the array. */
  lemma TransferStep(p: Platform, s: State, kind: nat)
    requires Performs(p, s, kind)
    ensures kind == 2 ==> Step(p, s) == LoadStore.Single(p, Tick(s), Fetched(p, s))
    ensures kind == 4 ==> Step(p, s) == LoadStore.Multiple(Tick(s), Fetched(p, s))
    ensures kind in {2, 4} ==> Fetched(p, s) != 0
  {
    hide WordAt, Admit, Step, Holds, Tick, Fetched, Process, LoadStore.Str, LoadStore.Strb, LoadStore.Strh,
      LoadStore.Ldr, LoadStore.Ldrb, LoadStore.Ldrh, LoadStore.Stm, LoadStore.Ldm, BitAt, Field;
    Decoded(Fetched(p, s));
    StepPerforms(p, s);
    if kind in {2, 4} { SingleReturns(p, Tick(s), Fetched(p, s)); }
  }

  lemma SingleReturns(p: Platform, s: State, ins: Word)
    requires ins != 0
    ensures var r := LoadStore.Single(p, s, ins).1; r == Ret(0) || r == Lost
  {
    hide ReadReg, BitAt, Field, Admit, Encode, WriteBytes, WordAt, HalfAt;
  }

  //////////////////////////////////////////////////////////////////////////////
  // Multiple transfers
  //////////////////////////////////////////////////////////////////////////////

  /** A step on stm, from every state: of each listed register of rank below m the low byte is at its
      place, base + k, base + k + 1, base - k or base - k - 1, and no other byte changes; m is
      the rank of the first place outside the memory, or the number of listed registers. The
      registers only see the fetch, and a refusal is dropped. */
  lemma StmStep(p: Platform, s: State, m: nat)
    requires Performs(p, s, 4) && LoadBit(Fetched(p, s)) == 0
    requires StopsAt(|s.mem|, Fetched(p, s), Base(s, Fetched(p, s)), m)
    ensures var (t, r), ins, base := Step(p, s), Fetched(p, s), Base(s, Fetched(p, s));
      && t.regs == s.regs[15 := Plus(s.regs[15], 4)] && t.cycles == Plus(s.cycles, 1)
      && (ByteBit(ins) == 0 ==> Placed(s, ins, base, 0, m, t.mem))
      && (ByteBit(ins) == 1 ==> t.mem == s.mem)
      && r == if ByteBit(ins) == 0 && m < Count(ins) && Place(ins, base, m) == |s.mem| then Lost else Ret(0)
  {
    hide WordAt, Admit, Step, Holds, Fetched, LoadStore.Stm, LoadStore.Ldm, BitAt, Place, Count, Stored, PlaceOf;
    var ins, u := Fetched(p, s), Tick(s);
    TransferStep(p, s, 4);
    TransferBits(ins);
    assert Base(u, ins) == Base(s, ins);
    StmPlaces(u, ins, m);
    SamePlaced(s, u, ins, Base(s, ins), m, LoadStore.Stm(u, ins).0.mem);
  }

  /** Only r0..r14 are listed, so the fetch does not show in what is stored. */
  lemma SamePlaced(s: State, u: State, ins: Word, base: Word, m: nat, mem: seq<Byte>)
    requires u.mem == s.mem && forall r: Reg :: r < 15 ==> u.regs[r] == s.regs[r]
    ensures Placed(u, ins, base, 0, m, mem) ==> Placed(s, ins, base, 0, m, mem)
  {
    hide BitAt, Rank, Place;
  }

  /** A step on ldm: every listed register receives the one byte at the base address, when it lies
      in the memory; every other register only sees the fetch. */
  lemma LdmStep(p: Platform, s: State)
    requires Performs(p, s, 4) && LoadBit(Fetched(p, s)) == 1
    ensures var (t, r), ins, at := Step(p, s), Fetched(p, s), Base(s, Fetched(p, s));
      && t.mem == s.mem && t.cycles == Plus(s.cycles, 1)
      && t.regs[15] == Plus(s.regs[15], 4) && t.regs[16] == s.regs[16] && t.regs[17] == s.regs[17]
      && (forall i: Reg :: i < 15 ==>
            t.regs[i] == if ByteBit(ins) == 0 && at < |s.mem| && BitAt(ins, i) == 1 then s.mem[at] else s.regs[i])
      && r == if ByteBit(ins) == 0 && at == |s.mem| then Lost else Ret(0)
  {
    hide WordAt, Admit, Step, Holds, Fetched, LoadStore.Stm, LoadStore.LoadList, BitAt;
    var ins, u, at := Fetched(p, s), Tick(s), Base(s, Fetched(p, s));
    TransferStep(p, s, 4);
    TransferBits(ins);
    ModeBits(ins);
    ByteAdmitted(|s.mem|, at);
    assert LoadStore.SourceOf(ins) < 15 && ReadReg(u, LoadStore.SourceOf(ins)) == at;
    if at < |s.mem| {
      assert Cell(at, 0) == at;
      LoadListIs(u, ins, s.mem[at], 0);
    }
  }

  lemma {:induction false} LoadListIs(s: State, ins: Word, value: Byte, i: nat)
    requires i <= 15
    ensures var t := LoadStore.LoadList(s, ins, value, i);
      && t == s.(regs := t.regs)
      && forall r: nat :: r < NB_REGISTER ==> t.regs[r] == if i <= r < 15 && BitAt(ins, r) == 1 then value else s.regs[r]
    decreases 15 - i
  {
    hide BitAt;
    if i < 15 {
      LoadListIs(if BitAt(ins, i) == 1 then WriteReg(s, i, value) else s, ins, value, i + 1);
    }
  }

  //////////////////////////////////////////////////////////////////////////////
  // Single transfers
  //////////////////////////////////////////////////////////////////////////////

  /** A step on a single load: ldr puts the word, and ldrb (the code tests bit 26, which class 2
      has) the byte, at the base register's address into the target; no write-back. */
  lemma LoadStep(p: Platform, s: State)
    requires Performs(p, s, 2) && LoadBit(Fetched(p, s)) == 1
    ensures var (t, r), ins, at, u := Step(p, s), Fetched(p, s), Base(s, Fetched(p, s)), Tick(s);
      && (ByteBit(ins) == 0 && Readable(s, at, 4) ==> t == u.(regs := u.regs[Target(ins) := WordAt(p, s, at)]))
      && (ByteBit(ins) == 1 && at < |s.mem| ==> t == u.(regs := u.regs[Target(ins) := s.mem[at]]))
      && (!Readable(s, at, if ByteBit(ins) == 0 then 4 else 1) ==> t == u)
      && r == if Admit(|s.mem|, at, if ByteBit(ins) == 0 then 4 else 1).Stray? then Lost else Ret(0)
  {
    hide Admit, Step, Holds, Fetched, WordAt, BitAt;
    var ins, u, at := Fetched(p, s), Tick(s), Base(s, Fetched(p, s));
    TransferStep(p, s, 2);
    TransferBits(ins);
    ModeBits(ins);
    ByteAdmitted(|s.mem|, at);
    assert LoadStore.SourceOf(ins) < 15 && ReadReg(u, LoadStore.SourceOf(ins)) == at;
    assert Cell(at, 0) == at;
    if Readable(s, at, 4) { assert WordAt(p, u, at) == WordAt(p, s, at) by { SameWord(p, s, u, at); } }
  }

  lemma SameWord(p: Platform, s: State, u: State, at: Word)
    requires u.mem == s.mem && Readable(s, at, 4)
    ensures Readable(u, at, 4) && WordAt(p, u, at) == WordAt(p, s, at)
  {
  }

  /** A step on str, which reads memory instead of writing it: with P and W set it adds or subtracts four
      times bits 3..2 to the base register, and nothing else changes. */
  lemma StrStep(p: Platform, s: State)
    requires Performs(p, s, 2) && LoadBit(Fetched(p, s)) == 0 && ByteBit(Fetched(p, s)) == 0
    ensures var (t, r), ins, u := Step(p, s), Fetched(p, s), Tick(s);
      var rn: Reg, base: int, offset := if ins / 0x4_0000 % 2 == 1 then 4 else 0, Base(s, ins), ins / 4 % 4 * 4;
      && (if ins / 0x100_0000 % 2 == 1 && ins / 0x20_0000 % 2 == 1
          then t == u.(regs := u.regs[rn := (if ins / 0x80_0000 % 2 == 1 then base + offset else base - offset) % WORD])
          else t == u)
      && r == if Admit(|s.mem|, s.regs[Target(ins)], 4).Stray? then Lost else Ret(0)
  {
    hide Admit, Step, Holds, Fetched, BitAt, Field;
    var ins, u := Fetched(p, s), Tick(s);
    TransferStep(p, s, 2);
    TransferBits(ins);
    ModeBits(ins);
  }

  /** A step on strh (the code tests bit 26, which class 2 has): the low half-word of the base
      register goes to the target's address, in the order of the build, when both its bytes lie in the
      memory. */
  lemma StrhStep(p: Platform, s: State)
    requires Performs(p, s, 2) && LoadBit(Fetched(p, s)) == 0 && ByteBit(Fetched(p, s)) == 1
    ensures var (t, r), ins, u := Step(p, s), Fetched(p, s), Tick(s);
      var at, value := s.regs[Target(ins)], Base(s, ins) % 0x1_0000;
      && (Readable(s, at, 2) ==> HalfStored(p, s, u, at, value, t))
      && (!Readable(s, at, 2) ==> t == u)
      && r == if Admit(|s.mem|, at, 2).Stray? then Lost else Ret(0)
  {
    hide Admit, Step, Holds, Fetched, BitAt, Field, Encode, HalfStored, Store;
    var ins, u := Fetched(p, s), Tick(s);
    var at, value := s.regs[Target(ins)], Base(s, ins) % 0x1_0000;
    TransferStep(p, s, 2);
    TransferBits(ins);
    ModeBits(ins);
    if Readable(s, at, 2) { HalfBytes(p, s, u, at, value); }
  }

  /** t is u with the two bytes of value at address at and the next one, modulo 2^32. */
  predicate HalfStored(p: Platform, s: State, u: State, at: Word, value: Half, t: State) {
    var next, low, high := (at + 1) % WORD, value % 0x100, value / 0x100;
    at < |s.mem| && next < |s.mem| &&
    t == u.(mem := s.mem[at := if p.bigEndian then high else low][next := if p.bigEndian then low else high])
  }

  lemma HalfBytes(p: Platform, s: State, u: State, at: Word, value: Half)
    requires u.mem == s.mem && Readable(s, at, 2)
    ensures HalfStored(p, s, u, at, value, WriteBytes(u, at, Encode(value, 2, p.bigEndian)))
  {
    var next, low, high := (at + 1) % WORD, value % 0x100, value / 0x100;
    var bytes := if p.bigEndian then [high, low] else [low, high];
    assert Encode(value, 2, p.bigEndian) == bytes by { assert Digits(value, 2) == [low, high]; }
    assert Cell(at, 0) < |s.mem| && Cell(at, 1) < |s.mem|;
    assert Cell(at, 0) == at && Cell(at, 1) == next;
    StoreIs(s.mem, s.mem[at := bytes[0]][next := bytes[1]], at, bytes);
  }
}

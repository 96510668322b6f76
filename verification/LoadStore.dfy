/** Loads and stores as the code performs them (arm_load_store.c). Their return values are
    dropped by the dispatchers; only an access outside the memory array shows. */
module LoadStore {
  import opened Words
  import opened Memory
  import opened Machine
  import opened ArmCore

  /** The register fields are masked with 4, so they name r0 or r4. */
  function SourceOf(ins: Word): Reg {
    if BitAt(ins, 18) == 1 then 4 else 0
  }

  function DestOf(ins: Word): Reg {
    if BitAt(ins, 14) == 1 then 4 else 0
  }

  /** What the caller sees of an access whose result is ignored. */
  function Ignore(a: Access): Outcome {
    if a.Stray? then Lost else Ret(0)
  }

  //////////////////////////////////////////////////////////////////////////////
  // Single transfers
  //////////////////////////////////////////////////////////////////////////////

  /** str updates the base register in the pre-indexed immediate form and then reads a word. */
  function Str(s: State, ins: Word): (State, Outcome) {
    var base := ReadReg(s, SourceOf(ins));
    var offset := Field(ins, 2, 2) * 4;
    var s' := if BitAt(ins, 25) == 0 && BitAt(ins, 24) == 1 && BitAt(ins, 21) == 1
      then WriteReg(s, SourceOf(ins), Wrap(if BitAt(ins, 23) == 1 then base + offset else base - offset)) else s;
    (s', Ignore(Admit(|s.mem|, ReadReg(s, DestOf(ins)), 4)))
  }

  function Strb(s: State, ins: Word): (State, Outcome) {
    var address := ReadReg(s, DestOf(ins));
    (WriteBytes(s, address, [ToByte(ReadReg(s, SourceOf(ins)))]), Ignore(Admit(|s.mem|, address, 1)))
  }

  function Strh(p: Platform, s: State, ins: Word): (State, Outcome) {
    var address := ReadReg(s, DestOf(ins));
    (WriteBytes(s, address, Encode(ReadReg(s, SourceOf(ins)) % 0x1_0000, 2, p.bigEndian)), Ignore(Admit(|s.mem|, address, 2)))
  }

  function Ldr(p: Platform, s: State, ins: Word): (State, Outcome) {
    var address := ReadReg(s, SourceOf(ins));
    var a := Admit(|s.mem|, address, 4);
    (if a.Done? then WriteReg(s, DestOf(ins), WordAt(p, s, address)) else s, Ignore(a))
  }

  function Ldrb(s: State, ins: Word): (State, Outcome) {
    var address := ReadReg(s, SourceOf(ins));
    var a := Admit(|s.mem|, address, 1);
    assert Cell(address, 0) == address;
    (if a.Done? then WriteReg(s, DestOf(ins), s.mem[Cell(address, 0)]) else s, Ignore(a))
  }

  function Ldrh(p: Platform, s: State, ins: Word): (State, Outcome) {
    var address := ReadReg(s, SourceOf(ins));
    var a := Admit(|s.mem|, address, 2);
    (if a.Done? then WriteReg(s, DestOf(ins), HalfAt(p, s, address)) else s, Ignore(a))
  }

  function Single(p: Platform, s: State, ins: Word): (State, Outcome) {
    if ins == 0 then (s, Ret(-1))
    else if BitAt(ins, 20) == 0 then
      if BitAt(ins, 22) == 0 then Str(s, ins) else if BitAt(ins, 26) == 0 then Strb(s, ins) else Strh(p, s, ins)
    else
      if BitAt(ins, 22) == 0 then Ldr(p, s, ins) else if BitAt(ins, 26) == 1 then Ldrb(s, ins) else Ldrh(p, s, ins)
  }

  method LoadStoreSingle(p: Core, ins: Word) returns (r: Outcome)
    requires p.Valid()
    modifies p.reg.cells, p.mem.value
    ensures (p.Abs(), r) == Single(p.platform, old(p.Abs()), ins)
  {
    hide BitAt, Field, High, Low, ReadReg;
    if ins == 0 { return Ret(-1); }
    var source := p.ReadRegister(SourceOf(ins));
    var dest := p.ReadRegister(DestOf(ins));
    var a: Access;
    if BitAt(ins, 20) == 0 {
      if BitAt(ins, 22) == 0 {
        if BitAt(ins, 25) == 0 && BitAt(ins, 24) == 1 && BitAt(ins, 21) == 1 {
          var offset := Field(ins, 2, 2) * 4;
          p.WriteRegister(SourceOf(ins), if BitAt(ins, 23) == 1 then Plus(source, offset) else Minus(source, offset));
        }
        a, source := p.ReadWord(dest, source);
      } else if BitAt(ins, 26) == 0 {
        a := p.WriteByte(dest, ToByte(source));
      } else {
        a := p.WriteHalf(dest, source % 0x1_0000);
      }
    } else if BitAt(ins, 22) == 0 {
      var value: Word;
      a, value := p.ReadWord(source, 0);
      if a.Done? { p.WriteRegister(DestOf(ins), value); }
    } else if BitAt(ins, 26) == 1 {
      var value: Byte;
      a, value := p.ReadByte(source, 0);
      assert Cell(source, 0) == source;
      if a.Done? { p.WriteRegister(DestOf(ins), value); }
    } else {
      var value: Half;
      a, value := p.ReadHalf(source, 0);
      if a.Done? { p.WriteRegister(DestOf(ins), value); }
    }
    r := Ignore(a);
  }

  //////////////////////////////////////////////////////////////////////////////
  // Multiple transfers
  //////////////////////////////////////////////////////////////////////////////

  /** The four addressing modes: bits 24 (P) and 23 (U). */
  function Before(ins: Word): bool { BitAt(ins, 24) == 1 }

  function Up(ins: Word): bool { BitAt(ins, 23) == 1 }

  function Next(ins: Word, address: Word): Word {
    if Up(ins) then Plus(address, 1) else Minus(address, 1)
  }

  /** stm from register i on: one byte of each listed register, the address moving by one. */
  function StoreList(s: State, ins: Word, address: Word, i: nat): (State, Outcome)
    requires i <= 15
    decreases 15 - i
  {
    if i == 15 then (s, Ret(0))
    else if BitAt(ins, i) == 0 then StoreList(s, ins, address, i + 1)
    else
      var next := Next(ins, address);
      var at := if Before(ins) then next else address;
      var a := Admit(|s.mem|, at, 1);
      if a.Done? then StoreList(WriteBytes(s, at, [ToByte(ReadReg(s, i))]), ins, next, i + 1)
      else (s, Reply(a))
  }

  /** ldm from register i on: the one byte that was read, into every listed register. */
  function LoadList(s: State, ins: Word, value: Byte, i: nat): State
    requires i <= 15
    decreases 15 - i
  {
    if i == 15 then s
    else LoadList(if BitAt(ins, i) == 1 then WriteReg(s, i, value) else s, ins, value, i + 1)
  }

  function Stm(s: State, ins: Word): (State, Outcome) {
    if ins == 0 then (s, Ret(-1))
    else if BitAt(ins, 22) == 0 then StoreList(s, ins, ReadReg(s, SourceOf(ins)), 0)
    else (s, Ret(0))
  }

  function Ldm(s: State, ins: Word): (State, Outcome) {
    var address := ReadReg(s, SourceOf(ins));
    var a := Admit(|s.mem|, address, 1);
    if ins == 0 then (s, Ret(-1))
    else if BitAt(ins, 22) != 0 then (s, Ret(0))
    else if a.Done? then (LoadList(s, ins, s.mem[Cell(address, 0)], 0), Ret(0))
    else (s, Reply(a))
  }

  function Multiple(s: State, ins: Word): (State, Outcome) {
    if ins == 0 then (s, Ret(-1))
    else
      var (s', r) := if BitAt(ins, 20) == 0 then Stm(s, ins) else Ldm(s, ins);
      (s', if r.Lost? then Lost else Ret(0))
  }

  method StmOp(p: Core, ins: Word) returns (r: Outcome)
    requires p.Valid()
    modifies p.mem.value
    ensures (p.Abs(), r) == Stm(old(p.Abs()), ins)
  {
    hide BitAt, High, ReadReg, Admit, Store;
    if ins == 0 { return Ret(-1); }
    if BitAt(ins, 22) == 0 {
      var address := p.ReadRegister(SourceOf(ins));
      for i := 0 to 15
        invariant Stm(old(p.Abs()), ins) == StoreList(p.Abs(), ins, address, i)
      {
        if BitAt(ins, i) == 1 {
          var a: Access;
          if !Before(ins) {
            var value := p.ReadRegister(i);
            a := p.WriteByte(address, ToByte(value));
            if !a.Done? { return Reply(a); }
            address := Next(ins, address);
          } else {
            address := Next(ins, address);
            var value := p.ReadRegister(i);
            a := p.WriteByte(address, ToByte(value));
            if !a.Done? { return Reply(a); }
          }
        }
      }
    }
    r := Ret(0);
  }

  method LdmOp(p: Core, ins: Word) returns (r: Outcome)
    requires p.Valid()
    modifies p.reg.cells
    ensures (p.Abs(), r) == Ldm(old(p.Abs()), ins)
  {
    hide BitAt, High, ReadReg;
    if ins == 0 { return Ret(-1); }
    if BitAt(ins, 22) == 0 {
      var address := p.ReadRegister(SourceOf(ins));
      var a, value := p.ReadByte(address, 0);
      if !a.Done? { return Reply(a); }
      assert Cell(address, 0) == address;
      for i := 0 to 15
        invariant LoadList(old(p.Abs()), ins, value, 0) == LoadList(p.Abs(), ins, value, i)
      {
        if BitAt(ins, i) == 1 { p.WriteRegister(i, value); }
      }
    }
    r := Ret(0);
  }

  method LoadStoreMultiple(p: Core, ins: Word) returns (r: Outcome)
    requires p.Valid()
    modifies p.reg.cells, p.mem.value
    ensures (p.Abs(), r) == Multiple(old(p.Abs()), ins)
  {
    hide BitAt, Stm, Ldm;
    if ins == 0 { return Ret(-1); }
    if BitAt(ins, 20) == 0 {
      r := StmOp(p, ins);
    } else {
      r := LdmOp(p, ins);
    }
    r := if r.Lost? then Lost else Ret(0);
  }
}

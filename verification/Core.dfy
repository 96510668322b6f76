/** The processor object (arm_core.c): it owns the register file and the memory, counts cycles,
    and is the only way the instructions reach them. Every method is specified by its effect on
    the abstract state Abs(). */
module ArmCore {
  import opened Words
  import opened Memory
  import opened Machine
  import opened Registers

  class Core {
    const platform: Platform
    const reg: RegisterFile
    const mem: ByteMemory
    var cycleCount: Word

    ghost predicate Valid() {
      reg.Valid() && mem.Valid() && reg.cells as object != mem.value as object
    }

    ghost function Abs(): State
      requires Valid()
      reads this, reg.cells, mem.value
    {
      Snapshot(reg.cells[..], mem.value[..], cycleCount)
    }

    constructor (platform: Platform, reg: RegisterFile, mem: ByteMemory)
      requires reg.Valid() && mem.Valid() && reg.cells as object != mem.value as object
      ensures Valid() && this.platform == platform && this.reg == reg && this.mem == mem
      ensures Abs() == Snapshot(reg.cells[..], mem.value[..], 0)
    {
      this.platform := platform;
      this.reg := reg;
      this.mem := mem;
      cycleCount := 0;
    }

    method ReadRegister(r: Reg) returns (v: Word)
      requires Valid()
      ensures v == ReadReg(Abs(), r)
    {
      v := reg.Read(r);
      if r == 15 {
        v := Plus(v, 4);
        AndClearBit1(v);
        v := And(v, 0xFFFF_FFFD);
      }
    }

    method WriteRegister(r: Reg, v: Word)
      requires Valid()
      modifies reg.cells
      ensures Abs() == WriteReg(old(Abs()), r, v)
    {
      reg.Write(r, v);
    }

    method ReadCpsr() returns (v: Word)
      requires Valid()
      ensures v == Cpsr(Abs())
    {
      v := reg.ReadCpsr();
    }

    method WriteCpsr(v: Word)
      requires Valid()
      modifies reg.cells
      ensures Abs() == Machine.WriteCpsr(old(Abs()), v)
    {
      reg.WriteCpsr(v);
    }

    /** The fetch advances the pc and counts a cycle even when the read is refused. */
    method Fetch(before: Word) returns (r: Access, v: Word)
      requires Valid()
      modifies this`cycleCount, reg.cells
      ensures Abs() == Tick(old(Abs()))
      ensures r == Admit(|old(Abs()).mem|, old(Abs()).regs[15], 4)
      ensures v == if r.Done? then WordAt(platform, old(Abs()), old(Abs()).regs[15]) else before
    {
      var address := reg.Read(15);
      reg.Write(15, Plus(address, 4));
      r, v := mem.ReadWord(address, before, platform.bigEndian);
      cycleCount := Plus(cycleCount, 1);
    }

    method ReadByte(address: Word, before: Byte) returns (r: Access, v: Byte)
      requires Valid()
      ensures r == Admit(|Abs().mem|, address, 1)
      ensures v == if r.Done? then Abs().mem[address] else before
    {
      r, v := mem.ReadByte(address, before);
    }

    method ReadHalf(address: Word, before: Half) returns (r: Access, v: Half)
      requires Valid()
      ensures r == Admit(|Abs().mem|, address, 2)
      ensures v == if r.Done? then HalfAt(platform, Abs(), address) else before
    {
      r, v := mem.ReadHalf(address, before, platform.bigEndian);
    }

    method ReadWord(address: Word, before: Word) returns (r: Access, v: Word)
      requires Valid()
      ensures r == Admit(|Abs().mem|, address, 4)
      ensures v == if r.Done? then WordAt(platform, Abs(), address) else before
    {
      r, v := mem.ReadWord(address, before, platform.bigEndian);
    }

    method WriteByte(address: Word, v: Byte) returns (r: Access)
      requires Valid()
      modifies mem.value
      ensures r == Admit(|old(Abs()).mem|, address, 1)
      ensures Abs() == WriteBytes(old(Abs()), address, [v])
    {
      r := mem.WriteByte(address, v);
    }

    method WriteHalf(address: Word, v: Half) returns (r: Access)
      requires Valid()
      modifies mem.value
      ensures r == Admit(|old(Abs()).mem|, address, 2)
      ensures Abs() == WriteBytes(old(Abs()), address, Encode(v, 2, platform.bigEndian))
    {
      r := mem.WriteHalf(address, v, platform.bigEndian);
    }

    method WriteWord(address: Word, v: Word) returns (r: Access)
      requires Valid()
      modifies mem.value
      ensures r == Admit(|old(Abs()).mem|, address, 4)
      ensures Abs() == WriteBytes(old(Abs()), address, Encode(v, 4, platform.bigEndian))
    {
      r := mem.WriteWord(address, v, platform.bigEndian);
    }
  }
}

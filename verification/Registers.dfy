/** The register file (registers.c): 18 cells, of which 16 is the CPSR and 17 the SPSR. */
module Registers {
  import opened Words
  import opened Machine

  const CPSR_RESERVED_MASK: Word := 0x00F0_FC00
  const USR: Byte := 0x10
  const SVC: Byte := 0x13
  const SYS: Byte := 0x1F

  class RegisterFile {
    const cells: array<Word>

    ghost predicate Valid() {
      cells.Length == NB_REGISTER
    }

    constructor ()
      ensures Valid() && fresh(cells)
      ensures forall i :: 0 <= i < NB_REGISTER ==> cells[i] == 0
    {
      cells := new Word[NB_REGISTER];
      new;
      for i := 0 to NB_REGISTER
        invariant forall k :: 0 <= k < i ==> cells[k] == 0
      {
        cells[i] := 0;
      }
    }

    /** Modes are not implemented: the processor always answers SVC. */
    method GetMode() returns (mode: Byte)
      ensures mode == SVC
    {
      mode := SVC;
    }

    method CurrentModeHasSpsr() returns (has: bool)
      ensures has
    {
      var mode := GetMode();
      has := !(mode == USR || mode == SYS);
    }

    method Read(r: nat) returns (v: Word)
      requires Valid() && r < NB_REGISTER
      ensures v == cells[r]
    {
      v := cells[r];
    }

    method ReadCpsr() returns (v: Word)
      requires Valid()
      ensures v == Unreserved(cells[16])
    {
      v := And(cells[16], Not(CPSR_RESERVED_MASK));
      AndUnreserved(cells[16]);
    }

    /** The SPSR reads as -1. */
    method ReadSpsr() returns (v: Word)
      ensures v == 0xFFFF_FFFF
    {
      v := 0xFFFF_FFFF;
    }

    method Write(r: nat, v: Word)
      requires Valid() && r < NB_REGISTER
      modifies cells
      ensures cells[..] == old(cells[..])[r := v]
    {
      cells[r] := v;
    }

    method WriteCpsr(v: Word)
      requires Valid()
      modifies cells
      ensures cells[..] == old(cells[..])[16 := Unreserved(v)]
    {
      cells[16] := And(v, Not(CPSR_RESERVED_MASK));
      AndUnreserved(v);
    }
  }
}

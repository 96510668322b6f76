/** The condition field (arm_conditions.c). */
module Conditions {
  import opened Words
  import opened Machine

  /** The condition field of an instruction: bits 31..28. */
  function CondOf(ins: Word): (c: nat)
    ensures c < 16
  {
    Pow2Values(); Field(ins, 28, 4)
  }

  const UNDEFINED_INSTRUCTION: int := 7

  /** The answer of the condition switch on the flags: 1 or 0, and 7 for the condition 0xF. */
  function CheckFlags(cond: nat, f: Flags): (r: int)
    requires cond < 16
  {
    match cond
    case 0 => f.z
    case 1 => 1 - f.z
    case 2 => f.c
    case 3 => 1 - f.c
    case 4 => f.n
    case 5 => 1 - f.n
    case 6 => f.v
    case 7 => 1 - f.v
    case 8 => if f.c == 1 && f.z == 0 then 1 else 0
    case 9 => if f.c == 0 || f.z == 1 then 1 else 0
    case 10 => if f.n == f.v then 1 else 0
    case 11 => if f.n != f.v then 1 else 0
    case 12 => if f.z == 0 && f.n == f.v then 1 else 0
    case 13 => if f.z == 1 && f.n != f.v then 1 else 0
    case 14 => 1
    case 15 => UNDEFINED_INSTRUCTION
  }

  function CheckCond(s: State, ins: Word): int {
    CheckFlags(CondOf(ins), StateFlags(s))
  }
}

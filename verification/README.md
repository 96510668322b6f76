# A verified model of an ARMv5 instruction simulator

The project models the processor of an ARMv5 simulator written in C: the register file, the byte
memory, the core that owns both, the data-processing unit with its barrel shifter and flags, the
condition field, loads, stores, branches and exceptions as they are coded, the
fetch/check/dispatch step, and the insertion sort of the examples.

**Form.** What the C code updates in place is a class (`RegisterFile`, `ByteMemory`, `Core`) or an
array, and each C function that changes it is a method. A method is proved against a function on
the value `State` (18 cells, the memory bytes, the cycle count); the theorems are about those
functions, and so about every run of the methods. `uint32_t` is an integer below 2^32 with each wrap written
out (`Words.Wrap`). The masks and ORs of the C code are evaluated one bit at a time
(`Words.Bitwise`), while the specifications are arithmetic; the lemmas in `Words.dfy` connect the two.

**What C leaves undefined.** A shift whose amount is negative or at least 32 takes its result from
`Platform`, an arbitrary pair of functions, so theorems with a `Platform` parameter hold for every host. An access
that the bounds test lets through although it touches a byte outside the array is `Stray`
(`Lost` for an instruction); it changes nothing in the model and ends a run. Uninitialised
memory and locals have arbitrary values. The byte order of the build is a field of `Platform`.

**Where the code and its documentation disagree** the model follows the code:
V is the unsigned carry or borrow, and is cleared where the comment says it is kept; AND and EOR set N
and Z from the old rd; SBC and RSC set them from one less than the result; ADC, SBC and RSC can set a wrong C; LE tests Z
AND N != V where the header says OR; LSR #0 does not shift; a register ROR masks the amount with
0x0F for its carry; the bounds tests admit one address too many and can wrap; `str` reads memory;
`stm` moves the address by one byte; branches subtract the 24-bit field. For flags, conditions, shifts, bounds and branches the exact
conditions under which the code still agrees are proved. "The manual" is the ARM Architecture Reference
Manual (ARM DDI 0100): sections A2.4.3, A3.2, A4.1, A5.1 and A5.4.

| file | contents |
|---|---|
| `Words.dfy` | words, bitwise operators, shifts of the host |
| `Memory.dfy`, `ByteMap.dfy` | the memory object; refinement of a byte map, byte orders |
| `Machine.dfy`, `Registers.dfy`, `Core.dfy` | the state as a value; the register file and core objects |
| `Shifter.dfy`, `BarrelShifter.dfy`, `Forms.dfy` | shifter operands; single-bit steps; immediate and register forms |
| `Alu.dfy`, `DataProcessing.dfy`, `ManualFlags.dfy` | the sixteen operations; decoding; flags of the manual and comparisons |
| `CarryChain.dfy`, `MultiLimb.dfy`, `Rrx.dfy` | several instructions joined by the C flag |
| `Conditions.dfy`, `LoadStore.dfy`, `StmPlacement.dfy`, `Instruction.dfy`, `Runs.dfy` | conditions, transfers, the step, runs |
| `Effects.dfy`, `Control.dfy`, `Transfers.dfy` | what an instruction does, read off the bits of its word: registers, flags and operands; condition, dispatch, branch, exception and reset; loads and stores |
| `InsertionSort.dfy` | the sort |

## Model

| member | source | states |
|---|---|---|
| MultiLimb.Addition | arm_data_processing.c:102-130 | ADD then any number of ADC, S = 1, everything but C reloaded freely in between: result limbs and final C are the exact sum of two n-limb numbers if and only if no limb after the first is all ones under a carry; the same modulo 2^(32n), where the last limb does not matter |
| MultiLimb.Subtraction | arm_data_processing.c:75-160 | SUB then SBCs, and RSB then RSCs with the operands exchanged: exact n-limb difference with C as NOT borrow, if and only if no limb after the first mistakes a borrow; the same modulo 2^(32n) |
| MultiLimb.TwoLimbDifference | arm_data_processing.c:75-160 | SUB then SBC, and RSB then RSC, give the 64-bit difference modulo 2^64 for all operands |
| MultiLimb.ExactDigit | arm_data_processing.c:75-160 | results of SUB, RSB, ADD, ADC, SBC, RSC with the manual's carry are the two digits of the exact sum (of the complement, when subtracting) |
| CarryChain.Balance | arm_data_processing.c:102-160 | every wrong carry is missing from a multi-limb result with exactly its weight |
| CarryChain.ExactSum | arm_data_processing.c:102-160 | wrong carries never cancel: the sum is exact if and only if there is none |
| CarryChain.ModularSum | arm_data_processing.c:102-160 | modulo 2^(32n) only carries between limbs matter |
| Rrx.RrxRotates | arm_data_processing.c:284-292 | k times MOVS rd, rd, RRX rotates the 33 bits of C and rd right by k modulo 33, touching no other register and no memory |
| Rrx.ThirtyThreeRestore | arm_data_processing.c:284-292 | 33 of them restore rd and C |
| BarrelShifter.ShiftIsSteps | arm_data_processing.c:252-352 | a shift by n < 32 in each mode is n single-bit steps and its carry the last bit shifted out |
| BarrelShifter.ImmediateIsSteps | arm_data_processing.c:244-299 | immediate encodings 1..31, and ASR #0 as 32 steps; LSR #0 has the right carry and the right value only for 0 |
| BarrelShifter.RegisterIsSteps | arm_data_processing.c:300-352 | register amounts 1..31: LSL, LSR, ASR and the value of ROR are single-bit steps |
| BarrelShifter.RegisterRorCarry | arm_data_processing.c:338-346 | the carry of a register ROR is the last bit moved, for all values on all hosts, exactly for amounts below 16 |
| BarrelShifter.RegisterByZero | arm_data_processing.c:307-341 | register amount 0 keeps the carry, and the value for LSL, LSR and non-negative ASR |
| Shifter.Shift | arm_data_processing.c:237-354 | the operand and carry that `Effects.RegisterOperand` states, for every encoding |
| Shifter.ShiftByImmediate | arm_data_processing.c:244-299 | the C shifts, masks and bit tests compute multiplication, division, signed division and rotation by 2^n |
| Shifter.ShiftByRegister | arm_data_processing.c:300-352 | the same for amounts 1..31 in a register, the host's shifts otherwise |
| Shifter.Rotate | arm_data_processing.c:420-429 | the rotated immediate and its carry |
| Shifter.AsrIs | arm_data_processing.c:270-282 | asr by 1..31 divides the signed value by 2^n rounding down, on every host |
| Shifter.RorIs | arm_data_processing.c:285-288 | ror by 1..31 moves the n low bits to the top, on every host |
| Effects.RegisterOperand | arm_data_processing.c:237-354 | for every register-form word: mode from bits 6..5, rm from bits 3..0, the amount from bits 11..7 or from the low byte of the register of bits 11..8; operand and carry are that many single-bit steps of rm, with ASR #0, LSR #0, RRX, a register amount of 0 and of 32 or more as coded |
| Effects.RotatedOperand | arm_data_processing.c:420-429 | for every immediate-form word: the low 8 bits rotated right, one bit at a time, by twice the field of bits 11..8; unrotated, the carry is bit 29 of the CPSR cell |
| Forms.ImmediateIsRotation | arm_data_processing.c:420-429 | the immediate is the 8-bit field rotated by twice the 4-bit field, bit by bit, with the last bit as carry; rotating back recovers it |
| Forms.UnrotatedImmediate | arm_data_processing.c:423-425 | with no rotation the operand is the field if and only if the host's shift by 32 adds no bit to it |
| Forms.FormsAgree | arm_data_processing.c:356-494 | immediate and register form with equal operand leave the same state; only a logical operation that sets flags can differ, exactly when the immediate is rotated and its top bit is not C |
| ManualFlags.FlagsAgree | arm_data_processing.c:56-236 | all sixteen operations, all operands: the flags of the code are those of the manual exactly under a condition on the operands; N and Z are taken from the same value on both sides, which `Effects.CompareFlags` and `Effects.WrittenFlags` pin |
| ManualFlags.CarryAgrees | arm_data_processing.c:75-195 | the C flag alone: when ADC, SBC and RSC lose or invent a carry, and that no other operation does |
| ManualFlags.FlagCounterexamples | arm_data_processing.c:43-153 | inputs on which each deviating flag differs |
| ManualFlags.LogicalBits | arm_data_processing.c:56-74 | AND, EOR, ORR, BIC and MVN bit by bit |
| ManualFlags.UnsignedAfterCmp | arm_data_processing.c:177-186 | after CMP, conditions EQ, NE, CS, CC, HI, LS of a later instruction decide the unsigned comparison, through the packed and masked CPSR |
| ManualFlags.SignedAfterCmp | arm_conditions.c:54-69 | as coded, GE, LT, GT decide the signed comparison exactly when nothing is borrowed from the sign bit, and LE never holds after CMP |
| ManualFlags.MeantAfterCmp | arm_conditions.h:17-20 | with the documented V and LE the four signed conditions decide the signed comparison for all operands |
| ManualFlags.SignedCounterexample | arm_data_processing.c:184 | 1 and 2 are compared wrongly by GE and LE |
| ManualFlags.LeAgrees | arm_conditions.c:66-69 | LE as coded answers as the header says exactly when Z and N != V agree |
| Alu.UpdateCpsr | arm_data_processing.c:32-49 | the OR of shifted flags is the sum of the fields; bits 27..0 stay, S = 1 with rd = pc copies the SPSR, S = 0 changes nothing |
| Alu.AndOp | arm_data_processing.c:56-64 | value and flags of AND |
| Alu.Eor | arm_data_processing.c:65-74 | value and flags of EOR |
| Alu.Sub | arm_data_processing.c:75-86 | value and flags of SUB |
| Alu.Rsb | arm_data_processing.c:88-101 | value and flags of RSB |
| Alu.Add | arm_data_processing.c:102-115 | value and flags of ADD |
| Alu.Adc | arm_data_processing.c:116-130 | value and flags of ADC; the value is right although the carry is added in 32 bits |
| Alu.Sbc | arm_data_processing.c:131-145 | value and flags of SBC; the value is right, the flags come from shifted operands |
| Alu.Rsc | arm_data_processing.c:146-160 | value and flags of RSC |
| Alu.Tst | arm_data_processing.c:161-168 | the new CPSR of TST, whatever S is, as `Effects.CompareFlags` states it |
| Alu.Teq | arm_data_processing.c:169-176 | flags of TEQ, whatever S is |
| Alu.Cmp | arm_data_processing.c:177-186 | flags of CMP, whatever S is |
| Alu.Cmn | arm_data_processing.c:187-195 | flags of CMN, whatever S is |
| Alu.Orr | arm_data_processing.c:196-206 | value and flags of ORR |
| Alu.Mov | arm_data_processing.c:207-216 | value and flags of MOV |
| Alu.Bic | arm_data_processing.c:217-228 | value and flags of BIC |
| Alu.Mvn | arm_data_processing.c:229-236 | value and flags of MVN |
| Alu.CarryFromAdd | arm_data_processing.c:50-55 | bit 32 of the 64-bit sum is set exactly when the sum does not fit 32 bits |
| DataProcessing.Dispatch | arm_data_processing.c:364-418 | the switch both dispatchers contain, on the whole state; `Effects.RegistersAfter` says which register it writes and with what |
| DataProcessing.DataProcessingShift | arm_data_processing.c:356-419 | the whole state after a register-form instruction |
| DataProcessing.DataProcessingImmediate | arm_data_processing.c:430-494 | the whole state after an immediate-form instruction |
| DataProcessing.DecodeAssembled | arm_data_processing.c:357-360 | decoding an instruction word assembled from its fields gives back condition, class, opcode, S, rn, rd and operand bits |
| DataProcessing.ProcessEffect | arm_data_processing.c:356-494 | a flag-setting instruction with rd not the pc: rd holds the result, the CPSR reads back the new flags, all else is kept |
| Effects.RegistersAfter | arm_data_processing.c:356-494 | every instruction word, S = 0 and S = 1, any rd: a non-compare writes the integer sum or difference modulo 2^32, or the gate applied to each bit, to rd and keeps the other fifteen registers, a compare keeps all sixteen; S = 0 keeps the CPSR of a non-compare; SPSR, memory and cycle count stay. Fields are quotients of the word |
| Effects.CompareFlags | arm_data_processing.c:161-195 | the CPSR cell after a compare, whatever S and rd are: TST Z iff no bit is set in both operands, TEQ Z iff they are equal, CMP and CMN from the exact integer difference and sum; bits below the flags as read before |
| Effects.WrittenFlags | arm_data_processing.c:32-236 | the CPSR cell after any other operation with S = 1: N and Z of the value written, of the old rd for AND and EOR, of one less than the value for SBC and RSC; C and V in integers, as coded; all ones under the mask for rd = pc |
| Effects.RegisterReads | arm_core.c:80-97 | a register reads as its cell, and the pc as its cell plus 4 modulo 2^32 without bit 1 |
| Effects.FlagCells | registers.c:79-85 | the flags are bits 31..28 of the CPSR cell |
| Control.SignAndCarryDecided | arm_conditions.c:30-45 | after an instruction with S = 1, MI and PL of a later one decide the sign of the value written, and after ADD, VS and VC decide whether the unsigned sum needs 33 bits |
| ByteMap.MemoryIsMap | memory.c:87-129 | after any history of byte, half-word and word writes in mixed orders, refused ones included, the memory is the address-to-byte map after the same history |
| ByteMap.ReadsMap | memory.c:51-85 | every admitted read then has exactly the map's bytes, placed by the order of the read |
| ByteMap.BytesDetermine | memory.c:51-85 | the bytes of a value determine it |
| ByteMap.OrderRoundTrip | memory.c:96-129 | decoding an encoded value gives it back for equal orders and byte-swapped otherwise; swapping twice is the identity |
| ByteMap.WriteThenRead | memory.c:60-129 | the same through the memory |
| ByteMap.SwappedIs | memory.c:64-83 | the swap is reverse_2 and reverse_4 |
| ByteMap.LoadAfterStore | memory.c:60-129 | a read returns the bytes just written, and a disjoint read is unaffected |
| ByteMap.DoneIffInside | memory.c:52-76 | an access is carried out exactly when it lies inside the array; which accesses the bounds test admits beyond that |
| Memory.ByteMemory.constructor | memory.c:33-40 | a memory of the given size, its bytes unspecified |
| Memory.ByteMemory.ReadByte | memory.c:51-58 | byte read, or refusal with the output untouched |
| Memory.ByteMemory.ReadHalf | memory.c:60-71 | half-word read in the given order, independent of what the output held before |
| Memory.ByteMemory.ReadWord | memory.c:73-85 | word read in the given order, independent of what the output held before |
| Memory.ByteMemory.WriteByte | memory.c:87-94 | exactly one byte changes |
| Memory.ByteMemory.WriteHalf | memory.c:96-109 | exactly the two bytes of the value change, in the given order |
| Memory.ByteMemory.WriteWord | memory.c:111-129 | exactly the four bytes of the value change, in the given order |
| Registers.RegisterFile.constructor | registers.c:33-42 | 18 cells, all zero |
| Registers.RegisterFile.CurrentModeHasSpsr | registers.c:48-64 | the mode is always SVC, which has an SPSR |
| Registers.RegisterFile.ReadCpsr | registers.c:79-85 | the mask removes bits 10..15 and 20..23 and nothing else |
| Registers.RegisterFile.WriteCpsr | registers.c:105-109 | cell 16 receives the value without its reserved bits, no other cell changes |
| Registers.RegisterFile.Write | registers.c:97-103 | one cell changes |
| Machine.FlagsRoundTrip | registers.c:79-109 | flags written into the CPSR are read back, with bits 27..0 as read before |
| Machine.UnreservedTwice | registers.h:29 | masking twice is masking once |
| Machine.UnreservedBits | registers.h:29 | the mask bit by bit: bits 10..15 and 20..23 become 0, every other bit stays |
| Machine.FieldIsMask | arm_data_processing.c:357-360 | decoding by shift and mask extracts the arithmetic field |
| Machine.PcReadsAhead | arm_core.c:80-93 | after the fetch an instruction reads its address plus 8 as the pc exactly when bit 1 of the address is clear |
| ArmCore.Core.ReadRegister | arm_core.c:80-97 | the register value, for the pc plus 4 with bit 1 cleared |
| ArmCore.Core.Fetch | arm_core.c:163-178 | the word at the pc; pc + 4 and one cycle even when refused; nothing else changes |
| ArmCore.Core.WriteCpsr | arm_core.c:129-132 | the state with a masked CPSR |
| Instruction.ArmCreate | arm_core.c:46-62 | the reset state: CPSR 0x1D3, pc 0, sp the memory size, cycle count 0 |
| Instruction.Exception | arm_instruction.c:78-80 | software interrupts, reset and the returned code |
| Instruction.ExecuteInstruction | arm_instruction.c:41-73 | fetch, condition and dispatch on bits 27..25, on the whole state, as `Control.ConditionDecides` and `Control.DispatchedOn` state them |
| Instruction.ArmStep | arm_instruction.c:75-83 | one step: a non-zero result is raised as an exception |
| Instruction.BranchOp | arm_branch_other.c:33-51 | the branch as coded |
| Instruction.BranchTarget | arm_branch_other.c:36-46 | a taken branch reaches the manual's target exactly when its 24-bit field is 0, and never leaves the manual's link |
| Control.ConditionDecides | arm_instruction.c:41-72 | a readable instruction is performed if the condition in its top four bits holds of the top four bits of the CPSR cell, by the table of conditions as coded, and otherwise only advances pc and cycle count |
| Control.AlwaysPerformed | arm_conditions.c:70-75 | an instruction with condition AL is performed from every state |
| Control.WordBytes | memory.c:73-85 | each byte of a fetched word lies at its address, with the weight the byte order of the build gives it |
| Control.DispatchedOn | arm_instruction.c:48-71 | classes 0 and 1 of bits 27..25 are data processing, 5 is a branch, 3, 6 and 7 answer 7 and change nothing |
| Control.BranchAsCoded | arm_branch_other.c:33-51 | the condition is tested again, the pc drops by the 24-bit field from the value it reads as, bit 24 saves that value plus 4 in r14, and nothing else changes |
| Control.FailedSteps | arm_instruction.c:41-83 | a refused fetch ends with 255 and an undefined instruction with 7, after pc and cycle count have advanced |
| Control.CreatedState | arm_core.c:46-62 | a new processor has mode SVC, ARM state, interrupts and aborts masked, every other CPSR bit clear, pc 0 and sp the memory size |
| Control.ExceptionAnswers | arm_instruction.c:78-80 | what each of the 256 exception numbers answers and changes: only 1 changes the state, only 8 can answer another number |
| LoadStore.LoadStoreSingle | arm_load_store.c:47-515 | the single transfers as coded |
| LoadStore.StmOp | arm_load_store.c:536-590 | the bit-list loop leaves the state of `StmPlacement.StmPlaces` and stops at a refusal |
| LoadStore.LdmOp | arm_load_store.c:592-640 | one byte is loaded into every listed register |
| LoadStore.LoadStoreMultiple | arm_load_store.c:517-534 | the result of stm and ldm is dropped |
| StmPlacement.StmPlaces | arm_load_store.c:536-590 | from every state: the listed register of rank k leaves its low byte at base + k, base + k + 1, base - k or base - k - 1 modulo 2^32, by bits 23, 24 and 18 of the word, up to the first place outside the memory, and no other byte or register changes |
| StmPlacement.PlacesAreBlock | arm_load_store.c:548-585 | the places are distinct and are exactly a contiguous block, modulo 2^32, of as many bytes as there are listed bits |
| StmPlacement.StopsSomewhere | arm_load_store.c:536-590 | every transfer has exactly one rank at which it stops |
| Transfers.StmStep | arm_load_store.c:517-590 | the same for a whole step on a fetched stm, class 4 with bit 20 clear, from every state: the registers only see the fetch, and a refusal is dropped |
| Transfers.LdmStep | arm_load_store.c:592-640 | a step on a fetched ldm puts the one byte at the base address into every listed register and keeps all else |
| Transfers.LoadStep | arm_load_store.c:451-495 | a step on a single load, class 2: ldr and ldrb fill r0 or r4, by bit 14, from the address in r0 or r4, by bit 18, and ldrb is always the byte form |
| Transfers.StrStep | arm_load_store.c:108-379 | a step on str writes no memory; with P and W set it moves the base register by the offset |
| Transfers.StrhStep | arm_load_store.c:415-431 | a step on a single store with bit 22 set stores two bytes in the order of the build, or nothing |
| Runs.EveryRun | arm_core.c:46-62 | every run from creation, under any program, interrupts, debugger writes and host: CPSR bits 10..15 and 20..23 and the SPSR cell are zero, the memory keeps its size, the cycle count is the number of steps modulo 2^32 |
| Runs.StepKeeps | arm_instruction.c:41-83 | one step keeps that invariant and adds one cycle |
| Runs.RaiseKeeps | arm_instruction.c:78-80 | exceptions keep it |
| Runs.SkippedRun | arm_instruction.c:41-73 | n instructions with false conditions advance the pc by 4n and the cycle count by n modulo 2^32 and change nothing else |
| Runs.DataRunKeepsMode | arm_data_processing.c:356-494 | a run of data-processing steps without S = 1 and rd = pc outside the compares keeps CPSR bits 27..0 and the memory |
| Runs.DataRunKeepsFlags | arm_data_processing.c:356-494 | with S = 0 and no compare it keeps the whole CPSR |
| Runs.IfElse | arm_instruction.c:48-71 | two instructions under opposite conditions, the first with S = 0 and rd not the pc: exactly one is performed and the other only advances pc and cycle count |
| Runs.Complementary | arm_conditions.c:14-69 | even and odd conditions exclude each other, and one of them holds for all flags exactly when the pair is not GT and LE |
| InsertionSort.Sort | Examples/insertion_sort.c:19-29 | any array: sorted, a permutation, stable, as many swaps as the array had inversions, n(n-1)/2 rounds of the inner body |
| InsertionSort.SwapRemovesOne | Examples/insertion_sort.c:22-26 | a swap of two neighbours out of order removes exactly one inversion |
| InsertionSort.SortedHasNone | Examples/insertion_sort.c:19-29 | a sorted array has no inversion |
| InsertionSort.StableSortUnique | Examples/insertion_sort.c:19-29 | sorted and stable leave only one possible result, so the loop computes the stable sort |

## Left out

- Architectural meaning of `arm_branch`, `str`, `ldr`, `strh`, `ldrb`, `ldm` and `stm`: the step lemmas state what the code does, which is not what the architecture prescribes.
- `strb` and `ldrh` have no lemma of their own: they need bit 26 clear, and every word that reaches the single transfers has it set.
- The register-offset computations of `str` (arm_load_store.c:160-372): they only assign locals that are dropped, so they have no effect in the model.
- BarrelShifter.RegisterIsSteps: register amounts of 32 or more are not related to single-bit steps, because C leaves those shifts to the host.
- MultiLimb.Addition: rd = pc is excluded, because S = 1 with the pc overwrites the CPSR with the SPSR, which reads as all ones.
- Banked registers, other modes and the SPSR: the code answers SVC, all ones, and ignores writes.
- Failing allocations (`malloc` returning NULL) and the NULL tests that guard against them.
- Tracing, name tables, the gdb protocol beyond its writes of registers, CPSR and bytes, the interrupt sender, threads and locks, and the character output of the software interrupt: input and output.
- The conversion of C's `int` in the sort: elements are unbounded integers that are only compared.

# Verified model of libthumb2sim

This Dafny project models the parts of the Thumb-2 emulator, its decoder generator and its trace
comparison whose correctness is not visible in any single function, and proves what they are meant
to guarantee. `dafny verify dfyconfig.toml` checks all of it.

## What is modelled

- **MD5** (`Md5Spec.dfy`, `Md5.dfy`). `Md5Spec` is RFC 1321 as recursive functions on a whole
  message. `Md5` is the streaming code: a context object with a buffer and a split counter, and
  the 64 unrolled steps. The constant table is taken as given.
- **The decoder generator** (`Bits.dfy`, `Bitfield.dfy`, `Partitioner.dfy`, `Encodings.dfy`).
  `Bits` gives Python's unbounded integers a meaning bit by bit. `Bitfield` compiles a list of
  parsed fields to a test and to mask-and-shift terms, and enumerates encodings. `Partitioner`
  builds the decision tree. `Encodings` carries both through memory to the fetched word.
- **The CPU** (`Bytes.dfy`, `AddressSpace.dfy`, `Flags.dfy`, `ItBlock.dfy`, `Cpu.dfy`,
  `CpuRuns.dfy`, `Frames.dfy`, `Emulator.dfy`, `Decoder.dfy`, `ExpandImm.dfy`, `Arms.dfy`,
  `ManualFlags.dfy`, `Hints.dfy`, `Calls.dfy`). `Cpu` is the machine as a value with
  38 instructions and a step over any chain of decoder arms. `Emulator` is the object that the C
  code updates in place, proved equal to it. The other modules compare flags, conditions and IT
  blocks with the ARMv7-M Architecture Reference Manual, say exactly where the two part, and prove
  what steps, runs and calls keep. `Arms` holds a sample of the decoder's arms.
- **The debug protocol** (`Hex.dfy`, `Framing.dfy`, `GdbServer.dfy`, `DebugClient.dfy`): the
  incremental tokenizer, the server's commands, and both ends together.
- **Traces** (`Traces.dfy`): recording and the merge join that aligns two traces.

C's `uint32_t` is an integer below 2^32 or a 32-bit vector, with every wrap-around written out.
The host is little-endian. A Python exception or a failed assertion is a missing result.

## What the proofs showed about the code

- The tree agrees with the chain for all elements, also when a bit value leaves its mask.
- With mask 0 `it` opens a block of one instruction where the manual has a hint without effect; the
  opcodes that reach the handler so are 0xbf50 to 0xbff0. With a first condition below 14 the next
  instruction hangs on it: behind 0xbf50 it is skipped when N is set. Conditions 14 and 15 always hold,
  but the instruction keeps the flags as one in a block does: behind 0xbfe0 `adds` leaves Z alone.
  With any other mask the queue follows ITSTATE for good.
- and_reg_T1 sets flags even inside an IT block, so the flags stay fixed there only without it.
- The two store directions agree exactly when the base register is not stored itself.
- The client keeps the `#` and the first digit as the received checksum and compares neither.
- A `+` that is not followed by `$` blocks the tokenizer for good.
- A payload that holds a `#` or a zero byte does not survive framing; every other one does.
- mov_reg_T2 (movs Rd, Rm) sets no flags, so outside a block they are the manual's exactly when N and Z
  already describe the source. It takes every opcode of lsl_imm_T1 with shift 0, and the shifts that are
  left set the manual's flags.
- mov_imm_T2 leaves C alone also when its immediate is rotated, where the manual sets C to its top bit.
- Additions, subtractions and compares that set flags clear Q, which the manual keeps; no other
  modelled instruction changes it.
- add_reg_T2 reads and writes the PC as any register, which is never what the manual does with it.
- mov_reg_T1 and the word loads with a base register do not branch when they write the PC: it is advanced
  behind the target. ldr_lit_T1 branches, but to an odd address when bit 0 of the loaded word is set.
- A region that reaches the end of the address space gets an end below its begin and serves no access.

## Model

| member | source | states |
|---|---|---|
| Md5.HashChunks | gdbserver/md5.c:207-289 | for every list of byte chunks, Init, one Update per chunk and Final output the RFC 1321 digest of their concatenation, so every split of a message hashes alike |
| Md5.Md5Ctx.Init | gdbserver/md5.c:207-216 | the new context has absorbed the empty message |
| Md5.Md5Ctx.Update | gdbserver/md5.c:218-250 | a context that has absorbed m has absorbed m + data afterwards: the chaining value is the fold over all complete blocks, the buffer starts with the unprocessed tail, and the split counter holds the length |
| Md5.Md5Ctx.Count | gdbserver/md5.c:223-226 | after the carry test and the shift, hi * 2^29 + lo is the new length modulo 2^61 with lo below 2^29, for sizes of any number of bits |
| Md5.CounterCarries | gdbserver/md5.c:224-226 | the comparison with the saved low part detects exactly the carries out of 29 bits |
| Md5.Md5Ctx.FillBuffer | gdbserver/md5.c:230-242 | data that completes the pending block makes it part of the fold, and shorter data only joins the pending tail |
| Md5.Md5Ctx.TakeBlocks | gdbserver/md5.c:244-249 | whole blocks of the data are folded in and what is left, less than a block, is buffered |
| Md5.Md5Ctx.Final | gdbserver/md5.c:258-289 | writes the RFC 1321 digest of everything absorbed to the first 16 bytes of the result, leaves the rest of it alone, and wipes the context |
| Md5.Md5Ctx.Pad | gdbserver/md5.c:262-275 | leaves in the buffer exactly the tail, the 0x80 byte and the zeros up to byte 56 of the last block, folding a full block in first when eight bytes do not fit |
| Md5.PaddingInBlocks | gdbserver/md5.c:268-275 | the one-block and the two-block padding of the code are the padding of RFC 1321, section 3.1 |
| Md5.LengthBytes | gdbserver/md5.c:277-279 | the eight bytes written are the bit length modulo 2^64, low-order byte first (RFC 1321, section 3.2) |
| Md5Spec.PaddedIsShortest | gdbserver/md5.c:266-275 | the padded length is the least multiple of 64 that fits the message and nine more bytes |
| Md5.Md5Ctx.Body | gdbserver/md5.c:100-205 | the do-while loop terminates and folds the compression over k blocks, returning the pointer behind them |
| Md5.Transform | gdbserver/md5.c:122-194 | the 64 unrolled steps with rotating roles and the added saved values are the table-driven compression of RFC 1321, section 3.4 |
| Md5.StepIsRound | gdbserver/md5.c:60-63 | one STEP with the constant, word and shift of step i is operation i of RFC 1321, for every state and block |
| Md5.FourStepsAreRounds | gdbserver/md5.c:60-63 | four steps that pass a, b, c and d round once are four operations of the table-driven form |
| Md5.MacroIsAuxiliary | gdbserver/md5.c:51-55 | the rewritten F, G, H, H2 and I are the auxiliary functions of RFC 1321 on all words |
| Md5Spec.FoldAppend | gdbserver/md5.c:121-197 | folding whole blocks and then more data is folding them together |
| Bitfield.DecodesIffEncodes | codegen/InsnSet.py:92-98 | the mask-and-compare test passes and every compiled expression extracts a given value exactly when the word carries the constants and those values bit for bit; below a widened layout any bits may stand |
| Bitfield.AssembleThenDecode | codegen/InsnSet.py:161-190 | assembling variable values into a layout and decoding the word gives the test a pass and every value back, for all layouts, widened or not |
| Bitfield.ExpressionGathers | codegen/InsnSet.py:92-98 | the OR of the mask-and-shift terms grouped by shift distance has bit j set exactly when the source bit that the sorted pieces assign to j is set |
| Bitfield.ComponentsBit | codegen/InsnSet.py:38-47 | the component of shift j - b holds bit b exactly when the layout sends bit b to j |
| Bitfield.FieldShift.Add | codegen/InsnSet.py:38-47 | one piece is merged into the component of its shift distance and the length grows by its width |
| Bitfield.FieldShift.StaticMask | codegen/InsnSet.py:85-89 | the mask of the only component when its shift is 0, otherwise the failed assertion |
| Bitfield.TestReadsConstants | codegen/InsnSet.py:215-221 | the shifted mask and value test exactly the constant bits that are not don't-care bits |
| Bitfield.ExtractReadsVariable | codegen/InsnSet.py:186-190 | extraction returns exactly the bits of the variable's own fields in position order |
| Bitfield.SortIsOrdered | codegen/InsnSet.py:186 | sorting the pieces by position orders them and keeps each piece |
| Bitfield.SortIsStable | codegen/InsnSet.py:186 | pieces of equal position keep their word order |
| Bitfield.SourceTargetInverse | codegen/InsnSet.py:187-190 | destination bits and source bits of a variable determine each other |
| Bitfield.OwnerCovers | codegen/InsnSet.py:161-173 | the pieces collected for a name cover each bit its fields own once and no other bit |
| Bitfield.AssignPositions | codegen/InsnSet.py:152-158 | a field without an explicit position gets the number of such fields of its name to its right |
| Bitfield.GroupVariables | codegen/InsnSet.py:161-173 | the groups are the pieces of each name, lowest first, with the total width of the layout |
| Bitfield.CollectConstants | codegen/InsnSet.py:175-181 | the constant mask and value, or the failed assertion when no constant bit counts |
| Bitfield.CompileVariables | codegen/InsnSet.py:183-190 | one compiled variable per name, each with the components of its pieces sorted by position |
| Bitfield.MakeBitfield | codegen/InsnSet.py:143-191 | the constructor fails exactly without a significant constant bit and otherwise agrees with the layout |
| Bitfield.MakeOpcode | codegen/InsnSet.py:263-271 | an opcode is accepted exactly with 16 or 32 bits and is widened to 32 |
| Bitfield.Bitfield.Widen | codegen/InsnSet.py:223-224 | any width is stored and the object stays in agreement with its layout |
| Bitfield.Bitfield.GetItem | codegen/InsnSet.py:193-197 | the returned variable's expression extracts the variable from the widened word; an unknown name is the KeyError |
| Bitfield.Bitfield.ConstantMaskShifted | codegen/InsnSet.py:215-217 | the mask of the layout's significant constants under the current width, or the exception exactly when the width is below the layout's |
| Bitfield.Bitfield.ConstantCmp | codegen/InsnSet.py:219-221 | comparing with it under the mask is the layout's test, for every word; the exception as for the mask |
| Bitfield.EnumerationIsExact | codegen/InsnSet.py:240-246 | the enumeration yields each word that passes the test exactly once, in increasing order, 2 to the number of free bits in all |
| Encodings.EnumerateEncodings | codegen/InsnSet.py:240-255 | one encoding per enumerated word, in order, in the byte order of its length; other lengths are the exception |
| Encodings.EncodesOneWord | codegen/InsnSet.py:246-255 | two or four bytes are the encoding of exactly one word |
| Encodings.FetchedWordPassesIff | cpu_cm3.c:133-135 | for bytes in memory at the PC, the fetched word passes the opcode's widened test exactly when the bytes are an enumerated encoding, whatever stands behind a 16-bit one |
| Encodings.FetchedAssemblyDecodes | codegen/InsnSet.py:240-247 | variables assembled into a layout, written as bytes, placed in memory and fetched pass the test and are all extracted again |
| Encodings.FirstEncodingDecodes | cpu_cm3.c:182 | in a chain generated from layouts the bytes at the PC are decoded by the first opcode that has them among its encodings, with its length |
| Encodings.NoEncodingDecodes | cpu_cm3.c:182 | bytes that no layout has among its encodings are decoded by no arm, with length 0 |
| Encodings.TreeDecodes | codegen/Partitioner.py:109-139 | descending the decision tree of the decoder's arms, the root of any size that the build returns or a tree below it, decodes every opcode as the whole chain does |
| Partitioner.TreeAgreesWithChain | codegen/Partitioner.py:99-102 | for every opcode the leaf that is reached has the same first match as the whole ordered list; no bit value need lie within its mask |
| Partitioner.GrownIsUnique | codegen/Partitioner.py:109-139 | a set has only one tree that meets the builder's contract |
| Partitioner.GrownConserves | codegen/Partitioner.py:34-51 | the leaves hold the multiset of the elements |
| Partitioner.SelectConserves | codegen/Partitioner.py:96-102 | a split loses and duplicates nothing, and both counts add up |
| Partitioner.HalfKeepsCommonMask | codegen/Partitioner.py:74-79 | the common mask of a half contains that of the set, so no exception arises below a root that raised none |
| Partitioner.CandidatesAreProperSubmasks | codegen/Partitioner.py:84-107 | the candidates are exactly the non-empty proper submasks of the common mask |
| Partitioner.ComputeCommonMask | codegen/Partitioner.py:74-79 | the loop that meets every element, the first one twice, gives the bits all elements share |
| Partitioner.FindCriterion | codegen/Partitioner.py:116-134 | the earliest candidate of least imbalance among those with two non-empty halves |
| Partitioner.PartitionSet | codegen/Partitioner.py:109-144 | which of partition, no partition, missing common mask and empty set results, and for a partition its criterion and its ordered halves |
| Partitioner.Partition.Refine | codegen/Partitioner.py:34-51 | halves of more than four elements are split in place until nothing acceptable is left, which terminates; the object then stores the one tree of its set, and the length stored in it and in every partition below counts its elements |
| Partitioner.Partitioner.Add | codegen/Partitioner.py:155-156 | the element joins the end of the list |
| Partitioner.Partitioner.Build | codegen/Partitioner.py:158-162 | when the build succeeds and when each exception ends it; a built tree conserves the elements and agrees with the linear chain |
| AddressSpace.AddrSpace.GetSlice | address_space.c:30-37 | the first slice that covers the access |
| AddressSpace.AddrSpace.ReadN | address_space.c:48-63 | the little-endian number in the slice, and 0 for unmapped memory |
| AddressSpace.AddrSpace.WriteN | address_space.c:65-82 | the bytes of a writable slice change to those of the value; read-only and unmapped memory stay as they are |
| AddressSpace.AddrSpace.AddRegion | address_space.c:108-123 | the region is appended, with an end that may wrap, unless all slices are taken |
| AddressSpace.AddedServesIff | address_space.c:30-37 | an added region serves exactly the accesses that lie in it, and none at all when it reaches the end of the address space |
| AddressSpace.WriteKeeps | address_space.c:68 | a write keeps the layout and every read-only slice |
| AddressSpace.ReadIsFlat | address_space.c:48-63 | over disjoint slices a read is the little-endian number of the flat bytes |
| AddressSpace.WriteIsFlat | address_space.c:65-82 | over disjoint slices a write changes exactly the flat bytes it names |
| AddressSpace.MemoryIsLastWritten | address_space.c:84-106 | after any list of writes each byte is the one last written there, or the initial one |
| AddressSpace.ReadAfterWrites | address_space.c:84-106 | a read of any width after any mix of 8, 16 and 32-bit writes returns the bytes last written |
| AddressSpace.ReadAfterWrite | address_space.c:48-82 | what was written is read again, modulo 256 to the number of bytes |
| Flags.AddFlagsAreArchitectural | impl_emulation.c:159-169 | addCondCode sets N, Z, C and V of AddWithCarry (section A2.2.1 of the ARMv7-M Architecture Reference Manual) for all operands |
| Flags.SubFlagsAreArchitectural | impl_emulation.c:171-180 | subCondCode sets the flags of adding the complement with carry, with the signed comparisons of the code wrapping |
| Flags.ConditionsAreArchitectural | impl_emulation.c:126-145 | cond_satisfied is ConditionPassed for every status word and condition code |
| Flags.CompareDecides | impl_emulation.c:171-180 | after a compare each of the ten relational conditions holds exactly when its signed or unsigned relation holds |
| Flags.FlippedConditionNegates | impl_emulation.c:151 | flipping the low bit negates every condition below 14 |
| ItBlock.QueueSimulatesItState | impl_emulation.c:637-659 | after any number of instructions behind an `it` the packed queue puts the same condition on the next one as ITSTATE with ITAdvance, and is empty exactly when the block is over |
| ItBlock.SimulatesIffMask | impl_emulation.c:637-659 | queue and ITSTATE agree for ever on the condition of the next instruction and on whether it stands in a block exactly when the mask is not zero; emulator_execution_unconditionally at 155-157 reads the second |
| ItBlock.ExecutesIffMaskOrAlways | impl_emulation.c:147-153 | with every status word and after any number of instructions the next one is executed just when ITSTATE lets it pass, exactly when the mask is not zero or the first condition is 14 or 15, which always hold |
| Hints.ZeroMaskConditionsNext | impl_emulation.c:637-659 | the step of an `it` with mask 0 opens a block of one instruction, executed exactly when the first condition holds |
| Hints.HintLeavesNext | cpu_cm3.c:180-203 | the step of a hint without effect leaves the next instruction unconditional and outside any block |
| Hints.HintSkipsNext | decoder.c:3783-3797 | opcode 0xbf50 is decoded as `it` with mask 0: with N set the instruction behind it is skipped, whatever it is, where a hint lets it execute |
| Hints.HintLosesFlags | decoder.c:3783-3797 | opcode 0xbfe0 is decoded so with condition 14: adds r0, r0, #0 behind it is executed but leaves Z clear, where it sets Z behind a hint |
| ItBlock.QueueNeverOverflows | impl_emulation.c:650-656 | an `it` outside a block pushes one slot per instruction of its block, and every one of these pushes meets a queue below 64 and loses nothing |
| ItBlock.PushKeepsQueue | impl_emulation.c:652-653 | a push can be undone exactly when fewer than four slots were taken |
| CpuRuns.StepsFollowItState | cpu_cm3.c:180-193 | behind an `it`, whatever instructions follow, each is executed exactly when ITSTATE lets it pass with the flags of that moment, and the queue is empty after the block |
| CpuRuns.StepShiftsQueue | cpu_cm3.c:188-193 | every step but that of `it` takes one slot off the queue and keeps the condition |
| CpuRuns.QuietIffFlagsFixed | impl_emulation.c:189-213 | exactly the quiet instructions leave N, Z, C and V alone in every state inside a block; and_reg_T1 is not one of them |
| CpuRuns.QuietBlockKeepsFlags | impl_emulation.c:189-213 | through a block of quiet instructions the flags are those before the `it` |
| CpuRuns.QuietBlockBranches | impl_emulation.c:147-153 | in such a block each THEN slot is executed exactly when the first condition held at the `it`, and each ELSE slot exactly when it did not |
| CpuRuns.RunKeepsReadOnly | cpu_cm3.c:165-204 | no run of steps, whatever the decoder, changes a byte of a read-only slice or the slice layout |
| CpuRuns.ArithmeticIsArchitectural | impl_emulation.c:287-320 | each add, subtract and compare handler writes the result of its AddWithCarry to its destination and sets or keeps the flags as the manual says, with registers read as they stand (subtraction at 1461-1510, comparison at 566-584) |
| CpuRuns.MovesAreBitwise | impl_emulation.c:997-1024 | bit for bit, mov, eor, orr, and and lsl write what they are for (355-359, 614-618, 907-913, 1140-1144) |
| CpuRuns.MoveFlagsDescribeResult | impl_emulation.c:182-201 | where a move handler sets flags, N and Z describe the written value, C is the last bit a shift moves out and V stays; elsewhere all stay |
| CpuRuns.StoreThenLoad | impl_emulation.c:1347-1351 | a load behind a store to the same place brings the stored register back, cut to the access size, and changes no other register |
| CpuRuns.CompareThenBranch | impl_emulation.c:408-415 | a compare and a conditional branch jump exactly when the relation holds between the two registers, and change no register but the PC |
| CpuRuns.BranchTargetIsSigned | impl_emulation.c:49-56 | both cases are PC + 4 + 2 * the sign-extended immediate, for immediates of any width |
| CpuRuns.LeadingZerosCounts | impl_emulation.c:539-552 | clz returns n exactly when 2^(31-n) <= x < 2^(32-n), and 32 for 0 |
| CpuRuns.BookkeepKeepsFlags | cpu_cm3.c:195-203 | the IT bits kept in psr leave bits 27 to 31 alone, for every condition byte |
| ManualFlags.MoveFlagsAreManualIff | impl_emulation.c:1018-1029 | a register move leaves the flags of the manual exactly when: for mov_reg_T2, N and Z already describe the source; for and_reg_T1, outside a block or when they already describe the result; for lsl_imm_T1, except by 0 with C set outside a block; for the others, always |
| ManualFlags.DecodedLslIsManual | decoder.c:2677-2690 | in any chain with mov_reg_T2 before lsl_imm_T1, each lsl that is decoded leaves the flags of the manual |
| ManualFlags.MovRegLosesFlags | impl_emulation.c:1026-1029 | opcode 0x0008 (movs r0, r1) with r1 = 0 leaves a clear Z clear where the manual sets it |
| ManualFlags.MovImmFlagsAreManualIff | impl_emulation.c:1005-1011 | mov_imm_T2 leaves the flags of the manual exactly when it sets none, its immediate is not rotated, or C already is the immediate's top bit |
| ManualFlags.MovImmLosesCarry | impl_emulation.c:1005-1011 | movs with the immediate 0x80000000 leaves a clear C clear where the manual sets it |
| ManualFlags.ExecKeepsSaturationIff | impl_emulation.c:121-124 | an instruction keeps Q exactly unless Q was set and the instruction is an addition, subtraction or compare that sets flags |
| ManualFlags.StepKeepsSaturationIff | cpu_cm3.c:180-203 | the same for a whole step, with skipped instructions and the bookkeeping in psr |
| ManualFlags.CompareLosesSaturation | impl_emulation.c:1070 | a step of cmp r0, r0 outside a block clears Q in every state that has it set |
| ManualFlags.AddHighIsManualIff | impl_emulation.c:317-320 | a step of add_reg_T2 leaves the registers of the manual exactly when neither operand is the PC |
| ManualFlags.MovRegIsManualIff | impl_emulation.c:1018-1024 | a step of mov_reg_T1 leaves the registers of the manual exactly when its target is not the PC |
| ManualFlags.LoadIsManualIff | impl_emulation.c:698-714 | a step of a word load from another base than the PC leaves the registers of the manual exactly when its target is not the PC |
| ManualFlags.LoadLiteralIsManualIff | impl_emulation.c:725-730 | a step of ldr_lit_T1, which does branch, leaves them exactly when its target is not the PC or bit 0 of the loaded address is clear |
| Frames.CallReturns | impl_emulation.c:1164-1207 | `bl`, `push {L, lr}`, anything that restores SP and leaves the frame alone, and `pop {L, pc}` restore every register of L and SP, and set the PC to the `bl` address + 4 without advancing it |
| Calls.CallRunReturns | cpu_cm3.c:165-204 | the same for steps that fetch and decode: with `bl`, push and pop in read-only memory, whatever n steps run in between, one more step is back behind the `bl` with L and SP restored |
| Calls.CodeStays | cpu_cm3.c:133-135 | what is decoded from read-only memory stays so while the machine runs |
| Calls.CallTarget | decoder.c:6287-6297 | a word whose first passing test is that of bl_T1 is code for a call to the manual's target |
| Calls.FrameCode | decoder.c:937-964 | words whose first passing test is that of push_T1 or pop_T1, with bit 24 set, are code for the push and pop of their register list |
| Frames.DirectionsAgreeIff | impl_emulation.c:83-101 | a decrement-before store from the base and an increment-after store from four bytes per listed register below it leave the same memory exactly when the base is not in the list |
| Frames.StoresWriteFrame | impl_emulation.c:83-101 | either direction writes one frame and moves the base by exactly four bytes per listed register |
| Frames.FrameSlot | impl_emulation.c:86-97 | the register with k listed registers below it lies at offset 4k of the frame |
| Frames.LoadUpReadsFrame | impl_emulation.c:103-119 | a load from a stored frame brings every listed register back, with bit 0 of the PC cleared |
| Emulator.Emulator.StoreMultiple | impl_emulation.c:83-101 | the loop over 16 registers in either direction does what the recursive store does |
| Emulator.Emulator.LoadMultiple | impl_emulation.c:103-119 | the loop over 16 registers does what the recursive load does and clears advance_pc when it loads the PC |
| Emulator.Emulator.EnterIt | impl_emulation.c:637-659 | the two loops leave exactly the slots of the mask in front of the queue |
| Emulator.Emulator.CountLeadingZeros | impl_emulation.c:539-552 | the search loop writes the number of leading zeros |
| Emulator.Emulator.SetCondCode | impl_emulation.c:203-213 | flags are replaced when forced or outside a block and kept otherwise |
| Emulator.Emulator.Execute | impl_emulation.c:83-1510 | every modelled handler, in whatever order it updates registers, flags, memory, the queue and the marks for PC and queue, ends in the state that the machine's instruction describes |
| Emulator.Emulator.ShouldExecNext | impl_emulation.c:147-153 | the current slot and the flags decide whether the instruction is executed |
| Emulator.Emulator.FetchInsnWord | cpu_cm3.c:133-135 | the halfword at the PC above the one behind it |
| Emulator.Emulator.SingleStep | cpu_cm3.c:165-204 | for every chain of decoder arms the updates in place make the machine step of module Cpu, skipped instructions included |
| Emulator.Emulator.FinishStep | cpu_cm3.c:183-203 | PC, instruction counter, queue and psr after the handler |
| Emulator.Emulator.ResetCpu | cpu_cm3.c:227-237 | registers, psr, counter, SP and PC come from the reset values and the vector table; the IT state stays |
| Decoder.BranchImmediateIsArchitectural | decoder.c:6275-6297 | the fields, exclusive ors and extension of b_T4 and bl_T1 give SignExtend(S:I1:I2:imm10:imm11) for every opcode |
| Decoder.ConditionalImmediateIsArchitectural | decoder.c:6261-6274 | those of b_T3 give SignExtend(S:J2:J1:imm6:imm11) |
| Decoder.EorIs | decoder.c:65-69 | with the sign bit set the two exclusive ors cancel; without it they flip bits 21 and 22 |
| ExpandImm.ExpandImmIsManual | decoder.c:36-51 | each of the 4096 modified immediates expands to the constant of ThumbExpandImm (section A5.3.2 of the ARMv7-M Architecture Reference Manual) |
| ExpandImm.Ror32Rotates | decoder.c:30-34 | the masks and shifts rotate every word right by 1 to 31 |
| ExpandImm.RotatingForm | decoder.c:48-50 | the rotating form never asks for a shift that C leaves undefined |
| Arms.MovTakesShiftZero | decoder.c:2677-2690 | the test of mov_reg_T2 takes exactly the opcodes of lsl_imm_T1 whose shift field is 0 |
| Arms.LslShiftsByOneToThirtyOne | decoder.c:3927-3942 | in any chain with mov_reg_T2 before it, lsl_imm_T1 is decoded with shifts of 1 to 31 only |
| Arms.HintTakes | decoder.c:2779-2781 | the tests of the five hints take exactly the opcodes of it_T1 with mask 0 and first conditions 0 to 4 (2929, 3559, 3569, 3579) |
| Arms.ItMaskZeroIsHint | decoder.c:3783-3797 | behind the hints, it_T1 is decoded with mask 0 only for first conditions of 5 and more |
| Arms.BranchesGoTheManualDistance | decoder.c:6275-6297 | b_T4 and bl_T1 are decoded to branches by the manual's signed distance |
| Framing.Tokenizer | qemu/DebuggingProtocol.py:128-154 | the loop terminates and returns all complete messages in order and the remainder |
| Framing.ChunkInvariance | qemu/DebuggingProtocol.py:128-154 | tokenizing a and then its remainder with b behind it gives what tokenizing a + b gives, for all bytes |
| Framing.RXBuffer.Put | qemu/DebuggingProtocol.py:82-87 | however the bytes arrive, the messages taken and queued are those of all bytes received |
| Framing.RXBuffer.Wait | qemu/DebuggingProtocol.py:102-103 | the oldest queued message, or the timeout when there is none |
| Framing.RemainderStuckIff | qemu/DebuggingProtocol.py:133-144 | a remainder can become a message with some further bytes exactly when it is empty, `+`, or starts with `+$`; any other blocks all later messages |
| Framing.FramesRoundTrip | gdbserver/gdbserver.c:94-102 | tokenizing what tx_frame prints for a list of payloads gives exactly those payloads and no remainder, if and only if no payload holds a `#` or a zero byte |
| Framing.ReceiveFrames | qemu/DebuggingProtocol.py:82-87 | the frames queue exactly their payloads however they are cut into pieces |
| Framing.ChecksumIsNotTested | qemu/DebuggingProtocol.py:135-141 | any two bytes behind the `#` are accepted as a checksum |
| Framing.ReceivedChecksumIsWrong | qemu/DebuggingProtocol.py:138 | the stored rx_cksum is never the two digits that were sent: the slice starts at the `#` |
| Framing.ComputeChecksum | qemu/DebuggingProtocol.py:156-162 | the sum reduced once at the end is the checksum modulo 256 |
| Framing.WrappingChecksum | gdbserver/gdbserver.c:95-99 | the 8-bit sum that wraps at every step is the same checksum |
| Hex.MemoryToHexstr | gdbserver/gdbserver.c:130-136 | writes two digits per byte and the terminating zero and leaves the rest of the buffer alone |
| Hex.HexRoundTrip | qemu/DebuggingProtocol.py:182-184 | fromhex of the dumped text gives the bytes back |
| Hex.StrtollReads | gdbserver/gdbserver.c:182-183 | strtoll in base 16 reads a printed number back behind any blanks, with a sign or none and with or without `0x`, whatever stands behind it that does not continue it, cut to the 64-bit range |
| Hex.StrtollOfPrinted | gdbserver/gdbserver.c:182-183 | strtoll in base 16 reads back every number the client prints |
| Hex.ParseFixedWord | qemu/DebuggingProtocol.py:241 | eight dumped digits parse to the word |
| Hex.ByteOrderOfHtonl | qemu/DebuggingProtocol.py:235-237 | the client's byte swap undoes the server's htonl for every word |
| GdbServer.InterpretFrame | gdbserver/gdbserver.c:213-223 | a frame without `#` and zero bytes inside is understood as its payload, whatever stale bytes follow it |
| GdbServer.Server.TxFrame | gdbserver/gdbserver.c:94-102 | prints the frame of the data up to its first zero, with that text's checksum |
| GdbServer.Server.DumpRegisterSet | gdbserver/gdbserver.c:104-119 | prints the 42 words of the dump: 16 swapped registers, 25 zeros and psr |
| GdbServer.Server.MemPtr | address_space.c:39-46 | the bytes from the address on when a slice covers the range |
| GdbServer.Server.DumpMemory | gdbserver/gdbserver.c:138-151 | prints the text of the bytes, or a minus sign when no slice covers them or the range wraps |
| GdbServer.Server.HashMemory | gdbserver/gdbserver.c:153-172 | prints the text of the RFC 1321 digest of the bytes, or a minus sign |
| GdbServer.Server.HandleCommand | gdbserver/gdbserver.c:174-211 | each command's reply and effect, and a minus sign for anything else; only the step command changes the machine |
| GdbServer.Server.InterpretRxData | gdbserver/gdbserver.c:213-223 | the payload up to the first `#` is handled, anything that is no frame is refused |
| DebugClient.ReadRequestUnderstood | qemu/DebuggingProtocol.py:182-184 | the server reads the address and the length the client printed |
| DebugClient.ReadChunksIsFlat | qemu/DebuggingProtocol.py:186-196 | a range is read exactly when each chunk of 2048 bytes lies in one slice, and the result is then what the flat memory holds |
| DebugClient.DebuggingProtocol.SendCmd | qemu/DebuggingProtocol.py:164-177 | for any command the reply is the oldest message among those still queued and those that the server's answer completes, or the exception when there is none; the others stay queued |
| DebugClient.DebuggingProtocol.Ask | qemu/DebuggingProtocol.py:164-177 | a command the server understands gets exactly its answer |
| DebugClient.DebuggingProtocol.ReadMemory | qemu/DebuggingProtocol.py:186-196 | the loop over chunks returns the range end to end through frames and text, and leaves the machine alone |
| DebugClient.DebuggingProtocol.HashMemory | qemu/DebuggingProtocol.py:198-203 | the digest of the memory range, or the exception when no slice covers it |
| DebugClient.DebuggingProtocol.SingleStep | qemu/DebuggingProtocol.py:179-180 | the machine makes one step |
| DebugClient.DumpRoundTrip | qemu/DebuggingProtocol.py:239-244 | every register and psr, word 41, survive dump and decoding |
| DebugClient.DebuggingProtocol.GetRegs | qemu/DebuggingProtocol.py:239-244 | returns the emulator's registers and psr |
| Traces.Align | qemu/TraceReader.py:77-92 | the two-index loop terminates and makes exactly the specified calls in order |
| Traces.CallsAreSound | qemu/TraceReader.py:83-86 | for any traces each call pairs equal keys, and later calls lie further on in both |
| Traces.AlignIsMatch | qemu/TraceReader.py:77-92 | in ordered traces the calls are exactly the pairs of the n-th occurrence of a key here with the n-th there |
| Traces.CallsPerKey | qemu/TraceReader.py:77-92 | in ordered traces each key is compared as often as the rarer side has it |
| Traces.UnorderedMisses | qemu/TraceReader.py:77-92 | without the order a common key can be missed |
| Traces.TraceWriter.RecordState | qemu/TraceWriter.py:180-208 | the tracepoint carries the MD5 of the previous state and the values read; keys of a trace never decrease and never exceed the counter; only a step advances the counter and the previous state |
| Traces.RecordTrace | qemu/run_testcase.py:151-176 | the recorded keys are 0, the counters that decimation keeps, and the last counter again; an undecimated trace chains the hashes of its steps |

## Left out

- Md5.Md5Ctx.Body: the `block` array that caches the words of a block on some hosts; the words are read afresh.
- AddressSpace.AddrSpace.ReadN: an access that wraps past the end of the address space finds no slice here, because the C code then leaves the slice's buffer.
- GdbServer.Server.MemPtr: a range that wraps past the end of the address space is refused here. addrspace_getslice may return a slice for it, and the code then reads behind the slice's buffer.
- GdbServer.Server.DumpMemory: the same for wrapping ranges.
- GdbServer.Server.HashMemory: the same for wrapping ranges.
- GdbServer.Server.HandleCommand: the same for the wrapping ranges of memory commands.
- AddressSpace.AddrSpace.AddRegion: requires that slices on one buffer are all read-only; nothing in the repository maps a writable buffer twice. The exit of the process is the result false.
- Flags.SubFlagsAreArchitectural: the signed differences in subCondCode overflow for some operands, which C leaves undefined; they wrap here.
- CpuRuns.ArithmeticIsArchitectural: the manual reads PC as its address + 4 and branches on a write to it; the handlers do neither, and the lemma speaks of registers as they stand. Of the modelled sums only add_reg_T2 may name the PC in the manual, and ManualFlags.AddHighIsManualIff says exactly when that matters for it.
- ManualFlags.MoveFlagsAreManualIff: leaves out mov_imm_T2, which MovImmFlagsAreManualIff treats, and MOVS (register) inside a block, which the manual does not permit.
- CpuRuns.BookkeepKeepsFlags: what the IT bits 8 to 15 of psr mean is not claimed.
- ItBlock.QueueSimulatesItState: nested `it` instructions are not covered; the queue is empty at the `it`.
- Hex.HexRoundTrip: blanks inside a text, which fromhex skips and the server never prints.
- DebugClient.DebuggingProtocol.SendCmd: the answer arrives before the timeout and in a single read of the server; the 4096-byte receive buffer and the stack size of long replies are not modelled.
- Partitioner.FindCriterion: scores are compared as real numbers, not as floating point.
- Traces.TraceWriter.RecordState: the values that the trace types read from the target are an argument.
- Traces.RecordTrace: when the loop ends is not modelled; the list of states is what its steps read.
- Traces.AlignIsMatch: needs both traces in key order, which the writer guarantees; UnorderedMisses shows that it is needed.
- Encodings.FirstEncodingDecodes: holds for every chain generated from layouts; that the some 370 layouts of the repository generate the chain of decoder.c is not part of this model.
- The parser of layout strings, the XML reader and the C text of the generated code; layouts start as parsed fields and expressions end as terms. Type extensions apply only where Decoder.dfy states them.
- barrel_shift with its carries.
- Instructions marked as not implemented, untested or guesswork (adc, bfi, ubfx, sub_imm_T4, lsl_reg_T2, tbb and others), and all others that Cpu.dfy does not list.
- bkpt with its system calls, and the callbacks, through which the host may write anywhere.
- Sockets, threads, files, JSON, compression, disassembly and printing of state.

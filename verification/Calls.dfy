/** Calls as they run: the instructions are fetched from memory and decoded by the chain of arms, one
    `cpu_single_step` after the other (cpu_cm3.c). */
module Calls {
  import opened Bytes
  import opened Options
  import opened AddressSpace
  import opened Cpu
  import opened CpuRuns
  import opened Frames
  import opened Arms
  import Bits

  // ----- code in read-only memory

  ghost predicate ReadOnlyHalf(m: Memory, address: word) {
    Target(m, address, 2).Some? && m[Target(m, address, 2).value].readOnly
  }

  /** Both halfwords that a step at pc fetches are read-only, and the chain decodes them as insn. */
  ghost predicate CodeAt(arms: seq<Arm>, m: Memory, pc: word, insn: Insn, length: nat)
    requires WellFormed(m)
  {
    && ReadOnlyHalf(m, pc) && ReadOnlyHalf(m, Add32(pc, 2))
    && Decode(arms, FetchWord(m, pc)) == (length, Some(insn))
  }

  lemma ReadOnlyRead(m: Memory, n: Memory, address: word)
    requires WellFormed(m) && WellFormed(n) && ReadOnlyKept(m, n) && ReadOnlyHalf(m, address)
    ensures ReadOnlyHalf(n, address) && Read(n, address, 2) == Read(m, address, 2)
  {
    TargetLayout(m, n, address, 2);
    TargetInside(m, address, 2);
  }

  /** Code stays what it is while the machine runs. */
  lemma CodeStays(arms: seq<Arm>, m: Memory, n: Memory, pc: word, insn: Insn, length: nat)
    requires WellFormed(m) && WellFormed(n) && ReadOnlyKept(m, n) && CodeAt(arms, m, pc, insn, length)
    ensures CodeAt(arms, n, pc, insn, length)
  {
    hide ReadOnlyKept, ReadOnlyHalf, Read, Decode, Add32;
    ReadOnlyRead(m, n, pc);
    ReadOnlyRead(m, n, Add32(pc, 2));
  }

  lemma StepsCode(arms: seq<Arm>, s: Machine, insn: Insn, length: nat)
    requires CodeAt(arms, s.mem, s.regs[PC], insn, length)
    ensures Step(arms, s) == StepInsn(s, Some(insn), length)
  {
    hide StepInsn, Decode, FetchWord, ReadOnlyHalf;
  }

  lemma {:induction false} RunFurther(arms: seq<Arm>, s: Machine, m: nat, n: nat)
    ensures Run(arms, Run(arms, s, m), n) == Run(arms, s, m + n)
  {
    hide Step;
    if n > 0 {
      RunFurther(arms, s, m, n - 1);
      assert Run(arms, s, m + n) == Step(arms, Run(arms, s, m + n - 1));
    }
  }

  lemma RunOnce(arms: seq<Arm>, s: Machine)
    ensures Run(arms, s, 1) == Step(arms, s)
  {
    hide Step;
    assert Run(arms, s, 0) == s;
  }

  /** What a caller knows of the code: a call at the PC, a push at its target, a pop at its end. */
  ghost predicate CallCode(
      arms: seq<Arm>, s: Machine, imm: int, list: RegList, popAt: word, pushLength: nat, popLength: nat) {
    && CodeAt(arms, s.mem, s.regs[PC], Branching(Bl(imm)), 4)
    && CodeAt(arms, s.mem, Add32(s.regs[PC], 2 * imm + 4), Multiple(Push(list, true)), pushLength)
    && CodeAt(arms, s.mem, popAt, Multiple(Pop(list, true, false)), popLength)
  }

  /** The first two steps are the call and the push, and the code is still there. */
  lemma CallEnters(arms: seq<Arm>, s: Machine, imm: int, list: RegList, popAt: word, pushLength: nat, popLength: nat)
    requires ShouldExec(s)
    ensures CallCode(arms, s, imm, list, popAt, pushLength, popLength) ==>
      && Run(arms, s, 1) == AfterBl(s, imm)
      && Run(arms, s, 2) == AfterPush(AfterBl(s, imm), list, pushLength)
      && AfterBl(s, imm).mem == s.mem
  {
    hide Step, StepInsn, CodeAt, ShouldExec, Run, Add32, SetBit0;
    if CallCode(arms, s, imm, list, popAt, pushLength, popLength) {
      StepsCode(arms, s, Branching(Bl(imm)), 4);
      RunOnce(arms, s);
      BlStep(s, imm);
      StepsCode(arms, AfterBl(s, imm), Multiple(Push(list, true)), pushLength);
      RunOnce(arms, AfterBl(s, imm));
      RunFurther(arms, s, 1, 1);
    }
  }

  /** A whole call, from bytes in read-only memory to bytes in read-only memory: whatever the n steps of
      the body do, if they end at the pop with SP and the frame as the push left them, the machine is
      back behind the `bl` one step later, with every register of the list and SP restored. */
  lemma CallRunReturns(arms: seq<Arm>, s: Machine, imm: int, list: RegList, popAt: word,
                       pushLength: nat, popLength: nat, n: nat, i: nat)
    requires s.regs[PC] % 2 == 0 && list <= LOW_REGS && ShouldExec(s)
    requires s.regs[SP] >= 4 * (|list| + 1)
    requires Writable(s.mem, i, s.regs[SP] - 4 * (|list| + 1), 4 * (|list| + 1))
    ensures var t := Run(arms, s, 2 + n);
      && CallCode(arms, s, imm, list, popAt, pushLength, popLength)
      && KeepsFrame(s, imm, list, pushLength, t, i) && t.regs[PC] == popAt ==>
      var u := Run(arms, s, 3 + n);
      && (forall r :: r in list ==> u.regs[r] == s.regs[r])
      && u.regs[SP] == s.regs[SP]
      && u.regs[PC] == Add32(s.regs[PC], 4)
  {
    hide Step, StepInsn, CodeAt, ShouldExec, Run, Add32, SetBit0, KeepsFrame, AfterBl, AfterPush, AfterPop, Exec;
    hide Writable, ReadOnlyKept;
    var t := Run(arms, s, 2 + n);
    if CallCode(arms, s, imm, list, popAt, pushLength, popLength)
      && KeepsFrame(s, imm, list, pushLength, t, i) && t.regs[PC] == popAt
    {
      CallEnters(arms, s, imm, list, popAt, pushLength, popLength);
      RunKeepsReadOnly(arms, s, 2 + n);
      CodeStays(arms, s.mem, t.mem, popAt, Multiple(Pop(list, true, false)), popLength);
      StepsCode(arms, t, Multiple(Pop(list, true, false)), popLength);
      RunOnce(arms, t);
      RunFurther(arms, s, 2 + n, 1);
      PopIsStep(t, list, popLength);
      CallReturns(s, imm, list, pushLength, t, popLength, i);
    }
  }

  lemma PopIsStep(t: Machine, list: RegList, popLength: nat)
    ensures StepInsn(t, Some(Multiple(Pop(list, true, false))), popLength) == AfterPop(t, list, popLength)
  {
    hide StepInsn;
  }

  /** The call is one to the manual's target when its word is the first to pass the test of bl_T1. */
  lemma CallTarget(arms: seq<Arm>, k: nat, m: Memory, pc: word)
    requires WellFormed(m) && ReadOnlyHalf(m, pc) && ReadOnlyHalf(m, Add32(pc, 2))
    requires FirstPassing(arms, k, FetchWord(m, pc)) && arms[k] == BL_T1
    ensures CodeAt(arms, m, pc, Branching(Bl(ManualDistance(FetchWord(m, pc)))), 4)
  {
    hide FetchWord, Decode, ReadOnlyHalf, FirstPassing, Add32, ManualDistance;
    BranchesGoTheManualDistance(arms, k, FetchWord(m, pc));
  }

  /** And push_T1 and pop_T1 decode to the push and the pop of their list. */
  lemma FrameCode(arms: seq<Arm>, k: nat, m: Memory, pc: word)
    requires WellFormed(m) && ReadOnlyHalf(m, pc) && ReadOnlyHalf(m, Add32(pc, 2))
    requires FirstPassing(arms, k, FetchWord(m, pc)) && Flag(FetchWord(m, pc), 24)
    ensures var list := LowList(Bits.FieldAt(FetchWord(m, pc), 16, 8));
      && list <= LOW_REGS
      && (arms[k] == PUSH_T1 ==> CodeAt(arms, m, pc, Multiple(Push(list, true)), 2))
      && (arms[k] == POP_T1 ==> CodeAt(arms, m, pc, Multiple(Pop(list, true, false)), 2))
  {
    hide FetchWord, Decode, ReadOnlyHalf, FirstPassing, Add32, Flag, Bits.FieldAt;
    DecodesFirstPassing(arms, k, FetchWord(m, pc));
  }
}

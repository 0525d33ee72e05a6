/** `it` with mask 0 as steps: the handler (impl_emulation.c) opens a block of one instruction where the
    ARMv7-M Architecture Reference Manual has a hint without effect. */
module Hints {
  import opened Bytes
  import opened Options
  import opened Flags
  import opened ItBlock
  import opened Cpu
  import opened CpuRuns
  import opened Arms
  import Bits

  function AfterZeroMask(s: Machine, firstcond: bv8): Machine {
    StepInsn(s, Some(It(firstcond, 0)), 2)
  }

  function AfterHint(s: Machine): Machine {
    StepInsn(s, Some(NoEffect), 2)
  }

  lemma EnteredZeroMask(firstcond: bv8)
    ensures Entered(0, firstcond, 0) == IT_THEN
  {
    PushedSlots(0, firstcond & 1, 0);
  }

  lemma PsrKeepsCondition(p: bv32, q: bv32, cond: bv8)
    requires FlagsOf(p) == FlagsOf(q)
    ensures CondSatisfied(p, cond) == CondSatisfied(q, cond)
  {
    hide FlagsOf, CondSatisfied;
    ConditionsAreArchitectural(p, cond);
    ConditionsAreArchitectural(q, cond);
  }

  /** Behind such an `it` the next instruction is executed exactly when the first condition holds, and
      even then it stands in a block. */
  lemma ZeroMaskConditionsNext(s: Machine, firstcond: bv8)
    requires s.itState == 0 && firstcond < 16
    ensures var t := AfterZeroMask(s, firstcond);
      && (ShouldExec(t) <==> CondSatisfied(s.psr, firstcond))
      && !Unconditional(t) && t.itState == IT_THEN && t.itCond == firstcond && FlagsOf(t.psr) == FlagsOf(s.psr)
  {
    StepEntersBlock(s, firstcond, 0, 2);
    EnteredZeroMask(firstcond);
    hide StepInsn, CondSatisfied, FlagsOf, Entered;
    PsrKeepsCondition(AfterZeroMask(s, firstcond).psr, s.psr, firstcond);
  }

  /** Behind a hint it is executed, outside any block. */
  lemma HintLeavesNext(s: Machine)
    requires s.itState == 0
    ensures var t := AfterHint(s);
      && ShouldExec(t) && Unconditional(t) && t.itState == 0 && FlagsOf(t.psr) == FlagsOf(s.psr)
      && t.regs == s.regs[PC := Add32(s.regs[PC], 2)] && t.mem == s.mem
  {
    hide Bookkeep, FlagsOf, CondSatisfied, Wrap;
    BookkeepKeepsFlags(s.psr, 0, s.itCond);
    FlagsDependOnTopBits(Bookkeep(s.psr, 0, s.itCond), s.psr);
  }

  /** Both leave the same registers and memory. */
  lemma OnlyTheBlockDiffers(s: Machine, firstcond: bv8)
    requires s.itState == 0
    ensures AfterZeroMask(s, firstcond).regs == AfterHint(s).regs && AfterZeroMask(s, firstcond).mem == AfterHint(s).mem
  {
    hide Bookkeep, CondSatisfied, Wrap, Entered;
  }

  lemma FieldsOfHint(h: nat)
    requires h < 16
    ensures FirstCond(HintCmp(h)) == h && ItMask(HintCmp(h)) == 0
  {
    hide FirstCond, ItMask, Bits.And;
    var w: word := HintCmp(h);
    TestsOfItAndHints(w);
    assert w / 0x10_0000 == 0xbf0 + h && w / 0x1_0000 == 0xbf00 + 16 * h;
  }

  /** The opcode 0xbf50 is decoded as `it` with first condition PL: with N set, whatever stands behind it
      is skipped. Behind a hint it would be executed. */
  lemma HintSkipsNext(arms: seq<Arm>, k: nat, s: Machine, next: Option<Insn>, length: nat)
    requires FirstPassing(arms, k, 0xbf50_0000) && arms[k] == IT_T1
    requires s.itState == 0 && FlagsOf(s.psr).n
    ensures Decode(arms, 0xbf50_0000) == (2, Some(It(5, 0)))
    ensures StepInsn(AfterZeroMask(s, 5), next, length) == StepInsn(AfterZeroMask(s, 5), None, length)
    ensures ShouldExec(AfterHint(s))
  {
    hide Decode, FirstCond, ItMask, FlagsOf, AfterZeroMask, AfterHint, FirstPassing;
    DecodesFirstPassing(arms, k, 0xbf50_0000);
    FieldsOfHint(5);
    ZeroMaskConditionsNext(s, 5);
    NegativeIsNotPl(s.psr);
    HintLeavesNext(s);
    Skipped(AfterZeroMask(s, 5), next, length);
  }

  lemma NegativeIsNotPl(psr: bv32)
    requires FlagsOf(psr).n
    ensures !CondSatisfied(psr, 5)
  {
  }

  lemma Skipped(s: Machine, insn: Option<Insn>, length: nat)
    requires !ShouldExec(s)
    ensures StepInsn(s, insn, length) == StepInsn(s, None, length)
  {
    hide Exec, ShouldExec, Bookkeep;
  }

  /** adds r0, r0, #0 */
  const ADDS_ZERO := Arithmetic(AddImm(0, 0, 0))

  /** The opcode 0xbfe0 is decoded as `it` with first condition "always": the next instruction is executed,
      but in a block, so that adds r0, r0, #0 with r0 = 0 leaves Z clear. Behind a hint it sets Z. */
  lemma HintLosesFlags(arms: seq<Arm>, k: nat, s: Machine)
    requires FirstPassing(arms, k, 0xbfe0_0000) && arms[k] == IT_T1
    requires s.itState == 0 && s.regs[0] == 0 && !FlagsOf(s.psr).z
    ensures Decode(arms, 0xbfe0_0000) == (2, Some(It(14, 0)))
    ensures ShouldExec(AfterZeroMask(s, 14))
    ensures !FlagsOf(StepInsn(AfterZeroMask(s, 14), Some(ADDS_ZERO), 2).psr).z
    ensures FlagsOf(StepInsn(AfterHint(s), Some(ADDS_ZERO), 2).psr).z
  {
    hide Decode, FirstCond, ItMask, FlagsOf, AfterZeroMask, AfterHint, FirstPassing, StepInsn;
    DecodesFirstPassing(arms, k, 0xbfe0_0000);
    FieldsOfHint(14);
    ZeroMaskConditionsNext(s, 14);
    AlwaysHolds(s.psr, 14);
    QuietStepKeepsFlags(AfterZeroMask(s, 14), Some(ADDS_ZERO), 2);
    HintLeavesNext(s);
    AddsSetsZero(AfterHint(s));
  }

  lemma AddsSetsZero(s: Machine)
    requires s.itState == 0 && s.regs[0] == 0
    ensures FlagsOf(StepInsn(s, Some(ADDS_ZERO), 2).psr).z
  {
    hide FlagsOf, StepInsn, WithCondCode, AddCondCode, Bookkeep;
    var code := WithCondCode(s.psr, AddCondCode(0, 0));
    AddsPsr(s);
    ZeroSum(s.psr);
    BookkeepKeepsFlags(code, 0, s.itCond);
    FlagsDependOnTopBits(Bookkeep(code, 0, s.itCond), code);
  }

  lemma ZeroSum(psr: bv32)
    ensures FlagsOf(WithCondCode(psr, AddCondCode(0, 0))).z
  {
    hide FlagsOf, WithCondCode, AddCondCode;
    AddFlagsAreArchitectural(psr, 0, 0);
  }

  lemma AddsPsr(s: Machine)
    requires s.itState == 0 && s.regs[0] == 0
    ensures StepInsn(s, Some(ADDS_ZERO), 2).psr == Bookkeep(WithCondCode(s.psr, AddCondCode(0, 0)), 0, s.itCond)
  {
    hide Bookkeep, WithCondCode, AddCondCode, CondSatisfied, Wrap;
  }
}

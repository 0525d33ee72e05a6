/** What single steps and whole runs of the CPU keep. */
module CpuRuns {
  import opened Bytes
  import opened Options
  import opened AddressSpace
  import opened Flags
  import opened ItBlock
  import opened Cpu
  import Bits

  function Run(arms: seq<Arm>, s: Machine, n: nat): Machine {
    if n == 0 then s else Step(arms, Run(arms, s, n - 1))
  }

  // ----- read-only memory

  /** What every handler but `it` and the flag setters leave alone. */
  ghost predicate KeepsControl(s: Machine, e: Effect) {
    && ReadOnlyKept(s.mem, e.machine.mem) && e.machine.psr == s.psr && e.shiftItState
    && e.machine.itState == s.itState && e.machine.itCond == s.itCond
  }

  lemma StoreRegistersKeeps(s: Machine, base: reg, list: RegList, incrementAfter: bool, writeback: bool)
    ensures KeepsControl(s, Next(StoreRegisters(s, base, list, incrementAfter, writeback)))
  {
    hide ReadOnlyKept, StoreUp, StoreDown;
    StoresKeep(s.mem, s.regs[base], s.regs, list);
  }

  lemma LoadRegistersKeeps(s: Machine, base: reg, list: RegList, writeback: bool, advance: bool)
    ensures KeepsControl(s, LoadRegisters(s, base, list, writeback, advance))
  {
    hide ReadOnlyKept, LoadUp;
    KeptByItself(s.mem);
  }

  /** What the handlers that may set flags leave alone. */
  ghost predicate KeepsAllButPsr(s: Machine, t: Machine) {
    t.mem == s.mem && t.itState == s.itState && t.itCond == s.itCond
  }

  lemma SumKeeps(s: Machine, r: reg, v: word, always: bool, code: bv32)
    ensures KeepsAllButPsr(s, SetReg(s, r, v))
    ensures KeepsAllButPsr(s, SetCode(s, always, code))
    ensures KeepsAllButPsr(s, SetReg(SetCode(s, always, code), r, v))
  {
    hide WithCondCode, Unconditional;
  }

  lemma ArithmeticKeeps(s: Machine, op: ArithmeticOp)
    ensures KeepsAllButPsr(s, ExecArithmetic(s, op))
  {
    hide KeepsAllButPsr, SetReg, SetCode, AddCondCode, SubCondCode, Add32, Sub32;
    match op
    case AddImm(rd, rn, imm) => SumKeeps(s, rd, Add32(s.regs[rn], imm), false, AddCondCode(s.regs[rn], imm));
    case AddImmS(rd, rn, imm, _) => SumKeeps(s, rd, Add32(s.regs[rn], imm), true, AddCondCode(s.regs[rn], imm));
    case AddReg(rd, rn, rm) =>
      SumKeeps(s, rd, Add32(s.regs[rn], s.regs[rm]), false, AddCondCode(s.regs[rn], s.regs[rm]));
    case AddRegHigh(rdn, rm) => SumKeeps(s, rdn, Add32(s.regs[rdn], s.regs[rm]), true, 0);
    case AddSpImm(rd, imm) => SumKeeps(s, rd, Add32(s.regs[SP], imm * 4), true, 0);
    case SubImm(rd, rn, imm) => SumKeeps(s, rd, Sub32(s.regs[rn], imm), false, SubCondCode(s.regs[rn], imm));
    case SubImmS(rd, rn, imm, _) => SumKeeps(s, rd, Sub32(s.regs[rn], imm), true, SubCondCode(s.regs[rn], imm));
    case SubReg(rd, rn, rm) =>
      SumKeeps(s, rd, Sub32(s.regs[rn], s.regs[rm]), false, SubCondCode(s.regs[rn], s.regs[rm]));
    case SubSpImm(imm) => SumKeeps(s, SP, Sub32(s.regs[SP], imm * 4), true, 0);
    case CmpImm(rn, imm) => SumKeeps(s, rn, 0, true, SubCondCode(s.regs[rn], imm));
    case CmpReg(rn, rm) => SumKeeps(s, rn, 0, true, SubCondCode(s.regs[rn], s.regs[rm]));
  }

  lemma WritingKeeps(s: Machine, r: reg, v: word, always: bool, carry: bool)
    ensures KeepsAllButPsr(s, SetReg(s, r, v))
    ensures KeepsAllButPsr(s, SetMovCode(SetReg(s, r, v), always, v))
    ensures KeepsAllButPsr(s, SetLslCode(SetReg(s, r, v), always, v, carry))
  {
    hide WithMovCode, WithLslCode, Unconditional;
  }

  lemma MoveKeeps(s: Machine, op: MoveOp)
    ensures KeepsAllButPsr(s, ExecMove(s, op))
  {
    hide KeepsAllButPsr, SetReg, SetMovCode, SetLslCode, WordAnd, WordOr, WordXor, Add32, Wrap, LeadingZeros, Bits.Pow2;
    match op
    case MovImm(rd, imm) => WritingKeeps(s, rd, imm, false, false);
    case MovImmS(rd, imm, _) => WritingKeeps(s, rd, imm, true, false);
    case MovReg(rd, rm) => WritingKeeps(s, rd, if rm == PC then Add32(s.regs[rm], 4) else s.regs[rm], true, false);
    case MovRegT2(rd, rm) => WritingKeeps(s, rd, s.regs[rm], true, false);
    case EorReg(rdn, rm) => WritingKeeps(s, rdn, WordXor(s.regs[rdn], s.regs[rm]), false, false);
    case OrrReg(rdn, rm) => WritingKeeps(s, rdn, WordOr(s.regs[rdn], s.regs[rm]), false, false);
    case AndReg(rdn, rm) => WritingKeeps(s, rdn, WordAnd(s.regs[rdn], s.regs[rm]), true, false);
    case LslImm(rd, rm, shift) =>
      var shifted := s.regs[rm] * Bits.Pow2(shift);
      WritingKeeps(s, rd, Wrap(shifted), false, shifted / 0x1_0000_0000 % 2 == 1);
    case Clz(rd, rm) => WritingKeeps(s, rd, LeadingZeros(s.regs[rm], 0x8000_0000, 0), true, false);
  }

  lemma BranchKeeps(s: Machine, op: BranchOp)
    ensures KeepsControl(s, ExecBranch(s, op))
  {
    hide CondSatisfied, RelativeBranchTarget, Add32, ReadOnlyKept, SetBit0, ClearBit0;
    KeptByItself(s.mem);
  }

  lemma AccessKeeps(s: Machine, op: AccessOp)
    ensures KeepsControl(s, ExecAccess(s, op))
  {
    hide Read, Write, Add32, ReadOnlyKept;
    KeptByItself(s.mem);
    if op.Str? { WriteKeeps(s.mem, Add32(s.regs[op.rn], op.offset), op.size, s.regs[op.rt]); }
  }

  lemma MultipleKeeps(s: Machine, op: MultipleOp)
    ensures KeepsControl(s, ExecMultiple(s, op))
  {
    hide StoreRegisters, LoadRegisters, WithBit, KeepsControl;
    match op
    case Push(list, m) => StoreRegistersKeeps(s, SP, WithBit(list, m, LR), false, true);
    case Pop(list, p, m) => LoadRegistersKeeps(s, SP, WithBit(WithBit(list, p, PC), m, LR), true, !p);
    case LdmT1(rn, list) => LoadRegistersKeeps(s, rn, list, rn !in list, true);
    case LdmT2(rn, list, p, m, w) => LoadRegistersKeeps(s, rn, WithBit(WithBit(list, p, PC), m, LR), w, !p);
    case Stm(rn, list, m, w) => StoreRegistersKeeps(s, rn, WithBit(list, m, LR), true, w);
    case Stmdb(rn, list, m, w) => StoreRegistersKeeps(s, rn, WithBit(list, m, LR), false, w);
  }

  /** What every handler leaves alone: read-only memory, and, `it` apart, the queue. */
  lemma ExecKeeps(s: Machine, insn: Insn)
    ensures var e := Exec(s, insn);
      ReadOnlyKept(s.mem, e.machine.mem) &&
      (!insn.It? ==> e.shiftItState && e.machine.itState == s.itState && e.machine.itCond == s.itCond)
  {
    hide ExecArithmetic, ExecMove, ExecBranch, ExecAccess, ExecMultiple, ReadOnlyKept, Entered;
    KeptByItself(s.mem);
    match insn
    case Arithmetic(op) => ArithmeticKeeps(s, op);
    case Move(op) => MoveKeeps(s, op);
    case Branching(op) => BranchKeeps(s, op);
    case Accessing(op) => AccessKeeps(s, op);
    case Multiple(op) => MultipleKeeps(s, op);
    case It(_, _) =>
    case NoEffect =>
  }

  lemma StepInsnKeepsReadOnly(s: Machine, insn: Option<Insn>, length: nat)
    ensures ReadOnlyKept(s.mem, StepInsn(s, insn, length).mem)
  {
    hide Exec, ReadOnlyKept, ShouldExec, Bookkeep;
    if insn.Some? { ExecKeeps(s, insn.value); }
    KeptByItself(s.mem);
  }

  lemma KeptByItself(m: Memory)
    ensures ReadOnlyKept(m, m)
  {
  }

  /** No run, whatever decoder drives it, changes a byte of a read-only slice or the layout. */
  lemma {:induction false} RunKeepsReadOnly(arms: seq<Arm>, s: Machine, n: nat)
    ensures ReadOnlyKept(s.mem, Run(arms, s, n).mem)
  {
    hide Step;
    if n == 0 {
      KeptByItself(s.mem);
    } else {
      RunKeepsReadOnly(arms, s, n - 1);
      var before := Run(arms, s, n - 1);
      StepIsStepInsn(arms, before);
      var (length, insn) := Decode(arms, FetchWord(before.mem, before.regs[PC]));
      StepInsnKeepsReadOnly(before, insn, length);
    }
  }

  lemma StepIsStepInsn(arms: seq<Arm>, s: Machine)
    ensures var (length, insn) := Decode(arms, FetchWord(s.mem, s.regs[PC])); Step(arms, s) == StepInsn(s, insn, length)
  {
  }

  // ----- branch targets

  function SignExtend(imm: nat, bits: nat): int
    requires bits > 0
  {
    if imm >= Bits.Pow2(bits - 1) then imm - Bits.Pow2(bits) else imm
  }

  /** The target is the address of the branch, plus 4, plus twice the sign-extended immediate. */
  lemma BranchTargetIsSigned(pc: word, imm: nat, bits: nat)
    requires bits > 0 && imm < Bits.Pow2(bits)
    ensures RelativeBranchTarget(pc, imm, bits) == Wrap(pc + 4 + 2 * SignExtend(imm, bits))
  {
    hide Wrap;
    var p := Bits.Pow2(bits);
    assert pc - (4 + 2 * (p - imm)) + 8 == pc + 4 + 2 * (imm - p);
  }

  // ----- leading zeros

  lemma HighestBit(x: nat, n: nat)
    requires x < Bits.Pow2(n + 1)
    ensures Bits.And(Bits.Pow2(n), x) != 0 <==> x >= Bits.Pow2(n)
  {
    Bits.TestBit(x, n);
    if x >= Bits.Pow2(n) { Bits.TopBit(x - Bits.Pow2(n), n, n); } else { Bits.BoundedBits(x, n); }
  }

  /** The mask of the loop after i steps. */
  function ClzMask(i: nat): nat
    requires i <= 32
  {
    if i == 32 then 0 else Bits.Pow2(31 - i)
  }

  lemma ClzStep(x: word, i: nat)
    requires i < 32 && x < Bits.Pow2(32 - i)
    ensures LeadingZeros(x, ClzMask(i), i) ==
      if x >= Bits.Pow2(31 - i) then i else LeadingZeros(x, ClzMask(i + 1), i + 1)
  {
    HighestBit(x, 31 - i);
    assert ClzMask(i) / 2 == ClzMask(i + 1);
  }

  /** clz counts exactly the zeros above the highest set bit. */
  lemma {:induction false} LeadingZerosCounts(x: word, i: nat)
    requires i <= 32 && x < Bits.Pow2(32 - i)
    ensures var n := LeadingZeros(x, ClzMask(i), i);
      if x == 0 then n == 32 else i <= n < 32 && Bits.Pow2(31 - n) <= x < Bits.Pow2(32 - n)
    decreases 32 - i
  {
    if i < 32 {
      hide LeadingZeros;
      ClzStep(x, i);
      if x < Bits.Pow2(31 - i) { LeadingZerosCounts(x, i + 1); }
    }
  }

  // ----- IT blocks

  /** The bookkeeping in psr leaves the condition flags and the saturation flag alone. */
  lemma BookkeepKeepsFlags(psr: bv32, itState: bv8, itCond: bv8)
    ensures Bookkeep(psr, itState, itCond) & 0xf800_0000 == psr & 0xf800_0000
  {
  }

  lemma FlagsDependOnTopBits(p: bv32, q: bv32)
    requires p & 0xf800_0000 == q & 0xf800_0000
    ensures FlagsOf(p) == FlagsOf(q)
  {
  }

  lemma ShouldExecIsCondition(s: Machine)
    requires s.itState & 3 != 3
    ensures ShouldExec(s) == CondSatisfied(s.psr, QueueCondition(s.itState, s.itCond))
  {
  }

  /** Every instruction but `it` moves the queue on by one slot. */
  lemma StepShiftsQueue(s: Machine, insn: Option<Insn>, length: nat)
    requires insn.Some? ==> !insn.value.It?
    ensures StepInsn(s, insn, length).itState == s.itState >> 2 && StepInsn(s, insn, length).itCond == s.itCond
  {
    hide Exec, ShouldExec, Bookkeep;
    if insn.Some? { ExecKeeps(s, insn.value); }
  }

  /** A machine that meets `it` outside a block. */
  ghost predicate EntersBlock(s: Machine, firstcond: bv8, mask: bv8) {
    s.itState == 0 && firstcond < 16 && 0 < mask < 16
  }

  lemma StepEntersBlock(s: Machine, firstcond: bv8, mask: bv8, length: nat)
    requires s.itState == 0
    ensures var t := StepInsn(s, Some(It(firstcond, mask)), length);
      t.itState == Entered(0, firstcond, mask) && t.itCond == firstcond && FlagsOf(t.psr) == FlagsOf(s.psr)
  {
    hide Entered, Bookkeep, FlagsOf, Wrap;
    assert ShouldExec(s);
    BookkeepKeepsFlags(s.psr, Entered(0, firstcond, mask), firstcond);
    FlagsDependOnTopBits(Bookkeep(s.psr, Entered(0, firstcond, mask), firstcond), s.psr);
  }

  /** The machine after the first k of some decoded instructions. */
  function StepAll(s: Machine, insns: seq<(Option<Insn>, nat)>, k: nat): Machine
    requires k <= |insns|
  {
    if k == 0 then s else StepInsn(StepAll(s, insns, k - 1), insns[k - 1].0, insns[k - 1].1)
  }

  ghost predicate NoIt(insns: seq<(Option<Insn>, nat)>) {
    forall i :: 0 <= i < |insns| && insns[i].0.Some? ==> !insns[i].0.value.It?
  }

  lemma {:induction false} QueueAfterSteps(s: Machine, insns: seq<(Option<Insn>, nat)>, k: nat)
    requires k <= |insns| && NoIt(insns)
    ensures StepAll(s, insns, k).itState == QueueAfter(s.itState, k) && StepAll(s, insns, k).itCond == s.itCond
  {
    hide StepInsn;
    if k > 0 {
      QueueAfterSteps(s, insns, k - 1);
      StepShiftsQueue(StepAll(s, insns, k - 1), insns[k - 1].0, insns[k - 1].1);
    }
  }

  /** Behind an `it`, whatever instructions follow, each is executed exactly when the architectural
      ITSTATE lets it pass with the flags of that moment. */
  lemma StepsFollowItState(s: Machine, firstcond: bv8, mask: bv8, length: nat, insns: seq<(Option<Insn>, nat)>, k: nat)
    requires EntersBlock(s, firstcond, mask) && k <= |insns| && NoIt(insns)
    ensures var t := StepAll(StepInsn(s, Some(It(firstcond, mask)), length), insns, k);
      && (ShouldExec(t) <==>
          ConditionPassed(FlagsOf(t.psr), ItCondition(ItStateAfter((firstcond << 4) | mask, k))))
      && (Slots(mask) <= k ==> t.itState == 0)
  {
    hide StepInsn, Entered, QueueAfter, ItStateAfter, FlagsOf, ConditionPassed, CondSatisfied;
    hide ShouldExec, QueueCondition, ItCondition, InItBlock, Slots;
    var entered := StepInsn(s, Some(It(firstcond, mask)), length);
    StepEntersBlock(s, firstcond, mask, length);
    QueueAfterSteps(entered, insns, k);
    QueueSimulatesItState(firstcond, mask, k);
    var t := StepAll(entered, insns, k);
    SlotIsValid(firstcond, mask, k);
    ShouldExecIsCondition(t);
    ConditionsAreArchitectural(t.psr, QueueCondition(t.itState, t.itCond));
  }

  /** No slot of the queue holds the unused fourth state. */
  lemma SlotIsValid(firstcond: bv8, mask: bv8, k: nat)
    requires firstcond < 16 && 0 < mask < 16
    ensures QueueAfter(Entered(0, firstcond, mask), k) & 3 != 3
  {
    if k >= 4 {
      AfterFour(firstcond, mask, k);
    } else {
      var q := Entered(0, firstcond, mask);
      FirstAfter(q, 0);
      PushedSlots(0, firstcond & 1, mask);
    }
  }

  // ----- arithmetic

  /** What the manual's AddWithCarry is given, where its result goes, and whether flags are set. */
  datatype Sum = Sum(dest: Option<reg>, x: word, y: word, carryIn: bool, setFlags: bool)

  function Not(x: word): word {
    0xffff_ffff - x
  }

  /** The operations of ADD, SUB and CMP (section A7.7 of the ARMv7-M Architecture Reference Manual), with
      every register read as it stands. */
  function ManualSum(s: Machine, op: ArithmeticOp): Sum {
    match op
    case AddImm(rd, rn, imm) => Sum(Some(rd), s.regs[rn], imm, false, Unconditional(s))
    case AddImmS(rd, rn, imm, setFlags) => Sum(Some(rd), s.regs[rn], imm, false, setFlags)
    case AddReg(rd, rn, rm) => Sum(Some(rd), s.regs[rn], s.regs[rm], false, Unconditional(s))
    case AddRegHigh(rdn, rm) => Sum(Some(rdn), s.regs[rdn], s.regs[rm], false, false)
    case AddSpImm(rd, imm) => Sum(Some(rd), s.regs[SP], 4 * imm, false, false)
    case SubImm(rd, rn, imm) => Sum(Some(rd), s.regs[rn], Not(imm), true, Unconditional(s))
    case SubImmS(rd, rn, imm, setFlags) => Sum(Some(rd), s.regs[rn], Not(imm), true, setFlags)
    case SubReg(rd, rn, rm) => Sum(Some(rd), s.regs[rn], Not(s.regs[rm]), true, Unconditional(s))
    case SubSpImm(imm) => Sum(Some(SP), s.regs[SP], Not(4 * imm), true, false)
    case CmpImm(rn, imm) => Sum(None, s.regs[rn], Not(imm), true, true)
    case CmpReg(rn, rm) => Sum(None, s.regs[rn], Not(s.regs[rm]), true, true)
  }

  ghost predicate Performs(s: Machine, t: Machine, sum: Sum) {
    var r := AddWithCarry(sum.x, sum.y, sum.carryIn);
    && t.regs == (if sum.dest.Some? then s.regs[sum.dest.value := r.0] else s.regs)
    && FlagsOf(t.psr) == if sum.setFlags then ArithmeticFlags(r) else FlagsOf(s.psr)
  }

  lemma SumsAreArchitectural(psr: bv32, x: word, y: word)
    ensures AddWithCarry(x, y, false).0 == Add32(x, y) && AddWithCarry(x, Not(y), true).0 == Sub32(x, y)
    ensures FlagsOf(WithCondCode(psr, AddCondCode(x, y))) == ArithmeticFlags(AddWithCarry(x, y, false))
    ensures FlagsOf(WithCondCode(psr, SubCondCode(x, y))) == ArithmeticFlags(AddWithCarry(x, Not(y), true))
  {
    AddFlagsAreArchitectural(psr, x, y);
    SubFlagsAreArchitectural(psr, x, y);
    hide FlagsOf, WithCondCode, AddCondCode, SubCondCode, ArithmeticFlags;
    assert x + Not(y) + 1 == x - y + 0x1_0000_0000;
  }

  lemma AdditionPerformed(s: Machine, flags: bool, x: word, y: word, rd: reg)
    ensures var t := SetReg(if flags then s.(psr := WithCondCode(s.psr, AddCondCode(x, y))) else s, rd, Add32(x, y));
      Performs(s, t, Sum(Some(rd), x, y, false, flags))
  {
    hide FlagsOf, WithCondCode, AddCondCode, SubCondCode, ArithmeticFlags, AddWithCarry, Add32, Sub32, Not;
    SumsAreArchitectural(s.psr, x, y);
  }

  lemma SubtractionPerformed(s: Machine, flags: bool, x: word, y: word, rd: reg)
    ensures var flagged := if flags then s.(psr := WithCondCode(s.psr, SubCondCode(x, y))) else s;
      && Performs(s, SetReg(flagged, rd, Sub32(x, y)), Sum(Some(rd), x, Not(y), true, flags))
      && Performs(s, flagged, Sum(None, x, Not(y), true, flags))
  {
    hide FlagsOf, WithCondCode, AddCondCode, SubCondCode, ArithmeticFlags, AddWithCarry, Add32, Sub32, Not;
    SumsAreArchitectural(s.psr, x, y);
  }

  /** Each handler performs its manual's sum: the result, the register it goes to, and the flags. */
  lemma ArithmeticIsArchitectural(s: Machine, op: ArithmeticOp)
    ensures Performs(s, ExecArithmetic(s, op), ManualSum(s, op))
  {
    hide Performs, WithCondCode, AddCondCode, SubCondCode, Add32, Sub32, Unconditional, Not, SetReg;
    var free := Unconditional(s);
    match op
    case AddImm(rd, rn, imm) => AdditionPerformed(s, free, s.regs[rn], imm, rd);
    case AddImmS(rd, rn, imm, setFlags) => AdditionPerformed(s, setFlags, s.regs[rn], imm, rd);
    case AddReg(rd, rn, rm) => AdditionPerformed(s, free, s.regs[rn], s.regs[rm], rd);
    case AddRegHigh(rdn, rm) => AdditionPerformed(s, false, s.regs[rdn], s.regs[rm], rdn);
    case AddSpImm(rd, imm) => AdditionPerformed(s, false, s.regs[SP], 4 * imm, rd);
    case SubImm(rd, rn, imm) => SubtractionPerformed(s, free, s.regs[rn], imm, rd);
    case SubImmS(rd, rn, imm, setFlags) => SubtractionPerformed(s, setFlags, s.regs[rn], imm, rd);
    case SubReg(rd, rn, rm) => SubtractionPerformed(s, free, s.regs[rn], s.regs[rm], rd);
    case SubSpImm(imm) => SubtractionPerformed(s, false, s.regs[SP], 4 * imm, SP);
    case CmpImm(rn, imm) => SubtractionPerformed(s, true, s.regs[rn], imm, rn);
    case CmpReg(rn, rm) => SubtractionPerformed(s, true, s.regs[rn], s.regs[rm], rn);
  }

  // ----- moves

  function MoveDest(op: MoveOp): reg {
    if op.EorReg? || op.OrrReg? || op.AndReg? then op.rdn else op.rd
  }

  /** Bit i of the value an instruction is to write. */
  ghost predicate MovedBit(s: Machine, op: MoveOp, i: nat)
    requires !op.Clz?
  {
    match op
    case MovImm(_, imm) => Bits.Bit(imm, i)
    case MovImmS(_, imm, _) => Bits.Bit(imm, i)
    case MovReg(_, rm) => Bits.Bit(if rm == PC then Add32(s.regs[rm], 4) else s.regs[rm], i)
    case MovRegT2(_, rm) => Bits.Bit(s.regs[rm], i)
    case EorReg(rdn, rm) => Bits.Bit(s.regs[rdn], i) != Bits.Bit(s.regs[rm], i)
    case OrrReg(rdn, rm) => Bits.Bit(s.regs[rdn], i) || Bits.Bit(s.regs[rm], i)
    case AndReg(rdn, rm) => Bits.Bit(s.regs[rdn], i) && Bits.Bit(s.regs[rm], i)
    case LslImm(_, rm, shift) => i >= shift && Bits.Bit(s.regs[rm], i - shift)
  }

  lemma {:induction false} LowBitsOfWrapped(x: nat, y: nat, n: nat, i: nat)
    requires i < n && exists q: nat :: x == y + Bits.Pow2(n) * q
    ensures Bits.Bit(x, i) <==> Bits.Bit(y, i)
  {
    var q: nat :| x == y + Bits.Pow2(n) * q;
    var half := Bits.Pow2(n - 1) * q;
    assert Bits.Pow2(n) * q == 2 * half;
    if i > 0 {
      assert x / 2 == y / 2 + Bits.Pow2(n - 1) * q;
      LowBitsOfWrapped(x / 2, y / 2, n - 1, i - 1);
    }
  }

  lemma WrappedBit(x: nat, i: nat)
    requires i < 32
    ensures Bits.Bit(Wrap(x), i) <==> Bits.Bit(x, i)
  {
    hide Bits.Bit, Bits.Pow2;
    Bits.BytePowers();
    assert x == Wrap(x) + Bits.Pow2(32) * (x / 0x1_0000_0000);
    LowBitsOfWrapped(x, Wrap(x), 32, i);
  }

  lemma ShiftedBit(x: word, shift: nat, i: nat)
    requires i < 32
    ensures Bits.Bit(Wrap(x * Bits.Pow2(shift)), i) <==> i >= shift && Bits.Bit(x, i - shift)
  {
    hide Bits.Bit, Bits.Pow2, Wrap;
    Bits.ShlIsMul(x, shift);
    WrappedBit(x * Bits.Pow2(shift), i);
    Bits.ShlBit(x, shift, i);
  }

  /** Bit for bit, each move writes what its instruction is for. */
  lemma MovesAreBitwise(s: Machine, op: MoveOp, i: nat)
    requires !op.Clz? && i < 32
    ensures Bits.Bit(ExecMove(s, op).regs[MoveDest(op)], i) <==> MovedBit(s, op, i)
  {
    hide Bits.Bit, Bits.And, Bits.Or, Bits.Xor, Bits.Pow2, WithMovCode, WithLslCode, Unconditional, Add32, Wrap;
    if op.EorReg? {
      Bits.XorBit(s.regs[op.rdn], s.regs[op.rm], i);
    } else if op.OrrReg? {
      Bits.OrBit(s.regs[op.rdn], s.regs[op.rm], i);
    } else if op.AndReg? {
      Bits.AndBit(s.regs[op.rdn], s.regs[op.rm], i);
    } else if op.LslImm? {
      ShiftedBit(s.regs[op.rm], op.shift, i);
    }
  }

  lemma MovCodeFlags(psr: bv32, value: word)
    ensures FlagsOf(WithMovCode(psr, value)) ==
      Nzcv(value >= 0x8000_0000, value == 0, FlagsOf(psr).c, FlagsOf(psr).v)
  {
  }

  lemma LslCodeFlags(psr: bv32, value: word, carry: bool)
    ensures FlagsOf(WithLslCode(psr, value, carry)) ==
      Nzcv(value >= 0x8000_0000, value == 0, carry, FlagsOf(psr).v)
  {
  }

  predicate SetsMoveFlags(s: Machine, op: MoveOp) {
    match op
    case MovImmS(_, _, setFlags) => setFlags
    case MovReg(_, _) => false
    case MovRegT2(_, _) => false
    case AndReg(_, _) => true
    case Clz(_, _) => false
    case _ => Unconditional(s)
  }

  /** The last bit that a shift moves out; none for a shift by 0. */
  predicate LastBitOut(x: word, shift: nat) {
    0 < shift <= 32 && Bits.Bit(x, 32 - shift)
  }

  lemma CarryIsLastBit(x: word, shift: nat)
    ensures x * Bits.Pow2(shift) / 0x1_0000_0000 % 2 == 1 <==> LastBitOut(x, shift)
  {
    hide Bits.Bit, Bits.Pow2, Bits.Shl;
    Bits.ShlIsMul(x, shift);
    BitThirtyTwo(Bits.Shl(x, shift));
    Bits.ShlBit(x, shift, 32);
    NoBitThirtyTwo(x);
  }

  lemma NoBitThirtyTwo(x: word)
    ensures !Bits.Bit(x, 32)
  {
    hide Bits.Bit;
    BitThirtyTwo(x);
  }

  lemma BitThirtyTwo(y: nat)
    ensures Bits.Bit(y, 32) <==> y / 0x1_0000_0000 % 2 == 1
  {
    hide Bits.Shr, Bits.And;
    Bits.ShrBit(y, 32, 0);
    Bits.ShrStep(y, 0);
    Bits.ByteOf(y, 0);
    Bits.ByteOf(y, 8);
    Bits.ByteOf(y, 16);
    Bits.ByteOf(y, 24);
    assert y / 256 / 256 / 256 / 256 == y / 0x1_0000_0000;
  }

  /** Where a move sets flags, N and Z describe the value it wrote, C is the last bit a shift moves out,
      and V stays; elsewhere all four stay. */
  lemma MoveFlagsDescribeResult(s: Machine, op: MoveOp)
    ensures var (t, before) := (ExecMove(s, op), FlagsOf(s.psr));
      var r := t.regs[MoveDest(op)];
      FlagsOf(t.psr) ==
        if !SetsMoveFlags(s, op) then before
        else
          var carry := if op.LslImm? then LastBitOut(s.regs[op.rm], op.shift) else before.c;
          Nzcv(r >= 0x8000_0000, r == 0, carry, before.v)
  {
    hide FlagsOf, WithMovCode, WithLslCode, LastBitOut, WordAnd, WordOr, WordXor, Wrap, Add32, LeadingZeros, Bits.Pow2;
    if op.LslImm? {
      ShiftFlags(s, op);
    } else {
      MovCodeFlags(s.psr, ExecMove(s, op).regs[MoveDest(op)]);
    }
  }

  lemma ShiftFlags(s: Machine, op: MoveOp)
    requires op.LslImm?
    ensures var (t, before) := (ExecMove(s, op), FlagsOf(s.psr));
      var r := t.regs[op.rd];
      FlagsOf(t.psr) ==
        if !Unconditional(s) then before
        else Nzcv(r >= 0x8000_0000, r == 0, LastBitOut(s.regs[op.rm], op.shift), before.v)
  {
    hide FlagsOf, WithLslCode, LastBitOut, Wrap, Bits.Pow2, Unconditional;
    var shifted := s.regs[op.rm] * Bits.Pow2(op.shift);
    LslCodeFlags(s.psr, Wrap(shifted), shifted / 0x1_0000_0000 % 2 == 1);
    CarryIsLastBit(s.regs[op.rm], op.shift);
    StaysUnconditional(s, op.rd, Wrap(shifted));
  }

  lemma StaysUnconditional(s: Machine, r: reg, v: word)
    ensures Unconditional(SetReg(s, r, v)) == Unconditional(s)
  {
  }

  // ----- loads and stores

  /** A load behind a store to the same place brings the stored register back, cut to the access size. */
  lemma StoreThenLoad(s: Machine, rt: reg, rn: reg, offset: word, size: AccessSize, rd: reg)
    requires Disjoint(s.mem) && Effective(s.mem, Add32(s.regs[rn], offset), size)
    ensures var stored := ExecAccess(s, Str(rt, rn, offset, size)).machine;
      ExecAccess(stored, Ldr(rd, rn, offset, size)).machine.regs ==
        s.regs[rd := s.regs[rt] % ByteRange(size)]
  {
    hide Read, Write, Add32, ByteRange, Effective;
    ReadAfterWrite(s.mem, Add32(s.regs[rn], offset), size, s.regs[rt]);
  }

  // ----- compare and branch

  /** The relation a condition is named for; MI, PL, VS and VC name none. */
  predicate Relation(cond: bv8, x: word, y: word)
    requires IsRelation(cond)
  {
    match cond
    case 0 => x == y
    case 1 => x != y
    case 2 => x >= y
    case 3 => x < y
    case 8 => x > y
    case 9 => x <= y
    case 10 => Signed(x) >= Signed(y)
    case 11 => Signed(x) < Signed(y)
    case 12 => Signed(x) > Signed(y)
    case 13 => Signed(x) <= Signed(y)
  }

  predicate IsRelation(cond: bv8) {
    cond < 4 || 8 <= cond < 14
  }

  lemma RelationDecided(psr: bv32, x: word, y: word, cond: bv8, itCond: bv8)
    requires IsRelation(cond)
    ensures CondSatisfied(Bookkeep(WithCondCode(psr, SubCondCode(x, y)), 0, itCond), cond) == Relation(cond, x, y)
  {
    hide WithCondCode, SubCondCode, FlagsOf, ConditionPassed, CondSatisfied, Bookkeep;
    var after := WithCondCode(psr, SubCondCode(x, y));
    CompareDecides(psr, x, y);
    OutsideKeepsFlags(after, itCond);
    FlagsDependOnTopBits(Bookkeep(after, 0, itCond), after);
    ConditionsAreArchitectural(after, cond);
    ConditionsAreArchitectural(Bookkeep(after, 0, itCond), cond);
  }

  lemma OutsideKeepsFlags(psr: bv32, itCond: bv8)
    ensures Bookkeep(psr, 0, itCond) & 0xf800_0000 == psr & 0xf800_0000
  {
  }

  /** A compare and a conditional branch behind it jump exactly when the relation holds between the two
      registers as they were before the compare, and change no register but the PC. */
  lemma CompareThenBranch(s: Machine, rn: reg, rm: reg, length: nat, imm: int, cond: bv8)
    requires s.itState == 0 && IsRelation(cond)
    ensures var t := StepInsn(s, Some(Arithmetic(CmpReg(rn, rm))), length);
      var u := StepInsn(t, Some(Branching(BranchCond(imm, cond))), 4);
      && t.regs == s.regs[PC := Add32(s.regs[PC], length)]
      && u.regs == t.regs[PC :=
           Add32(t.regs[PC], if Relation(cond, s.regs[rn], s.regs[rm]) then 2 * imm + 4 else 4)]
  {
    CompareStep(s, rn, rm, length);
    hide StepInsn, Relation, IsRelation, WithCondCode, SubCondCode, CondSatisfied, Bookkeep, Add32;
    var t := StepInsn(s, Some(Arithmetic(CmpReg(rn, rm))), length);
    RelationDecided(s.psr, s.regs[rn], s.regs[rm], cond, s.itCond);
    BranchStep(t, imm, cond);
  }

  lemma CompareStep(s: Machine, rn: reg, rm: reg, length: nat)
    requires s.itState == 0
    ensures var t := StepInsn(s, Some(Arithmetic(CmpReg(rn, rm))), length);
      && t.regs == s.regs[PC := Add32(s.regs[PC], length)] && t.itState == 0
      && t.psr == Bookkeep(WithCondCode(s.psr, SubCondCode(s.regs[rn], s.regs[rm])), 0, s.itCond)
  {
    hide WithCondCode, SubCondCode, CondSatisfied, Bookkeep, Add32;
  }

  lemma BranchStep(s: Machine, imm: int, cond: bv8)
    requires s.itState == 0
    ensures StepInsn(s, Some(Branching(BranchCond(imm, cond))), 4).regs ==
      s.regs[PC := Add32(s.regs[PC], if CondSatisfied(s.psr, cond) then 2 * imm + 4 else 4)]
  {
    hide CondSatisfied, Bookkeep, Add32;
  }

  // ----- blocks of instructions that leave the flags alone

  /** Instructions that do not set flags inside an IT block. and_reg_T1 sets them even there. */
  predicate Quiet(insn: Insn) {
    match insn
    case Arithmetic(op) => QuietArithmetic(op)
    case Move(op) => QuietMove(op)
    case It(_, _) => false
    case _ => true
  }

  predicate QuietArithmetic(op: ArithmeticOp) {
    !op.CmpImm? && !op.CmpReg? && ((op.AddImmS? || op.SubImmS?) ==> !op.setFlags)
  }

  predicate QuietMove(op: MoveOp) {
    !op.AndReg? && (op.MovImmS? ==> !op.setFlags)
  }

  lemma QuietArithmeticKeepsPsr(s: Machine, op: ArithmeticOp)
    requires QuietArithmetic(op) && !Unconditional(s)
    ensures ExecArithmetic(s, op).psr == s.psr
  {
    hide AddCondCode, SubCondCode, WithCondCode, Add32, Sub32, Unconditional;
  }

  lemma QuietWriting(s: Machine, r: reg, v: word, carry: bool)
    requires !Unconditional(s)
    ensures SetReg(s, r, v).psr == s.psr
    ensures SetMovCode(SetReg(s, r, v), false, v).psr == s.psr
    ensures SetLslCode(SetReg(s, r, v), false, v, carry).psr == s.psr
  {
    hide WithMovCode, WithLslCode;
  }

  lemma QuietMoveKeepsPsr(s: Machine, op: MoveOp)
    requires QuietMove(op) && !Unconditional(s)
    ensures ExecMove(s, op).psr == s.psr
  {
    hide SetReg, SetMovCode, SetLslCode, WordAnd, WordOr, WordXor, Add32, Wrap, LeadingZeros, Unconditional, Bits.Pow2;
    match op
    case MovImm(rd, imm) => QuietWriting(s, rd, imm, false);
    case MovImmS(rd, imm, _) => QuietWriting(s, rd, imm, false);
    case MovReg(rd, rm) => QuietWriting(s, rd, if rm == PC then Add32(s.regs[rm], 4) else s.regs[rm], false);
    case MovRegT2(rd, rm) => QuietWriting(s, rd, s.regs[rm], false);
    case EorReg(rdn, rm) => QuietWriting(s, rdn, WordXor(s.regs[rdn], s.regs[rm]), false);
    case OrrReg(rdn, rm) => QuietWriting(s, rdn, WordOr(s.regs[rdn], s.regs[rm]), false);
    case LslImm(rd, rm, shift) =>
      var shifted := s.regs[rm] * Bits.Pow2(shift);
      QuietWriting(s, rd, Wrap(shifted), shifted / 0x1_0000_0000 % 2 == 1);
    case Clz(rd, rm) => QuietWriting(s, rd, LeadingZeros(s.regs[rm], 0x8000_0000, 0), false);
  }

  lemma QuietKeepsPsr(s: Machine, insn: Insn)
    requires Quiet(insn) && !Unconditional(s)
    ensures Exec(s, insn).machine.psr == s.psr
  {
    hide ExecArithmetic, ExecMove, ExecBranch, ExecAccess, ExecMultiple, Unconditional, Entered, ReadOnlyKept;
    match insn
    case Arithmetic(op) => QuietArithmeticKeepsPsr(s, op);
    case Move(op) => QuietMoveKeepsPsr(s, op);
    case Branching(op) => BranchKeeps(s, op);
    case Accessing(op) => AccessKeeps(s, op);
    case Multiple(op) => MultipleKeeps(s, op);
    case NoEffect =>
  }

  /** A machine in a block with N and Z both set, which no result sets together. */
  ghost const IN_BLOCK_NZ: Machine :=
    RawMachine(seq(16, _ => 0), 0xc000_0000, 0, 0, 1, [])

  lemma CodesNotNZ(psr: bv32, x: word, y: word)
    ensures FlagsOf(WithCondCode(psr, AddCondCode(x, y))) != Nzcv(true, true, false, false)
    ensures FlagsOf(WithCondCode(psr, SubCondCode(x, y))) != Nzcv(true, true, false, false)
  {
    hide FlagsOf, WithCondCode, AddCondCode, SubCondCode, Wrap;
    AddFlagsAreArchitectural(psr, x, y);
    SubFlagsAreArchitectural(psr, x, y);
  }

  lemma MovCodeNotNZ(value: word)
    ensures FlagsOf(WithMovCode(0xc000_0000, value)) != Nzcv(true, true, false, false)
  {
  }

  lemma NoisyArithmeticSetsFlags(op: ArithmeticOp)
    requires !QuietArithmetic(op)
    ensures FlagsOf(ExecArithmetic(IN_BLOCK_NZ, op).psr) != FlagsOf(IN_BLOCK_NZ.psr)
  {
    hide WithCondCode, AddCondCode, SubCondCode, Add32, Sub32, FlagsOf;
    var s := IN_BLOCK_NZ;
    FlagsOfNZ();
    if op.AddImmS? || op.SubImmS? {
      CodesNotNZ(s.psr, s.regs[op.rn], op.wimm);
    } else if op.CmpImm? {
      CodesNotNZ(s.psr, s.regs[op.rn], op.wimm);
    } else {
      CodesNotNZ(s.psr, s.regs[op.rn], s.regs[op.rm]);
    }
  }

  lemma NoisyMoveSetsFlags(op: MoveOp)
    requires !QuietMove(op)
    ensures FlagsOf(ExecMove(IN_BLOCK_NZ, op).psr) != FlagsOf(IN_BLOCK_NZ.psr)
  {
    hide WithMovCode, WordAnd, FlagsOf;
    var s := IN_BLOCK_NZ;
    FlagsOfNZ();
    if op.MovImmS? { MovCodeNotNZ(op.wimm); } else { MovCodeNotNZ(WordAnd(s.regs[op.rdn], s.regs[op.rm])); }
  }

  lemma NoisySetsFlags(insn: Insn)
    requires !Quiet(insn) && !insn.It?
    ensures FlagsOf(Exec(IN_BLOCK_NZ, insn).machine.psr) != FlagsOf(IN_BLOCK_NZ.psr)
  {
    hide ExecArithmetic, ExecMove, FlagsOf, QuietArithmetic, QuietMove;
    if insn.Arithmetic? { NoisyArithmeticSetsFlags(insn.arithmetic); } else { NoisyMoveSetsFlags(insn.move); }
  }

  lemma FlagsOfNZ()
    ensures FlagsOf(0xc000_0000) == Nzcv(true, true, false, false)
  {
  }

  /** Exactly the quiet instructions keep N, Z, C and V in every block they may stand in. */
  lemma QuietIffFlagsFixed(insn: Insn)
    requires !insn.It?
    ensures Quiet(insn) <==>
      forall s: Machine | !Unconditional(s) :: FlagsOf(Exec(s, insn).machine.psr) == FlagsOf(s.psr)
  {
    hide Exec, FlagsOf, Unconditional;
    if Quiet(insn) {
      forall s: Machine | !Unconditional(s) ensures FlagsOf(Exec(s, insn).machine.psr) == FlagsOf(s.psr) {
        QuietKeepsPsr(s, insn);
      }
    } else {
      NoisySetsFlags(insn);
      NZIsInBlock();
    }
  }

  lemma NZIsInBlock()
    ensures !Unconditional(IN_BLOCK_NZ)
  {
  }

  lemma QuietStepKeepsFlags(s: Machine, insn: Option<Insn>, length: nat)
    requires !Unconditional(s) && (insn.Some? ==> Quiet(insn.value))
    ensures FlagsOf(StepInsn(s, insn, length).psr) == FlagsOf(s.psr)
  {
    StepPsr(s, insn, length);
    hide Exec, ShouldExec, Bookkeep, FlagsOf, Unconditional, StepInsn, Quiet;
    if insn.Some? {
      QuietIsNotIt(insn.value);
      QuietKeepsPsr(s, insn.value);
      ExecKeeps(s, insn.value);
    }
    BookkeepKeepsFlags(s.psr, s.itState >> 2, s.itCond);
    FlagsDependOnTopBits(Bookkeep(s.psr, s.itState >> 2, s.itCond), s.psr);
  }

  lemma StepPsr(s: Machine, insn: Option<Insn>, length: nat)
    ensures var e := if ShouldExec(s) && insn.Some? then Exec(s, insn.value) else Next(s);
      StepInsn(s, insn, length).psr ==
        Bookkeep(e.machine.psr, if e.shiftItState then e.machine.itState >> 2 else e.machine.itState, e.machine.itCond)
  {
    hide Exec, ShouldExec, Bookkeep;
  }

  lemma QuietIsNotIt(insn: Insn)
    requires Quiet(insn)
    ensures !insn.It?
  {
  }

  ghost predicate AllQuiet(insns: seq<(Option<Insn>, nat)>) {
    forall i :: 0 <= i < |insns| && insns[i].0.Some? ==> Quiet(insns[i].0.value)
  }

  lemma {:induction false} QuietBlockKeepsFlags(
      s: Machine, firstcond: bv8, mask: bv8, length: nat, insns: seq<(Option<Insn>, nat)>, k: nat)
    requires EntersBlock(s, firstcond, mask) && AllQuiet(insns) && k <= |insns| && k <= Slots(mask)
    ensures FlagsOf(StepAll(StepInsn(s, Some(It(firstcond, mask)), length), insns, k).psr) == FlagsOf(s.psr)
  {
    hide StepInsn, FlagsOf, Slots, Entered, Quiet;
    var entered := StepInsn(s, Some(It(firstcond, mask)), length);
    StepEntersBlock(s, firstcond, mask, length);
    if k > 0 {
      QuietBlockKeepsFlags(s, firstcond, mask, length, insns, k - 1);
      var t := StepAll(entered, insns, k - 1);
      forall i | 0 <= i < |insns| && insns[i].0.Some? ensures !insns[i].0.value.It? {
        QuietIsNotIt(insns[i].0.value);
      }
      QueueAfterSteps(entered, insns, k - 1);
      QueueSimulatesItState(firstcond, mask, k - 1);
      QuietStepKeepsFlags(t, insns[k - 1].0, insns[k - 1].1);
    }
  }

  /** Slot k of a block is a THEN slot. */
  function IsThen(firstcond: bv8, mask: bv8, k: nat): bool {
    k == 0 || MaskBit(mask, k - 1) == firstcond & 1
  }

  lemma SlotFollowsMask(firstcond: bv8, mask: bv8, k: nat)
    requires firstcond < 14 && 0 < mask < 16 && k < Slots(mask)
    ensures QueueAfter(Entered(0, firstcond, mask), k) & 3 == if IsThen(firstcond, mask, k) then IT_THEN else IT_ELSE
  {
    FirstAfter(Entered(0, firstcond, mask), 0);
    PushedSlots(0, firstcond & 1, mask);
  }

  /** In a block of quiet instructions each THEN slot is executed exactly when the first condition
      held at the `it`, and each ELSE slot exactly when it did not. */
  lemma QuietBlockBranches(
      s: Machine, firstcond: bv8, mask: bv8, length: nat, insns: seq<(Option<Insn>, nat)>, k: nat)
    requires EntersBlock(s, firstcond, mask) && firstcond < 14
    requires AllQuiet(insns) && k <= |insns| && k < Slots(mask)
    ensures ShouldExec(StepAll(StepInsn(s, Some(It(firstcond, mask)), length), insns, k)) <==>
      (CondSatisfied(s.psr, firstcond) == IsThen(firstcond, mask, k))
  {
    hide StepInsn, FlagsOf, Slots, Entered, Quiet, IsThen, CondSatisfied, ConditionPassed, QueueAfter;
    var entered := StepInsn(s, Some(It(firstcond, mask)), length);
    StepEntersBlock(s, firstcond, mask, length);
    QuietBlockKeepsFlags(s, firstcond, mask, length, insns, k);
    forall i | 0 <= i < |insns| && insns[i].0.Some? ensures !insns[i].0.value.It? {
      QuietIsNotIt(insns[i].0.value);
    }
    QueueAfterSteps(entered, insns, k);
    SlotFollowsMask(firstcond, mask, k);
    var t := StepAll(entered, insns, k);
    ConditionsAreArchitectural(t.psr, firstcond);
    ConditionsAreArchitectural(s.psr, firstcond);
    FlippedConditionNegates(t.psr, firstcond);
  }
}

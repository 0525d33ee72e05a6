/** Where the handlers (impl_emulation.c) part from the ARMv7-M Architecture Reference Manual, and
    exactly when. */
module ManualFlags {
  import opened Bytes
  import opened Options
  import opened AddressSpace
  import opened Flags
  import opened ItBlock
  import opened Cpu
  import opened CpuRuns
  import opened ExpandImm
  import Arms
  import Bits

  // ----- flags of moves

  /** The carry of LSL_C, which a shift by 0 leaves alone. */
  predicate ManualShiftCarry(x: word, shift: nat, carry: bool) {
    if shift == 0 then carry else shift <= 32 && Bits.Bit(x, 32 - shift)
  }

  /** The moves whose flags depend on their operands alone: for mov_imm_T2 see below, and MOVS (register)
      is not permitted in an IT block. */
  predicate HasManualFlags(s: Machine, op: MoveOp) {
    !op.MovImmS? && (op.MovRegT2? ==> Unconditional(s))
  }

  /** The flags the manual gives a move that writes r (section A7.7, entries MOV, EOR, ORR, AND, LSL and
      CLZ). */
  function ManualMoveFlags(s: Machine, op: MoveOp, r: word): Nzcv
    requires HasManualFlags(s, op)
  {
    var before := FlagsOf(s.psr);
    if !Unconditional(s) || op.MovReg? || op.Clz? then before
    else
      var carry := if op.LslImm? then ManualShiftCarry(s.regs[op.rm], op.shift, before.c) else before.c;
      Nzcv(r >= 0x8000_0000, r == 0, carry, before.v)
  }

  predicate Describes(f: Nzcv, r: word) {
    f.n == (r >= 0x8000_0000) && f.z == (r == 0)
  }

  /** What a move has to find for its handler to leave the manual's flags. */
  predicate MoveMeetsManual(s: Machine, op: MoveOp) {
    match op
    case MovRegT2(_, rm) => Describes(FlagsOf(s.psr), s.regs[rm])
    case AndReg(rdn, rm) => Unconditional(s) || Describes(FlagsOf(s.psr), WordAnd(s.regs[rdn], s.regs[rm]))
    case LslImm(_, _, shift) => !Unconditional(s) || shift != 0 || !FlagsOf(s.psr).c
    case _ => true
  }

  /** mov_reg_T2 sets no flags and and_reg_T1 always sets them; lsl_imm_T1 by 0 would clear C. So the
      handlers leave the manual's flags exactly then, and the other moves always do. */
  lemma MoveFlagsAreManualIff(s: Machine, op: MoveOp)
    requires HasManualFlags(s, op)
    ensures var t := ExecMove(s, op);
      FlagsOf(t.psr) == ManualMoveFlags(s, op, t.regs[MoveDest(op)]) <==> MoveMeetsManual(s, op)
  {
    hide ExecMove, FlagsOf, WordAnd, Bits.Bit, Unconditional;
    MoveFlagsDescribeResult(s, op);
    ResultOf(s, op);
  }

  lemma ResultOf(s: Machine, op: MoveOp)
    ensures var r := ExecMove(s, op).regs[MoveDest(op)];
      && (op.MovRegT2? ==> r == s.regs[op.rm])
      && (op.AndReg? ==> r == WordAnd(s.regs[op.rdn], s.regs[op.rm]))
  {
    hide WordAnd, WithMovCode, Unconditional;
  }

  /** The flags of MOV (immediate), encoding T2: C is bit 31 of an immediate that is rotated. */
  function ManualMovImmFlags(s: Machine, imm12: nat, setFlags: bool): Nzcv
    requires imm12 < 0x1000
  {
    var (before, v) := (FlagsOf(s.psr), ManualExpandImm(imm12));
    if !setFlags then before
    else Nzcv(v >= 0x8000_0000, v == 0, if imm12 / 1024 == 0 then before.c else v >= 0x8000_0000, before.v)
  }

  /** mov_imm_T2 leaves C alone. Its flags are the manual's exactly when it sets none, when its immediate
      is not rotated, or when C already is bit 31 of the immediate. */
  lemma MovImmFlagsAreManualIff(s: Machine, rd: reg, imm12: nat, setFlags: bool)
    requires imm12 < 0x1000
    ensures ThumbExpandImm(imm12) < 0x1_0000_0000
    ensures var v := ThumbExpandImm(imm12);
      FlagsOf(ExecMove(s, MovImmS(rd, v, setFlags)).psr) == ManualMovImmFlags(s, imm12, setFlags) <==>
        !setFlags || imm12 / 1024 == 0 || FlagsOf(s.psr).c == (v >= 0x8000_0000)
  {
    hide FlagsOf, WithMovCode, ThumbExpandImm, ManualExpandImm, Unconditional;
    ExpandImmIsManual(imm12);
    MovCodeFlags(s.psr, ThumbExpandImm(imm12));
  }

  /** movs r0, #0x80000000 whenever C is clear: the manual sets C, and the handler does not. */
  lemma MovImmLosesCarry(s: Machine)
    requires !FlagsOf(s.psr).c
    ensures ThumbExpandImm(0x400) == 0x8000_0000
    ensures FlagsOf(ExecMove(s, MovImmS(0, 0x8000_0000, true)).psr) != ManualMovImmFlags(s, 0x400, true)
  {
    ExpandImmIsManual(0x400);
    TopBitRotated();
    MovImmFlagsAreManualIff(s, 0, 0x400, true);
  }

  lemma TopBitRotated()
    ensures ManualExpandImm(0x400) == 0x8000_0000
  {
    hide RotateRight, Bits.Pow2, Bits.Bit;
    Bits.BytePowers();
    Bits.FourPowers(24);
    Bits.SmallPowers();
    forall i: nat ensures Bits.Bit(RotateRight(128, 8), i) <==> Bits.Bit(Bits.Pow2(31), i) {
      RotatedBit(128, 8, i);
      Bits.SingleBit(31, i);
      if i < 32 { Bits.SingleBit(7, (i + 8) % 32); }
    }
    Bits.Extensionality(RotateRight(128, 8), Bits.Pow2(31));
    HalfOf32();
  }

  lemma HalfOf32()
    ensures Bits.Pow2(31) == 0x8000_0000
  {
    hide Bits.Pow2;
    Bits.SmallPowers();
    Bits.FourPowers(3);
    Bits.FourPowers(7);
    Bits.FourPowers(11);
    Bits.FourPowers(15);
    Bits.FourPowers(19);
    Bits.FourPowers(23);
    Bits.FourPowers(27);
  }

  /** Every lsl_imm_T1 that is decoded behind mov_reg_T2 leaves the manual's flags. */
  lemma DecodedLslIsManual(arms: seq<Arm>, j: nat, k: nat, opcode: word, s: Machine)
    requires j < k && Arms.FirstPassing(arms, k, opcode)
    requires arms[j].mask == Arms.MOV_REG_T2.mask && arms[j].cmp == Arms.MOV_REG_T2.cmp && arms[k] == Arms.LSL_IMM_T1
    ensures var insn := Decode(arms, opcode).1;
      && insn.Some? && insn.value.Move? && insn.value.move.LslImm?
      && var t := ExecMove(s, insn.value.move);
         FlagsOf(t.psr) == ManualMoveFlags(s, insn.value.move, t.regs[insn.value.move.rd])
  {
    hide Decode, ExecMove, ManualMoveFlags, FlagsOf, Arms.ShiftField, Arms.LowReg;
    Arms.LslShiftsByOneToThirtyOne(arms, j, k, opcode);
    var op := LslImm(Arms.LowReg(opcode, 16), Arms.LowReg(opcode, 19), Arms.ShiftField(opcode));
    MoveFlagsAreManualIff(s, op);
  }

  /** movs r0, r1 is decoded as mov_reg_T2: whenever r1 is 0 and Z is clear, the manual sets Z, and the
      step does not. */
  lemma MovRegLosesFlags(arms: seq<Arm>, k: nat, s: Machine)
    requires Arms.FirstPassing(arms, k, 0x0008_0000) && arms[k] == Arms.MOV_REG_T2
    requires s.itState == 0 && !FlagsOf(s.psr).z && s.regs[1] == 0
    ensures Decode(arms, 0x0008_0000) == (2, Some(Move(MovRegT2(0, 1))))
    ensures ManualMoveFlags(s, MovRegT2(0, 1), 0).z
    ensures FlagsOf(StepInsn(s, Some(Move(MovRegT2(0, 1))), 2).psr) == FlagsOf(s.psr)
  {
    Arms.DecodesFirstPassing(arms, k, 0x0008_0000);
    FieldsOfMovs();
    var insn := Move(MovRegT2(0, 1));
    StepPsr(s, Some(insn), 2);
    KeepsPsr(s);
    BookkeepKeepsFlags(s.psr, s.itState >> 2, s.itCond);
    FlagsDependOnTopBits(Bookkeep(s.psr, s.itState >> 2, s.itCond), s.psr);
  }

  lemma KeepsPsr(s: Machine)
    requires s.itState == 0
    ensures ShouldExec(s)
    ensures var e := Exec(s, Move(MovRegT2(0, 1)));
      e.shiftItState && e.machine.psr == s.psr && e.machine.itState == s.itState && e.machine.itCond == s.itCond
  {
  }

  /** The opcode 0x0008 passes the test of mov_reg_T2, with the fields Rd = 0 and Rm = 1. */
  lemma FieldsOfMovs()
    ensures Bits.And(0x0008_0000, Arms.MOV_REG_T2.mask) == Arms.MOV_REG_T2.cmp
    ensures Arms.LowReg(0x0008_0000, 16) == 0 && Arms.LowReg(0x0008_0000, 19) == 1
  {
    hide Bits.And, Bits.Pow2, Bits.FieldAt;
    Arms.TestsOfMovAndLsl(0x0008_0000);
    Arms.TopPowers();
    Bits.SmallPowers();
    Bits.FieldIs(0x0008_0000, 16, 3);
    Bits.FieldIs(0x0008_0000, 19, 3);
  }

  // ----- the saturation flag

  predicate Saturated(psr: bv32) {
    psr & FLAG_SATURATION != 0
  }

  /** Additions, subtractions and compares that set N, Z, C and V. */
  predicate SetsAllFlags(s: Machine, insn: Insn) {
    insn.Arithmetic? && ManualSum(s, insn.arithmetic).setFlags
  }

  lemma CondCodeClears(psr: bv32, n: bool, z: bool, c: bool, v: bool)
    ensures WithCondCode(psr, CondCode(n, z, c, v)) & FLAG_SATURATION == 0
  {
  }

  lemma CodesClear(psr: bv32, x: word, y: word)
    ensures !Saturated(WithCondCode(psr, AddCondCode(x, y))) && !Saturated(WithCondCode(psr, SubCondCode(x, y)))
  {
    hide WithCondCode, CondCode, AddTests, SubTests;
    var (f, g) := (AddTests(x, y), SubTests(x, y));
    CondCodeClears(psr, f.n, f.z, f.c, f.v);
    CondCodeClears(psr, g.n, g.z, g.c, g.v);
  }

  lemma ArithmeticKeepsSaturationIff(s: Machine, op: ArithmeticOp)
    ensures Saturated(ExecArithmetic(s, op).psr) <==> Saturated(s.psr) && !ManualSum(s, op).setFlags
  {
    hide Saturated, WithCondCode, AddCondCode, SubCondCode, Add32, Sub32, Unconditional, Not;
    match op
    case AddImm(_, rn, imm) => CodesClear(s.psr, s.regs[rn], imm);
    case AddImmS(_, rn, imm, _) => CodesClear(s.psr, s.regs[rn], imm);
    case AddReg(_, rn, rm) => CodesClear(s.psr, s.regs[rn], s.regs[rm]);
    case AddRegHigh(_, _) =>
    case AddSpImm(_, _) =>
    case SubImm(_, rn, imm) => CodesClear(s.psr, s.regs[rn], imm);
    case SubImmS(_, rn, imm, _) => CodesClear(s.psr, s.regs[rn], imm);
    case SubReg(_, rn, rm) => CodesClear(s.psr, s.regs[rn], s.regs[rm]);
    case SubSpImm(_) =>
    case CmpImm(rn, imm) => CodesClear(s.psr, s.regs[rn], imm);
    case CmpReg(rn, rm) => CodesClear(s.psr, s.regs[rn], s.regs[rm]);
  }

  lemma MovCodesKeep(psr: bv32, value: word, carry: bool)
    ensures Saturated(WithMovCode(psr, value)) == Saturated(psr) == Saturated(WithLslCode(psr, value, carry))
  {
  }

  lemma MoveKeepsSaturation(s: Machine, op: MoveOp)
    ensures Saturated(ExecMove(s, op).psr) == Saturated(s.psr)
  {
    hide Saturated, WithMovCode, WithLslCode, WordAnd, WordOr, WordXor, Wrap, Add32, LeadingZeros, Unconditional;
    var r := ExecMove(s, op).regs[MoveDest(op)];
    MovCodesKeep(s.psr, r, true);
    MovCodesKeep(s.psr, r, false);
  }

  /** No instruction but the saturating ones, which are not modelled, may change Q. A handler clears it
      exactly when Q was set and the handler sets all four condition flags. */
  lemma ExecKeepsSaturationIff(s: Machine, insn: Insn)
    ensures Saturated(Exec(s, insn).machine.psr) == Saturated(s.psr) <==>
      !(Saturated(s.psr) && SetsAllFlags(s, insn))
  {
    hide Saturated, ExecArithmetic, ExecMove, ExecBranch, ExecAccess, ExecMultiple, ManualSum, Entered, ReadOnlyKept;
    match insn
    case Arithmetic(op) => ArithmeticKeepsSaturationIff(s, op);
    case Move(op) => MoveKeepsSaturation(s, op);
    case Branching(op) => BranchKeeps(s, op);
    case Accessing(op) => AccessKeeps(s, op);
    case Multiple(op) => MultipleKeeps(s, op);
    case It(_, _) =>
    case NoEffect =>
  }

  /** The same for a step, with its bookkeeping in psr and with instructions that are skipped. */
  lemma StepKeepsSaturationIff(s: Machine, insn: Option<Insn>, length: nat)
    ensures Saturated(StepInsn(s, insn, length).psr) == Saturated(s.psr) <==>
      !(ShouldExec(s) && insn.Some? && Saturated(s.psr) && SetsAllFlags(s, insn.value))
  {
    StepPsr(s, insn, length);
    hide Exec, ShouldExec, Bookkeep, Saturated, SetsAllFlags, StepInsn;
    if insn.Some? { ExecKeepsSaturationIff(s, insn.value); }
    var e := if ShouldExec(s) && insn.Some? then Exec(s, insn.value) else Next(s);
    var itState := if e.shiftItState then e.machine.itState >> 2 else e.machine.itState;
    BookkeepKeepsSaturation(e.machine.psr, itState, e.machine.itCond);
  }

  lemma BookkeepKeepsSaturation(psr: bv32, itState: bv8, itCond: bv8)
    ensures Saturated(Bookkeep(psr, itState, itCond)) == Saturated(psr)
  {
    hide Bookkeep;
    BookkeepKeepsFlags(psr, itState, itCond);
    SaturationIsBit27(psr, Bookkeep(psr, itState, itCond));
  }

  lemma SaturationIsBit27(p: bv32, q: bv32)
    requires p & 0xf800_0000 == q & 0xf800_0000
    ensures Saturated(p) == Saturated(q)
  {
  }

  /** cmp r0, r0 clears Q whenever it is set, as it is after msr has set it. */
  lemma CompareLosesSaturation(s: Machine, length: nat)
    requires s.itState == 0 && Saturated(s.psr)
    ensures !Saturated(StepInsn(s, Some(Arithmetic(CmpReg(0, 0))), length).psr)
  {
    hide Saturated, StepInsn;
    StepKeepsSaturationIff(s, Some(Arithmetic(CmpReg(0, 0))), length);
  }

  // ----- the PC as an operand and as a target

  function ManualReg(s: Machine, r: reg): word {
    if r == PC then Add32(s.regs[PC], 4) else s.regs[r]
  }

  /** The registers after ADD (register), encoding T2: the PC reads as its address + 4, and writing it
      branches. */
  function ManualAddHigh(s: Machine, rdn: reg, rm: reg): seq<word> {
    var sum := Add32(ManualReg(s, rdn), ManualReg(s, rm));
    if rdn == PC then s.regs[PC := ClearBit0(sum)]
    else s.regs[rdn := sum][PC := Add32(s.regs[PC], 2)]
  }

  /** A small distance is seen after the wrap, and after bit 0 is cleared, unless it is 1. */
  lemma NearWordsDiffer(a: word, d: nat)
    requires 2 <= d < 8 && d % 2 == 0
    ensures Add32(a, d) != a && ClearBit0(Add32(a, d)) != a
  {
    assert Add32(a, d) == if a + d < 0x1_0000_0000 then a + d else a + d - 0x1_0000_0000;
  }

  lemma PcAsSource(s: Machine, rdn: reg)
    requires s.itState == 0 && rdn != PC
    ensures StepInsn(s, Some(Arithmetic(AddRegHigh(rdn, PC))), 2).regs != ManualAddHigh(s, rdn, PC)
  {
    hide Bookkeep, CondSatisfied, Wrap;
    AddHighStep(s, rdn, PC);
    var (x: int, pc: int) := (s.regs[rdn], s.regs[PC]);
    var written := StepInsn(s, Some(Arithmetic(AddRegHigh(rdn, PC))), 2).regs[rdn];
    assert written == Add32(x, pc) && ManualAddHigh(s, rdn, PC)[rdn] == Wrap(x + Wrap(pc + 4));
    WrapTwice(x, pc + 4);
    WrapTwice(x + pc, 4);
    assert x + (pc + 4) == x + pc + 4;
    NearWordsDiffer(written, 4);
  }

  lemma PcAsTarget(s: Machine, rm: reg)
    requires s.itState == 0
    ensures StepInsn(s, Some(Arithmetic(AddRegHigh(PC, rm))), 2).regs != ManualAddHigh(s, PC, rm)
  {
    hide Bookkeep, CondSatisfied, Wrap, ClearBit0;
    AddHighStep(s, PC, rm);
    var (pc: int, y: int) := (s.regs[PC], s.regs[rm]);
    var reached := Wrap(pc + y + 2);
    WrapTwice(pc + y, 2);
    assert StepInsn(s, Some(Arithmetic(AddRegHigh(PC, rm))), 2).regs[PC] == reached;
    if rm == PC {
      WrapTwice(pc + 4, pc + 4);
      WrapTwice(pc + y + 2, 6);
      assert pc + 4 + (pc + 4) == pc + y + 2 + 6;
      NearWordsDiffer(reached, 6);
    } else {
      WrapTwice(pc + 4, y);
      WrapTwice(pc + y + 2, 2);
      assert pc + 4 + y == pc + y + 2 + 2;
      NearWordsDiffer(reached, 2);
    }
  }

  /** A step of add_reg_T2 leaves the manual's registers exactly when neither operand is the PC. */
  lemma AddHighIsManualIff(s: Machine, rdn: reg, rm: reg)
    requires s.itState == 0
    ensures StepInsn(s, Some(Arithmetic(AddRegHigh(rdn, rm))), 2).regs == ManualAddHigh(s, rdn, rm) <==>
      rdn != PC && rm != PC
  {
    hide Wrap, StepInsn;
    if rdn == PC {
      PcAsTarget(s, rm);
    } else if rm == PC {
      PcAsSource(s, rdn);
    } else {
      AddHighStep(s, rdn, rm);
    }
  }

  lemma WrapTwice(x: int, y: int)
    ensures Wrap(Wrap(x) + y) == Wrap(x + y) == Wrap(Wrap(x) + Wrap(y)) == Wrap(x + Wrap(y))
  {
  }

  lemma AddHighStep(s: Machine, rdn: reg, rm: reg)
    requires s.itState == 0
    ensures var added := s.regs[rdn := Add32(s.regs[rdn], s.regs[rm])];
      StepInsn(s, Some(Arithmetic(AddRegHigh(rdn, rm))), 2).regs == added[PC := Add32(added[PC], 2)]
  {
    hide Bookkeep, CondSatisfied, Wrap;
  }

  /** The registers after MOV (register), encoding T1. */
  function ManualMovReg(s: Machine, rd: reg, rm: reg): seq<word> {
    if rd == PC then s.regs[PC := ClearBit0(ManualReg(s, rm))]
    else s.regs[rd := ManualReg(s, rm)][PC := Add32(s.regs[PC], 2)]
  }

  lemma MovRegStep(s: Machine, rd: reg, rm: reg)
    requires s.itState == 0
    ensures var moved := s.regs[rd := ManualReg(s, rm)];
      StepInsn(s, Some(Move(MovReg(rd, rm))), 2).regs == moved[PC := Add32(moved[PC], 2)]
  {
    hide Bookkeep, CondSatisfied, Wrap;
  }

  /** A step of mov_reg_T1 leaves the manual's registers exactly when its target is not the PC: written
      to, the PC is advanced behind the target. */
  lemma MovRegIsManualIff(s: Machine, rd: reg, rm: reg)
    requires s.itState == 0
    ensures StepInsn(s, Some(Move(MovReg(rd, rm))), 2).regs == ManualMovReg(s, rd, rm) <==> rd != PC
  {
    hide StepInsn, ManualReg, Add32, ClearBit0;
    MovRegStep(s, rd, rm);
    if rd == PC {
      var v := ManualReg(s, rm);
      AdvancedIsNotCleared(v, 2);
      assert StepInsn(s, Some(Move(MovReg(rd, rm))), 2).regs[PC] == Add32(v, 2);
      assert ManualMovReg(s, rd, rm)[PC] == ClearBit0(v);
    }
  }

  lemma AdvancedIsNotCleared(v: word, length: nat)
    requires length in {2, 4}
    ensures Add32(v, length) != ClearBit0(v)
  {
    assert Add32(v, length) == if v + length < 0x1_0000_0000 then v + length else v + length - 0x1_0000_0000;
  }

  /** The registers after LDR (immediate), whose loaded PC branches. */
  function ManualLoad(s: Machine, rt: reg, rn: reg, offset: word, length: nat): seq<word> {
    var v := Read32(s.mem, Add32(s.regs[rn], offset));
    if rt == PC then s.regs[PC := ClearBit0(v)] else s.regs[rt := v][PC := Add32(s.regs[PC], length)]
  }

  lemma LoadStep(s: Machine, rt: reg, rn: reg, offset: word, length: nat)
    requires s.itState == 0
    ensures var loaded := s.regs[rt := Read32(s.mem, Add32(s.regs[rn], offset))];
      StepInsn(s, Some(Accessing(Ldr(rt, rn, offset, 4))), length).regs == loaded[PC := Add32(loaded[PC], length)]
  {
    hide Bookkeep, CondSatisfied, Wrap, Read;
  }

  /** The same for a word load, in either length; with the PC as its base the manual has another
      instruction. */
  lemma LoadIsManualIff(s: Machine, rt: reg, rn: reg, offset: word, length: nat)
    requires s.itState == 0 && rn != PC && length in {2, 4}
    ensures StepInsn(s, Some(Accessing(Ldr(rt, rn, offset, 4))), length).regs == ManualLoad(s, rt, rn, offset, length)
      <==> rt != PC
  {
    hide StepInsn, Read32, Add32, ClearBit0;
    LoadStep(s, rt, rn, offset, length);
    if rt == PC {
      var v := Read32(s.mem, Add32(s.regs[rn], offset));
      AdvancedIsNotCleared(v, length);
      assert StepInsn(s, Some(Accessing(Ldr(rt, rn, offset, 4))), length).regs[PC] == Add32(v, length);
      assert ManualLoad(s, rt, rn, offset, length)[PC] == ClearBit0(v);
    }
  }

  /** The word that LDR (literal) loads: from the PC, read as its address + 4 and aligned, plus 4 * imm. */
  function ManualLiteral(s: Machine, imm: byte): word {
    var pc := Add32(s.regs[PC], 4);
    Read32(s.mem, Add32(pc - pc % 4, 4 * imm))
  }

  function ManualLoadLiteral(s: Machine, rt: reg, imm: byte): seq<word> {
    var v := ManualLiteral(s, imm);
    if rt == PC then s.regs[PC := ClearBit0(v)] else s.regs[rt := v][PC := Add32(s.regs[PC], 2)]
  }

  lemma LiteralAddress(pc: word, imm: byte)
    ensures Add32(pc - pc % 4, imm * 4 + 4) == Add32(Add32(pc, 4) - Add32(pc, 4) % 4, 4 * imm)
  {
    assert Add32(pc, 4) == if pc + 4 < 0x1_0000_0000 then pc + 4 else pc + 4 - 0x1_0000_0000;
  }

  lemma LoadLiteralStep(s: Machine, rt: reg, imm: byte)
    requires s.itState == 0
    ensures var loaded := s.regs[rt := ManualLiteral(s, imm)];
      StepInsn(s, Some(Accessing(LdrLit(rt, imm))), 2).regs ==
        if rt == PC then loaded else loaded[PC := Add32(loaded[PC], 2)]
  {
    hide Bookkeep, CondSatisfied, Wrap, Read;
    LiteralAddress(s.regs[PC], imm);
  }

  /** ldr_lit_T1 does branch; it leaves the manual's registers exactly when its target is not the PC or
      bit 0 of the loaded address is clear, which it does not clear itself. */
  lemma LoadLiteralIsManualIff(s: Machine, rt: reg, imm: byte)
    requires s.itState == 0
    ensures StepInsn(s, Some(Accessing(LdrLit(rt, imm))), 2).regs == ManualLoadLiteral(s, rt, imm) <==>
      rt != PC || ManualLiteral(s, imm) % 2 == 0
  {
    hide StepInsn, ManualLiteral, Add32;
    LoadLiteralStep(s, rt, imm);
    if rt == PC {
      var v := ManualLiteral(s, imm);
      assert StepInsn(s, Some(Accessing(LdrLit(rt, imm))), 2).regs[PC] == v;
      assert ManualLoadLiteral(s, rt, imm)[PC] == v - v % 2;
    }
  }
}

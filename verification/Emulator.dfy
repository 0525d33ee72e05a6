/** The emulator as the object the C code updates in place (impl_emulation.c, cpu_cm3.c), proved
    against the machine of module Cpu. */
module Emulator {
  import opened Bytes
  import opened Options
  import opened AddressSpace
  import opened Flags
  import opened ItBlock
  import opened Cpu
  import Bits

  class Emulator {
    const regs: array<word>
    var psr: bv32
    var insnCtr: word
    var itCond: bv8
    var itState: bv8
    const space: AddrSpace

    ghost function Footprint(): set<object>
      reads this, space
    {
      {this, regs, space} + space.Buffers()
    }

    ghost predicate Valid()
      reads this, Footprint()
    {
      && regs.Length == 16 && space.Valid()
      && regs as object !in space.Buffers() && this as object !in space.Buffers() && space as object !in space.Buffers()
    }

    ghost function State(): Machine
      requires Valid()
      reads this, Footprint()
    {
      RawMachine(regs[..], psr, insnCtr, itCond, itState, space.Contents())
    }

    constructor (space: AddrSpace)
      requires space.Valid() && space as object !in space.Buffers()
      ensures Valid() && fresh(regs) && this.space == space
      ensures State().mem == old(space.Contents())
    {
      regs := new word[16];
      this.space := space;
      psr, insnCtr, itCond, itState := 0, 0, 0, 0;
    }

    // ----- register and flag updates

    method WriteReg(r: reg, v: word)
      requires Valid()
      modifies regs
      ensures Valid() && State() == SetReg(old(State()), r, v)
    {
      regs[r] := v;
    }

    method SetCondCode(always: bool, code: bv32)
      requires Valid()
      modifies this`psr
      ensures Valid() && State() == SetCode(old(State()), always, code)
    {
      if always || itState & 3 == IT_NONE { psr := WithCondCode(psr, code); }
    }

    method SetMovCondCode(always: bool, value: word)
      requires Valid()
      modifies this`psr
      ensures Valid() && State() == SetMovCode(old(State()), always, value)
    {
      hide WithMovCode;
      if always || itState & 3 == IT_NONE {
        psr := WithMovCode(psr, value);
      }
    }

    method SetLslCondCode(always: bool, value: word, carry: bool)
      requires Valid()
      modifies this`psr
      ensures Valid() && State() == SetLslCode(old(State()), always, value, carry)
    {
      hide WithLslCode;
      if always || itState & 3 == IT_NONE {
        psr := WithLslCode(psr, value, carry);
      }
    }

    method JumpTo(target: word) returns (advancePc: bool)
      requires Valid()
      modifies regs
      ensures Valid() && Effect(State(), advancePc, true) == Jump(old(State()), target)
    {
      WriteReg(PC, target);
      advancePc := false;
    }

    method StoreReg(r: reg, addr: word, size: AccessSize)
      requires Valid()
      modifies space.Buffers()
      ensures Valid() && space.slices == old(space.slices) && regs[..] == old(regs[..])
      ensures State() == old(State()).(mem := Write(old(State().mem), addr, size, old(State().regs)[r]))
    {
      hide Write;
      space.WriteN(addr, size, regs[r]);
    }

    // ----- loops

    method StoreMultiple(base: reg, list: RegList, incrementAfter: bool, writeback: bool)
      requires Valid()
      modifies regs, space.Buffers()
      ensures Valid() && space.slices == old(space.slices)
      ensures State() == StoreRegisters(old(State()), base, list, incrementAfter, writeback)
    {
      hide StoreUp, StoreDown, Write, Add32, Sub32, WellFormed, ReadOnlyKept, SetReg;
      ghost var s := State();
      StoresKeep(s.mem, s.regs[base], s.regs, list);
      var addr := regs[base];
      assert addr == s.regs[base];
      hide State, Valid;
      var regNo: int := if incrementAfter then 0 else 15;
      for i := 0 to 16
        invariant Valid() && space.slices == old(space.slices)
        invariant State() == s.(mem := State().mem)
        invariant regNo == if incrementAfter then i else 15 - i
        invariant incrementAfter ==>
          StoreUp(s.mem, s.regs[base], s.regs, list, 0) == StoreUp(State().mem, addr, s.regs, list, i)
        invariant !incrementAfter ==>
          StoreDown(s.mem, s.regs[base], s.regs, list, 16) == StoreDown(State().mem, addr, s.regs, list, 16 - i)
      {
        StoreStep(State().mem, addr, s.regs, list, i);
        if regNo in list {
          if !incrementAfter { addr := Sub32(addr, 4); }
          StoreReg(regNo, addr, 4);
          if incrementAfter { addr := Add32(addr, 4); }
        }
        regNo := regNo + if incrementAfter then 1 else -1;
      }
      StoreEnds(State().mem, addr, s.regs, list);
      if writeback { WriteReg(base, addr); }
    }

    method LoadMultiple(base: reg, list: RegList, writeback: bool, advance: bool) returns (advancePc: bool)
      requires Valid()
      modifies regs
      ensures Valid()
      ensures Effect(State(), advancePc, true) == LoadRegisters(old(State()), base, list, writeback, advance)
    {
      hide LoadUp, Read, Add32;
      ghost var s := State();
      var addr := regs[base];
      advancePc := advance;
      for i := 0 to 16
        invariant Valid() && State() == s.(regs := regs[..])
        invariant advancePc == (advance && !(PC in list && i == 16))
        invariant LoadUp(s.mem, s.regs[base], s.regs, list, 0) == LoadUp(s.mem, addr, regs[..], list, i)
      {
        LoadStep(s.mem, addr, regs[..], list, i);
        if i in list {
          ReadFits(s.mem, addr, 4);
          var v := space.ReadN(addr, 4);
          if i != PC {
            WriteReg(i, v);
          } else {
            advancePc := false;
            WriteReg(i, ClearBit0(v));
          }
          addr := Add32(addr, 4);
        }
      }
      LoadEnds(s.mem, addr, regs[..], list);
      if writeback { WriteReg(base, addr); }
    }

    method EnterIt(firstcond: bv8, mask: bv8)
      requires Valid()
      modifies this`itCond, this`itState
      ensures Valid()
      ensures State() == old(State()).(itCond := firstcond, itState := Entered(old(itState), firstcond, mask))
    {
      hide Pushed, MaskBit;
      var len, bit := 3, 0;
      while bit < 3
        invariant 0 <= bit <= 3 && len == 3 - bit
        invariant forall j :: 0 <= j < bit ==> !MaskHas(mask, j)
      {
        if MaskHas(mask, bit) { break; }
        len := len - 1;
        bit := bit + 1;
      }
      LowestMaskBit(mask, bit);
      itCond := firstcond;
      var match_ := firstcond & 1;
      var i := len - 1;
      while i >= 0
        invariant -1 <= i < len
        invariant Valid() && State() == old(State()).(itCond := firstcond, itState := itState)
        invariant PushSlots(old(itState), match_, mask, len - 1) == PushSlots(itState, match_, mask, i)
      {
        itState := Pushed(itState, MaskBit(mask, i) == match_);
        i := i - 1;
      }
      itState := Pushed(itState, true);
    }

    method CountLeadingZeros(rd: reg, rm: reg)
      requires Valid()
      modifies regs
      ensures Valid() && State() == SetReg(old(State()), rd, LeadingZeros(old(regs[rm]), 0x8000_0000, 0))
    {
      var mask := 0x8000_0000;
      var leadingZeros := 32;
      for i := 0 to 32
        invariant Valid() && State() == old(State()) && leadingZeros == 32
        invariant mask >= 0 && LeadingZeros(regs[rm], 0x8000_0000, 0) == LeadingZeros(regs[rm], mask, i)
      {
        if Bits.And(mask, regs[rm]) != 0 {
          leadingZeros := i;
          break;
        }
        mask := mask / 2;
      }
      WriteReg(rd, leadingZeros);
    }

    // ----- handlers

    method ExecuteArithmetic(op: ArithmeticOp)
      requires Valid()
      modifies this`psr, regs
      ensures Valid() && State() == ExecArithmetic(old(State()), op)
    {
      hide AddCondCode, SubCondCode, Add32, Sub32, SetCode, SetReg;
      match op
      case AddImm(rd, rn, imm) =>
        var sum := Add32(regs[rn], imm);
        SetCondCode(false, AddCondCode(regs[rn], imm));
        WriteReg(rd, sum);
      case AddImmS(rd, rn, imm, setFlags) =>
        var sum := Add32(regs[rn], imm);
        if setFlags { SetCondCode(true, AddCondCode(regs[rn], imm)); }
        WriteReg(rd, sum);
      case AddReg(rd, rn, rm) =>
        var sum := Add32(regs[rn], regs[rm]);
        SetCondCode(false, AddCondCode(regs[rn], regs[rm]));
        WriteReg(rd, sum);
      case AddRegHigh(rdn, rm) =>
        WriteReg(rdn, Add32(regs[rdn], regs[rm]));
      case AddSpImm(rd, imm) =>
        WriteReg(rd, Add32(regs[SP], imm * 4));
      case SubImm(rd, rn, imm) =>
        var difference := Sub32(regs[rn], imm);
        SetCondCode(false, SubCondCode(regs[rn], imm));
        WriteReg(rd, difference);
      case SubImmS(rd, rn, imm, setFlags) =>
        var difference := Sub32(regs[rn], imm);
        if setFlags { SetCondCode(true, SubCondCode(regs[rn], imm)); }
        WriteReg(rd, difference);
      case SubReg(rd, rn, rm) =>
        var difference := Sub32(regs[rn], regs[rm]);
        SetCondCode(false, SubCondCode(regs[rn], regs[rm]));
        WriteReg(rd, difference);
      case SubSpImm(imm) =>
        WriteReg(SP, Sub32(regs[SP], imm * 4));
      case CmpImm(rn, imm) =>
        SetCondCode(true, SubCondCode(regs[rn], imm));
      case CmpReg(rn, rm) =>
        SetCondCode(true, SubCondCode(regs[rn], regs[rm]));
    }

    method ExecuteMove(op: MoveOp)
      requires Valid()
      modifies this`psr, regs
      ensures Valid() && State() == ExecMove(old(State()), op)
    {
      hide SetMovCode, SetLslCode, SetReg, WordXor, WordOr, WordAnd, Add32, Wrap;
      match op
      case MovImm(rd, imm) =>
        WriteReg(rd, imm);
        SetMovCondCode(false, imm);
      case MovImmS(rd, imm, setFlags) =>
        WriteReg(rd, imm);
        if setFlags { SetMovCondCode(true, imm); }
      case MovReg(rd, rm) =>
        WriteReg(rd, if rm == PC then Add32(regs[rm], 4) else regs[rm]);
      case MovRegT2(rd, rm) =>
        WriteReg(rd, regs[rm]);
      case EorReg(rdn, rm) =>
        var v := WordXor(regs[rdn], regs[rm]);
        WriteReg(rdn, v);
        SetMovCondCode(false, v);
      case OrrReg(rdn, rm) =>
        var v := WordOr(regs[rdn], regs[rm]);
        WriteReg(rdn, v);
        SetMovCondCode(false, v);
      case AndReg(rdn, rm) =>
        var v := WordAnd(regs[rdn], regs[rm]);
        WriteReg(rdn, v);
        SetMovCondCode(true, v);
      case LslImm(rd, rm, shift) =>
        var shifted := regs[rm] * Bits.Pow2(shift);
        WriteReg(rd, Wrap(shifted));
        SetLslCondCode(false, Wrap(shifted), shifted / 0x1_0000_0000 % 2 == 1);
      case Clz(rd, rm) =>
        CountLeadingZeros(rd, rm);
    }

    method BranchIf(taken: bool, target: word) returns (advancePc: bool)
      requires Valid()
      modifies regs
      ensures Valid()
      ensures Effect(State(), advancePc, true) == if taken then Jump(old(State()), target) else Next(old(State()))
    {
      advancePc := true;
      if taken { advancePc := JumpTo(target); }
    }

    method LinkAndBranch(imm: int) returns (advancePc: bool)
      requires Valid()
      modifies regs
      ensures Valid() && Effect(State(), advancePc, true) == ExecBranch(old(State()), Bl(imm))
    {
      hide Add32, SetBit0;
      var target := Add32(regs[PC], 2 * imm + 4);
      WriteReg(LR, SetBit0(Add32(regs[PC], 4)));
      advancePc := JumpTo(target);
    }

    method ExecuteBranch(op: BranchOp) returns (advancePc: bool)
      requires Valid()
      modifies regs
      ensures Valid() && Effect(State(), advancePc, true) == ExecBranch(old(State()), op)
    {
      ghost var s := State();
      assert s.regs == regs[..] && s.psr == psr;
      hide Add32, RelativeBranchTarget, CondSatisfied, Jump, ClearBit0, State, Valid;
      match op
      case BranchCond8(imm, cond) =>
        advancePc := BranchIf(CondSatisfied(psr, cond), RelativeBranchTarget(regs[PC], imm, 8));
      case Branch11(imm) => advancePc := JumpTo(RelativeBranchTarget(regs[PC], imm, 11));
      case BranchCond(imm, cond) => advancePc := BranchIf(CondSatisfied(psr, cond), Add32(regs[PC], 2 * imm + 4));
      case Branch(imm) => advancePc := JumpTo(Add32(regs[PC], 2 * imm + 4));
      case Bl(imm) => advancePc := LinkAndBranch(imm);
      case Bx(rm) => advancePc := JumpTo(ClearBit0(regs[rm]));
      case Cbz(rn, imm, nonzero) =>
        advancePc := BranchIf((regs[rn] == 0) != nonzero, RelativeBranchTarget(regs[PC], imm, 7));
    }

    method Load(rt: reg, rn: reg, offset: word, size: AccessSize)
      requires Valid()
      modifies regs
      ensures Valid() && Next(State()) == ExecAccess(old(State()), Ldr(rt, rn, offset, size))
    {
      hide Add32, Read, SetReg;
      var target := Add32(regs[rn], offset);
      ReadFits(space.Contents(), target, size);
      var v := space.ReadN(target, size);
      WriteReg(rt, v);
    }

    method LoadLiteral(rt: reg, imm: byte) returns (advancePc: bool)
      requires Valid()
      modifies regs
      ensures Valid() && Effect(State(), advancePc, true) == ExecAccess(old(State()), LdrLit(rt, imm))
    {
      hide Add32, Read, SetReg;
      var target := Add32(regs[PC] - regs[PC] % 4, imm * 4 + 4);
      ReadFits(space.Contents(), target, 4);
      var v := space.ReadN(target, 4);
      WriteReg(rt, v);
      advancePc := rt != PC;
    }

    method Store(rt: reg, rn: reg, offset: word, size: AccessSize)
      requires Valid()
      modifies space.Buffers()
      ensures Valid() && space.slices == old(space.slices)
      ensures Next(State()) == ExecAccess(old(State()), Str(rt, rn, offset, size))
    {
      hide Add32, Write;
      StoreReg(rt, Add32(regs[rn], offset), size);
    }

    method ExecuteAccess(op: AccessOp) returns (advancePc: bool)
      requires Valid()
      modifies regs, space.Buffers()
      ensures Valid() && space.slices == old(space.slices)
      ensures Effect(State(), advancePc, true) == ExecAccess(old(State()), op)
    {
      hide ExecAccess, State, Valid;
      advancePc := true;
      match op
      case Ldr(rt, rn, offset, size) => Load(rt, rn, offset, size);
      case LdrLit(rt, imm) => advancePc := LoadLiteral(rt, imm);
      case Str(rt, rn, offset, size) => Store(rt, rn, offset, size);
    }

    method ExecuteMultiple(op: MultipleOp) returns (advancePc: bool)
      requires Valid()
      modifies regs, space.Buffers()
      ensures Valid() && space.slices == old(space.slices)
      ensures Effect(State(), advancePc, true) == ExecMultiple(old(State()), op)
    {
      hide StoreRegisters, LoadRegisters, WithBit, State, Valid;
      advancePc := true;
      match op
      case Push(list, m) => StoreMultiple(SP, WithBit(list, m, LR), false, true);
      case Pop(list, p, m) => advancePc := LoadMultiple(SP, WithBit(WithBit(list, p, PC), m, LR), true, !p);
      case LdmT1(rn, list) => advancePc := LoadMultiple(rn, list, rn !in list, true);
      case LdmT2(rn, list, p, m, w) => advancePc := LoadMultiple(rn, WithBit(WithBit(list, p, PC), m, LR), w, !p);
      case Stm(rn, list, m, w) => StoreMultiple(rn, WithBit(list, m, LR), true, w);
      case Stmdb(rn, list, m, w) => StoreMultiple(rn, WithBit(list, m, LR), false, w);
    }

    method Execute(insn: Insn) returns (advancePc: bool, shiftItState: bool)
      requires Valid()
      modifies this, regs, space.Buffers()
      ensures Valid() && space.slices == old(space.slices) && insnCtr == old(insnCtr)
      ensures Effect(State(), advancePc, shiftItState) == Exec(old(State()), insn)
    {
      hide ExecArithmetic, ExecMove, ExecBranch, ExecAccess, ExecMultiple, Entered;
      advancePc, shiftItState := true, true;
      match insn
      case Arithmetic(op) => ExecuteArithmetic(op);
      case Move(op) => ExecuteMove(op);
      case Branching(op) => advancePc := ExecuteBranch(op);
      case Accessing(op) => advancePc := ExecuteAccess(op);
      case Multiple(op) => advancePc := ExecuteMultiple(op);
      case It(firstcond, mask) =>
        EnterIt(firstcond, mask);
        shiftItState := false;
      case NoEffect =>
    }

    // ----- stepping

    method FetchInsnWord(pc: word) returns (w: word)
      requires Valid()
      ensures w == FetchWord(space.Contents(), pc)
    {
      ReadFits(space.Contents(), pc, 2);
      ReadFits(space.Contents(), Add32(pc, 2), 2);
      var high := space.ReadN(pc, 2);
      var low := space.ReadN(Add32(pc, 2), 2);
      w := 0x1_0000 * high + low;
    }

    /** `cpu_single_step`, for any chain of decoder arms. */
    method SingleStep(arms: seq<Arm>)
      requires Valid()
      modifies this, regs, space.Buffers()
      ensures Valid() && space.slices == old(space.slices)
      ensures State() == Step(arms, old(State()))
    {
      hide Exec, Finish, FetchWord, Decode, ShouldExec;
      var insnWord := FetchInsnWord(regs[PC]);
      var shouldExecute := ShouldExecNext();
      var (length, insn) := Decode(arms, insnWord);
      var advancePc, shiftItState := true, true;
      if shouldExecute && insn.Some? { advancePc, shiftItState := Execute(insn.value); }
      FinishStep(advancePc, shiftItState, length);
    }

    /** `emulator_should_exec_next_insn` */
    method ShouldExecNext() returns (execute: bool)
      requires Valid()
      ensures execute == ShouldExec(State())
    {
      hide CondSatisfied;
      var state := itState & 3;
      execute := state == IT_NONE
        || (state == IT_THEN && CondSatisfied(psr, itCond))
        || (state == IT_ELSE && CondSatisfied(psr, itCond ^ 1));
    }

    method FinishStep(advancePc: bool, shiftItState: bool, length: nat)
      requires Valid()
      modifies this, regs
      ensures Valid() && State() == Finish(Effect(old(State()), advancePc, shiftItState), length)
    {
      hide Bookkeep, Add32;
      if advancePc { regs[PC] := Add32(regs[PC], length); }
      insnCtr := Add32(insnCtr, 1);
      if shiftItState { itState := itState >> 2; }
      psr := Bookkeep(psr, itState, itCond);
    }

    /** The first half of `cpu_reset`. */
    method ClearRegisters()
      requires Valid()
      modifies this, regs
      ensures Valid() && itState == old(itState) && itCond == old(itCond) && psr == 0x173 && insnCtr == 0
      ensures regs[..] == seq(16, _ => 0 as word)[LR := 0xffff_ffff]
      ensures space.Contents() == old(space.Contents())
    {
      forall i | 0 <= i < 16 { regs[i] := 0; }
      psr := 0x173;
      insnCtr := 0;
      regs[LR] := 0xffff_ffff;
    }

    /** `cpu_reset` */
    method ResetCpu(ivtBase: word)
      requires Valid()
      modifies this, regs
      ensures Valid() && State() == Reset(old(State()), ivtBase)
    {
      hide Read, Add32, ClearBit0;
      ClearRegisters();
      ReadFits(space.Contents(), ivtBase, 4);
      ReadFits(space.Contents(), Add32(ivtBase, 4), 4);
      var sp := space.ReadN(ivtBase, 4);
      WriteReg(SP, sp);
      var pc := space.ReadN(Add32(ivtBase, 4), 4);
      WriteReg(PC, ClearBit0(pc));
    }
  }

  /** `mask & (1 << i)` */
  predicate MaskHas(mask: bv8, i: int) {
    if i == 0 then mask & 1 != 0 else if i == 1 then mask & 2 != 0 else mask & 4 != 0
  }

  lemma LowestMaskBit(mask: bv8, bit: int)
    requires 0 <= bit <= 3 && (forall j :: 0 <= j < bit ==> !MaskHas(mask, j)) && (bit < 3 ==> MaskHas(mask, bit))
    ensures SlotsAfterFirst(mask) == 3 - bit
  {
    assert bit > 0 ==> !MaskHas(mask, 0);
    assert bit > 1 ==> !MaskHas(mask, 1);
    assert bit > 2 ==> !MaskHas(mask, 2);
  }

  lemma StoreStep(mem: Memory, addr: word, regs: seq<word>, list: RegList, i: nat)
    requires WellFormed(mem) && |regs| == 16 && i < 16
    ensures StoreUp(mem, addr, regs, list, i) ==
      if i in list then
        WriteKeeps(mem, addr, 4, regs[i]);
        StoreUp(Write(mem, addr, 4, regs[i]), Add32(addr, 4), regs, list, i + 1)
      else StoreUp(mem, addr, regs, list, i + 1)
    ensures StoreDown(mem, addr, regs, list, 16 - i) ==
      if 15 - i in list then
        WriteKeeps(mem, Sub32(addr, 4), 4, regs[15 - i]);
        StoreDown(Write(mem, Sub32(addr, 4), 4, regs[15 - i]), Sub32(addr, 4), regs, list, 15 - i)
      else StoreDown(mem, addr, regs, list, 15 - i)
  {
  }

  lemma StoreEnds(mem: Memory, addr: word, regs: seq<word>, list: RegList)
    requires WellFormed(mem) && |regs| == 16
    ensures StoreUp(mem, addr, regs, list, 16) == (mem, addr) == StoreDown(mem, addr, regs, list, 0)
  {
  }

  lemma LoadStep(mem: Memory, addr: word, regs: seq<word>, list: RegList, i: nat)
    requires WellFormed(mem) && |regs| == 16 && i < 16
    ensures LoadUp(mem, addr, regs, list, i) ==
      if i in list then
        var v := Read32(mem, addr);
        LoadUp(mem, Add32(addr, 4), regs[i := if i == PC then ClearBit0(v) else v], list, i + 1)
      else LoadUp(mem, addr, regs, list, i + 1)
  {
  }

  lemma LoadEnds(mem: Memory, addr: word, regs: seq<word>, list: RegList)
    requires WellFormed(mem) && |regs| == 16
    ensures LoadUp(mem, addr, regs, list, 16) == (regs, addr)
  {
  }
}

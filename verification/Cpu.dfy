/** The CPU as a value: a representative part of the instruction handlers (impl_emulation.c) and the
    step that fetches, decodes and executes (cpu_cm3.c). */
module Cpu {
  import opened Bytes
  import opened Options
  import opened AddressSpace
  import opened Flags
  import opened ItBlock
  import Bits

  type reg = r: int | 0 <= r < 16

  const SP: reg := 13
  const LR: reg := 14
  const PC: reg := 15

  /** A 16-bit register mask, as the set of its bits. */
  type RegList = set<reg>

  datatype RawMachine = RawMachine(regs: seq<word>, psr: bv32, insnCtr: word, itCond: bv8, itState: bv8, mem: Memory)

  ghost predicate IsMachine(m: RawMachine) {
    |m.regs| == 16 && WellFormed(m.mem)
  }

  type Machine = m: RawMachine | IsMachine(m) ghost witness RawMachine(seq(16, _ => 0), 0, 0, 0, 0, [])

  type AccessSize = n: nat | n in {1, 2, 4} witness 4

  // Decoded instructions, with the operands their handlers receive.

  datatype ArithmeticOp =
    | AddImm(rd: reg, rn: reg, imm: byte)                      // add_imm_T1, add_imm_T2
    | AddImmS(rd: reg, rn: reg, wimm: word, setFlags: bool)    // add_imm_T3
    | AddReg(rd: reg, rn: reg, rm: reg)                        // add_reg_T1
    | AddRegHigh(rdn: reg, rm: reg)                            // add_reg_T2
    | AddSpImm(rd: reg, imm: byte)                             // add_SPi_T1, add_SPi_T2
    | SubImm(rd: reg, rn: reg, imm: byte)                      // sub_imm_T1, sub_imm_T2
    | SubImmS(rd: reg, rn: reg, wimm: word, setFlags: bool)    // sub_imm_T3
    | SubReg(rd: reg, rn: reg, rm: reg)                        // sub_reg_T1
    | SubSpImm(imm: byte)                                      // sub_SPimm_T1
    | CmpImm(rn: reg, wimm: word)                              // cmp_imm_T1, cmp_imm_T2
    | CmpReg(rn: reg, rm: reg)                                 // cmp_reg_T1, cmp_reg_T2

  datatype MoveOp =
    | MovImm(rd: reg, imm: byte)                               // mov_imm_T1
    | MovImmS(rd: reg, wimm: word, setFlags: bool)             // mov_imm_T2, mov_imm_T3
    | MovReg(rd: reg, rm: reg)                                 // mov_reg_T1
    | MovRegT2(rd: reg, rm: reg)                               // mov_reg_T2
    | EorReg(rdn: reg, rm: reg)                                // eor_reg_T1
    | OrrReg(rdn: reg, rm: reg)                                // orr_reg_T1
    | AndReg(rdn: reg, rm: reg)                                // and_reg_T1
    | LslImm(rd: reg, rm: reg, shift: byte)                    // lsl_imm_T1
    | Clz(rd: reg, rm: reg)                                    // clz_T1

  datatype BranchOp =
    | BranchCond8(imm: byte, cond: bv8)                        // b_T1
    | Branch11(uimm: nat)                                      // b_T2
    | BranchCond(simm: int, cond: bv8)                         // b_T3
    | Branch(simm: int)                                        // b_T4
    | Bl(simm: int)                                            // bl_T1
    | Bx(rm: reg)                                              // bx_T1
    | Cbz(rn: reg, imm: byte, op: bool)                        // cbnz_T1

  datatype AccessOp =
    | Ldr(rt: reg, rn: reg, offset: word, size: AccessSize)    // ldr, ldrh and ldrb with an immediate
    | LdrLit(rt: reg, imm: byte)                               // ldr_lit_T1
    | Str(rt: reg, rn: reg, offset: word, size: AccessSize)    // str, strh and strb with an immediate

  datatype MultipleOp =
    | Push(list: RegList, m: bool)                             // push_T1, push_T2
    | Pop(list: RegList, p: bool, m: bool)                     // pop_T1, pop_T2
    | LdmT1(rn: reg, list: RegList)                            // ldm_T1
    | LdmT2(rn: reg, list: RegList, p: bool, m: bool, w: bool) // ldm_T2
    | Stm(rn: reg, list: RegList, m: bool, w: bool)            // stm_T1, stm_T2
    | Stmdb(rn: reg, list: RegList, m: bool, w: bool)          // stmdb_T1

  datatype Insn =
    | Arithmetic(arithmetic: ArithmeticOp)
    | Move(move: MoveOp)
    | Branching(branch: BranchOp)
    | Accessing(access: AccessOp)
    | Multiple(multiple: MultipleOp)
    | It(firstcond: bv8, mask: bv8)                            // it_T1
    | NoEffect                                                 // nop, and handlers that only report an error

  /** The machine after a handler, and the two context flags that handlers clear. */
  datatype Effect = Effect(machine: Machine, advancePc: bool, shiftItState: bool)

  // ----- helpers of the handlers

  function SetReg(s: Machine, r: reg, v: word): Machine {
    s.(regs := s.regs[r := v])
  }

  function Next(s: Machine): Effect {
    Effect(s, true, true)
  }

  function Jump(s: Machine, target: word): Effect {
    Effect(SetReg(s, PC, target), false, true)
  }

  function ClearBit0(x: word): word {
    x - x % 2
  }

  function SetBit0(x: word): word {
    x - x % 2 + 1
  }

  lemma WordFits(x: word, y: word)
    ensures Bits.And(x, y) < 0x1_0000_0000 && Bits.Or(x, y) < 0x1_0000_0000 && Bits.Xor(x, y) < 0x1_0000_0000
  {
    hide Bits.Pow2, Bits.And, Bits.Or, Bits.Xor;
    Bits.BytePowers();
    Bits.BitwiseFits(x, y, 32);
  }

  function WordAnd(x: word, y: word): word {
    WordFits(x, y);
    Bits.And(x, y)
  }

  function WordOr(x: word, y: word): word {
    WordFits(x, y);
    Bits.Or(x, y)
  }

  function WordXor(x: word, y: word): word {
    WordFits(x, y);
    Bits.Xor(x, y)
  }

  function Unconditional(s: Machine): bool {
    s.itState & 3 == IT_NONE
  }

  /** `setAddCondCode` and `setSubCondCode`, with the code they computed */
  function SetCode(s: Machine, always: bool, code: bv32): Machine {
    if always || Unconditional(s) then s.(psr := WithCondCode(s.psr, code)) else s
  }

  function WithMovCode(psr: bv32, value: word): bv32 {
    (psr & !(FLAG_NEGATIVE | FLAG_ZERO)) | MovCondCode(value)
  }

  function WithLslCode(psr: bv32, value: word, carry: bool): bv32 {
    (psr & !(FLAG_NEGATIVE | FLAG_ZERO | FLAG_CARRY)) | (MovCondCode(value) | (if carry then FLAG_CARRY else 0))
  }

  function SetMovCode(s: Machine, always: bool, value: word): Machine {
    if always || Unconditional(s) then s.(psr := WithMovCode(s.psr, value)) else s
  }

  function SetLslCode(s: Machine, always: bool, value: word, carry: bool): Machine {
    if always || Unconditional(s) then s.(psr := WithLslCode(s.psr, value, carry)) else s
  }

  /** `relative_branch_target` */
  function RelativeBranchTarget(pc: word, imm: nat, immBits: nat): word
    requires immBits > 0
  {
    if imm >= Bits.Pow2(immBits - 1) then Wrap(pc - (4 + 2 * (Bits.Pow2(immBits) - imm)) + 8)
    else Wrap(pc + 2 * imm + 4)
  }

  /** The loop of clz_T1: the first i, counted from the top, whose bit is set. */
  function LeadingZeros(x: word, mask: nat, i: nat): (n: nat)
    requires i <= 32
    ensures n <= 32
    decreases 32 - i
  {
    if i == 32 then 32 else if Bits.And(mask, x) != 0 then i else LeadingZeros(x, mask / 2, i + 1)
  }

  /** storeRegisters with increment after: registers r and up, the lowest at the lowest address. */
  function StoreUp(mem: Memory, address: word, regs: seq<word>, list: RegList, r: nat): (Memory, word)
    requires WellFormed(mem) && |regs| == 16 && r <= 16
    decreases 16 - r
  {
    if r == 16 then (mem, address)
    else if r in list then
      WriteKeeps(mem, address, 4, regs[r]);
      StoreUp(Write(mem, address, 4, regs[r]), Add32(address, 4), regs, list, r + 1)
    else StoreUp(mem, address, regs, list, r + 1)
  }

  /** storeRegisters with decrement before: registers below r, the highest first. */
  function StoreDown(mem: Memory, address: word, regs: seq<word>, list: RegList, r: nat): (Memory, word)
    requires WellFormed(mem) && |regs| == 16 && r <= 16
    decreases r
  {
    if r == 0 then (mem, address)
    else if r - 1 in list then
      WriteKeeps(mem, Sub32(address, 4), 4, regs[r - 1]);
      StoreDown(Write(mem, Sub32(address, 4), 4, regs[r - 1]), Sub32(address, 4), regs, list, r - 1)
    else StoreDown(mem, address, regs, list, r - 1)
  }

  function StoreRegisters(s: Machine, base: reg, list: RegList, incrementAfter: bool, writeback: bool): Machine {
    StoresKeep(s.mem, s.regs[base], s.regs, list);
    var (mem, address) :=
      if incrementAfter then StoreUp(s.mem, s.regs[base], s.regs, list, 0)
      else StoreDown(s.mem, s.regs[base], s.regs, list, 16);
    var stored := s.(mem := mem);
    if writeback then SetReg(stored, base, address) else stored
  }

  lemma {:induction false} StoreUpKeeps(mem: Memory, address: word, regs: seq<word>, list: RegList, r: nat)
    requires WellFormed(mem) && |regs| == 16 && r <= 16
    ensures var n := StoreUp(mem, address, regs, list, r).0; WellFormed(n) && ReadOnlyKept(mem, n)
    decreases 16 - r
  {
    if r < 16 {
      if r in list {
        WriteKeeps(mem, address, 4, regs[r]);
        StoreUpKeeps(Write(mem, address, 4, regs[r]), Add32(address, 4), regs, list, r + 1);
      } else {
        StoreUpKeeps(mem, address, regs, list, r + 1);
      }
    }
  }

  lemma {:induction false} StoreDownKeeps(mem: Memory, address: word, regs: seq<word>, list: RegList, r: nat)
    requires WellFormed(mem) && |regs| == 16 && r <= 16
    ensures var n := StoreDown(mem, address, regs, list, r).0; WellFormed(n) && ReadOnlyKept(mem, n)
    decreases r
  {
    if r > 0 {
      if r - 1 in list {
        WriteKeeps(mem, Sub32(address, 4), 4, regs[r - 1]);
        StoreDownKeeps(Write(mem, Sub32(address, 4), 4, regs[r - 1]), Sub32(address, 4), regs, list, r - 1);
      } else {
        StoreDownKeeps(mem, address, regs, list, r - 1);
      }
    }
  }

  lemma StoresKeep(mem: Memory, address: word, regs: seq<word>, list: RegList)
    requires WellFormed(mem) && |regs| == 16
    ensures var n := StoreUp(mem, address, regs, list, 0).0; WellFormed(n) && ReadOnlyKept(mem, n)
    ensures var n := StoreDown(mem, address, regs, list, 16).0; WellFormed(n) && ReadOnlyKept(mem, n)
  {
    StoreUpKeeps(mem, address, regs, list, 0);
    StoreDownKeeps(mem, address, regs, list, 16);
  }

  function Read32(mem: Memory, address: word): (v: word)
    requires WellFormed(mem)
  {
    ReadFits(mem, address, 4);
    Read(mem, address, 4)
  }

  lemma ReadFits(mem: Memory, address: word, length: nat)
    requires WellFormed(mem) && length <= 4
    ensures Read(mem, address, length) < 0x1_0000_0000
    ensures length <= 2 ==> Read(mem, address, length) < 0x1_0000
  {
    if Target(mem, address, length).Some? {
      var i := Target(mem, address, length).value;
      TargetInside(mem, address, length);
      FromLittleEndianWord(mem[i].data[address - mem[i].begin..][..length]);
    }
  }

  /** The loop of loadRegisters over registers r and up. */
  function LoadUp(mem: Memory, address: word, regs: seq<word>, list: RegList, r: nat): (res: (seq<word>, word))
    requires WellFormed(mem) && |regs| == 16 && r <= 16
    ensures |res.0| == 16
    decreases 16 - r
  {
    if r == 16 then (regs, address)
    else if r in list then
      var v := Read32(mem, address);
      LoadUp(mem, Add32(address, 4), regs[r := if r == PC then ClearBit0(v) else v], list, r + 1)
    else LoadUp(mem, address, regs, list, r + 1)
  }

  /** `advance` is the flag before; loading the PC clears it. */
  function LoadRegisters(s: Machine, base: reg, list: RegList, writeback: bool, advance: bool): Effect {
    var (regs, address) := LoadUp(s.mem, s.regs[base], s.regs, list, 0);
    var loaded := s.(regs := regs);
    Effect(if writeback then SetReg(loaded, base, address) else loaded, advance && PC !in list, true)
  }

  // ----- the handlers

  function ExecArithmetic(s: Machine, op: ArithmeticOp): Machine {
    match op
    case AddImm(rd, rn, imm) =>
      SetReg(SetCode(s, false, AddCondCode(s.regs[rn], imm)), rd, Add32(s.regs[rn], imm))
    case AddImmS(rd, rn, imm, setFlags) =>
      SetReg(if setFlags then SetCode(s, true, AddCondCode(s.regs[rn], imm)) else s, rd, Add32(s.regs[rn], imm))
    case AddReg(rd, rn, rm) =>
      SetReg(SetCode(s, false, AddCondCode(s.regs[rn], s.regs[rm])), rd, Add32(s.regs[rn], s.regs[rm]))
    case AddRegHigh(rdn, rm) => SetReg(s, rdn, Add32(s.regs[rdn], s.regs[rm]))
    case AddSpImm(rd, imm) => SetReg(s, rd, Add32(s.regs[SP], imm * 4))
    case SubImm(rd, rn, imm) =>
      SetReg(SetCode(s, false, SubCondCode(s.regs[rn], imm)), rd, Sub32(s.regs[rn], imm))
    case SubImmS(rd, rn, imm, setFlags) =>
      SetReg(if setFlags then SetCode(s, true, SubCondCode(s.regs[rn], imm)) else s, rd, Sub32(s.regs[rn], imm))
    case SubReg(rd, rn, rm) =>
      SetReg(SetCode(s, false, SubCondCode(s.regs[rn], s.regs[rm])), rd, Sub32(s.regs[rn], s.regs[rm]))
    case SubSpImm(imm) => SetReg(s, SP, Sub32(s.regs[SP], imm * 4))
    case CmpImm(rn, imm) => SetCode(s, true, SubCondCode(s.regs[rn], imm))
    case CmpReg(rn, rm) => SetCode(s, true, SubCondCode(s.regs[rn], s.regs[rm]))
  }

  function ExecMove(s: Machine, op: MoveOp): Machine {
    match op
    case MovImm(rd, imm) => SetMovCode(SetReg(s, rd, imm), false, imm)
    case MovImmS(rd, imm, setFlags) =>
      if setFlags then SetMovCode(SetReg(s, rd, imm), true, imm) else SetReg(s, rd, imm)
    case MovReg(rd, rm) => SetReg(s, rd, if rm == PC then Add32(s.regs[rm], 4) else s.regs[rm])
    case MovRegT2(rd, rm) => SetReg(s, rd, s.regs[rm])
    case EorReg(rdn, rm) =>
      var v := WordXor(s.regs[rdn], s.regs[rm]);
      SetMovCode(SetReg(s, rdn, v), false, v)
    case OrrReg(rdn, rm) =>
      var v := WordOr(s.regs[rdn], s.regs[rm]);
      SetMovCode(SetReg(s, rdn, v), false, v)
    case AndReg(rdn, rm) =>
      var v := WordAnd(s.regs[rdn], s.regs[rm]);
      SetMovCode(SetReg(s, rdn, v), true, v)
    case LslImm(rd, rm, shift) =>
      var shifted := s.regs[rm] * Bits.Pow2(shift);
      SetLslCode(SetReg(s, rd, Wrap(shifted)), false, Wrap(shifted), shifted / 0x1_0000_0000 % 2 == 1)
    case Clz(rd, rm) => SetReg(s, rd, LeadingZeros(s.regs[rm], 0x8000_0000, 0))
  }

  function WithBit(list: RegList, bit: bool, r: reg): RegList {
    if bit then list + {r} else list
  }

  function ExecBranch(s: Machine, op: BranchOp): Effect {
    match op
    case BranchCond8(imm, cond) =>
      if CondSatisfied(s.psr, cond) then Jump(s, RelativeBranchTarget(s.regs[PC], imm, 8)) else Next(s)
    case Branch11(imm) => Jump(s, RelativeBranchTarget(s.regs[PC], imm, 11))
    case BranchCond(imm, cond) =>
      if CondSatisfied(s.psr, cond) then Jump(s, Add32(s.regs[PC], 2 * imm + 4)) else Next(s)
    case Branch(imm) => Jump(s, Add32(s.regs[PC], 2 * imm + 4))
    case Bl(imm) => Jump(SetReg(s, LR, SetBit0(Add32(s.regs[PC], 4))), Add32(s.regs[PC], 2 * imm + 4))
    case Bx(rm) => Jump(s, ClearBit0(s.regs[rm]))
    case Cbz(rn, imm, op) =>
      if (s.regs[rn] == 0) != op then Jump(s, RelativeBranchTarget(s.regs[PC], imm, 7)) else Next(s)
  }

  function ExecAccess(s: Machine, op: AccessOp): Effect {
    match op
    case Ldr(rt, rn, offset, size) =>
      ReadFits(s.mem, Add32(s.regs[rn], offset), size);
      Next(SetReg(s, rt, Read(s.mem, Add32(s.regs[rn], offset), size)))
    case LdrLit(rt, imm) =>
      var base := s.regs[PC] - s.regs[PC] % 4;
      Effect(SetReg(s, rt, Read32(s.mem, Add32(base, imm * 4 + 4))), rt != PC, true)
    case Str(rt, rn, offset, size) =>
      WriteKeeps(s.mem, Add32(s.regs[rn], offset), size, s.regs[rt]);
      Next(s.(mem := Write(s.mem, Add32(s.regs[rn], offset), size, s.regs[rt])))
  }

  function ExecMultiple(s: Machine, op: MultipleOp): Effect {
    match op
    case Push(list, m) => Next(StoreRegisters(s, SP, WithBit(list, m, LR), false, true))
    case Pop(list, p, m) => LoadRegisters(s, SP, WithBit(WithBit(list, p, PC), m, LR), true, !p)
    case LdmT1(rn, list) => LoadRegisters(s, rn, list, rn !in list, true)
    case LdmT2(rn, list, p, m, w) => LoadRegisters(s, rn, WithBit(WithBit(list, p, PC), m, LR), w, !p)
    case Stm(rn, list, m, w) => Next(StoreRegisters(s, rn, WithBit(list, m, LR), true, w))
    case Stmdb(rn, list, m, w) => Next(StoreRegisters(s, rn, WithBit(list, m, LR), false, w))
  }

  function EnterBlock(s: Machine, firstcond: bv8, mask: bv8): Effect {
    Effect(s.(itCond := firstcond, itState := Entered(s.itState, firstcond, mask)), true, false)
  }

  /** The handler call. */
  function Exec(s: Machine, insn: Insn): Effect {
    match insn
    case Arithmetic(op) => Next(ExecArithmetic(s, op))
    case Move(op) => Next(ExecMove(s, op))
    case Branching(op) => ExecBranch(s, op)
    case Accessing(op) => ExecAccess(s, op)
    case Multiple(op) => ExecMultiple(s, op)
    case It(firstcond, mask) => EnterBlock(s, firstcond, mask)
    case NoEffect => Next(s)
  }

  // ----- fetch, decode, step

  /** One arm of decode_insn: its test, the length in bytes, and the handler call it makes. */
  datatype Arm = Arm(mask: nat, cmp: nat, length: nat, decode: word -> Insn)

  /** The chain of arms: the first whose test passes; nothing, with length 0, when none does. */
  function Decode(arms: seq<Arm>, opcode: word): (nat, Option<Insn>) {
    if arms == [] then (0, None)
    else if Bits.And(opcode, arms[0].mask) == arms[0].cmp then (arms[0].length, Some(arms[0].decode(opcode)))
    else Decode(arms[1..], opcode)
  }

  /** `addrspace_read_insn_word` */
  function FetchWord(mem: Memory, pc: word): word
    requires WellFormed(mem)
  {
    ReadFits(mem, pc, 2);
    ReadFits(mem, Add32(pc, 2), 2);
    0x1_0000 * Read(mem, pc, 2) + Read(mem, Add32(pc, 2), 2)
  }

  /** `emulator_should_exec_next_insn` */
  function ShouldExec(s: Machine): bool {
    var state := s.itState & 3;
    || state == IT_NONE
    || (state == IT_THEN && CondSatisfied(s.psr, s.itCond))
    || (state == IT_ELSE && CondSatisfied(s.psr, s.itCond ^ 1))
  }

  /** The IT bits cpu_single_step keeps in psr. */
  function Bookkeep(psr: bv32, itState: bv8, itCond: bv8): bv32 {
    var cleared := psr & !0xff00;
    if itState == 0 then cleared | 0x0100
    else
      var marked := cleared | (0x0900 | ((itCond as bv32) << 12));
      if itState == 5 then marked | 0x400 else marked
  }

  /** What follows the handler: the PC, the counter, the queue and the bookkeeping. */
  function Finish(e: Effect, length: nat): Machine {
    var t := if e.advancePc then SetReg(e.machine, PC, Add32(e.machine.regs[PC], length)) else e.machine;
    var itState := if e.shiftItState then t.itState >> 2 else t.itState;
    t.(insnCtr := Add32(t.insnCtr, 1), itState := itState, psr := Bookkeep(t.psr, itState, t.itCond))
  }

  /** One step with the instruction already decoded. */
  function StepInsn(s: Machine, insn: Option<Insn>, length: nat): Machine {
    Finish(if ShouldExec(s) && insn.Some? then Exec(s, insn.value) else Next(s), length)
  }

  /** `cpu_single_step` */
  function Step(arms: seq<Arm>, s: Machine): Machine {
    var (length, insn) := Decode(arms, FetchWord(s.mem, s.regs[PC]));
    StepInsn(s, insn, length)
  }

  /** `cpu_reset`: the IT state is left alone. */
  function Reset(s: Machine, ivtBase: word): Machine {
    var regs := seq(16, _ => 0 as word);
    var sp := Read32(s.mem, ivtBase);
    var pc := ClearBit0(Read32(s.mem, Add32(ivtBase, 4)));
    s.(regs := regs[LR := 0xffff_ffff][SP := sp][PC := pc], psr := 0x173, insnCtr := 0)
  }
}

/** A sample of the arms of decode_insn (decoder.c): their tests, their lengths and the fields they cut
    out of the opcode. */
module Arms {
  import opened Bytes
  import opened Options
  import opened Cpu
  import Bits
  import Decoder

  // ----- fields

  /** A register field of three bits. */
  function LowReg(opcode: word, lo: nat): reg {
    Bits.FieldIs(opcode, lo, 3);
    Bits.SmallPowers();
    Bits.FieldAt(opcode, lo, 3)
  }

  function ShiftField(opcode: word): byte {
    Bits.FieldIs(opcode, 22, 5);
    Bits.SmallPowers();
    Bits.FieldAt(opcode, 22, 5)
  }

  function FirstCond(opcode: word): (c: nat)
    ensures c < 16
  {
    Bits.FieldIs(opcode, 20, 4);
    Bits.SmallPowers();
    Bits.FieldAt(opcode, 20, 4)
  }

  function ItMask(opcode: word): (m: nat)
    ensures m < 16
  {
    Bits.FieldIs(opcode, 16, 4);
    Bits.SmallPowers();
    Bits.FieldAt(opcode, 16, 4)
  }

  /** A field as a register list: the low registers whose bits are set. */
  function LowList(field: nat): RegList {
    set r: reg | r < 8 && Bits.Bit(field, r)
  }

  function Flag(opcode: word, bit: nat): bool {
    Bits.FieldAt(opcode, bit, 1) != 0
  }

  /** The signed distance of b_T4 and bl_T1, in units of two bytes. */
  function Distance(opcode: word): int {
    Signed(AsWord(Decoder.BranchImmediate(opcode as bv32)))
  }

  /** The same distance as the manual defines it. */
  function ManualDistance(opcode: word): int {
    Signed(AsWord(Decoder.ArchitecturalBranch(opcode as bv32)))
  }

  // ----- arms, in the order of the chain

  const POP_T1: Arm := Arm(0xfe00_0000, 0xbc00_0000, 2, (w: word) =>
    Multiple(Pop(LowList(Bits.FieldAt(w, 16, 8)), Flag(w, 24), false)))

  const PUSH_T1: Arm := Arm(0xfe00_0000, 0xb400_0000, 2, (w: word) =>
    Multiple(Push(LowList(Bits.FieldAt(w, 16, 8)), Flag(w, 24))))

  const MOV_REG_T2: Arm := Arm(0xffc0_0000, 0, 2, (w: word) => Move(MovRegT2(LowReg(w, 16), LowReg(w, 19))))

  const LSL_IMM_T1: Arm := Arm(0xf800_0000, 0, 2, (w: word) =>
    Move(LslImm(LowReg(w, 16), LowReg(w, 19), ShiftField(w))))

  const IT_T1: Arm := Arm(0xff00_0000, 0xbf00_0000, 2, (w: word) => It(FirstCond(w) as bv8, ItMask(w) as bv8))

  /** The tests of nop, yield, wfe, wfi and sev, which stand before it_T1. */
  const HINT_MASK := 0xffff_0000

  function HintCmp(h: nat): nat {
    0xbf00_0000 + 0x10_0000 * h
  }

  const B_T4: Arm := Arm(0xf800_d000, 0xf000_9000, 4, (w: word) => Branching(Branch(Distance(w))))

  const BL_T1: Arm := Arm(0xf800_d000, 0xf000_d000, 4, (w: word) => Branching(Bl(Distance(w))))

  /** Arm k is the first of the chain whose test the opcode passes. */
  ghost predicate FirstPassing(arms: seq<Arm>, k: nat, opcode: word) {
    && k < |arms| && Bits.And(opcode, arms[k].mask) == arms[k].cmp
    && forall i :: 0 <= i < k ==> Bits.And(opcode, arms[i].mask) != arms[i].cmp
  }

  lemma {:induction false} DecodesFirstPassing(arms: seq<Arm>, k: nat, opcode: word)
    requires FirstPassing(arms, k, opcode)
    ensures Decode(arms, opcode) == (arms[k].length, Some(arms[k].decode(opcode)))
  {
    hide Bits.And;
    if k > 0 { DecodesFirstPassing(arms[1..], k - 1, opcode); }
  }

  lemma {:induction false} NonePassing(arms: seq<Arm>, opcode: word)
    requires forall i :: 0 <= i < |arms| ==> Bits.And(opcode, arms[i].mask) != arms[i].cmp
    ensures Decode(arms, opcode) == (0, None)
  {
    hide Bits.And;
    if arms != [] { NonePassing(arms[1..], opcode); }
  }

  // ----- mov_reg_T2 before lsl_imm_T1

  lemma TestsOfMovAndLsl(opcode: word)
    ensures Bits.And(opcode, 0xffc0_0000) == opcode / 0x40_0000 * 0x40_0000
    ensures Bits.And(opcode, 0xf800_0000) == opcode / 0x800_0000 * 0x800_0000
    ensures ShiftField(opcode) == opcode / 0x40_0000 % 32
  {
    hide Bits.And, Bits.Mask, Bits.Pow2, Bits.FieldAt;
    TopPowers();
    Bits.SmallPowers();
    Bits.AndMask(opcode, 22, 10);
    Bits.FieldIs(opcode, 22, 10);
    Bits.AndMask(opcode, 27, 5);
    Bits.FieldIs(opcode, 27, 5);
    Bits.FieldIs(opcode, 22, 5);
  }

  lemma TopPowers()
    ensures Bits.Pow2(16) == 0x1_0000 && Bits.Pow2(19) == 0x8_0000
    ensures Bits.Pow2(22) == 0x40_0000 && Bits.Pow2(27) == 0x800_0000
  {
    hide Bits.Pow2;
    Bits.SmallPowers();
    Bits.BytePowers();
    Bits.FourPowers(3);
    Bits.FourPowers(7);
    Bits.FourPowers(11);
    Bits.FourPowers(15);
    Bits.FourPowers(19);
    Bits.FourPowers(23);
    Bits.FourPowers(10);
    Bits.FourPowers(14);
    Bits.FourPowers(18);
  }

  /** mov_reg_T2 takes exactly the opcodes of lsl_imm_T1 whose shift is 0. */
  lemma MovTakesShiftZero(opcode: word)
    ensures Bits.And(opcode, MOV_REG_T2.mask) == MOV_REG_T2.cmp <==>
      Bits.And(opcode, LSL_IMM_T1.mask) == LSL_IMM_T1.cmp && ShiftField(opcode) == 0
    ensures ShiftField(opcode) < 32
  {
    hide Bits.And, ShiftField;
    TestsOfMovAndLsl(opcode);
    assert opcode / 0x800_0000 == opcode / 0x40_0000 / 32;
  }

  /** In a chain with mov_reg_T2 before it, lsl_imm_T1 only ever shifts by 1 to 31. */
  lemma LslShiftsByOneToThirtyOne(arms: seq<Arm>, j: nat, k: nat, opcode: word)
    requires j < k && FirstPassing(arms, k, opcode)
    requires arms[j].mask == MOV_REG_T2.mask && arms[j].cmp == MOV_REG_T2.cmp && arms[k] == LSL_IMM_T1
    ensures Decode(arms, opcode).1 == Some(Move(LslImm(LowReg(opcode, 16), LowReg(opcode, 19), ShiftField(opcode))))
    ensures 1 <= ShiftField(opcode) <= 31
  {
    hide Bits.And, ShiftField, LowReg;
    DecodesFirstPassing(arms, k, opcode);
    MovTakesShiftZero(opcode);
  }

  // ----- the hints before it_T1

  lemma TestsOfItAndHints(opcode: word)
    ensures Bits.And(opcode, 0xff00_0000) == opcode / 0x100_0000 * 0x100_0000
    ensures Bits.And(opcode, HINT_MASK) == opcode / 0x1_0000 * 0x1_0000
    ensures FirstCond(opcode) == opcode / 0x10_0000 % 16 && ItMask(opcode) == opcode / 0x1_0000 % 16
  {
    hide Bits.And, Bits.Mask, Bits.Pow2, Bits.FieldAt;
    Bits.BytePowers();
    Bits.SmallPowers();
    Bits.FourPowers(16);
    Bits.AndMask(opcode, 24, 8);
    Bits.FieldIs(opcode, 24, 8);
    Bits.AndMask(opcode, 16, 16);
    Bits.FieldIs(opcode, 16, 16);
    Bits.FieldIs(opcode, 20, 4);
    Bits.FieldIs(opcode, 16, 4);
  }

  /** Hint h takes exactly the opcode of it_T1 with the first condition h and mask 0. */
  lemma HintTakes(opcode: word, h: nat)
    requires h < 16
    ensures Bits.And(opcode, HINT_MASK) == HintCmp(h) <==>
      Bits.And(opcode, IT_T1.mask) == IT_T1.cmp && FirstCond(opcode) == h && ItMask(opcode) == 0
  {
    hide Bits.And, FirstCond, ItMask;
    TestsOfItAndHints(opcode);
    var half := opcode / 0x1_0000;
    assert opcode / 0x100_0000 == half / 256 && opcode / 0x10_0000 == half / 16;
    SplitHalf(half, h);
  }

  lemma SplitHalf(half: nat, h: nat)
    requires h < 16
    ensures half == 0xbf00 + 16 * h <==> half / 256 == 0xbf && half / 16 % 16 == h && half % 16 == 0
  {
  }

  /** Behind the five hints, it_T1 with mask 0 is decoded with first conditions of 5 and more, which the
      manual has as hints without effect. */
  lemma ItMaskZeroIsHint(arms: seq<Arm>, k: nat, opcode: word)
    requires FirstPassing(arms, k, opcode) && arms[k] == IT_T1
    requires forall h :: 0 <= h < 5 ==> exists j :: 0 <= j < k && arms[j].mask == HINT_MASK && arms[j].cmp == HintCmp(h)
    ensures Decode(arms, opcode) == (2, Some(It(FirstCond(opcode) as bv8, ItMask(opcode) as bv8)))
    ensures ItMask(opcode) == 0 ==> FirstCond(opcode) >= 5
  {
    hide Bits.And, FirstCond, ItMask, HintCmp;
    DecodesFirstPassing(arms, k, opcode);
    if FirstCond(opcode) < 5 { HintTakes(opcode, FirstCond(opcode)); }
  }

  /** The branch and the call are decoded with the distance of the manual. */
  lemma BranchesGoTheManualDistance(arms: seq<Arm>, k: nat, opcode: word)
    requires FirstPassing(arms, k, opcode) && arms[k] in {B_T4, BL_T1}
    ensures var distance := ManualDistance(opcode);
      Decode(arms, opcode) == (4, Some(Branching(if arms[k] == BL_T1 then Bl(distance) else Branch(distance))))
  {
    hide Bits.And, Decoder.BranchImmediate, Decoder.ArchitecturalBranch, AsWord;
    DecodesFirstPassing(arms, k, opcode);
    Decoder.BranchImmediateIsArchitectural(opcode as bv32);
  }
}

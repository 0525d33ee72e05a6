/** Immediates of a sample of the generated decoder (decoder.c), against their architectural meaning. */
module Decoder {

  // ----- the helpers, as the C code computes them

  function ThumbSignExtend20(imm: bv32): bv32 {
    if imm & 0x8_0000 != 0 then imm | !0xf_ffff else imm
  }

  function ThumbSignExtend24(imm: bv32): bv32 {
    if imm & 0x80_0000 != 0 then imm | !0xff_ffff else imm
  }

  function ThumbSignExtend24Eor(imm: bv32): bv32 {
    var first := imm ^ (0x20_0000 ^ ((imm & 0x80_0000) >> 2));
    var second := first ^ (0x40_0000 ^ ((first & 0x80_0000) >> 1));
    ThumbSignExtend24(second)
  }

  // The fields of both branches, moved to their places.

  function Imm11(opcode: bv32): bv32 { opcode & 0x7ff }

  function ShortImm6(opcode: bv32): bv32 { (opcode & 0x3f_0000) >> 5 }

  function ShortS(opcode: bv32): bv32 { (opcode & 0x400_0000) >> 7 }

  function ShortJ1(opcode: bv32): bv32 { (opcode & 0x2000) << 4 }

  function ShortJ2(opcode: bv32): bv32 { (opcode & 0x800) << 7 }

  function LongImm10(opcode: bv32): bv32 { (opcode & 0x3ff_0000) >> 5 }

  function LongS(opcode: bv32): bv32 { (opcode & 0x400_0000) >> 3 }

  function LongJ1(opcode: bv32): bv32 { (opcode & 0x2000) << 9 }

  function LongJ2(opcode: bv32): bv32 { (opcode & 0x800) << 10 }

  /** The immediate of the conditional branch b_T3 before its extension. */
  function ShortFields(opcode: bv32): bv32 {
    (((ShortS(opcode) | ShortImm6(opcode)) | Imm11(opcode)) | ShortJ1(opcode)) | ShortJ2(opcode)
  }

  /** The same for the branches b_T4 and bl_T1. */
  function LongFields(opcode: bv32): bv32 {
    (((LongImm10(opcode) | LongS(opcode)) | Imm11(opcode)) | LongJ1(opcode)) | LongJ2(opcode)
  }

  function ConditionalImmediate(opcode: bv32): bv32 {
    ThumbSignExtend20(ShortFields(opcode))
  }

  function BranchImmediate(opcode: bv32): bv32 {
    ThumbSignExtend24Eor(LongFields(opcode))
  }

  // ----- the ARMv7-M Architecture Reference Manual

  predicate S(opcode: bv32) { opcode & 0x400_0000 != 0 }

  predicate J1(opcode: bv32) { opcode & 0x2000 != 0 }

  predicate J2(opcode: bv32) { opcode & 0x800 != 0 }

  /** A number of the form s:b1:b0:low, with the sign extended above s. */
  function Signed(s: bool, sign: bv32, b1: bool, bit1: bv32, b0: bool, bit0: bv32, low: bv32): bv32 {
    (if s then sign else 0) | ((if b1 then bit1 else 0) | ((if b0 then bit0 else 0) | low))
  }

  /** imm10:imm11 */
  function LongLow(opcode: bv32): bv32 {
    (((opcode >> 16) & 0x3ff) << 11) | (opcode & 0x7ff)
  }

  /** imm6:imm11 */
  function ShortLow(opcode: bv32): bv32 {
    (((opcode >> 16) & 0x3f) << 11) | (opcode & 0x7ff)
  }

  /** Section A7.7, encoding T4 of B and T1 of BL: SignExtend(S:I1:I2:imm10:imm11) with
      I1 = NOT(J1 EOR S) and I2 = NOT(J2 EOR S), in units of two bytes. */
  function ArchitecturalBranch(opcode: bv32): bv32 {
    var i1 := !(J1(opcode) != S(opcode));
    var i2 := !(J2(opcode) != S(opcode));
    Signed(S(opcode), 0xff80_0000, i1, 0x40_0000, i2, 0x20_0000, LongLow(opcode))
  }

  /** Section A7.7, encoding T3 of B: SignExtend(S:J2:J1:imm6:imm11). */
  function ArchitecturalConditional(opcode: bv32): bv32 {
    Signed(S(opcode), 0xfff8_0000, J2(opcode), 0x4_0000, J1(opcode), 0x2_0000, ShortLow(opcode))
  }

  // ----- agreement

  lemma LongParts(opcode: bv32)
    ensures LongS(opcode) == if S(opcode) then 0x80_0000 else 0
    ensures LongJ1(opcode) == if J1(opcode) then 0x40_0000 else 0
    ensures LongJ2(opcode) == if J2(opcode) then 0x20_0000 else 0
    ensures LongImm10(opcode) | Imm11(opcode) == LongLow(opcode)
  {
    LongShifts(opcode);
  }

  lemma LongShifts(opcode: bv32)
    ensures (opcode & 0x400_0000) >> 3 == if opcode & 0x400_0000 != 0 then 0x80_0000 else 0
    ensures (opcode & 0x2000) << 9 == if opcode & 0x2000 != 0 then 0x40_0000 else 0
    ensures (opcode & 0x800) << 10 == if opcode & 0x800 != 0 then 0x20_0000 else 0
    ensures (opcode & 0x3ff_0000) >> 5 == ((opcode >> 16) & 0x3ff) << 11
  {
  }

  lemma LongLowBits(opcode: bv32)
    ensures ((((opcode >> 16) & 0x3ff) << 11) | (opcode & 0x7ff)) & !0x1f_ffff == 0
  {
  }

  lemma LongOrder(a: bv32, b: bv32, c: bv32, d: bv32, e: bv32)
    ensures (((a | b) | c) | d) | e == b | (d | (e | (a | c)))
  {
  }

  lemma ShortOrder(a: bv32, b: bv32, c: bv32, d: bv32, e: bv32)
    ensures (((a | b) | c) | d) | e == a | (e | (d | (b | c)))
  {
  }

  /** The code packs the fields without moving the sign. */
  lemma LongFieldsPacked(opcode: bv32)
    ensures LongFields(opcode) ==
      Signed(S(opcode), 0x80_0000, J1(opcode), 0x40_0000, J2(opcode), 0x20_0000, LongLow(opcode))
  {
    hide LongImm10, LongS, Imm11, LongJ1, LongJ2, LongLow, S, J1, J2;
    LongParts(opcode);
    LongOrder(LongImm10(opcode), LongS(opcode), Imm11(opcode), LongJ1(opcode), LongJ2(opcode));
  }

  /** With the sign set, both exclusive ors change nothing. */
  lemma EorWithSign(x: bv32)
    requires x & 0x80_0000 != 0
    ensures x ^ (0x20_0000 ^ ((x & 0x80_0000) >> 2)) == x
    ensures x ^ (0x40_0000 ^ ((x & 0x80_0000) >> 1)) == x
  {
  }

  /** Without it, they flip their bit. */
  lemma EorWithoutSign(x: bv32)
    requires x & 0x80_0000 == 0
    ensures x ^ (0x20_0000 ^ ((x & 0x80_0000) >> 2)) == x ^ 0x20_0000
    ensures x ^ (0x40_0000 ^ ((x & 0x80_0000) >> 1)) == x ^ 0x40_0000
    ensures (x ^ 0x20_0000) & 0x80_0000 == 0 && ((x ^ 0x20_0000) ^ 0x40_0000) & 0x80_0000 == 0
  {
  }

  lemma EorIs(x: bv32)
    ensures ThumbSignExtend24Eor(x) == if x & 0x80_0000 != 0 then x | !0xff_ffff else (x ^ 0x20_0000) ^ 0x40_0000
  {
    if x & 0x80_0000 != 0 {
      EorWithSign(x);
    } else {
      EorWithoutSign(x);
      EorWithoutSign(x ^ 0x20_0000);
    }
  }

  lemma WithSign(b1: bv32, b0: bv32, low: bv32)
    ensures (0x80_0000 | (b1 | (b0 | low))) & 0x80_0000 != 0
    ensures (0x80_0000 | (b1 | (b0 | low))) | !0xff_ffff == 0xff80_0000 | (b1 | (b0 | low))
  {
  }

  lemma WithoutSign(b1: bv32, b0: bv32, low: bv32)
    requires low & !0x1f_ffff == 0 && b1 & !0x40_0000 == 0 && b0 & !0x20_0000 == 0
    ensures (0 | (b1 | (b0 | low))) & 0x80_0000 == 0
    ensures ((0 | (b1 | (b0 | low))) ^ 0x20_0000) ^ 0x40_0000 == 0 | ((b1 ^ 0x40_0000) | ((b0 ^ 0x20_0000) | low))
  {
  }

  /** Any fields with the sign set: exclusive or and extension give the architectural number. */
  lemma EorOfNegative(j1: bool, j2: bool, low: bv32)
    ensures ThumbSignExtend24Eor(Signed(true, 0x80_0000, j1, 0x40_0000, j2, 0x20_0000, low)) ==
      Signed(true, 0xff80_0000, j1, 0x40_0000, j2, 0x20_0000, low)
  {
    hide ThumbSignExtend24Eor;
    EorIs(Signed(true, 0x80_0000, j1, 0x40_0000, j2, 0x20_0000, low));
    WithSign(if j1 then 0x40_0000 else 0, if j2 then 0x20_0000 else 0, low);
  }

  /** And with the sign clear. */
  lemma EorOfPositive(j1: bool, j2: bool, low: bv32)
    requires low & !0x1f_ffff == 0
    ensures ThumbSignExtend24Eor(Signed(false, 0x80_0000, j1, 0x40_0000, j2, 0x20_0000, low)) ==
      Signed(false, 0xff80_0000, !j1, 0x40_0000, !j2, 0x20_0000, low)
  {
    hide ThumbSignExtend24Eor;
    EorIs(Signed(false, 0x80_0000, j1, 0x40_0000, j2, 0x20_0000, low));
    WithoutSign(if j1 then 0x40_0000 else 0, if j2 then 0x20_0000 else 0, low);
  }

  /** Every bl and long branch jumps by the architectural distance. */
  lemma BranchImmediateIsArchitectural(opcode: bv32)
    ensures BranchImmediate(opcode) == ArchitecturalBranch(opcode)
  {
    LongLowBits(opcode);
    LowOf(opcode);
    hide LongFields, ThumbSignExtend24Eor, Signed, LongLow, S, J1, J2;
    LongFieldsPacked(opcode);
    if S(opcode) {
      EorOfNegative(J1(opcode), J2(opcode), LongLow(opcode));
    } else {
      EorOfPositive(J1(opcode), J2(opcode), LongLow(opcode));
    }
  }

  lemma LowOf(opcode: bv32)
    ensures LongLow(opcode) == (((opcode >> 16) & 0x3ff) << 11) | (opcode & 0x7ff)
    ensures ShortLow(opcode) == (((opcode >> 16) & 0x3f) << 11) | (opcode & 0x7ff)
  {
  }

  lemma ShortParts(opcode: bv32)
    ensures ShortS(opcode) == if S(opcode) then 0x8_0000 else 0
    ensures ShortJ1(opcode) == if J1(opcode) then 0x2_0000 else 0
    ensures ShortJ2(opcode) == if J2(opcode) then 0x4_0000 else 0
    ensures ShortImm6(opcode) | Imm11(opcode) == ShortLow(opcode)
  {
    ShortShifts(opcode);
  }

  lemma ShortShifts(opcode: bv32)
    ensures (opcode & 0x400_0000) >> 7 == if opcode & 0x400_0000 != 0 then 0x8_0000 else 0
    ensures (opcode & 0x2000) << 4 == if opcode & 0x2000 != 0 then 0x2_0000 else 0
    ensures (opcode & 0x800) << 7 == if opcode & 0x800 != 0 then 0x4_0000 else 0
    ensures (opcode & 0x3f_0000) >> 5 == ((opcode >> 16) & 0x3f) << 11
  {
  }

  lemma ShortFieldsPacked(opcode: bv32)
    ensures ShortFields(opcode) ==
      Signed(S(opcode), 0x8_0000, J2(opcode), 0x4_0000, J1(opcode), 0x2_0000, ShortLow(opcode))
  {
    hide ShortImm6, ShortS, Imm11, ShortJ1, ShortJ2, ShortLow, S, J1, J2;
    ShortParts(opcode);
    ShortOrder(ShortS(opcode), ShortImm6(opcode), Imm11(opcode), ShortJ1(opcode), ShortJ2(opcode));
  }

  lemma ShortLowBits(opcode: bv32)
    ensures ((((opcode >> 16) & 0x3f) << 11) | (opcode & 0x7ff)) & !0x1_ffff == 0
  {
  }

  lemma ExtendShort(b1: bv32, b0: bv32, low: bv32)
    requires low & !0x1_ffff == 0 && b1 & !0x4_0000 == 0 && b0 & !0x2_0000 == 0
    ensures (0x8_0000 | (b1 | (b0 | low))) & 0x8_0000 != 0
    ensures (0x8_0000 | (b1 | (b0 | low))) | !0xf_ffff == 0xfff8_0000 | (b1 | (b0 | low))
    ensures (0 | (b1 | (b0 | low))) & 0x8_0000 == 0
  {
  }

  lemma ExtendIs(x: bv32)
    ensures ThumbSignExtend20(x) == if x & 0x8_0000 != 0 then x | !0xf_ffff else x
  {
  }

  lemma ExtendNegative(j2: bool, j1: bool, low: bv32)
    requires low & !0x1_ffff == 0
    ensures ThumbSignExtend20(Signed(true, 0x8_0000, j2, 0x4_0000, j1, 0x2_0000, low)) ==
      Signed(true, 0xfff8_0000, j2, 0x4_0000, j1, 0x2_0000, low)
  {
    hide ThumbSignExtend20;
    ExtendIs(Signed(true, 0x8_0000, j2, 0x4_0000, j1, 0x2_0000, low));
    ExtendShort(if j2 then 0x4_0000 else 0, if j1 then 0x2_0000 else 0, low);
  }

  lemma ExtendPositive(j2: bool, j1: bool, low: bv32)
    requires low & !0x1_ffff == 0
    ensures ThumbSignExtend20(Signed(false, 0x8_0000, j2, 0x4_0000, j1, 0x2_0000, low)) ==
      Signed(false, 0xfff8_0000, j2, 0x4_0000, j1, 0x2_0000, low)
  {
    hide ThumbSignExtend20;
    ExtendIs(Signed(false, 0x8_0000, j2, 0x4_0000, j1, 0x2_0000, low));
    ExtendShort(if j2 then 0x4_0000 else 0, if j1 then 0x2_0000 else 0, low);
  }

  /** And every conditional one. */
  lemma ConditionalImmediateIsArchitectural(opcode: bv32)
    ensures ConditionalImmediate(opcode) == ArchitecturalConditional(opcode)
  {
    ShortLowBits(opcode);
    LowOf(opcode);
    hide ShortFields, ThumbSignExtend20, Signed, ShortLow, S, J1, J2;
    ShortFieldsPacked(opcode);
    if S(opcode) {
      ExtendNegative(J2(opcode), J1(opcode), ShortLow(opcode));
    } else {
      ExtendPositive(J2(opcode), J1(opcode), ShortLow(opcode));
    }
  }
}

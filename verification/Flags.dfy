/** Condition flags and condition codes (impl_emulation.c, include/thumb2sim.h). */
module Flags {
  import opened Bytes

  const FLAG_NEGATIVE: bv32 := 0x8000_0000
  const FLAG_ZERO: bv32 := 0x4000_0000
  const FLAG_CARRY: bv32 := 0x2000_0000
  const FLAG_OVERFLOW: bv32 := 0x1000_0000
  const FLAG_SATURATION: bv32 := 0x0800_0000
  const FLAG_MASK: bv32 := 0xf800_0000

  // ----- the emulator's code words

  /** The four `condCode |=` updates. */
  function CondCode(n: bool, z: bool, c: bool, v: bool): bv32 {
    (if z then FLAG_ZERO else 0) | (if n then FLAG_NEGATIVE else 0) |
    (if c then FLAG_CARRY else 0) | (if v then FLAG_OVERFLOW else 0)
  }

  function AddCondCode(x: word, y: word): bv32 {
    var f := AddTests(x, y);
    CondCode(f.n, f.z, f.c, f.v)
  }

  /** The conditions under which an addition sets each bit. */
  function AddTests(x: word, y: word): Nzcv {
    var result := Wrap(x + y);
    Nzcv(
      Signed(result) < 0,
      result == 0,
      result < x || result < y,
      (x >= 0x8000_0000) == (y >= 0x8000_0000) && (x >= 0x8000_0000) != (result >= 0x8000_0000))
  }

  function SubCondCode(x: word, y: word): bv32 {
    var f := SubTests(x, y);
    CondCode(f.n, f.z, f.c, f.v)
  }

  /** The signed differences of the source wrap around, as on the hosts it is built for. */
  function SubTests(x: word, y: word): Nzcv {
    var (sX, sY) := (Signed(x), Signed(y));
    Nzcv(
      Signed(Wrap(sX - sY)) < 0,
      x == y,
      x >= y,
      (sX >= 0) != (sY >= 0) && (Signed(Wrap(sY - sX - 1)) >= 0) == (y > x))
  }

  function MovCondCode(x: word): bv32 {
    (if x >= 0x8000_0000 then FLAG_NEGATIVE else 0) | (if x == 0 then FLAG_ZERO else 0)
  }

  /** `setCondCode` */
  function WithCondCode(psr: bv32, code: bv32): bv32 {
    (psr & !FLAG_MASK) | code
  }

  function CondSatisfied(psr: bv32, cond: bv8): bool {
    if cond == 0 then psr & FLAG_ZERO == FLAG_ZERO
    else if cond == 1 then psr & FLAG_ZERO == 0
    else if cond == 2 then psr & FLAG_CARRY == FLAG_CARRY
    else if cond == 3 then psr & FLAG_CARRY == 0
    else if cond == 4 then psr & FLAG_NEGATIVE == FLAG_NEGATIVE
    else if cond == 5 then psr & FLAG_NEGATIVE == 0
    else if cond == 6 then psr & FLAG_OVERFLOW == FLAG_OVERFLOW
    else if cond == 7 then psr & FLAG_OVERFLOW == 0
    else if cond == 8 then psr & (FLAG_CARRY | FLAG_ZERO) == FLAG_CARRY
    else if cond == 9 then psr & (FLAG_CARRY | FLAG_ZERO) != FLAG_CARRY
    else if cond == 10 then (psr & FLAG_NEGATIVE == 0) == (psr & FLAG_OVERFLOW == 0)
    else if cond == 11 then (psr & FLAG_NEGATIVE == 0) != (psr & FLAG_OVERFLOW == 0)
    else if cond == 12 then psr & FLAG_ZERO == 0 && (psr & FLAG_NEGATIVE == 0) == (psr & FLAG_OVERFLOW == 0)
    else if cond == 13 then psr & FLAG_ZERO == FLAG_ZERO || (psr & FLAG_NEGATIVE == 0) != (psr & FLAG_OVERFLOW == 0)
    else true
  }

  // ----- the architecture

  datatype Nzcv = Nzcv(n: bool, z: bool, c: bool, v: bool)

  function FlagsOf(psr: bv32): Nzcv {
    Nzcv(psr & FLAG_NEGATIVE != 0, psr & FLAG_ZERO != 0, psr & FLAG_CARRY != 0, psr & FLAG_OVERFLOW != 0)
  }

  /** ConditionPassed, section A7.3.1 of the ARMv7-M Architecture Reference Manual: bits 3 to 1
      select a test, bit 0 inverts it except in the last pair. */
  function ConditionPassed(f: Nzcv, cond: bv8): bool {
    var result :=
      match cond >> 1
      case 0 => f.z
      case 1 => f.c
      case 2 => f.n
      case 3 => f.v
      case 4 => f.c && !f.z
      case 5 => f.n == f.v
      case 6 => f.n == f.v && !f.z
      case _ => true;
    if cond & 1 == 1 && cond < 14 then !result else result
  }

  /** AddWithCarry, section A2.2.1 of the same manual. */
  function AddWithCarry(x: word, y: word, carryIn: bool): (word, bool, bool) {
    var unsignedSum := x + y + if carryIn then 1 else 0;
    var signedSum := Signed(x) + Signed(y) + if carryIn then 1 else 0;
    var result := Wrap(unsignedSum);
    (result, result != unsignedSum, Signed(result) != signedSum)
  }

  function ArithmeticFlags(r: (word, bool, bool)): Nzcv {
    Nzcv(r.0 >= 0x8000_0000, r.0 == 0, r.1, r.2)
  }

  lemma FlagsOfCondCode(psr: bv32, n: bool, z: bool, c: bool, v: bool)
    ensures FlagsOf(WithCondCode(psr, CondCode(n, z, c, v))) == Nzcv(n, z, c, v)
  {
  }

  lemma SumWraps(x: int)
    requires -0x1_0000_0000 <= x < 0x2_0000_0000
    ensures Wrap(x) == if x < 0 then x + 0x1_0000_0000 else if x < 0x1_0000_0000 then x else x - 0x1_0000_0000
  {
  }

  lemma AddTestsAreArchitectural(x: word, y: word)
    ensures AddTests(x, y) == ArithmeticFlags(AddWithCarry(x, y, false))
  {
    hide Wrap;
    SumWraps(x + y);
  }

  lemma SubTestsAreArchitectural(x: word, y: word)
    ensures SubTests(x, y) == ArithmeticFlags(AddWithCarry(x, 0xffff_ffff - y, true))
  {
    hide Wrap;
    SumWraps(Signed(x) - Signed(y));
    SumWraps(Signed(y) - Signed(x) - 1);
    SumWraps(x + (0xffff_ffff - y) + 1);
  }

  /** Addition sets the flags the architecture defines. */
  lemma AddFlagsAreArchitectural(psr: bv32, x: word, y: word)
    ensures FlagsOf(WithCondCode(psr, AddCondCode(x, y))) == ArithmeticFlags(AddWithCarry(x, y, false))
  {
    hide FlagsOf, WithCondCode, CondCode, AddTests, AddWithCarry, ArithmeticFlags;
    var f := AddTests(x, y);
    AddTestsAreArchitectural(x, y);
    FlagsOfCondCode(psr, f.n, f.z, f.c, f.v);
  }

  /** Subtraction sets the flags of adding the complement with carry. */
  lemma SubFlagsAreArchitectural(psr: bv32, x: word, y: word)
    ensures FlagsOf(WithCondCode(psr, SubCondCode(x, y))) == ArithmeticFlags(AddWithCarry(x, 0xffff_ffff - y, true))
  {
    hide FlagsOf, WithCondCode, CondCode, SubTests, AddWithCarry, ArithmeticFlags;
    var f := SubTests(x, y);
    SubTestsAreArchitectural(x, y);
    FlagsOfCondCode(psr, f.n, f.z, f.c, f.v);
  }

  /** The emulator tests conditions as the architecture does, for every status word and code. */
  lemma ConditionsAreArchitectural(psr: bv32, cond: bv8)
    ensures CondSatisfied(psr, cond) == ConditionPassed(FlagsOf(psr), cond)
  {
  }

  /** Flipping the lowest bit of a condition below 14 negates it. */
  lemma FlippedConditionNegates(psr: bv32, cond: bv8)
    requires cond < 14
    ensures CondSatisfied(psr, cond ^ 1) == !CondSatisfied(psr, cond)
  {
    hide FlagsOf, CondSatisfied;
    ConditionsAreArchitectural(psr, cond);
    ConditionsAreArchitectural(psr, cond ^ 1);
  }

  /** After a compare every condition decides the relation it is named for. */
  lemma CompareDecides(psr: bv32, x: word, y: word)
    ensures var after := WithCondCode(psr, SubCondCode(x, y));
      && (CondSatisfied(after, 0) <==> x == y) && (CondSatisfied(after, 1) <==> x != y)
      && (CondSatisfied(after, 2) <==> x >= y) && (CondSatisfied(after, 3) <==> x < y)
      && (CondSatisfied(after, 8) <==> x > y) && (CondSatisfied(after, 9) <==> x <= y)
      && (CondSatisfied(after, 10) <==> Signed(x) >= Signed(y)) && (CondSatisfied(after, 11) <==> Signed(x) < Signed(y))
      && (CondSatisfied(after, 12) <==> Signed(x) > Signed(y)) && (CondSatisfied(after, 13) <==> Signed(x) <= Signed(y))
  {
    var after := WithCondCode(psr, SubCondCode(x, y));
    hide FlagsOf, WithCondCode, CondCode, SubCondCode, CondSatisfied;
    SubFlagsAreArchitectural(psr, x, y);
    forall cond: bv8 ensures CondSatisfied(after, cond) == ConditionPassed(FlagsOf(after), cond) {
      ConditionsAreArchitectural(after, cond);
    }
  }
}

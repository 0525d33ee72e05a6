/** The packed queue of 2-bit IT states (impl_emulation.c, cpu_cm3.c) against the architectural ITSTATE. */
module ItBlock {
  import opened Flags

  const IT_NONE: bv8 := 0
  const IT_THEN: bv8 := 1
  const IT_ELSE: bv8 := 2

  // ----- the emulator

  /** How many slots the loop over the mask finds after the first one. */
  function SlotsAfterFirst(mask: bv8): int {
    if mask & 1 != 0 then 3 else if mask & 2 != 0 then 2 else if mask & 4 != 0 then 1 else 0
  }

  /** `(mask >> (3 - i)) & 1` */
  function MaskBit(mask: bv8, i: int): bv8 {
    if i == 0 then (mask >> 3) & 1 else if i == 1 then (mask >> 2) & 1 else (mask >> 1) & 1
  }

  function Pushed(queue: bv8, then_: bool): bv8 {
    (queue << 2) | (if then_ then IT_THEN else IT_ELSE)
  }

  /** Slots i, i - 1, ..., 0 pushed in front of the queue. */
  function PushSlots(queue: bv8, match_: bv8, mask: bv8, i: int): bv8
    decreases i + 1
  {
    if i < 0 then queue else PushSlots(Pushed(queue, MaskBit(mask, i) == match_), match_, mask, i - 1)
  }

  /** What `it` leaves in it_state. */
  function Entered(queue: bv8, firstcond: bv8, mask: bv8): bv8 {
    Pushed(PushSlots(queue, firstcond & 1, mask, SlotsAfterFirst(mask) - 1), true)
  }

  /** The condition the queue puts on the next instruction; 14 is "always". */
  function QueueCondition(queue: bv8, cond: bv8): bv8 {
    if queue & 3 == IT_NONE then 14 else if queue & 3 == IT_THEN then cond else cond ^ 1
  }

  function QueueAfter(queue: bv8, k: nat): bv8 {
    if k == 0 then queue else QueueAfter(queue, k - 1) >> 2
  }

  // ----- section A7.3 of the ARMv7-M Architecture Reference Manual

  function ItAdvance(itstate: bv8): bv8 {
    if itstate & 7 == 0 then 0 else (itstate & 0xe0) | ((itstate << 1) & 0x1f)
  }

  function InItBlock(itstate: bv8): bool {
    itstate & 0xf != 0
  }

  function ItCondition(itstate: bv8): bv8 {
    if InItBlock(itstate) then itstate >> 4 else 14
  }

  function ItStateAfter(itstate: bv8, k: nat): bv8 {
    if k == 0 then itstate else ItAdvance(ItStateAfter(itstate, k - 1))
  }

  // ----- refinement

  function Slots(mask: bv8): int {
    SlotsAfterFirst(mask) + 1
  }

  lemma PushedSlots(queue: bv8, m: bv8, mask: bv8)
    ensures PushSlots(queue, m, mask, -1) == queue
    ensures PushSlots(queue, m, mask, 0) == Pushed(queue, MaskBit(mask, 0) == m)
    ensures PushSlots(queue, m, mask, 1) == Pushed(Pushed(queue, MaskBit(mask, 1) == m), MaskBit(mask, 0) == m)
    ensures PushSlots(queue, m, mask, 2) ==
      Pushed(Pushed(Pushed(queue, MaskBit(mask, 2) == m), MaskBit(mask, 1) == m), MaskBit(mask, 0) == m)
  {
    hide Pushed, MaskBit;
    var (b2, b1) := (MaskBit(mask, 2) == m, MaskBit(mask, 1) == m);
    assert PushSlots(queue, m, mask, 2) == PushSlots(Pushed(queue, b2), m, mask, 1);
    assert PushSlots(Pushed(queue, b2), m, mask, 1) == PushSlots(Pushed(Pushed(queue, b2), b1), m, mask, 0);
  }

  /** The queue and ITSTATE describe the same block with n slots to go. */
  ghost predicate Same(queue: bv8, cond: bv8, itstate: bv8, n: int) {
    && QueueCondition(queue, cond) == ItCondition(itstate)
    && (queue & 3 != 0 <==> n > 0)
    && (InItBlock(itstate) <==> n > 0)
    && (n <= 0 ==> queue == 0 && itstate == 0)
  }

  /** The queue and ITSTATE of an `it` before its first instruction and after the next four. */
  lemma FirstFour(firstcond: bv8, mask: bv8)
    requires firstcond < 16 && 0 < mask < 16
    ensures
      var (q0, s0) := (Entered(0, firstcond, mask), (firstcond << 4) | mask);
      var (q1, s1) := (q0 >> 2, ItAdvance(s0));
      var (q2, s2) := (q1 >> 2, ItAdvance(s1));
      var (q3, s3) := (q2 >> 2, ItAdvance(s2));
      && Same(q0, firstcond, s0, Slots(mask))
      && Same(q1, firstcond, s1, Slots(mask) - 1)
      && Same(q2, firstcond, s2, Slots(mask) - 2)
      && Same(q3, firstcond, s3, Slots(mask) - 3)
      && q3 >> 2 == 0 && ItAdvance(s3) == 0
  {
    PushedSlots(0, firstcond & 1, mask);
    if mask & 1 != 0 {
    } else if mask & 2 != 0 {
    } else if mask & 4 != 0 {
    } else {
    }
  }

  /** Forward simulation: after any number of instructions the queue of an `it` with a non-zero mask
      puts the same condition on the next one as ITSTATE does, and is empty exactly when the block
      of Slots(mask) instructions is over. */
  lemma {:induction false} QueueSimulatesItState(firstcond: bv8, mask: bv8, k: nat)
    requires firstcond < 16 && 0 < mask < 16
    ensures Same(QueueAfter(Entered(0, firstcond, mask), k), firstcond,
                 ItStateAfter((firstcond << 4) | mask, k), Slots(mask) - k)
  {
    hide Entered, ItAdvance, Same, Slots, QueueAfter, ItStateAfter;
    var (q, s) := (Entered(0, firstcond, mask), (firstcond << 4) | mask);
    FirstFour(firstcond, mask);
    if k < 4 {
      FirstAfter(q, s);
    } else {
      AfterFour(firstcond, mask, k);
    }
  }

  lemma FirstAfter(q: bv8, s: bv8)
    ensures QueueAfter(q, 0) == q && QueueAfter(q, 1) == q >> 2
    ensures QueueAfter(q, 2) == q >> 2 >> 2 && QueueAfter(q, 3) == q >> 2 >> 2 >> 2
    ensures ItStateAfter(s, 0) == s && ItStateAfter(s, 1) == ItAdvance(s)
    ensures ItStateAfter(s, 2) == ItAdvance(ItAdvance(s)) && ItStateAfter(s, 3) == ItAdvance(ItAdvance(ItAdvance(s)))
  {
    hide ItAdvance;
    assert QueueAfter(q, 2) == QueueAfter(q, 1) >> 2;
    assert ItStateAfter(s, 2) == ItAdvance(ItStateAfter(s, 1));
  }

  lemma {:induction false} AfterFour(firstcond: bv8, mask: bv8, k: nat)
    requires firstcond < 16 && 0 < mask < 16 && k >= 4
    ensures QueueAfter(Entered(0, firstcond, mask), k) == 0
    ensures ItStateAfter((firstcond << 4) | mask, k) == 0
    ensures Same(0, firstcond, 0, Slots(mask) - k)
  {
    hide Entered;
    var (q, s) := (Entered(0, firstcond, mask), (firstcond << 4) | mask);
    if k == 4 {
      hide ItAdvance;
      FirstFour(firstcond, mask);
      FirstAfter(q, s);
      assert QueueAfter(q, 4) == QueueAfter(q, 3) >> 2 && ItStateAfter(s, 4) == ItAdvance(ItStateAfter(s, 3));
    } else {
      AfterFour(firstcond, mask, k - 1);
    }
  }

  /** After k instructions the queue and ITSTATE tell the next one the same: its condition, and whether
      it stands in a block, where most instructions keep the flags. */
  ghost predicate Agrees(firstcond: bv8, mask: bv8, k: nat) {
    var (q, s) := (QueueAfter(Entered(0, firstcond, mask), k), ItStateAfter((firstcond << 4) | mask, k));
    QueueCondition(q, firstcond) == ItCondition(s) && (q & 3 != IT_NONE <==> InItBlock(s))
  }

  lemma SameAgrees(queue: bv8, cond: bv8, itstate: bv8, n: int)
    requires Same(queue, cond, itstate, n)
    ensures QueueCondition(queue, cond) == ItCondition(itstate) && (queue & 3 != IT_NONE <==> InItBlock(itstate))
  {
  }

  /** Queue and ITSTATE agree for good exactly when the mask is not 0: without one the emulator opens a
      block of one instruction where the architecture has a hint and no block. */
  lemma SimulatesIffMask(firstcond: bv8, mask: bv8)
    requires firstcond < 16 && mask < 16
    ensures (forall k: nat :: Agrees(firstcond, mask, k)) <==> mask != 0
  {
    if mask != 0 {
      hide Entered, ItAdvance, Slots, QueueAfter, ItStateAfter, QueueCondition, ItCondition, InItBlock, Same;
      forall k: nat ensures Agrees(firstcond, mask, k) {
        QueueSimulatesItState(firstcond, mask, k);
        SameAgrees(QueueAfter(Entered(0, firstcond, mask), k), firstcond,
                   ItStateAfter((firstcond << 4) | mask, k), Slots(mask) - k);
      }
    } else {
      MaskZeroStart(firstcond);
      assert !Agrees(firstcond, mask, 0);
    }
  }

  /** After k instructions, with these flags, the emulator executes the next one just when ITSTATE lets
      it pass. */
  ghost predicate ExecutesAlike(firstcond: bv8, mask: bv8, k: nat, psr: bv32) {
    CondSatisfied(psr, QueueCondition(QueueAfter(Entered(0, firstcond, mask), k), firstcond)) ==
    ConditionPassed(FlagsOf(psr), ItCondition(ItStateAfter((firstcond << 4) | mask, k)))
  }

  /** What is executed is right for good, whatever the flags, exactly with a mask or with one of the first
      conditions that always hold. */
  lemma ExecutesIffMaskOrAlways(firstcond: bv8, mask: bv8)
    requires firstcond < 16 && mask < 16
    ensures (forall k: nat, psr: bv32 :: ExecutesAlike(firstcond, mask, k, psr)) <==> mask != 0 || firstcond >= 14
  {
    hide Entered, ItAdvance, QueueAfter, ItStateAfter, QueueCondition, ItCondition, InItBlock, FlagsOf;
    hide CondSatisfied, ConditionPassed;
    if mask != 0 {
      SimulatesIffMask(firstcond, mask);
      forall k: nat, psr: bv32 ensures ExecutesAlike(firstcond, mask, k, psr) {
        assert Agrees(firstcond, mask, k);
        ConditionsAreArchitectural(psr, QueueCondition(QueueAfter(Entered(0, firstcond, mask), k), firstcond));
      }
    } else if firstcond >= 14 {
      forall k: nat, psr: bv32 ensures ExecutesAlike(firstcond, mask, k, psr) {
        ZeroMaskExecutes(firstcond, k, psr);
        AlwaysHolds(psr, firstcond);
      }
    } else {
      var psr := FailingFlags(firstcond);
      ZeroMaskExecutes(firstcond, 0, psr);
      FlagsFail(firstcond);
      assert !ExecutesAlike(firstcond, mask, 0, psr);
    }
  }

  lemma AlwaysHolds(psr: bv32, cond: bv8)
    requires 14 <= cond < 16
    ensures CondSatisfied(psr, cond)
  {
  }

  /** Flags with which a condition does not hold. */
  function FailingFlags(cond: bv8): bv32 {
    if cond == 1 || cond == 12 then FLAG_ZERO
    else if cond == 3 || cond == 9 then FLAG_CARRY
    else if cond == 5 || cond == 10 then FLAG_NEGATIVE
    else if cond == 7 then FLAG_OVERFLOW
    else 0
  }

  lemma FlagsFail(cond: bv8)
    requires cond < 14
    ensures !CondSatisfied(FailingFlags(cond), cond)
  {
  }

  lemma MaskZeroStart(firstcond: bv8)
    requires firstcond < 16
    ensures QueueAfter(Entered(0, firstcond, 0), 0) == 1
    ensures ItStateAfter((firstcond << 4) | 0, 0) == firstcond << 4
    ensures !InItBlock(firstcond << 4) && ItCondition(firstcond << 4) == 14 && QueueCondition(1, firstcond) == firstcond
  {
    PushedSlots(0, firstcond & 1, 0);
    assert (firstcond << 4) | 0 == firstcond << 4;
  }

  /** Behind an `it` with mask 0 the next instruction hangs on the first condition, all later ones on
      nothing; for the architecture none hangs on anything. */
  lemma ZeroMaskExecutes(firstcond: bv8, k: nat, psr: bv32)
    requires firstcond < 16
    ensures ExecutesAlike(firstcond, 0, k, psr) <==> k > 0 || CondSatisfied(psr, firstcond)
  {
    hide FlagsOf;
    MaskZeroStart(firstcond);
    assert (firstcond << 4) | 0 == firstcond << 4;
    if k > 0 {
      MaskZero(firstcond, k);
      ZeroStates();
    }
  }

  lemma ZeroStates()
    ensures forall cond: bv8 :: QueueCondition(0, cond) == 14 && ItCondition(0) == 14
  {
  }

  lemma {:induction false} MaskZero(firstcond: bv8, k: nat)
    requires firstcond < 16 && k > 0
    ensures QueueAfter(1, k) == 0 && ItStateAfter(firstcond << 4, k) == 0
  {
    if k > 1 { MaskZero(firstcond, k - 1); } else {
      assert QueueAfter(1, 0) == 1 && ItStateAfter(firstcond << 4, 0) == firstcond << 4;
    }
  }

  /** Pushing loses a slot exactly when four are in the queue. */
  lemma PushKeepsQueue(queue: bv8, then_: bool)
    ensures Pushed(queue, then_) >> 2 == queue <==> queue < 64
  {
  }

  /** The queues that the slots i, i - 1, ..., 0 are pushed in front of. */
  function PushedOnto(queue: bv8, match_: bv8, mask: bv8, i: int): seq<bv8>
    decreases i + 1
  {
    if i < 0 then []
    else [queue] + PushedOnto(Pushed(queue, MaskBit(mask, i) == match_), match_, mask, i - 1)
  }

  /** Every queue that an `it` pushes a slot in front of, the first instruction's own slot last. */
  function EnteringPushes(queue: bv8, firstcond: bv8, mask: bv8): seq<bv8> {
    var last := SlotsAfterFirst(mask) - 1;
    PushedOnto(queue, firstcond & 1, mask, last) + [PushSlots(queue, firstcond & 1, mask, last)]
  }

  lemma {:induction false} PushesFit(queue: bv8, match_: bv8, mask: bv8, i: int, room: nat)
    requires -1 <= i < room <= 3 && queue < 64
    requires room == 3 ==> queue == 0
    requires room == 2 ==> queue < 4
    requires room == 1 ==> queue < 16
    ensures |PushedOnto(queue, match_, mask, i)| == i + 1
    ensures forall q :: q in PushedOnto(queue, match_, mask, i) ==> q < 64
    ensures PushSlots(queue, match_, mask, i) < 64
    decreases i + 1
  {
    if i >= 0 {
      var next := Pushed(queue, MaskBit(mask, i) == match_);
      PushGrows(queue, MaskBit(mask, i) == match_);
      if i > 0 {
        PushesFit(next, match_, mask, i - 1, room - 1);
      } else {
        assert PushedOnto(next, match_, mask, i - 1) == [];
      }
    }
  }

  lemma PushGrows(queue: bv8, then_: bool)
    ensures queue == 0 ==> Pushed(queue, then_) < 4
    ensures queue < 4 ==> Pushed(queue, then_) < 16
    ensures queue < 16 ==> Pushed(queue, then_) < 64
  {
  }

  /** An `it` outside a block pushes as many slots as its block has instructions, and each push meets a
      queue with a free slot, so it can be undone and nothing is lost. */
  lemma QueueNeverOverflows(firstcond: bv8, mask: bv8)
    ensures |EnteringPushes(0, firstcond, mask)| == SlotsAfterFirst(mask) + 1
    ensures forall q :: q in EnteringPushes(0, firstcond, mask) ==>
      q < 64 && Pushed(q, true) >> 2 == q == Pushed(q, false) >> 2
  {
    hide PushedOnto, PushSlots, Pushed;
    PushesFit(0, firstcond & 1, mask, SlotsAfterFirst(mask) - 1, 3);
    forall q | q in EnteringPushes(0, firstcond, mask)
      ensures q < 64 && Pushed(q, true) >> 2 == q == Pushed(q, false) >> 2
    {
      PushKeepsQueue(q, true);
      PushKeepsQueue(q, false);
    }
  }
}

/** Register frames: multi-register stores and loads, and the call that saves and restores one. */
module Frames {
  import opened Bytes
  import opened Options
  import opened AddressSpace
  import opened Cpu

  // ----- what a register list looks like in memory

  /** The word of register r, if it is listed. */
  function Slot(regs: seq<word>, list: RegList, r: reg): seq<byte>
    requires |regs| == 16
  {
    if r in list then LittleEndian(regs[r], 4) else []
  }

  /** The listed registers from r up, as the bytes of one word after the other. */
  function FrameFrom(regs: seq<word>, list: RegList, r: nat): seq<byte>
    requires |regs| == 16 && r <= 16
    decreases 16 - r
  {
    if r == 16 then [] else Slot(regs, list, r) + FrameFrom(regs, list, r + 1)
  }

  /** The listed registers below r. */
  function FrameBelow(regs: seq<word>, list: RegList, r: nat): seq<byte>
    requires |regs| == 16 && r <= 16
    decreases r
  {
    if r == 0 then [] else FrameBelow(regs, list, r - 1) + Slot(regs, list, r - 1)
  }

  function Frame(regs: seq<word>, list: RegList): seq<byte>
    requires |regs| == 16
  {
    FrameFrom(regs, list, 0)
  }

  lemma {:induction false} BelowPlusFrom(regs: seq<word>, list: RegList, r: nat)
    requires |regs| == 16 && r <= 16
    ensures FrameBelow(regs, list, r) + FrameFrom(regs, list, r) == Frame(regs, list)
    decreases r
  {
    hide Slot;
    if r > 0 {
      BelowPlusFrom(regs, list, r - 1);
      Associate(FrameBelow(regs, list, r - 1), Slot(regs, list, r - 1), FrameFrom(regs, list, r));
    } else {
      assert [] + Frame(regs, list) == Frame(regs, list);
    }
  }

  lemma Associate(x: seq<byte>, y: seq<byte>, z: seq<byte>)
    ensures x + (y + z) == (x + y) + z
  {
  }

  lemma {:induction false} FrameSizeFrom(regs: seq<word>, list: RegList, r: nat)
    requires |regs| == 16 && r <= 16
    ensures |FrameFrom(regs, list, r)| == 4 * |set q | q in list && q >= r|
    decreases 16 - r
  {
    var rest := set q | q in list && q >= r + 1;
    if r == 16 {
      assert (set q | q in list && q >= r) == {};
    } else {
      FrameSizeFrom(regs, list, r + 1);
      assert (set q | q in list && q >= r) == rest + if r in list then {r} else {};
    }
  }

  /** A frame takes four bytes per listed register. */
  lemma FrameSize(regs: seq<word>, list: RegList)
    requires |regs| == 16
    ensures |Frame(regs, list)| == 4 * |list|
  {
    FrameSizeFrom(regs, list, 0);
    assert (set q | q in list && q >= 0) == list;
  }

  /** The k-th lowest listed register lies 4k bytes into the frame. */
  lemma FrameSlot(regs: seq<word>, list: RegList, r: reg)
    requires |regs| == 16 && r in list
    ensures |FrameBelow(regs, list, r)| == 4 * |set q | q in list && q < r|
    ensures |FrameBelow(regs, list, r)| + 4 <= |Frame(regs, list)|
    ensures Frame(regs, list)[|FrameBelow(regs, list, r)|..][..4] == LittleEndian(regs[r], 4)
  {
    BelowPlusFrom(regs, list, r);
    FrameSizeFrom(regs, list, r);
    FrameSize(regs, list);
    var (below, above) := (set q | q in list && q < r, set q | q in list && q >= r);
    assert list == below + above && below !! above;
    var f := FrameFrom(regs, list, r);
    assert Frame(regs, list)[|FrameBelow(regs, list, r)|..] == f;
    assert f == LittleEndian(regs[r], 4) + FrameFrom(regs, list, r + 1);
  }

  // ----- stores

  /** `size` bytes from address a on lie in the writable slice i of a memory of disjoint slices. */
  ghost predicate Writable(mem: Memory, i: nat, a: int, size: nat) {
    && WellFormed(mem) && Disjoint(mem)
    && i < |mem| && !mem[i].readOnly
    && mem[i].begin <= a && a + size <= mem[i].end
  }

  lemma PutNothing(mem: Memory, i: nat, a: word)
    requires Writable(mem, i, a, 0)
    ensures PutBytes(mem, i, a, []) == mem
  {
    assert Put(mem[i].data, a - mem[i].begin, []) == mem[i].data;
    assert PutBytes(mem, i, a, []) == mem[i := mem[i]];
  }

  lemma PutTwice(mem: Memory, i: nat, a: word, x: seq<byte>, y: seq<byte>)
    requires Writable(mem, i, a, |x| + |y|)
    ensures PutBytes(PutBytes(mem, i, a, x), i, a + |x|, y) == PutBytes(mem, i, a, x + y)
    ensures PutBytes(PutBytes(mem, i, a + |x|, y), i, a, x) == PutBytes(mem, i, a, x + y)
  {
    var (d, at) := (mem[i].data, a - mem[i].begin);
    assert Put(Put(d, at, x), at + |x|, y) == Put(d, at, x + y);
    assert Put(Put(d, at + |x|, y), at, x) == Put(d, at, x + y);
  }

  lemma WriteInside(mem: Memory, i: nat, a: word, v: word, before: nat, after: nat)
    requires a >= before && Writable(mem, i, a - before, before + 4 + after)
    ensures Write(mem, a, 4, v) == PutBytes(mem, i, a, LittleEndian(v, 4))
    ensures Writable(Write(mem, a, 4, v), i, a - before, before + 4 + after)
  {
    hide LittleEndian;
    TargetUnique(mem, a, 4, i);
    WriteKeeps(mem, a, 4, v);
    DisjointLayout(mem, Write(mem, a, 4, v));
  }

  lemma NoWrap(a: word)
    requires a + 4 < 0x1_0000_0000
    ensures Add32(a, 4) == a + 4 && Sub32(a + 4, 4) == a
  {
  }

  lemma {:induction false} StoreUpWritesFrame(mem: Memory, i: nat, a: word, regs: seq<word>, list: RegList, r: nat)
    requires |regs| == 16 && r <= 16
    requires Writable(mem, i, a, |FrameFrom(regs, list, r)|)
    ensures StoreUp(mem, a, regs, list, r) ==
      (PutBytes(mem, i, a, FrameFrom(regs, list, r)), a + |FrameFrom(regs, list, r)|)
    decreases 16 - r
  {
    hide LittleEndian, Write, PutBytes, Disjoint, WellFormed, Add32, Sub32;
    if r == 16 {
      PutNothing(mem, i, a);
    } else if r in list {
      var (own, rest) := (LittleEndian(regs[r], 4), FrameFrom(regs, list, r + 1));
      NoWrap(a);
      WriteInside(mem, i, a, regs[r], 0, |rest|);
      StoreUpWritesFrame(Write(mem, a, 4, regs[r]), i, a + 4, regs, list, r + 1);
      PutTwice(mem, i, a, own, rest);
    } else {
      assert [] + FrameFrom(regs, list, r + 1) == FrameFrom(regs, list, r + 1);
      StoreUpWritesFrame(mem, i, a, regs, list, r + 1);
    }
  }

  lemma {:induction false} StoreDownWritesFrame(mem: Memory, i: nat, b: word, regs: seq<word>, list: RegList, r: nat)
    requires |regs| == 16 && r <= 16 && b >= |FrameBelow(regs, list, r)|
    requires Writable(mem, i, b - |FrameBelow(regs, list, r)|, |FrameBelow(regs, list, r)|)
    ensures var a := b - |FrameBelow(regs, list, r)|;
      StoreDown(mem, b, regs, list, r) == (PutBytes(mem, i, a, FrameBelow(regs, list, r)), a)
    decreases r
  {
    hide LittleEndian, Write, PutBytes, Disjoint, WellFormed, Add32, Sub32;
    if r == 0 {
      PutNothing(mem, i, b);
    } else if r - 1 in list {
      var (own, rest) := (LittleEndian(regs[r - 1], 4), FrameBelow(regs, list, r - 1));
      NoWrap(b - 4);
      WriteInside(mem, i, b - 4, regs[r - 1], |rest|, 0);
      StoreDownWritesFrame(Write(mem, b - 4, 4, regs[r - 1]), i, b - 4, regs, list, r - 1);
      PutTwice(mem, i, b - 4 - |rest|, rest, own);
    } else {
      assert FrameBelow(regs, list, r - 1) + [] == FrameBelow(regs, list, r - 1);
      StoreDownWritesFrame(mem, i, b, regs, list, r - 1);
    }
  }

  /** An increment-after store from a and a decrement-before store from the frame's end write the
      same frame at a; writeback leaves the two bases a whole frame apart. */
  lemma StoresWriteFrame(s: Machine, base: reg, list: RegList, up: bool, writeback: bool, i: nat, a: word)
    requires a == s.regs[base] - if up then 0 else 4 * |list|
    requires Writable(s.mem, i, a, 4 * |list|)
    ensures |Frame(s.regs, list)| == 4 * |list|
    ensures var t := StoreRegisters(s, base, list, up, writeback);
      var stored := s.(mem := PutBytes(s.mem, i, a, Frame(s.regs, list)));
      t == if writeback then SetReg(stored, base, if up then a + 4 * |list| else a) else stored
  {
    hide StoreUp, StoreDown, PutBytes, FrameFrom, FrameBelow, Writable;
    FrameSize(s.regs, list);
    if up {
      StoreUpWritesFrame(s.mem, i, a, s.regs, list, 0);
    } else {
      BelowIsFrame(s.regs, list);
      StoreDownWritesFrame(s.mem, i, s.regs[base], s.regs, list, 16);
    }
  }

  lemma BelowIsFrame(regs: seq<word>, list: RegList)
    requires |regs| == 16
    ensures FrameBelow(regs, list, 16) == Frame(regs, list)
  {
    hide Slot;
    BelowPlusFrom(regs, list, 16);
    assert FrameBelow(regs, list, 16) + [] == FrameBelow(regs, list, 16);
  }

  /** Storing downwards from the base and upwards from the base moved down by the frame gives the
      same memory if and only if the base is not itself stored. */
  lemma DirectionsAgreeIff(s: Machine, base: reg, list: RegList, i: nat)
    requires s.regs[base] >= 4 * |list|
    requires Writable(s.mem, i, s.regs[base] - 4 * |list|, 4 * |list|)
    ensures var lowered := SetReg(s, base, s.regs[base] - 4 * |list|);
      StoreRegisters(s, base, list, false, false).mem == StoreRegisters(lowered, base, list, true, false).mem
      <==> base !in list
  {
    hide StoreRegisters, PutBytes, Frame, FrameBelow, LittleEndian, FromLittleEndian;
    var a := s.regs[base] - 4 * |list|;
    var lowered := SetReg(s, base, a);
    StoresWriteFrame(s, base, list, false, false, i, a);
    StoresWriteFrame(lowered, base, list, true, false, i, a);
    if base !in list {
      FramesAgree(s.regs, lowered.regs, list);
    } else {
      FrameSlot(s.regs, list, base);
      FrameSlot(lowered.regs, list, base);
      WordRoundTrip(s.regs[base]);
      WordRoundTrip(a);
      DifferentFrames(s.mem, i, a, Frame(s.regs, list), Frame(lowered.regs, list));
    }
  }

  lemma DifferentFrames(mem: Memory, i: nat, a: word, x: seq<byte>, y: seq<byte>)
    requires |x| == |y| && Writable(mem, i, a, |x|) && x != y
    ensures PutBytes(mem, i, a, x) != PutBytes(mem, i, a, y)
  {
    var at := a - mem[i].begin;
    assert Put(mem[i].data, at, x)[at..][..|x|] == x && Put(mem[i].data, at, y)[at..][..|x|] == y;
    assert PutBytes(mem, i, a, x)[i].data != PutBytes(mem, i, a, y)[i].data;
  }

  lemma FramesAgree(regs: seq<word>, other: seq<word>, list: RegList)
    requires |regs| == 16 && |other| == 16
    requires forall q: reg :: q in list ==> regs[q] == other[q]
    ensures Frame(regs, list) == Frame(other, list)
  {
    SameFrame(regs, other, list, 0);
  }

  lemma {:induction false} SameFrame(regs: seq<word>, other: seq<word>, list: RegList, r: nat)
    requires |regs| == 16 && |other| == 16 && r <= 16
    requires forall q: reg :: q in list ==> regs[q] == other[q]
    ensures FrameFrom(regs, list, r) == FrameFrom(other, list, r)
    decreases 16 - r
  {
    if r < 16 { SameFrame(regs, other, list, r + 1); }
  }

  // ----- loads

  /** The bytes at address a of slice i. */
  ghost predicate Holds(mem: Memory, i: nat, a: int, bytes: seq<byte>) {
    && WellFormed(mem) && Disjoint(mem)
    && i < |mem| && mem[i].begin <= a && a + |bytes| <= mem[i].end
    && mem[i].data[a - mem[i].begin..][..|bytes|] == bytes
  }

  /** Registers after loading a saved frame: the listed ones from r up are the saved ones. */
  function Reloaded(regs: seq<word>, saved: seq<word>, list: RegList, r: nat): (res: seq<word>)
    requires |regs| == 16 && |saved| == 16
    ensures |res| == 16
  {
    seq(16, q requires 0 <= q < 16 =>
      if q in list && q >= r then (if q == PC then ClearBit0(saved[q]) else saved[q]) else regs[q])
  }

  lemma ReadHeld(mem: Memory, i: nat, a: word, v: word, rest: seq<byte>)
    requires Holds(mem, i, a, LittleEndian(v, 4) + rest)
    ensures Read32(mem, a) == v && Holds(mem, i, a + 4, rest)
  {
    hide LittleEndian, FromLittleEndian;
    var at := a - mem[i].begin;
    TargetUnique(mem, a, 4, i);
    WordRoundTrip(v);
    var all := LittleEndian(v, 4) + rest;
    assert mem[i].data[at..][..4] == all[..4] == LittleEndian(v, 4);
    assert mem[i].data[at + 4..][..|rest|] == all[4..] == rest;
  }

  lemma {:induction false} LoadUpReadsFrame(
      mem: Memory, i: nat, a: word, regs: seq<word>, saved: seq<word>, list: RegList, r: nat)
    requires |regs| == 16 && |saved| == 16 && r <= 16
    requires Holds(mem, i, a, FrameFrom(saved, list, r))
    ensures LoadUp(mem, a, regs, list, r) == (Reloaded(regs, saved, list, r), a + |FrameFrom(saved, list, r)|)
    decreases 16 - r
  {
    hide LittleEndian, Read32, Holds, Add32, ClearBit0, Reloaded;
    ReloadStep(regs, saved, list, r);
    if r == 16 {
    } else if r in list {
      var rest := FrameFrom(saved, list, r + 1);
      ReadHeld(mem, i, a, saved[r], rest);
      HeldInside(mem, i, a + 4, rest);
      NoWrap(a);
      var v := if r == PC then ClearBit0(saved[r]) else saved[r];
      LoadUpReadsFrame(mem, i, a + 4, regs[r := v], saved, list, r + 1);
    } else {
      assert [] + FrameFrom(saved, list, r + 1) == FrameFrom(saved, list, r + 1);
      LoadUpReadsFrame(mem, i, a, regs, saved, list, r + 1);
    }
  }

  lemma ReloadStep(regs: seq<word>, saved: seq<word>, list: RegList, r: nat)
    requires |regs| == 16 && |saved| == 16 && r <= 16
    ensures r == 16 ==> Reloaded(regs, saved, list, r) == regs
    ensures r < 16 && r !in list ==> Reloaded(regs, saved, list, r) == Reloaded(regs, saved, list, r + 1)
    ensures r < 16 && r in list ==>
      Reloaded(regs, saved, list, r) ==
      Reloaded(regs[r := if r == PC then ClearBit0(saved[r]) else saved[r]], saved, list, r + 1)
  {
    hide ClearBit0;
  }

  lemma HeldInside(mem: Memory, i: nat, a: int, bytes: seq<byte>)
    requires Holds(mem, i, a, bytes)
    ensures 0 <= a && a + |bytes| < 0x1_0000_0000
  {
  }

  lemma PutHolds(mem: Memory, i: nat, a: word, bytes: seq<byte>)
    requires Writable(mem, i, a, |bytes|)
    ensures Holds(PutBytes(mem, i, a, bytes), i, a, bytes)
  {
    var n := PutBytes(mem, i, a, bytes);
    assert SameLayout(mem, n);
    DisjointLayout(mem, n);
  }

  // ----- call and return

  /** The link register pushed on top is the same frame as the program counter there. */
  lemma {:induction false} LinkBecomesPc(regs: seq<word>, list: RegList, r: nat)
    requires |regs| == 16 && r <= 14 && list <= LOW_REGS
    ensures FrameFrom(regs, list + {LR}, r) == FrameFrom(regs[PC := regs[LR]], list + {PC}, r)
    decreases 14 - r
  {
    hide LittleEndian;
    if r == 14 {
      var (x, y) := (list + {LR}, regs[PC := regs[LR]]);
      assert FrameFrom(regs, x, 15) == Slot(regs, x, 15) + FrameFrom(regs, x, 16) == [];
      assert FrameFrom(y, list + {PC}, 15) == Slot(y, list + {PC}, 15) + FrameFrom(y, list + {PC}, 16);
    } else {
      LinkBecomesPc(regs, list, r + 1);
    }
  }

  const LOW_REGS: RegList := {0, 1, 2, 3, 4, 5, 6, 7, 8, 9, 10, 11, 12}

  function AfterBl(s: Machine, imm: int): Machine {
    StepInsn(s, Some(Branching(Bl(imm))), 4)
  }

  /** The 16-bit and the 32-bit encodings differ in length only. */
  function AfterPush(s: Machine, list: RegList, length: nat): Machine {
    StepInsn(s, Some(Multiple(Push(list, true))), length)
  }

  function AfterPop(s: Machine, list: RegList, length: nat): Machine {
    StepInsn(s, Some(Multiple(Pop(list, true, false))), length)
  }

  lemma BlStep(s: Machine, imm: int)
    requires ShouldExec(s)
    ensures var t := AfterBl(s, imm);
      t.mem == s.mem && t.regs == s.regs[LR := SetBit0(Add32(s.regs[PC], 4))][PC := Add32(s.regs[PC], 2 * imm + 4)]
  {
    hide Add32, SetBit0, Bookkeep, ShouldExec;
  }

  lemma PushStep(s: Machine, list: RegList, length: nat, i: nat)
    requires ShouldExec(s) && list <= LOW_REGS
    requires s.regs[SP] >= 4 * (|list| + 1)
    requires Writable(s.mem, i, s.regs[SP] - 4 * (|list| + 1), 4 * (|list| + 1))
    ensures var (t, a) := (AfterPush(s, list, length), s.regs[SP] - 4 * (|list| + 1));
      && |Frame(s.regs, list + {LR})| == 4 * (|list| + 1)
      && t.mem == PutBytes(s.mem, i, a, Frame(s.regs, list + {LR}))
      && t.regs[SP] == a && forall r :: 0 <= r < 13 ==> t.regs[r] == s.regs[r]
  {
    hide Add32, Bookkeep, ShouldExec, StoreRegisters, PutBytes, Writable, Frame;
    StoresWriteFrame(s, SP, list + {LR}, false, true, i, s.regs[SP] - 4 * (|list| + 1));
  }

  lemma PopStep(s: Machine, list: RegList, length: nat, saved: seq<word>, i: nat)
    requires ShouldExec(s) && list <= LOW_REGS && |saved| == 16
    requires Holds(s.mem, i, s.regs[SP], Frame(saved, list + {PC}))
    ensures var t := AfterPop(s, list, length);
      && t.regs[PC] == ClearBit0(saved[PC])
      && t.regs[SP] == s.regs[SP] + 4 * (|list| + 1)
      && (forall r :: 0 <= r < 13 ==> t.regs[r] == if r in list then saved[r] else s.regs[r])
      && !Exec(s, Multiple(Pop(list, true, false))).advancePc
  {
    hide Add32, Bookkeep, ShouldExec, LoadUp, Holds, ClearBit0, Read32;
    LoadUpReadsFrame(s.mem, i, s.regs[SP], s.regs, saved, list + {PC}, 0);
    FrameSize(saved, list + {PC});
    HeldInside(s.mem, i, s.regs[SP], Frame(saved, list + {PC}));
  }

  /** The frame pushed by s is still there in t. */
  ghost predicate LeavesFrame(s: Machine, t: Machine, i: nat, size: nat) {
    && t.regs[SP] == s.regs[SP] && SameLayout(s.mem, t.mem) && i < |s.mem|
    && s.mem[i].begin <= s.regs[SP] && s.regs[SP] + size <= s.mem[i].end
    && var at := s.regs[SP] - s.mem[i].begin;
       t.mem[i].data[at..][..size] == s.mem[i].data[at..][..size]
  }

  lemma FrameStays(s: Machine, t: Machine, i: nat, bytes: seq<byte>)
    requires Holds(s.mem, i, s.regs[SP], bytes) && LeavesFrame(s, t, i, |bytes|)
    ensures Holds(t.mem, i, t.regs[SP], bytes)
  {
    DisjointLayout(s.mem, t.mem);
  }

  lemma ReturnAddress(pc: word)
    requires pc % 2 == 0
    ensures ClearBit0(SetBit0(Add32(pc, 4))) == Add32(pc, 4)
  {
    assert Add32(pc, 4) % 2 == 0;
  }

  /** What the body of the called function has to do between its push and its pop. */
  ghost predicate KeepsFrame(s: Machine, imm: int, list: RegList, pushLength: nat, t: Machine, i: nat) {
    && ShouldExec(AfterBl(s, imm)) && ShouldExec(t)
    && LeavesFrame(AfterPush(AfterBl(s, imm), list, pushLength), t, i, 4 * (|list| + 1))
  }

  /** `bl`, then `push {list, lr}`, then anything that restores SP and leaves the frame alone, then
      `pop {list, pc}`: every listed register and SP are back, and execution goes on behind the `bl`. */
  lemma CallReturns(s: Machine, imm: int, list: RegList, pushLength: nat, t: Machine, popLength: nat, i: nat)
    requires s.regs[PC] % 2 == 0 && list <= LOW_REGS && ShouldExec(s)
    requires s.regs[SP] >= 4 * (|list| + 1)
    requires Writable(s.mem, i, s.regs[SP] - 4 * (|list| + 1), 4 * (|list| + 1))
    ensures KeepsFrame(s, imm, list, pushLength, t, i) ==>
      var u := AfterPop(t, list, popLength);
      && (forall r :: r in list ==> u.regs[r] == s.regs[r])
      && u.regs[SP] == s.regs[SP]
      && u.regs[PC] == Add32(s.regs[PC], 4)
      && !Exec(t, Multiple(Pop(list, true, false))).advancePc
  {
    hide AfterBl, AfterPush, AfterPop, Exec, ShouldExec, PutBytes, Writable, Frame, Holds, LeavesFrame;
    hide Add32, SetBit0, ClearBit0;
    if KeepsFrame(s, imm, list, pushLength, t, i) {
      var s1 := AfterBl(s, imm);
      var s2 := AfterPush(s1, list, pushLength);
      var (frame, saved) := (Frame(s1.regs, list + {LR}), s1.regs[PC := s1.regs[LR]]);
      BlStep(s, imm);
      PushStep(s1, list, pushLength, i);
      PutHolds(s1.mem, i, s2.regs[SP], frame);
      FrameStays(s2, t, i, frame);
      LinkFrame(s1.regs, list);
      PopStep(t, list, popLength, saved, i);
      ReturnAddress(s.regs[PC]);
      SpIsRestored(s2, t, i, 4 * (|list| + 1));
    }
  }

  lemma LinkFrame(regs: seq<word>, list: RegList)
    requires |regs| == 16 && list <= LOW_REGS
    ensures Frame(regs, list + {LR}) == Frame(regs[PC := regs[LR]], list + {PC})
  {
    LinkBecomesPc(regs, list, 0);
  }

  lemma SpIsRestored(s: Machine, t: Machine, i: nat, size: nat)
    requires LeavesFrame(s, t, i, size)
    ensures t.regs[SP] == s.regs[SP]
  {
  }
}

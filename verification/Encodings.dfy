/** From layouts to running code: enumerated encodings (InsnSet.py) placed in memory, fetched
    (cpu_cm3.c), and matched by the chain of arms or by the decision tree (Partitioner.py). */
module Encodings {
  import opened Bytes
  import opened Options
  import opened AddressSpace
  import opened Bitfield
  import opened Cpu
  import opened Arms
  import Bits
  import Partitioner

  // ----- the bytes of an encoding

  /** `_encoding_byteoffsets`: None is the exception. */
  function EncodingByteOffsets(bitlen: nat): Option<seq<nat>> {
    if bitlen == 16 then Some([0, 1]) else if bitlen == 32 then Some([2, 3, 0, 1]) else None
  }

  /** `(value >> (8 * i)) & 0xff` for every offset i. */
  function EncodingBytes(value: nat, offsets: seq<nat>): (b: seq<byte>)
    ensures |b| == |offsets|
  {
    if offsets == [] then []
    else
      var x := Bits.Shr(value, 8 * offsets[0]);
      Bits.AndByte(x);
      [Bits.And(x, 0xff)] + EncodingBytes(value, offsets[1..])
  }

  function AllEncodings(values: seq<nat>, offsets: seq<nat>): (e: seq<seq<byte>>)
    ensures |e| == |values| && forall i :: 0 <= i < |e| ==> e[i] == EncodingBytes(values[i], offsets)
  {
    seq(|values|, i requires 0 <= i < |values| => EncodingBytes(values[i], offsets))
  }

  /** What `enumerate_all` yields. */
  function Encodings(fs: seq<Field>): Option<seq<seq<byte>>> {
    match EncodingByteOffsets(Width(fs))
    case None => None
    case Some(offsets) => Some(AllEncodings(EnumerateAll(fs), offsets))
  }

  /** A little-endian halfword. */
  function Half(b0: byte, b1: byte): nat {
    b0 + 256 * b1
  }

  /** The word a decoder is given for the bytes of an encoding; the low half of a short one is `low`. */
  function InsnWord(b: seq<byte>, low: nat): nat
    requires |b| in {2, 4}
  {
    0x1_0000 * Half(b[0], b[1]) + if |b| == 4 then Half(b[2], b[3]) else low
  }

  lemma TwoBytes(x: nat)
    ensures EncodingBytes(x, [0, 1]) == [x % 256, x / 256 % 256]
  {
    hide Bits.And, Bits.Shr;
    Bits.ShrStep(x, 0);
    Bits.ByteOf(x, 0);
    Bits.ByteOf(x, 8);
    assert [0, 1][1..] == [1] && [1][1..] == [];
    assert EncodingBytes(x, [1]) == [x / 256 % 256];
  }

  lemma FourBytes(x: nat)
    ensures EncodingBytes(x, [2, 3, 0, 1]) ==
      [x / 256 / 256 % 256, x / 256 / 256 / 256 % 256, x % 256, x / 256 % 256]
  {
    hide Bits.And, Bits.Shr;
    TwoBytes(x);
    Bits.ShrStep(x, 0);
    Bits.ByteOf(x, 0);
    Bits.ByteOf(x, 8);
    Bits.ByteOf(x, 16);
    Bits.ByteOf(x, 24);
    assert [2, 3, 0, 1][1..] == [3, 0, 1] && [3, 0, 1][1..] == [0, 1];
    assert EncodingBytes(x, [3, 0, 1]) == [x / 256 / 256 / 256 % 256] + EncodingBytes(x, [0, 1]);
  }

  lemma TwoBytesAre(x: nat, b0: byte, b1: byte)
    requires x < 0x1_0000
    ensures x % 256 == b0 && x / 256 % 256 == b1 <==> x == Half(b0, b1)
  {
  }

  lemma FourBytesAre(x: nat, b: seq<byte>)
    requires |b| == 4 && x < 0x1_0000_0000
    ensures b == [x / 256 / 256 % 256, x / 256 / 256 / 256 % 256, x % 256, x / 256 % 256] <==> x == InsnWord(b, 0)
  {
    var (high, low) := (x / 0x1_0000, x % 0x1_0000);
    TwoBytesAre(high, b[0], b[1]);
    TwoBytesAre(low, b[2], b[3]);
    assert x / 256 / 256 == high && low % 256 == x % 256 && low / 256 % 256 == x / 256 % 256;
  }

  /** Bytes are the encoding of exactly one word. */
  lemma EncodesOneWord(x: nat, b: seq<byte>)
    requires |b| in {2, 4}
    ensures |b| == 2 && x < 0x1_0000 ==> (EncodingBytes(x, [0, 1]) == b <==> x == Half(b[0], b[1]))
    ensures |b| == 4 && x < 0x1_0000_0000 ==> (EncodingBytes(x, [2, 3, 0, 1]) == b <==> x == InsnWord(b, 0))
  {
    hide EncodingBytes, InsnWord;
    if |b| == 2 && x < 0x1_0000 {
      TwoBytes(x);
      TwoBytesAre(x, b[0], b[1]);
      assert b == [b[0], b[1]];
    } else if |b| == 4 && x < 0x1_0000_0000 {
      FourBytes(x);
      FourBytesAre(x, b);
    }
  }

  method EnumerateEncodings(fs: seq<Field>) returns (r: Option<seq<seq<byte>>>)
    ensures r == Encodings(fs)
  {
    hide EnumerateAll, EncodingBytes;
    var offsets := EncodingByteOffsets(Width(fs));
    if offsets.None? { return None; }
    var (values, yielded: seq<seq<byte>>) := (EnumerateAll(fs), []);
    for i := 0 to |values|
      invariant yielded == AllEncodings(values, offsets.value)[..i]
    {
      yielded := yielded + [EncodingBytes(values[i], offsets.value)];
    }
    assert yielded == AllEncodings(values, offsets.value);
    return Some(yielded);
  }

  // ----- fetched words and the widened test

  /** A halfword of memory holds two bytes. */
  ghost predicate HoldsHalf(m: Memory, address: word, b0: byte, b1: byte)
    requires WellFormed(m)
  {
    && address < 0xffff_ffff && Target(m, address, 2).Some?
    && ByteAt(m, address) == Some(b0) && ByteAt(m, address + 1) == Some(b1)
  }

  /** Memory holds an instruction's bytes, each of its halfwords in one slice. */
  ghost predicate Holds(m: Memory, pc: word, b: seq<byte>)
    requires WellFormed(m) && |b| in {2, 4}
  {
    HoldsHalf(m, pc, b[0], b[1]) && (|b| == 4 ==> pc < 0xffff_fffd && HoldsHalf(m, pc + 2, b[2], b[3]))
  }

  lemma ReadHalf(m: Memory, address: word, b0: byte, b1: byte)
    requires WellFormed(m) && Disjoint(m) && HoldsHalf(m, address, b0, b1)
    ensures Read(m, address, 2) == Half(b0, b1)
  {
    hide Target, ByteAt;
    var b := [b0, b1];
    forall k | 0 <= k < |b| && address + k < 0x1_0000_0000 ensures ByteAt(m, address + k) == Some(b[k]) {
      if k == 1 { assert ByteAt(m, address + 1) == Some(b1); }
    }
    ReadIsFlat(m, address, b);
    assert b[1..] == [b1] && [b1][1..] == [];
    assert FromLittleEndian(b[1..]) == b1;
  }

  lemma FetchIsInsnWord(m: Memory, pc: word, b: seq<byte>) returns (low: nat)
    requires WellFormed(m) && Disjoint(m) && |b| in {2, 4} && Holds(m, pc, b)
    ensures low < 0x1_0000 && FetchWord(m, pc) == InsnWord(b, low)
  {
    hide Target, ByteAt, HoldsHalf, Read;
    ReadHalf(m, pc, b[0], b[1]);
    ReadFits(m, Add32(pc, 2), 2);
    low := Read(m, Add32(pc, 2), 2);
    if |b| == 4 { ReadHalf(m, pc + 2, b[2], b[3]); }
  }

  /** The widened test of a shifted word is the plain test of the word. */
  lemma WidenedTest(fs: seq<Field>, base: nat, x: nat, low: nat)
    requires low < Bits.Pow2(base)
    ensures PassesTest(fs, base, Bits.Shl(x, base) + low) <==> PassesTest(fs, 0, x)
  {
    hide PassesTest;
    TestReadsConstants(fs, base, Bits.Shl(x, base) + low);
    TestReadsConstants(fs, 0, x);
    ShiftPlusLow(x, base, low);
  }

  /** The value whose encoding the bytes are. */
  function EncodedValue(b: seq<byte>): nat
    requires |b| in {2, 4}
  {
    if |b| == 2 then Half(b[0], b[1]) else InsnWord(b, 0)
  }

  /** A fetched word is the encoded value, moved up by as much as the layout is widened. */
  lemma FetchIsShifted(m: Memory, pc: word, b: seq<byte>) returns (low: nat)
    requires |b| in {2, 4} && WellFormed(m) && Disjoint(m) && Holds(m, pc, b)
    ensures var base := 32 - 8 * |b|;
      low < Bits.Pow2(base) && FetchWord(m, pc) == Bits.Shl(EncodedValue(b), base) + low
  {
    hide Holds, FetchWord, Bits.Shl, Bits.Pow2;
    low := FetchIsInsnWord(m, pc, b);
    Bits.BytePowers();
    ShiftSixteen(EncodedValue(b));
    if |b| == 4 { low := 0; }
  }

  /** A fetched word passes the opcode's widened test exactly when the bytes at the PC are one of the
      encodings that were enumerated for it, whatever stands behind a short one. */
  lemma FetchedWordPassesIff(fs: seq<Field>, m: Memory, pc: word, b: seq<byte>)
    requires Width(fs) in {16, 32} && 8 * |b| == Width(fs)
    requires WellFormed(m) && Disjoint(m) && Holds(m, pc, b)
    ensures PassesTest(fs, 32 - Width(fs), FetchWord(m, pc)) <==> b in Encodings(fs).value
  {
    hide *;
    var low := FetchIsShifted(m, pc, b);
    WidenedTest(fs, 32 - Width(fs), EncodedValue(b), low);
    EncodedValueFits(b);
    EnumerationIsExact(fs, EncodedValue(b));
    EncodingIn(fs, EncodedValue(b), b);
  }

  lemma EncodedValueFits(b: seq<byte>)
    requires |b| in {2, 4}
    ensures EncodedValue(b) < Bits.Pow2(8 * |b|)
  {
    hide Bits.Pow2;
    Bits.BytePowers();
  }

  /** Variables assembled into a layout, laid out as bytes and placed in memory come back from the
      fetched word: the opcode's test passes and every variable is extracted again. */
  lemma FetchedAssemblyDecodes(fs: seq<Field>, values: map<string, nat>, m: Memory, pc: word, b: seq<byte>)
    requires Width(fs) in {16, 32} && FitsLayout(fs, values)
    requires b == EncodingBytes(Assemble(fs, values), EncodingByteOffsets(Width(fs)).value)
    requires WellFormed(m) && Disjoint(m) && Holds(m, pc, b)
    ensures var (base, w) := (32 - Width(fs), FetchWord(m, pc));
      PassesTest(fs, base, w) && forall name :: name in values ==> Extract(fs, name, base, w) == values[name]
  {
    hide PassesTest, Extract, FitsLayout, EncodingBytes, Holds, FetchWord, Width, Assemble, EncodedValue;
    var low := FetchIsShifted(m, pc, b);
    AssembleThenDecode(fs, values, 32 - Width(fs), low);
    AssembledValue(fs, Assemble(fs, values), b);
  }

  lemma AssembledValue(fs: seq<Field>, x: nat, b: seq<byte>)
    requires Width(fs) in {16, 32} && x < Bits.Pow2(Width(fs))
    requires b == EncodingBytes(x, EncodingByteOffsets(Width(fs)).value)
    ensures EncodedValue(b) == x
  {
    hide EncodingBytes, Width, Bits.Pow2;
    Bits.BytePowers();
    EncodesOneWord(x, b);
  }

  lemma ShiftSixteen(x: nat)
    ensures Bits.Shl(x, 16) == 0x1_0000 * x && Bits.Shl(x, 0) == x
  {
    Bits.ShlIsMul(x, 16);
    Bits.BytePowers();
  }

  lemma EncodingIn(fs: seq<Field>, x: nat, b: seq<byte>)
    requires Width(fs) in {16, 32} && 8 * |b| == Width(fs)
    requires x == EncodedValue(b)
    ensures b in Encodings(fs).value <==> x in EnumerateAll(fs)
  {
    hide PassesTest, EnumerateAll, EncodingBytes, Width;
    var (values, all) := (EnumerateAll(fs), Encodings(fs).value);
    Bits.BytePowers();
    if b in all {
      var i :| 0 <= i < |all| && all[i] == b;
      EnumerationIsExact(fs, values[i]);
      assert values[i] in values;
      EncodesOneWord(values[i], b);
    }
    if x in values {
      var i :| 0 <= i < |values| && values[i] == x;
      EncodesOneWord(x, b);
      assert all[i] == b;
    }
  }

  // ----- the chain and the tree

  /** The arm generated for an opcode: its widened test, and its length in bytes. */
  ghost predicate Generated(arm: Arm, fs: seq<Field>) {
    && Width(fs) in {16, 32} && 8 * arm.length == Width(fs)
    && arm.mask == Bits.Shl(ConstantMask(fs), 32 - Width(fs)) && arm.cmp == Bits.Shl(ConstantValue(fs), 32 - Width(fs))
  }

  /** The bytes at the front are one of the encodings enumerated for a layout. */
  ghost predicate StartsEncoded(fs: seq<Field>, b: seq<byte>)
    requires Width(fs) in {16, 32} && |b| == 4
  {
    b[..Width(fs) / 8] in Encodings(fs).value
  }

  ghost predicate AllGenerated(arms: seq<Arm>, layouts: seq<seq<Field>>) {
    |layouts| == |arms| && forall i :: 0 <= i < |arms| ==> Generated(arms[i], layouts[i])
  }

  /** Arm k is the first whose layout has the bytes among its encodings. */
  ghost predicate FirstEncoded(arms: seq<Arm>, layouts: seq<seq<Field>>, b: seq<byte>, k: nat)
    requires AllGenerated(arms, layouts) && |b| == 4
  {
    k < |arms| && StartsEncoded(layouts[k], b) && forall i :: 0 <= i < k ==> !StartsEncoded(layouts[i], b)
  }

  lemma HoldsFront(m: Memory, pc: word, b: seq<byte>, n: nat)
    requires WellFormed(m) && |b| == 4 && n in {2, 4} && Holds(m, pc, b)
    ensures Holds(m, pc, b[..n])
  {
    hide HoldsHalf;
  }

  lemma ArmPassesIff(arm: Arm, fs: seq<Field>, m: Memory, pc: word, b: seq<byte>)
    requires Generated(arm, fs) && |b| == 4 && WellFormed(m) && Disjoint(m) && Holds(m, pc, b)
    ensures Bits.And(FetchWord(m, pc), arm.mask) == arm.cmp <==> StartsEncoded(fs, b)
  {
    hide Holds, FetchWord, Encodings, Width, ConstantMask, ConstantValue, Bits.And, Bits.Shl;
    HoldsFront(m, pc, b, Width(fs) / 8);
    FetchedWordPassesIff(fs, m, pc, b[..Width(fs) / 8]);
  }

  lemma ArmsPassIff(arms: seq<Arm>, layouts: seq<seq<Field>>, m: Memory, pc: word, b: seq<byte>)
    requires AllGenerated(arms, layouts) && |b| == 4 && WellFormed(m) && Disjoint(m) && Holds(m, pc, b)
    ensures forall i :: 0 <= i < |arms| ==>
      (Bits.And(FetchWord(m, pc), arms[i].mask) == arms[i].cmp <==> StartsEncoded(layouts[i], b))
  {
    hide Holds, FetchWord, StartsEncoded, Width, ConstantMask, ConstantValue, Bits.And, Bits.Shl;
    forall i | 0 <= i < |arms|
      ensures Bits.And(FetchWord(m, pc), arms[i].mask) == arms[i].cmp <==> StartsEncoded(layouts[i], b)
    {
      ArmPassesIff(arms[i], layouts[i], m, pc, b);
    }
  }

  /** The bytes at the PC are decoded by the first opcode of a generated chain that has them among its
      encodings, with that opcode's length. */
  lemma FirstEncodingDecodes(
      arms: seq<Arm>, layouts: seq<seq<Field>>, m: Memory, pc: word, b: seq<byte>, k: nat)
    requires AllGenerated(arms, layouts) && |b| == 4
    requires WellFormed(m) && Disjoint(m) && Holds(m, pc, b)
    ensures FirstEncoded(arms, layouts, b, k) ==>
      Decode(arms, FetchWord(m, pc)) == (Width(layouts[k]) / 8, Some(arms[k].decode(FetchWord(m, pc))))
  {
    hide Holds, FetchWord, StartsEncoded, Decode, Bits.And, ConstantMask, ConstantValue, Width, Bits.Shl;
    if FirstEncoded(arms, layouts, b, k) {
      ArmsPassIff(arms, layouts, m, pc, b);
      DecodesFirstPassing(arms, k, FetchWord(m, pc));
    }
  }

  /** And by none when no opcode has them. */
  lemma NoEncodingDecodes(arms: seq<Arm>, layouts: seq<seq<Field>>, m: Memory, pc: word, b: seq<byte>)
    requires AllGenerated(arms, layouts) && |b| == 4 && (forall k :: 0 <= k < |arms| ==> !StartsEncoded(layouts[k], b))
    requires WellFormed(m) && Disjoint(m) && Holds(m, pc, b)
    ensures Decode(arms, FetchWord(m, pc)) == (0, None)
  {
    hide Holds, FetchWord, StartsEncoded, Decode, Width, ConstantMask, ConstantValue, Bits.And, Bits.Shl;
    ArmsPassIff(arms, layouts, m, pc, b);
    NonePassing(arms, FetchWord(m, pc));
  }

  /** The element of each arm carries the arm's test. */
  ghost predicate SameTests(arms: seq<Arm>, es: seq<Partitioner.Element>) {
    |es| == |arms| && forall k :: 0 <= k < |arms| ==> es[k].bitmask == arms[k].mask && es[k].bitvalue == arms[k].cmp
  }

  ghost predicate DecodedBy(
      arms: seq<Arm>, es: seq<Partitioner.Element>, k: nat, e: Partitioner.Element, opcode: word) {
    && k < |arms| && k < |es| && es[k] == e
    && Decode(arms, opcode) == (arms[k].length, Some(arms[k].decode(opcode)))
  }

  /** What the arms decode is what the arm of the first match says. */
  ghost predicate DecodedByFirst(
      arms: seq<Arm>, es: seq<Partitioner.Element>, first: Option<Partitioner.Element>, opcode: word) {
    match first
    case None => Decode(arms, opcode) == (0, None)
    case Some(e) => exists k: nat :: DecodedBy(arms, es, k, e, opcode)
  }

  lemma DecodedByLater(arms: seq<Arm>, es: seq<Partitioner.Element>, first: Option<Partitioner.Element>, opcode: word)
    requires SameTests(arms, es) && arms != [] && !Partitioner.Matches(es[0], opcode)
    requires DecodedByFirst(arms[1..], es[1..], first, opcode)
    ensures DecodedByFirst(arms, es, first, opcode)
  {
    hide Bits.And;
    if first.Some? {
      var k: nat :| DecodedBy(arms[1..], es[1..], k, first.value, opcode);
      assert DecodedBy(arms, es, k + 1, first.value, opcode);
    }
  }

  lemma {:induction false} ChainIsFirstMatch(arms: seq<Arm>, es: seq<Partitioner.Element>, opcode: word)
    requires SameTests(arms, es)
    ensures DecodedByFirst(arms, es, Partitioner.FirstMatch(es, opcode), opcode)
  {
    hide Bits.And;
    if arms != [] {
      if Partitioner.Matches(es[0], opcode) {
        assert DecodedBy(arms, es, 0, es[0], opcode);
      } else {
        ChainIsFirstMatch(arms[1..], es[1..], opcode);
        DecodedByLater(arms, es, Partitioner.FirstMatch(es[1..], opcode), opcode);
      }
    }
  }

  /** Descending the partitioned arms and trying what is left at the leaf decodes every opcode as the
      whole chain of arms does. */
  lemma TreeDecodes(arms: seq<Arm>, es: seq<Partitioner.Element>, t: Partitioner.Tree, opcode: word)
    requires SameTests(arms, es) && (Partitioner.Grown(t, es) || (t.Node? && Partitioner.Divided(t, es)))
    ensures DecodedByFirst(arms, es, Partitioner.FirstMatch(Partitioner.Descend(t, opcode), opcode), opcode)
  {
    hide *;
    ChainIsFirstMatch(arms, es, opcode);
    if Partitioner.Grown(t, es) {
      Partitioner.TreeAgreesWithChain(t, es, opcode);
    } else {
      Partitioner.DividedAgreesWithChain(t, es, opcode);
    }
  }
}

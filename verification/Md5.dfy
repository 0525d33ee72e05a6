/** The streaming MD5 of gdbserver/md5.c, proved against the whole-message specification. */
module Md5 {
  import opened Bytes
  import opened Md5Spec

  // ----- the macros

  function FMacro(x: bv32, y: bv32, z: bv32): bv32 { z ^ (x & (y ^ z)) }

  function GMacro(x: bv32, y: bv32, z: bv32): bv32 { y ^ (z & (x ^ y)) }

  function HMacro(x: bv32, y: bv32, z: bv32): bv32 { (x ^ y) ^ z }

  function H2Macro(x: bv32, y: bv32, z: bv32): bv32 { x ^ (y ^ z) }

  function IMacro(x: bv32, y: bv32, z: bv32): bv32 { y ^ (x | !z) }

  /** What the STEP macro leaves in its variable a, for f already applied. */
  function Step(f: bv32, a: bv32, b: bv32, x: bv32, t: bv32, s: bv6): bv32
    requires s <= 32
  {
    Plus(Shifted(Plus(a, f + x + t), s), b)
  }

  function Shifted(a: bv32, s: bv6): bv32
    requires s <= 32
  {
    (a << s) | ((a & 0xffffffff) >> (32 - s))
  }

  lemma FWithoutAndNot(x: bv32, y: bv32, z: bv32)
    ensures z ^ (x & (y ^ z)) == (x & y) | (!x & z)
  {
  }

  lemma FIsAuxiliary(x: bv32, y: bv32, z: bv32)
    ensures FMacro(x, y, z) == F(x, y, z)
  {
    FWithoutAndNot(x, y, z);
  }

  lemma GWithoutAndNot(x: bv32, y: bv32, z: bv32)
    ensures y ^ (z & (x ^ y)) == (x & z) | (y & !z)
  {
  }

  lemma GIsAuxiliary(x: bv32, y: bv32, z: bv32)
    ensures GMacro(x, y, z) == G(x, y, z)
  {
    GWithoutAndNot(x, y, z);
  }

  lemma HIsAuxiliary(x: bv32, y: bv32, z: bv32)
    ensures HMacro(x, y, z) == H(x, y, z) == H2Macro(x, y, z)
  {
  }

  /** The shift-or of the macro rotates. */
  lemma ShiftsRotate(x: bv32, i: nat)
    requires i < 64
    ensures Distance(i) <= 32
    ensures Shifted(x, Distance(i)) == RotateLeft(x, Distance(i))
  {
    assert (x & 0xffffffff) == x;
    if Distance(i) == 7 {
      assert (x << 7) | (x >> 25) == x.RotateLeft(7);
    } else if Distance(i) == 12 {
      assert (x << 12) | (x >> 20) == x.RotateLeft(12);
    } else if Distance(i) == 17 {
      assert (x << 17) | (x >> 15) == x.RotateLeft(17);
    } else if Distance(i) == 22 {
      assert (x << 22) | (x >> 10) == x.RotateLeft(22);
    } else if Distance(i) == 5 {
      assert (x << 5) | (x >> 27) == x.RotateLeft(5);
    } else if Distance(i) == 9 {
      assert (x << 9) | (x >> 23) == x.RotateLeft(9);
    } else if Distance(i) == 14 {
      assert (x << 14) | (x >> 18) == x.RotateLeft(14);
    } else if Distance(i) == 20 {
      assert (x << 20) | (x >> 12) == x.RotateLeft(20);
    } else if Distance(i) == 4 {
      assert (x << 4) | (x >> 28) == x.RotateLeft(4);
    } else if Distance(i) == 11 {
      assert (x << 11) | (x >> 21) == x.RotateLeft(11);
    } else if Distance(i) == 16 {
      assert (x << 16) | (x >> 16) == x.RotateLeft(16);
    } else if Distance(i) == 23 {
      assert (x << 23) | (x >> 9) == x.RotateLeft(23);
    } else if Distance(i) == 6 {
      assert (x << 6) | (x >> 26) == x.RotateLeft(6);
    } else if Distance(i) == 10 {
      assert (x << 10) | (x >> 22) == x.RotateLeft(10);
    } else if Distance(i) == 15 {
      assert (x << 15) | (x >> 17) == x.RotateLeft(15);
    } else if Distance(i) == 21 {
      assert (x << 21) | (x >> 11) == x.RotateLeft(21);
    }
  }

  lemma SumsAssociate(a: bv32, f: bv32, x: bv32, t: bv32)
    ensures a + (f + x + t) == a + f + x + t
  {
  }

  lemma SumsAgree(a: bv32, f: bv32, x: bv32, t: bv32)
    ensures Plus(a, f + x + t) == Sum(a, f, x, t)
  {
    SumsAssociate(a, f, x, t);
  }

  /** The f that step i applies; round 3 alternates between H and H2. */
  function Macro(i: nat, x: bv32, y: bv32, z: bv32): bv32 {
    match i / 16
    case 0 => FMacro(x, y, z)
    case 1 => GMacro(x, y, z)
    case 2 => if i % 2 == 0 then HMacro(x, y, z) else H2Macro(x, y, z)
    case _ => IMacro(x, y, z)
  }

  lemma MacroIsAuxiliary(i: nat, x: bv32, y: bv32, z: bv32)
    ensures Macro(i, x, y, z) == Auxiliary(i, x, y, z)
  {
    hide F, G, H, I, FMacro, GMacro, HMacro, H2Macro, IMacro;
    FIsAuxiliary(x, y, z);
    GIsAuxiliary(x, y, z);
    HIsAuxiliary(x, y, z);
    IIsAuxiliary(x, y, z);
  }

  lemma IIsAuxiliary(x: bv32, y: bv32, z: bv32)
    ensures IMacro(x, y, z) == I(x, y, z)
  {
  }

  lemma SumCommutes(x: bv32, y: bv32)
    ensures Plus(x, y) == Plus(y, x)
  {
  }

  lemma StepIsMix(i: nat, f: bv32, a: bv32, b: bv32, x: bv32, t: bv32)
    requires i < 64
    ensures Distance(i) <= 32
    ensures Step(f, a, b, x, t, Distance(i)) == Mix(f, a, b, x, t, Distance(i))
  {
    hide RotateLeft, Distance, Shifted, Sum, Plus;
    SumsAgree(a, f, x, t);
    ShiftsRotate(Sum(a, f, x, t), i);
    SumCommutes(RotateLeft(Sum(a, f, x, t), Distance(i)), b);
  }

  /** One STEP is one round of the specification. */
  lemma StepIsRound(i: nat, s: State, x: seq<bv32>)
    requires i < 64 && |x| == 16
    ensures Distance(i) <= 32
    ensures Round(i, s, x) ==
      State(s.d, Step(Macro(i, s.b, s.c, s.d), s.a, s.b, x[Index(i)], T(i), Distance(i)), s.b, s.c)
  {
    hide Macro, Auxiliary, Step, Mix, Distance, T, Index;
    MacroIsAuxiliary(i, s.b, s.c, s.d);
    StepIsMix(i, Macro(i, s.b, s.c, s.d), s.a, s.b, x[Index(i)], T(i));
  }

  /** What four STEPs with rotating roles leave in a, b, c and d. */
  function FourSteps(i: nat, s: State, x: seq<bv32>): State
    requires |x| == 16 && forall k :: i <= k < i + 4 ==> Distance(k) <= 32
  {
    var a := Step(Macro(i, s.b, s.c, s.d), s.a, s.b, x[Index(i)], T(i), Distance(i));
    var d := Step(Macro(i + 1, a, s.b, s.c), s.d, a, x[Index(i + 1)], T(i + 1), Distance(i + 1));
    var c := Step(Macro(i + 2, d, a, s.b), s.c, d, x[Index(i + 2)], T(i + 2), Distance(i + 2));
    var b := Step(Macro(i + 3, c, d, a), s.b, c, x[Index(i + 3)], T(i + 3), Distance(i + 3));
    State(a, b, c, d)
  }

  lemma FourStepsAreRounds(i: nat, s: State, x: seq<bv32>)
    requires |x| == 16 && i + 4 <= 64
    ensures forall k :: i <= k < i + 4 ==> Distance(k) <= 32
    ensures Rounds(i + 4, s, x) == FourSteps(i, Rounds(i, s, x), x)
  {
    hide Round, Macro, Step, T, Index, Distance;
    forall k | i <= k < i + 4 ensures Distance(k) <= 32 { StepIsRound(k, s, x); }
    var (s0, s1, s2, s3) := (Rounds(i, s, x), Rounds(i + 1, s, x), Rounds(i + 2, s, x), Rounds(i + 3, s, x));
    StepIsRound(i, s0, x);
    StepIsRound(i + 1, s1, x);
    StepIsRound(i + 2, s2, x);
    StepIsRound(i + 3, s3, x);
  }

  /** The words and table entries that steps i to i + 3 use. */
  ghost predicate Uses(i: nat, k: (nat, nat, nat, nat), t: (bv32, bv32, bv32, bv32)) {
    && k == (Index(i), Index(i + 1), Index(i + 2), Index(i + 3))
    && t == TableRow(i / 4)
  }

  lemma DistancesOfRound(i: nat)
    requires i < 64 && i % 4 == 0
    ensures (Distance(i), Distance(i + 1), Distance(i + 2), Distance(i + 3)) ==
      match i / 16
      case 0 => (7, 12, 17, 22)
      case 1 => (5, 9, 14, 20)
      case 2 => (4, 11, 16, 23)
      case _ => (6, 10, 15, 21)
  {
  }

  lemma MacroOfRound(i: nat, x: bv32, y: bv32, z: bv32)
    ensures Macro(i, x, y, z) ==
      match i / 16
      case 0 => FMacro(x, y, z)
      case 1 => GMacro(x, y, z)
      case 2 => if i % 2 == 0 then HMacro(x, y, z) else H2Macro(x, y, z)
      case _ => IMacro(x, y, z)
  {
    hide FMacro, GMacro, HMacro, H2Macro, IMacro;
  }

  lemma RowsOfTable(i: nat)
    requires i % 4 == 0
    ensures TableRow(i / 4) == (T(i), T(i + 1), T(i + 2), T(i + 3))
  {
    hide TableRow;
  }

  lemma FourStepsOfRound1(i: nat, s: State, x: seq<bv32>, k: (nat, nat, nat, nat), t: (bv32, bv32, bv32, bv32))
    requires |x| == 16 && 0 <= i < 16 && i % 4 == 0 && Uses(i, k, t)
    ensures
      var s' := Rounds(i, s, x);
      var a := Step(FMacro(s'.b, s'.c, s'.d), s'.a, s'.b, x[k.0], t.0, 7);
      var d := Step(FMacro(a, s'.b, s'.c), s'.d, a, x[k.1], t.1, 12);
      var c := Step(FMacro(d, a, s'.b), s'.c, d, x[k.2], t.2, 17);
      var b := Step(FMacro(c, d, a), s'.b, c, x[k.3], t.3, 22);
      Rounds(i + 4, s, x) == State(a, b, c, d)
  {
    hide Step, Rounds, FMacro, GMacro, HMacro, H2Macro, IMacro, T, TableRow, Index, Distance, Macro;
    RowsOfTable(i);
    DistancesOfRound(i);
    FourStepsAreRounds(i, s, x);
    var s' := Rounds(i, s, x);
    var a := Step(FMacro(s'.b, s'.c, s'.d), s'.a, s'.b, x[k.0], t.0, 7);
    var d := Step(FMacro(a, s'.b, s'.c), s'.d, a, x[k.1], t.1, 12);
    var c := Step(FMacro(d, a, s'.b), s'.c, d, x[k.2], t.2, 17);
    MacroOfRound(i, s'.b, s'.c, s'.d);
    MacroOfRound(i + 1, a, s'.b, s'.c);
    MacroOfRound(i + 2, d, a, s'.b);
    MacroOfRound(i + 3, c, d, a);
  }

  lemma FourStepsOfRound2(i: nat, s: State, x: seq<bv32>, k: (nat, nat, nat, nat), t: (bv32, bv32, bv32, bv32))
    requires |x| == 16 && 16 <= i < 32 && i % 4 == 0 && Uses(i, k, t)
    ensures
      var s' := Rounds(i, s, x);
      var a := Step(GMacro(s'.b, s'.c, s'.d), s'.a, s'.b, x[k.0], t.0, 5);
      var d := Step(GMacro(a, s'.b, s'.c), s'.d, a, x[k.1], t.1, 9);
      var c := Step(GMacro(d, a, s'.b), s'.c, d, x[k.2], t.2, 14);
      var b := Step(GMacro(c, d, a), s'.b, c, x[k.3], t.3, 20);
      Rounds(i + 4, s, x) == State(a, b, c, d)
  {
    hide Step, Rounds, FMacro, GMacro, HMacro, H2Macro, IMacro, T, TableRow, Index, Distance, Macro;
    RowsOfTable(i);
    DistancesOfRound(i);
    FourStepsAreRounds(i, s, x);
    var s' := Rounds(i, s, x);
    var a := Step(GMacro(s'.b, s'.c, s'.d), s'.a, s'.b, x[k.0], t.0, 5);
    var d := Step(GMacro(a, s'.b, s'.c), s'.d, a, x[k.1], t.1, 9);
    var c := Step(GMacro(d, a, s'.b), s'.c, d, x[k.2], t.2, 14);
    MacroOfRound(i, s'.b, s'.c, s'.d);
    MacroOfRound(i + 1, a, s'.b, s'.c);
    MacroOfRound(i + 2, d, a, s'.b);
    MacroOfRound(i + 3, c, d, a);
  }

  lemma FourStepsOfRound3(i: nat, s: State, x: seq<bv32>, k: (nat, nat, nat, nat), t: (bv32, bv32, bv32, bv32))
    requires |x| == 16 && 32 <= i < 48 && i % 4 == 0 && Uses(i, k, t)
    ensures
      var s' := Rounds(i, s, x);
      var a := Step(HMacro(s'.b, s'.c, s'.d), s'.a, s'.b, x[k.0], t.0, 4);
      var d := Step(H2Macro(a, s'.b, s'.c), s'.d, a, x[k.1], t.1, 11);
      var c := Step(HMacro(d, a, s'.b), s'.c, d, x[k.2], t.2, 16);
      var b := Step(H2Macro(c, d, a), s'.b, c, x[k.3], t.3, 23);
      Rounds(i + 4, s, x) == State(a, b, c, d)
  {
    hide Step, Rounds, FMacro, GMacro, HMacro, H2Macro, IMacro, T, TableRow, Index, Distance, Macro;
    RowsOfTable(i);
    DistancesOfRound(i);
    FourStepsAreRounds(i, s, x);
    var s' := Rounds(i, s, x);
    var a := Step(HMacro(s'.b, s'.c, s'.d), s'.a, s'.b, x[k.0], t.0, 4);
    var d := Step(H2Macro(a, s'.b, s'.c), s'.d, a, x[k.1], t.1, 11);
    var c := Step(HMacro(d, a, s'.b), s'.c, d, x[k.2], t.2, 16);
    MacroOfRound(i, s'.b, s'.c, s'.d);
    MacroOfRound(i + 1, a, s'.b, s'.c);
    MacroOfRound(i + 2, d, a, s'.b);
    MacroOfRound(i + 3, c, d, a);
  }

  lemma FourStepsOfRound4(i: nat, s: State, x: seq<bv32>, k: (nat, nat, nat, nat), t: (bv32, bv32, bv32, bv32))
    requires |x| == 16 && 48 <= i < 64 && i % 4 == 0 && Uses(i, k, t)
    ensures
      var s' := Rounds(i, s, x);
      var a := Step(IMacro(s'.b, s'.c, s'.d), s'.a, s'.b, x[k.0], t.0, 6);
      var d := Step(IMacro(a, s'.b, s'.c), s'.d, a, x[k.1], t.1, 10);
      var c := Step(IMacro(d, a, s'.b), s'.c, d, x[k.2], t.2, 15);
      var b := Step(IMacro(c, d, a), s'.b, c, x[k.3], t.3, 21);
      Rounds(i + 4, s, x) == State(a, b, c, d)
  {
    hide Step, Rounds, FMacro, GMacro, HMacro, H2Macro, IMacro, T, TableRow, Index, Distance, Macro;
    RowsOfTable(i);
    DistancesOfRound(i);
    FourStepsAreRounds(i, s, x);
    var s' := Rounds(i, s, x);
    var a := Step(IMacro(s'.b, s'.c, s'.d), s'.a, s'.b, x[k.0], t.0, 6);
    var d := Step(IMacro(a, s'.b, s'.c), s'.d, a, x[k.1], t.1, 10);
    var c := Step(IMacro(d, a, s'.b), s'.c, d, x[k.2], t.2, 15);
    MacroOfRound(i, s'.b, s'.c, s'.d);
    MacroOfRound(i + 1, a, s'.b, s'.c);
    MacroOfRound(i + 2, d, a, s'.b);
    MacroOfRound(i + 3, c, d, a);
  }

  lemma Round1Table()
    ensures Uses(0, (0, 1, 2, 3), (0xd76aa478, 0xe8c7b756, 0x242070db, 0xc1bdceee))
    ensures Uses(4, (4, 5, 6, 7), (0xf57c0faf, 0x4787c62a, 0xa8304613, 0xfd469501))
    ensures Uses(8, (8, 9, 10, 11), (0x698098d8, 0x8b44f7af, 0xffff5bb1, 0x895cd7be))
    ensures Uses(12, (12, 13, 14, 15), (0x6b901122, 0xfd987193, 0xa679438e, 0x49b40821))
  {
  }

  lemma Round2Table()
    ensures Uses(16, (1, 6, 11, 0), (0xf61e2562, 0xc040b340, 0x265e5a51, 0xe9b6c7aa))
    ensures Uses(20, (5, 10, 15, 4), (0xd62f105d, 0x02441453, 0xd8a1e681, 0xe7d3fbc8))
    ensures Uses(24, (9, 14, 3, 8), (0x21e1cde6, 0xc33707d6, 0xf4d50d87, 0x455a14ed))
    ensures Uses(28, (13, 2, 7, 12), (0xa9e3e905, 0xfcefa3f8, 0x676f02d9, 0x8d2a4c8a))
  {
  }

  lemma Round3Table()
    ensures Uses(32, (5, 8, 11, 14), (0xfffa3942, 0x8771f681, 0x6d9d6122, 0xfde5380c))
    ensures Uses(36, (1, 4, 7, 10), (0xa4beea44, 0x4bdecfa9, 0xf6bb4b60, 0xbebfbc70))
    ensures Uses(40, (13, 0, 3, 6), (0x289b7ec6, 0xeaa127fa, 0xd4ef3085, 0x04881d05))
    ensures Uses(44, (9, 12, 15, 2), (0xd9d4d039, 0xe6db99e5, 0x1fa27cf8, 0xc4ac5665))
  {
  }

  lemma Round4Table()
    ensures Uses(48, (0, 7, 14, 5), (0xf4292244, 0x432aff97, 0xab9423a7, 0xfc93a039))
    ensures Uses(52, (12, 3, 10, 1), (0x655b59c3, 0x8f0ccc92, 0xffeff47d, 0x85845dd1))
    ensures Uses(56, (8, 15, 6, 13), (0x6fa87e4f, 0xfe2ce6e0, 0xa3014314, 0x4e0811a1))
    ensures Uses(60, (4, 11, 2, 9), (0xf7537e82, 0xbd3af235, 0x2ad7d2bb, 0xeb86d391))
  {
  }

  // ----- the unrolled transformation

  method Round1(a0: bv32, b0: bv32, c0: bv32, d0: bv32, x: seq<bv32>, ghost s: State)
    returns (a: bv32, b: bv32, c: bv32, d: bv32)
    requires |x| == 16 && State(a0, b0, c0, d0) == Rounds(0, s, x)
    ensures State(a, b, c, d) == Rounds(16, s, x)
  {
    hide Step, FMacro, GMacro, HMacro, H2Macro, IMacro, Rounds, Uses, TableRow, Index;
    Round1Table();
    a, b, c, d := a0, b0, c0, d0;
    FourStepsOfRound1(0, s, x, (0, 1, 2, 3), (0xd76aa478, 0xe8c7b756, 0x242070db, 0xc1bdceee));
    a := Step(FMacro(b, c, d), a, b, x[0], 0xd76aa478, 7);
    d := Step(FMacro(a, b, c), d, a, x[1], 0xe8c7b756, 12);
    c := Step(FMacro(d, a, b), c, d, x[2], 0x242070db, 17);
    b := Step(FMacro(c, d, a), b, c, x[3], 0xc1bdceee, 22);
    FourStepsOfRound1(4, s, x, (4, 5, 6, 7), (0xf57c0faf, 0x4787c62a, 0xa8304613, 0xfd469501));
    a := Step(FMacro(b, c, d), a, b, x[4], 0xf57c0faf, 7);
    d := Step(FMacro(a, b, c), d, a, x[5], 0x4787c62a, 12);
    c := Step(FMacro(d, a, b), c, d, x[6], 0xa8304613, 17);
    b := Step(FMacro(c, d, a), b, c, x[7], 0xfd469501, 22);
    FourStepsOfRound1(8, s, x, (8, 9, 10, 11), (0x698098d8, 0x8b44f7af, 0xffff5bb1, 0x895cd7be));
    a := Step(FMacro(b, c, d), a, b, x[8], 0x698098d8, 7);
    d := Step(FMacro(a, b, c), d, a, x[9], 0x8b44f7af, 12);
    c := Step(FMacro(d, a, b), c, d, x[10], 0xffff5bb1, 17);
    b := Step(FMacro(c, d, a), b, c, x[11], 0x895cd7be, 22);
    FourStepsOfRound1(12, s, x, (12, 13, 14, 15), (0x6b901122, 0xfd987193, 0xa679438e, 0x49b40821));
    a := Step(FMacro(b, c, d), a, b, x[12], 0x6b901122, 7);
    d := Step(FMacro(a, b, c), d, a, x[13], 0xfd987193, 12);
    c := Step(FMacro(d, a, b), c, d, x[14], 0xa679438e, 17);
    b := Step(FMacro(c, d, a), b, c, x[15], 0x49b40821, 22);
  }

  method Round2(a0: bv32, b0: bv32, c0: bv32, d0: bv32, x: seq<bv32>, ghost s: State)
    returns (a: bv32, b: bv32, c: bv32, d: bv32)
    requires |x| == 16 && State(a0, b0, c0, d0) == Rounds(16, s, x)
    ensures State(a, b, c, d) == Rounds(32, s, x)
  {
    hide Step, FMacro, GMacro, HMacro, H2Macro, IMacro, Rounds, Uses, TableRow, Index;
    Round2Table();
    a, b, c, d := a0, b0, c0, d0;
    FourStepsOfRound2(16, s, x, (1, 6, 11, 0), (0xf61e2562, 0xc040b340, 0x265e5a51, 0xe9b6c7aa));
    a := Step(GMacro(b, c, d), a, b, x[1], 0xf61e2562, 5);
    d := Step(GMacro(a, b, c), d, a, x[6], 0xc040b340, 9);
    c := Step(GMacro(d, a, b), c, d, x[11], 0x265e5a51, 14);
    b := Step(GMacro(c, d, a), b, c, x[0], 0xe9b6c7aa, 20);
    FourStepsOfRound2(20, s, x, (5, 10, 15, 4), (0xd62f105d, 0x02441453, 0xd8a1e681, 0xe7d3fbc8));
    a := Step(GMacro(b, c, d), a, b, x[5], 0xd62f105d, 5);
    d := Step(GMacro(a, b, c), d, a, x[10], 0x02441453, 9);
    c := Step(GMacro(d, a, b), c, d, x[15], 0xd8a1e681, 14);
    b := Step(GMacro(c, d, a), b, c, x[4], 0xe7d3fbc8, 20);
    FourStepsOfRound2(24, s, x, (9, 14, 3, 8), (0x21e1cde6, 0xc33707d6, 0xf4d50d87, 0x455a14ed));
    a := Step(GMacro(b, c, d), a, b, x[9], 0x21e1cde6, 5);
    d := Step(GMacro(a, b, c), d, a, x[14], 0xc33707d6, 9);
    c := Step(GMacro(d, a, b), c, d, x[3], 0xf4d50d87, 14);
    b := Step(GMacro(c, d, a), b, c, x[8], 0x455a14ed, 20);
    FourStepsOfRound2(28, s, x, (13, 2, 7, 12), (0xa9e3e905, 0xfcefa3f8, 0x676f02d9, 0x8d2a4c8a));
    a := Step(GMacro(b, c, d), a, b, x[13], 0xa9e3e905, 5);
    d := Step(GMacro(a, b, c), d, a, x[2], 0xfcefa3f8, 9);
    c := Step(GMacro(d, a, b), c, d, x[7], 0x676f02d9, 14);
    b := Step(GMacro(c, d, a), b, c, x[12], 0x8d2a4c8a, 20);
  }

  method Round3(a0: bv32, b0: bv32, c0: bv32, d0: bv32, x: seq<bv32>, ghost s: State)
    returns (a: bv32, b: bv32, c: bv32, d: bv32)
    requires |x| == 16 && State(a0, b0, c0, d0) == Rounds(32, s, x)
    ensures State(a, b, c, d) == Rounds(48, s, x)
  {
    hide Step, FMacro, GMacro, HMacro, H2Macro, IMacro, Rounds, Uses, TableRow, Index;
    Round3Table();
    a, b, c, d := a0, b0, c0, d0;
    FourStepsOfRound3(32, s, x, (5, 8, 11, 14), (0xfffa3942, 0x8771f681, 0x6d9d6122, 0xfde5380c));
    a := Step(HMacro(b, c, d), a, b, x[5], 0xfffa3942, 4);
    d := Step(H2Macro(a, b, c), d, a, x[8], 0x8771f681, 11);
    c := Step(HMacro(d, a, b), c, d, x[11], 0x6d9d6122, 16);
    b := Step(H2Macro(c, d, a), b, c, x[14], 0xfde5380c, 23);
    FourStepsOfRound3(36, s, x, (1, 4, 7, 10), (0xa4beea44, 0x4bdecfa9, 0xf6bb4b60, 0xbebfbc70));
    a := Step(HMacro(b, c, d), a, b, x[1], 0xa4beea44, 4);
    d := Step(H2Macro(a, b, c), d, a, x[4], 0x4bdecfa9, 11);
    c := Step(HMacro(d, a, b), c, d, x[7], 0xf6bb4b60, 16);
    b := Step(H2Macro(c, d, a), b, c, x[10], 0xbebfbc70, 23);
    FourStepsOfRound3(40, s, x, (13, 0, 3, 6), (0x289b7ec6, 0xeaa127fa, 0xd4ef3085, 0x04881d05));
    a := Step(HMacro(b, c, d), a, b, x[13], 0x289b7ec6, 4);
    d := Step(H2Macro(a, b, c), d, a, x[0], 0xeaa127fa, 11);
    c := Step(HMacro(d, a, b), c, d, x[3], 0xd4ef3085, 16);
    b := Step(H2Macro(c, d, a), b, c, x[6], 0x04881d05, 23);
    FourStepsOfRound3(44, s, x, (9, 12, 15, 2), (0xd9d4d039, 0xe6db99e5, 0x1fa27cf8, 0xc4ac5665));
    a := Step(HMacro(b, c, d), a, b, x[9], 0xd9d4d039, 4);
    d := Step(H2Macro(a, b, c), d, a, x[12], 0xe6db99e5, 11);
    c := Step(HMacro(d, a, b), c, d, x[15], 0x1fa27cf8, 16);
    b := Step(H2Macro(c, d, a), b, c, x[2], 0xc4ac5665, 23);
  }

  method Round4(a0: bv32, b0: bv32, c0: bv32, d0: bv32, x: seq<bv32>, ghost s: State)
    returns (a: bv32, b: bv32, c: bv32, d: bv32)
    requires |x| == 16 && State(a0, b0, c0, d0) == Rounds(48, s, x)
    ensures State(a, b, c, d) == Rounds(64, s, x)
  {
    hide Step, FMacro, GMacro, HMacro, H2Macro, IMacro, Rounds, Uses, TableRow, Index;
    Round4Table();
    a, b, c, d := a0, b0, c0, d0;
    FourStepsOfRound4(48, s, x, (0, 7, 14, 5), (0xf4292244, 0x432aff97, 0xab9423a7, 0xfc93a039));
    a := Step(IMacro(b, c, d), a, b, x[0], 0xf4292244, 6);
    d := Step(IMacro(a, b, c), d, a, x[7], 0x432aff97, 10);
    c := Step(IMacro(d, a, b), c, d, x[14], 0xab9423a7, 15);
    b := Step(IMacro(c, d, a), b, c, x[5], 0xfc93a039, 21);
    FourStepsOfRound4(52, s, x, (12, 3, 10, 1), (0x655b59c3, 0x8f0ccc92, 0xffeff47d, 0x85845dd1));
    a := Step(IMacro(b, c, d), a, b, x[12], 0x655b59c3, 6);
    d := Step(IMacro(a, b, c), d, a, x[3], 0x8f0ccc92, 10);
    c := Step(IMacro(d, a, b), c, d, x[10], 0xffeff47d, 15);
    b := Step(IMacro(c, d, a), b, c, x[1], 0x85845dd1, 21);
    FourStepsOfRound4(56, s, x, (8, 15, 6, 13), (0x6fa87e4f, 0xfe2ce6e0, 0xa3014314, 0x4e0811a1));
    a := Step(IMacro(b, c, d), a, b, x[8], 0x6fa87e4f, 6);
    d := Step(IMacro(a, b, c), d, a, x[15], 0xfe2ce6e0, 10);
    c := Step(IMacro(d, a, b), c, d, x[6], 0xa3014314, 15);
    b := Step(IMacro(c, d, a), b, c, x[13], 0x4e0811a1, 21);
    FourStepsOfRound4(60, s, x, (4, 11, 2, 9), (0xf7537e82, 0xbd3af235, 0x2ad7d2bb, 0xeb86d391));
    a := Step(IMacro(b, c, d), a, b, x[4], 0xf7537e82, 6);
    d := Step(IMacro(a, b, c), d, a, x[11], 0xbd3af235, 10);
    c := Step(IMacro(d, a, b), c, d, x[2], 0x2ad7d2bb, 15);
    b := Step(IMacro(c, d, a), b, c, x[9], 0xeb86d391, 21);
  }

  // ----- the context

  /** MD5_CTX. `lo` counts bytes modulo 2^29 and `hi` the overflow, modulo 2^32. */
  class Md5Ctx {
    var lo: nat
    var hi: nat
    var a: bv32
    var b: bv32
    var c: bv32
    var d: bv32
    const buffer: array<byte>

    function Chaining(): State
      reads this`a, this`b, this`c, this`d
    {
      State(a, b, c, d)
    }

    /** The context after exactly the bytes of m: the chaining value folds all complete blocks, the
        buffer starts with the rest, and the counter holds the length modulo 2^61. */
    ghost predicate Absorbed(m: seq<byte>)
      reads this, buffer
    {
      Counted(|m|) && Holds(m[..|m| - |m| % 64], m[|m| - |m| % 64..])
    }

    ghost predicate Counted(length: nat)
      reads this`lo, this`hi
    {
      lo == length % 0x2000_0000 && hi == length / 0x2000_0000 % 0x1_0000_0000
    }

    ghost predicate Holds(blocks: seq<byte>, rest: seq<byte>)
      reads this`a, this`b, this`c, this`d, buffer
    {
      && buffer.Length == 64 && |blocks| % 64 == 0 && |rest| <= 64
      && Chaining() == Fold(INITIAL_STATE, blocks)
      && buffer[..|rest|] == rest
    }

    constructor Init()
      ensures Absorbed([]) && fresh(buffer)
    {
      a, b, c, d := 0x67452301, 0xefcdab89, 0x98badcfe, 0x10325476;
      lo, hi := 0, 0;
      buffer := new byte[64];
    }

    /** One or more blocks; the counters stay as they are. */
    method Body(data: seq<byte>, start: nat, length: nat) returns (ptr: nat)
      requires length > 0 && length % 64 == 0 && start + length <= |data|
      modifies this`a, this`b, this`c, this`d
      ensures ptr == start + length
      ensures Chaining() == Fold(old(Chaining()), data[start..ptr])
    {
      hide Compress, Rounds, Words;
      ptr := start;
      var size := length;
      var a, b, c, d := this.a, this.b, this.c, this.d;
      while true
        invariant 0 < size && size % 64 == 0 && ptr + size == start + length
        invariant Fold(State(a, b, c, d), data[ptr..ptr + size]) == Fold(old(Chaining()), data[start..start + length])
        decreases size
      {
        ghost var s, left := State(a, b, c, d), data[ptr..ptr + size];
        assert left[..64] == data[ptr..ptr + 64] && left[64..] == data[ptr + 64..ptr + size];
        a, b, c, d := Transform(a, b, c, d, data[ptr..ptr + 64]);
        ptr := ptr + 64;
        size := size - 64;
        if size == 0 { break; }
      }
      assert data[ptr..ptr] == [];
      this.a, this.b, this.c, this.d := a, b, c, d;
    }

    /** Body on the first `length` bytes, after the blocks folded so far. */
    method Absorb(data: seq<byte>, length: nat, ghost blocks: seq<byte>)
      requires length > 0 && length % 64 == 0 && length <= |data|
      requires |blocks| % 64 == 0 && Chaining() == Fold(INITIAL_STATE, blocks)
      modifies this`a, this`b, this`c, this`d
      ensures Chaining() == Fold(INITIAL_STATE, blocks + data[..length])
    {
      hide Fold;
      var _ := Body(data, 0, length);
      FoldAppend(INITIAL_STATE, blocks, data[..length]);
    }

    /** Body on the full buffer. */
    method AbsorbBuffer(ghost blocks: seq<byte>)
      requires buffer.Length == 64 && |blocks| % 64 == 0 && Chaining() == Fold(INITIAL_STATE, blocks)
      modifies this`a, this`b, this`c, this`d
      ensures Chaining() == Fold(INITIAL_STATE, blocks + buffer[..])
    {
      hide Fold;
      assert buffer[..][..64] == buffer[..];
      Absorb(buffer[..], 64, blocks);
    }

    /** `memcpy` into the buffer. */
    method Copy(at: nat, data: seq<byte>)
      requires at + |data| <= buffer.Length
      modifies buffer
      ensures buffer[..] == old(buffer[..at]) + data + old(buffer[at + |data|..])
    {
      forall i | 0 <= i < |data| { buffer[at + i] := data[i]; }
    }

    /** `memset` of a part of the buffer to zero. */
    method Clear(at: nat, length: nat)
      requires at + length <= buffer.Length
      modifies buffer
      ensures buffer[..] == old(buffer[..at]) + Zeros(length) + old(buffer[at + length..])
    {
      forall i | at <= i < at + length { buffer[i] := 0; }
    }

    method Count(size: nat, ghost length: nat)
      requires Counted(length)
      modifies this`lo, this`hi
      ensures Counted(length + size)
    {
      var savedLo := lo;
      lo := (savedLo + size) % 0x2000_0000;
      if lo < savedLo { hi := (hi + 1) % 0x1_0000_0000; }
      hi := (hi + size / 0x2000_0000) % 0x1_0000_0000;
      CounterCarries(length, size);
    }

    method Update(data: seq<byte>, ghost m: seq<byte>)
      requires Absorbed(m)
      modifies this, buffer
      ensures Absorbed(m + data)
    {
      hide Fold, Counted, Holds;
      ghost var blocks, rest := m[..|m| - |m| % 64], m[|m| - |m| % 64..];
      assert m == blocks + rest;
      assert |rest| == |m| % 64;
      CountedRest(|m|);
      var used := lo % 64;
      Count(|data|, |m|);
      var left := data;
      if used != 0 {
        var available := 64 - used;
        if |left| < available {
          BufferMore(used, left, blocks, rest);
          JoinRest(m, blocks, rest, left);
          Split(m + data, blocks, rest + left);
          return;
        }
        FillBuffer(left[..available], blocks, rest);
        JoinAgain(m, blocks, rest, data, available);
        blocks := blocks + (rest + left[..available]);
        left := left[available..];
      }
      TakeBlocks(left, blocks, m + data);
    }

    lemma CountedRest(length: nat)
      requires Counted(length)
      ensures lo % 64 == length % 64
    {
    }

    /** Data that does not complete the block joins the buffered tail. */
    method BufferMore(used: nat, data: seq<byte>, ghost blocks: seq<byte>, ghost rest: seq<byte>)
      requires Holds(blocks, rest) && |rest| == used && used + |data| < 64
      modifies buffer
      ensures Holds(blocks, rest + data)
    {
      hide Fold;
      Copy(used, data);
      assert buffer[..used + |data|] == rest + data;
    }

    /** Complete the buffered block and process it. */
    method FillBuffer(data: seq<byte>, ghost blocks: seq<byte>, ghost rest: seq<byte>)
      requires Holds(blocks, rest) && |rest| + |data| == 64
      modifies this`a, this`b, this`c, this`d, buffer
      ensures Holds(blocks + (rest + data), [])
    {
      hide Fold;
      Copy(64 - |data|, data);
      assert buffer[..] == rest + data;
      AbsorbBuffer(blocks);
    }

    /** All whole blocks straight from the data; what is left goes to the buffer. */
    method TakeBlocks(data: seq<byte>, ghost blocks: seq<byte>, ghost m: seq<byte>)
      requires Holds(blocks, []) && m == blocks + data
      modifies this`a, this`b, this`c, this`d, buffer
      ensures Holds(m[..|m| - |m| % 64], m[|m| - |m| % 64..])
    {
      hide Fold;
      var left := data;
      ghost var done := blocks;
      if |left| >= 64 {
        var whole := |left| - |left| % 64;
        Absorb(left, whole, blocks);
        done := blocks + left[..whole];
        left := left[whole..];
      }
      assert m == done + left;
      Copy(0, left);
      assert buffer[..|left|] == left;
      Split(m, done, left);
    }

    /** Append the marker byte and zeros up to the last 8 bytes of a block, spending a block if they
        do not fit. */
    method Pad(ghost m: seq<byte>) returns (ghost blocks: seq<byte>)
      requires Absorbed(m)
      modifies this`a, this`b, this`c, this`d, buffer
      ensures |blocks| % 64 == 0 && Chaining() == Fold(INITIAL_STATE, blocks)
      ensures blocks + buffer[..56] == m + Padding(|m|)
    {
      hide Fold, Counted, Zeros, Padding;
      ghost var rest := m[|m| - |m| % 64..];
      blocks := m[..|m| - |m| % 64];
      assert m == blocks + rest && |rest| == |m| % 64;
      PaddingInBlocks(m, blocks, rest);
      CountedRest(|m|);
      var used := lo % 64;
      buffer[used] := 0x80;
      used := used + 1;
      var available := 64 - used;
      ghost var first := rest + [0x80];
      assert buffer[..used] == first;
      if available < 8 {
        Clear(used, available);
        assert buffer[..] == first + Zeros(available);
        AbsorbBuffer(blocks);
        blocks, first := blocks + buffer[..], [];
        used := 0;
        available := 64;
      }
      Clear(used, available - 8);
      assert buffer[..56] == first + Zeros(available - 8);
    }

    /** The digest goes to `result`; the context is wiped. */
    method Final(result: array<byte>, ghost m: seq<byte>)
      requires Absorbed(m) && result.Length >= 16 && result != buffer
      modifies this, buffer, result
      ensures result[..16] == Digest(m) && result[16..] == old(result[16..])
      ensures lo == 0 && hi == 0 && Chaining() == State(0, 0, 0, 0) && buffer[..] == Zeros(64)
    {
      hide Fold, WordBytes, LengthField, Padding, LittleEndian;
      ghost var blocks := Pad(m);
      ghost var front := buffer[..56];
      LengthBytes(|m|);
      lo := lo * 8 % 0x1_0000_0000;
      Copy(56, Out(lo));
      Copy(60, Out(hi));
      assert buffer[..] == front + LengthField(8 * |m|);
      assert blocks + buffer[..] == Padded(m);
      AbsorbBuffer(blocks);
      var digest := WordBytes(a) + WordBytes(b) + WordBytes(c) + WordBytes(d);
      forall i | 0 <= i < 16 { result[i] := digest[i]; }
      Wipe();
    }

    method Wipe()
      requires buffer.Length == 64
      modifies this, buffer
      ensures lo == 0 && hi == 0 && Chaining() == State(0, 0, 0, 0) && buffer[..] == Zeros(64)
    {
      lo, hi, a, b, c, d := 0, 0, 0, 0, 0, 0;
      Clear(0, 64);
    }
  }

  lemma JoinAgain(m: seq<byte>, blocks: seq<byte>, rest: seq<byte>, data: seq<byte>, k: nat)
    requires m == blocks + rest && k <= |data|
    ensures blocks + (rest + data[..k]) + data[k..] == m + data
  {
  }

  /** The padding completes the current block if the rest leaves room for the length, else the next one. */
  lemma PaddingInBlocks(m: seq<byte>, blocks: seq<byte>, rest: seq<byte>)
    requires m == blocks + rest && |blocks| % 64 == 0 && |rest| < 64
    ensures |rest| <= 55 ==> m + Padding(|m|) == blocks + (rest + [0x80] + Zeros(55 - |rest|))
    ensures |rest| > 55 ==>
      m + Padding(|m|) == blocks + (rest + [0x80] + Zeros(63 - |rest|)) + ([] + Zeros(56))
  {
    PaddingCount(|m|);
    if |rest| > 55 { assert Zeros(63 - |rest|) + Zeros(56) == Zeros(119 - |rest|); }
  }

  /** The OUT macro on an unsigned word. */
  function Out(x: nat): seq<byte> {
    LittleEndian(x, 4)
  }

  lemma PaddingCount(length: nat)
    ensures (55 - length) % 64 == if length % 64 <= 55 then 55 - length % 64 else 119 - length % 64
  {
    assert length == 64 * (length / 64) + length % 64;
  }

  /** The two words written at the end of the last block are the message length in bits. */
  lemma LengthBytes(length: nat)
    ensures var lo, hi := length % 0x2000_0000, length / 0x2000_0000 % 0x1_0000_0000;
      Out(lo * 8 % 0x1_0000_0000) + Out(hi) == LengthField(8 * length)
  {
    hide LittleEndian;
    var q, lo := length / 0x2000_0000, length % 0x2000_0000;
    assert 8 * length == 0x1_0000_0000 * q + 8 * lo;
    assert 8 * length / 0x1_0000_0000 == q && 8 * length % 0x1_0000_0000 == 8 * lo;
  }

  lemma CounterCarries(length: nat, size: nat)
    ensures var lo, hi := length % 0x2000_0000, length / 0x2000_0000 % 0x1_0000_0000;
      var sum := (lo + size) % 0x2000_0000;
      && sum == (length + size) % 0x2000_0000
      && ((if sum < lo then (hi + 1) % 0x1_0000_0000 else hi) + size / 0x2000_0000) % 0x1_0000_0000 ==
           (length + size) / 0x2000_0000 % 0x1_0000_0000
  {
    var (q, lo) := (length / 0x2000_0000, length % 0x2000_0000);
    var (p, s) := (size / 0x2000_0000, size % 0x2000_0000);
    var carry := if lo + s < 0x2000_0000 then 0 else 1;
    var sum := lo + s - 0x2000_0000 * carry;
    Quotient(length + size, q + p + carry, sum);
    Quotient(lo + size, p + carry, sum);
    WrapSum(q, carry);
    WrapSum(q + carry, p);
  }

  lemma Quotient(x: nat, q: nat, r: nat)
    requires x == 0x2000_0000 * q + r && r < 0x2000_0000
    ensures x / 0x2000_0000 == q && x % 0x2000_0000 == r
  {
  }

  lemma WrapSum(x: nat, y: nat)
    ensures (x % 0x1_0000_0000 + y) % 0x1_0000_0000 == (x + y) % 0x1_0000_0000
  {
  }

  /** Whole blocks and less than a block more are the division of m that Absorbed speaks of. */
  lemma Split(m: seq<byte>, blocks: seq<byte>, rest: seq<byte>)
    requires m == blocks + rest && |blocks| % 64 == 0 && |rest| < 64
    ensures blocks == m[..|m| - |m| % 64] && rest == m[|m| - |m| % 64..]
  {
    assert |m| % 64 == |rest|;
  }

  lemma JoinRest(m: seq<byte>, blocks: seq<byte>, rest: seq<byte>, data: seq<byte>)
    requires m == blocks + rest
    ensures m + data == blocks + (rest + data)
  {
  }

  /** The body of the block loop. */
  method Transform(a0: bv32, b0: bv32, c0: bv32, d0: bv32, block: seq<byte>)
    returns (a: bv32, b: bv32, c: bv32, d: bv32)
    requires |block| == 64
    ensures State(a, b, c, d) == Compress(State(a0, b0, c0, d0), block)
  {
    hide Rounds, Words, Compress, Plus;
    var x := Words(block);
    ghost var s := State(a0, b0, c0, d0);
    NoRounds(s, x);
    a, b, c, d := Round1(a0, b0, c0, d0, x, s);
    a, b, c, d := Round2(a, b, c, d, x, s);
    a, b, c, d := Round3(a, b, c, d, x, s);
    a, b, c, d := Round4(a, b, c, d, x, s);
    CompressAdds(s, block, x, State(a, b, c, d));
    a, b, c, d := Plus(a, a0), Plus(b, b0), Plus(c, c0), Plus(d, d0);
  }

  lemma CompressAdds(s: State, block: seq<byte>, x: seq<bv32>, r: State)
    requires |block| == 64 && x == Words(block) && r == Rounds(64, s, x)
    ensures Compress(s, block) == State(Plus(r.a, s.a), Plus(r.b, s.b), Plus(r.c, s.c), Plus(r.d, s.d))
  {
    hide Words, Rounds, Plus;
    SumCommutes(r.a, s.a);
    SumCommutes(r.b, s.b);
    SumCommutes(r.c, s.c);
    SumCommutes(r.d, s.d);
  }

  lemma NoRounds(s: State, x: seq<bv32>)
    requires |x| == 16
    ensures Rounds(0, s, x) == s
  {
  }

  function Flatten(chunks: seq<seq<byte>>): seq<byte> {
    if chunks == [] then [] else Flatten(chunks[..|chunks| - 1]) + chunks[|chunks| - 1]
  }

  /** However a message is cut into chunks, feeding them one after the other gives its digest. */
  method HashChunks(chunks: seq<seq<byte>>) returns (digest: seq<byte>)
    ensures digest == Digest(Flatten(chunks))
  {
    hide Fold, Padded;
    var ctx := new Md5Ctx.Init();
    for i := 0 to |chunks|
      invariant fresh(ctx) && fresh(ctx.buffer)
      invariant ctx.Absorbed(Flatten(chunks[..i]))
    {
      assert chunks[..i + 1][..i] == chunks[..i];
      ctx.Update(chunks[i], Flatten(chunks[..i]));
    }
    assert chunks[..|chunks|] == chunks;
    var result := new byte[16];
    ctx.Final(result, Flatten(chunks));
    assert result[..] == result[..16];
    digest := result[..];
  }

  /** The digest of bytes in one piece. */
  method HashBytes(memory: seq<byte>) returns (digest: seq<byte>)
    ensures digest == Digest(memory)
  {
    hide *;
    var ctx := new Md5Ctx.Init();
    var result := new byte[16];
    ctx.Update(memory, []);
    assert [] + memory == memory;
    ctx.Final(result, memory);
    assert result[..] == result[..16];
    digest := result[..];
  }
}

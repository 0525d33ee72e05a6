/** Python's unbounded non-negative integers seen as bit strings.

    The code generator computes masks with `&`, `|`, `<<` and `>>` on integers of
    any size; every operator below is characterised by the bits of its result. */
module Bits {

  function Pow2(n: nat): (p: nat)
    ensures p > 0
  {
    if n == 0 then 1 else 2 * Pow2(n - 1)
  }

  function BitValue(b: bool): nat {
    if b then 1 else 0
  }

  /** Bit i of x, bit 0 being the least significant one. */
  predicate Bit(x: nat, i: nat) {
    if i == 0 then x % 2 == 1 else Bit(x / 2, i - 1)
  }

  function And(x: nat, y: nat): nat {
    if x == 0 || y == 0 then 0 else 2 * And(x / 2, y / 2) + BitValue(x % 2 == 1 && y % 2 == 1)
  }

  function Or(x: nat, y: nat): nat
    decreases x + y
  {
    if x == 0 then y
    else if y == 0 then x
    else 2 * Or(x / 2, y / 2) + BitValue(x % 2 == 1 || y % 2 == 1)
  }

  function Xor(x: nat, y: nat): nat
    decreases x + y
  {
    if x == 0 then y
    else if y == 0 then x
    else 2 * Xor(x / 2, y / 2) + BitValue((x % 2 == 1) != (y % 2 == 1))
  }

  function Shl(x: nat, k: nat): nat {
    if k == 0 then x else 2 * Shl(x, k - 1)
  }

  function Shr(x: nat, k: nat): nat {
    if k == 0 then x else Shr(x / 2, k - 1)
  }

  /** `((1 << len) - 1) << lo` */
  function Mask(lo: nat, len: nat): nat {
    Shl(Pow2(len) - 1, lo)
  }

  /** Every bit of x is a bit of y. */
  ghost predicate Within(x: nat, y: nat) {
    forall i: nat :: Bit(x, i) ==> Bit(y, i)
  }

  lemma {:induction false} ZeroBit(i: nat)
    ensures !Bit(0, i)
  {
    if i > 0 { ZeroBit(i - 1); }
  }

  lemma {:induction false} AndBit(x: nat, y: nat, i: nat)
    ensures Bit(And(x, y), i) <==> Bit(x, i) && Bit(y, i)
  {
    ZeroBit(i);
    if x != 0 && y != 0 && i > 0 { AndBit(x / 2, y / 2, i - 1); }
  }

  lemma {:induction false} OrBit(x: nat, y: nat, i: nat)
    ensures Bit(Or(x, y), i) <==> Bit(x, i) || Bit(y, i)
  {
    ZeroBit(i);
    if x != 0 && y != 0 && i > 0 { OrBit(x / 2, y / 2, i - 1); }
  }

  lemma {:induction false} XorBit(x: nat, y: nat, i: nat)
    ensures Bit(Xor(x, y), i) <==> Bit(x, i) != Bit(y, i)
  {
    ZeroBit(i);
    if x != 0 && y != 0 && i > 0 { XorBit(x / 2, y / 2, i - 1); }
  }

  lemma {:induction false} ShlBit(x: nat, k: nat, i: nat)
    ensures Bit(Shl(x, k), i) <==> i >= k && Bit(x, i - k)
  {
    if k > 0 && i > 0 { ShlBit(x, k - 1, i - 1); }
  }

  lemma {:induction false} ShrBit(x: nat, k: nat, i: nat)
    ensures Bit(Shr(x, k), i) <==> Bit(x, i + k)
  {
    if k > 0 { ShrBit(x / 2, k - 1, i); }
  }

  lemma {:induction false} OnesBit(n: nat, i: nat)
    ensures Bit(Pow2(n) - 1, i) <==> i < n
  {
    ZeroBit(i);
    if n > 0 && i > 0 { OnesBit(n - 1, i - 1); }
  }

  lemma MaskBit(lo: nat, len: nat, i: nat)
    ensures Bit(Mask(lo, len), i) <==> lo <= i < lo + len
  {
    ShlBit(Pow2(len) - 1, lo, i);
    if i >= lo { OnesBit(len, i - lo); }
  }

  /** Numbers with the same bits are equal. */
  lemma {:induction false} Extensionality(x: nat, y: nat)
    requires forall i: nat :: Bit(x, i) <==> Bit(y, i)
    ensures x == y
    decreases x + y
  {
    assert Bit(x, 0) <==> Bit(y, 0);
    if x != 0 || y != 0 {
      forall i: nat ensures Bit(x / 2, i) <==> Bit(y / 2, i) {
        assert Bit(x, i + 1) <==> Bit(y, i + 1);
      }
      Extensionality(x / 2, y / 2);
    }
  }

  lemma {:induction false} BoundedBits(x: nat, n: nat)
    requires x < Pow2(n)
    ensures forall i: nat :: Bit(x, i) ==> i < n
  {
    forall i: nat | Bit(x, i) ensures i < n {
      ZeroBit(i);
      if n > 0 && i > 0 {
        BoundedBits(x / 2, n - 1);
        assert Bit(x / 2, i - 1);
      }
    }
  }

  lemma {:induction false} BitsBounded(x: nat, n: nat)
    requires forall i: nat :: Bit(x, i) ==> i < n
    ensures x < Pow2(n)
    decreases x
  {
    if x > 0 {
      if n == 0 {
        forall i: nat ensures !Bit(x, i) { assert Bit(x, i) ==> i < 0; }
        forall i: nat ensures Bit(x, i) <==> Bit(0, i) { ZeroBit(i); }
        Extensionality(x, 0);
      } else {
        forall i: nat | Bit(x / 2, i) ensures i < n - 1 { assert Bit(x, i + 1); }
        BitsBounded(x / 2, n - 1);
      }
    }
  }

  /** The bitwise operators stay within the width of their operands. */
  lemma BitwiseFits(x: nat, y: nat, n: nat)
    requires x < Pow2(n) && y < Pow2(n)
    ensures And(x, y) < Pow2(n) && Or(x, y) < Pow2(n) && Xor(x, y) < Pow2(n)
  {
    BoundedBits(x, n);
    BoundedBits(y, n);
    forall i: nat
      ensures Bit(And(x, y), i) ==> i < n
      ensures Bit(Or(x, y), i) ==> i < n
      ensures Bit(Xor(x, y), i) ==> i < n
    {
      AndBit(x, y, i);
      OrBit(x, y, i);
      XorBit(x, y, i);
    }
    BitsBounded(And(x, y), n);
    BitsBounded(Or(x, y), n);
    BitsBounded(Xor(x, y), n);
  }

  lemma {:induction false} Pow2Sum(a: nat, b: nat)
    ensures Pow2(a + b) == Pow2(a) * Pow2(b)
  {
    if a > 0 { Pow2Sum(a - 1, b); }
  }

  lemma {:induction false} ShlIsMul(x: nat, k: nat)
    ensures Shl(x, k) == x * Pow2(k)
  {
    if k > 0 { ShlIsMul(x, k - 1); }
  }

  /** Disjoint numbers add without carries. */
  lemma {:induction false} DisjointSum(x: nat, y: nat)
    requires And(x, y) == 0
    ensures x + y == Or(x, y)
    decreases x + y
  {
    if x != 0 && y != 0 { DisjointSum(x / 2, y / 2); }
  }

  lemma AndZero(x: nat, y: nat)
    requires forall i: nat :: !(Bit(x, i) && Bit(y, i))
    ensures And(x, y) == 0
  {
    forall i: nat ensures Bit(And(x, y), i) <==> Bit(0, i) { AndBit(x, y, i); ZeroBit(i); }
    Extensionality(And(x, y), 0);
  }

  /** A mask inside a wider mask sees the same bits of a number cut down by the wider one. */
  lemma AndNarrow(x: nat, wide: nat, narrow: nat)
    requires Within(narrow, wide)
    ensures And(And(x, wide), narrow) == And(x, narrow)
  {
    forall i: nat ensures Bit(And(And(x, wide), narrow), i) <==> Bit(And(x, narrow), i) {
      AndBit(And(x, wide), narrow, i);
      AndBit(x, wide, i);
      AndBit(x, narrow, i);
    }
    Extensionality(And(And(x, wide), narrow), And(x, narrow));
  }

  /** The number with the given bits, lowest first. */
  function FromBits(bits: seq<bool>): nat {
    if bits == [] then 0 else BitValue(bits[0]) + 2 * FromBits(bits[1..])
  }

  lemma {:induction false} FromBitsBit(bits: seq<bool>, i: nat)
    ensures Bit(FromBits(bits), i) <==> i < |bits| && bits[i]
  {
    if bits == [] {
      ZeroBit(i);
    } else if i > 0 {
      FromBitsBit(bits[1..], i - 1);
      assert FromBits(bits) / 2 == FromBits(bits[1..]);
    }
  }

  /** Setting bit n of a number below 2^n. */
  lemma {:induction false} TopBit(t: nat, n: nat, i: nat)
    requires t < Pow2(n)
    ensures Bit(Pow2(n) + t, i) <==> i == n || Bit(t, i)
  {
    if n == 0 {
      ZeroBit(i);
      if i > 0 { ZeroBit(i - 1); }
    } else if i > 0 {
      TopBit(t / 2, n - 1, i - 1);
      assert (Pow2(n) + t) / 2 == Pow2(n - 1) + t / 2;
    }
  }

  lemma SingleBit(n: nat, i: nat)
    ensures Bit(Pow2(n), i) <==> i == n
  {
    TopBit(0, n, i);
    ZeroBit(i);
  }

  /** Testing one bit with a mask. */
  lemma TestBit(x: nat, n: nat)
    ensures And(Pow2(n), x) == 0 <==> !Bit(x, n)
  {
    AndBit(Pow2(n), x, n);
    SingleBit(n, n);
    ZeroBit(n);
    if !Bit(x, n) {
      forall i: nat ensures !(Bit(Pow2(n), i) && Bit(x, i)) { SingleBit(n, i); }
      AndZero(Pow2(n), x);
    }
  }

  lemma ShrStep(x: nat, k: nat)
    ensures Shr(x, k + 1) == Shr(x / 2, k) && Shr(x, 0) == x
  {
  }

  lemma {:induction false} ShrTwice(x: nat, a: nat, b: nat)
    ensures Shr(x, a + b) == Shr(Shr(x, a), b)
  {
    if a > 0 { ShrTwice(x / 2, a - 1, b); }
  }

  lemma AndOdd(x: nat, k: nat)
    ensures And(x, 2 * k + 1) == 2 * And(x / 2, k) + x % 2
  {
  }

  lemma AndByte(x: nat)
    ensures And(x, 0xff) == x % 256
  {
    AndOnes(x, 8);
    BytePowers();
  }

  /** One byte of a number, as Python's shift and mask cut it out. */
  lemma ByteOf(x: nat, k: nat)
    ensures And(Shr(x, k), 0xff) == Shr(x, k) % 256
    ensures Shr(x, k + 8) == Shr(x, k) / 256
  {
    AndByte(Shr(x, k));
    ShrTwice(x, k, 8);
    ShrIsDiv(Shr(x, k), 8);
    BytePowers();
  }

  lemma FourPowers(k: nat)
    ensures Pow2(k + 4) == 16 * Pow2(k)
  {
    assert Pow2(k + 4) == 2 * Pow2(k + 3) == 4 * Pow2(k + 2) == 8 * Pow2(k + 1);
  }

  lemma BytePowers()
    ensures Pow2(8) == 0x100 && Pow2(16) == 0x1_0000 && Pow2(24) == 0x100_0000 && Pow2(32) == 0x1_0000_0000
  {
    hide Pow2;
    NoPower();
    FourPowers(0);
    FourPowers(4);
    FourPowers(8);
    FourPowers(12);
    FourPowers(16);
    FourPowers(20);
    FourPowers(24);
    FourPowers(28);
  }

  lemma NoPower()
    ensures Pow2(0) == 1
  {
  }

  lemma DivideTwice(x: nat, p: nat)
    requires p > 0
    ensures x / 2 / p == x / (2 * p) && x % (2 * p) == 2 * (x / 2 % p) + x % 2
  {
    var (q, r) := (x / 2 / p, x / 2 % p);
    assert x / 2 == p * q + r;
    assert x == (2 * p) * q + (2 * r + x % 2) by { assert 2 * (p * q) == (2 * p) * q; }
    Quotient(x, 2 * p, q, 2 * r + x % 2);
  }

  lemma Quotient(x: nat, m: nat, q: nat, rest: nat)
    requires m > 0 && x == m * q + rest && rest < m
    ensures x / m == q && x % m == rest
  {
    var d := x / m - q;
    assert x == m * (x / m) + x % m;
    assert m * (x / m) - m * q == m * d;
    MultipleIsLarge(m, d);
  }

  lemma MultipleIsLarge(m: nat, d: int)
    ensures d > 0 ==> m * d >= m
    ensures d < 0 ==> m * d <= -(m as int)
  {
  }

  lemma {:induction false} ShrIsDiv(x: nat, k: nat)
    ensures Shr(x, k) == x / Pow2(k)
  {
    if k > 0 {
      ShrIsDiv(x / 2, k - 1);
      DivideTwice(x, Pow2(k - 1));
    }
  }

  lemma {:induction false} AndOnes(x: nat, n: nat)
    ensures And(x, Pow2(n) - 1) == x % Pow2(n)
  {
    if n > 0 {
      AndOdd(x, Pow2(n - 1) - 1);
      AndOnes(x / 2, n - 1);
      DivideTwice(x, Pow2(n - 1));
    }
  }

  /** `(x & mask) >> lo` for the mask of len bits from lo on. */
  function FieldAt(x: nat, lo: nat, len: nat): nat {
    Shr(And(x, Mask(lo, len)), lo)
  }

  lemma FieldIs(x: nat, lo: nat, len: nat)
    ensures FieldAt(x, lo, len) == x / Pow2(lo) % Pow2(len) < Pow2(len)
  {
    forall i: nat ensures Bit(FieldAt(x, lo, len), i) <==> Bit(And(Shr(x, lo), Pow2(len) - 1), i) {
      ShrBit(And(x, Mask(lo, len)), lo, i);
      AndBit(x, Mask(lo, len), i + lo);
      MaskBit(lo, len, i + lo);
      AndBit(Shr(x, lo), Pow2(len) - 1, i);
      ShrBit(x, lo, i);
      OnesBit(len, i);
    }
    Extensionality(FieldAt(x, lo, len), And(Shr(x, lo), Pow2(len) - 1));
    AndOnes(Shr(x, lo), len);
    ShrIsDiv(x, lo);
  }

  /** What a mask keeps is its field, put back in place. */
  lemma AndMask(x: nat, lo: nat, len: nat)
    ensures And(x, Mask(lo, len)) == FieldAt(x, lo, len) * Pow2(lo)
    ensures Mask(lo, len) == (Pow2(len) - 1) * Pow2(lo)
  {
    var kept := And(x, Mask(lo, len));
    forall i: nat ensures Bit(kept, i) <==> Bit(Shl(Shr(kept, lo), lo), i) {
      ShlBit(Shr(kept, lo), lo, i);
      AndBit(x, Mask(lo, len), i);
      MaskBit(lo, len, i);
      if i >= lo { ShrBit(kept, lo, i - lo); }
    }
    Extensionality(kept, Shl(Shr(kept, lo), lo));
    ShlIsMul(Shr(kept, lo), lo);
    ShlIsMul(Pow2(len) - 1, lo);
  }

  /** Low bits under a shifted number. */
  lemma OrUnder(x: nat, k: nat, y: nat)
    requires y < Pow2(k)
    ensures Or(Shl(x, k), y) == Shl(x, k) + y
  {
    forall i: nat ensures !(Bit(Shl(x, k), i) && Bit(y, i)) {
      ShlBit(x, k, i);
      BoundedBits(y, k);
    }
    AndZero(Shl(x, k), y);
    DisjointSum(Shl(x, k), y);
  }

  lemma SmallPowers()
    ensures Pow2(0) == 1 && Pow2(1) == 2 && Pow2(2) == 4 && Pow2(3) == 8 && Pow2(4) == 16 && Pow2(5) == 32
    ensures Pow2(7) == 128 && Pow2(10) == 1024 && Pow2(12) == 4096
  {
    assert Pow2(1) == 2 * Pow2(0) && Pow2(2) == 2 * Pow2(1) && Pow2(3) == 2 * Pow2(2) && Pow2(4) == 2 * Pow2(3);
    FourPowers(1);
    FourPowers(3);
    FourPowers(4);
    FourPowers(2);
    FourPowers(6);
    FourPowers(8);
  }

  function AddToAll(x: nat, sums: seq<nat>): seq<nat> {
    if sums == [] then [] else [x + sums[0]] + AddToAll(x, sums[1..])
  }

  lemma {:induction false} AddToAllMember(x: nat, sums: seq<nat>, m: nat)
    ensures m in AddToAll(x, sums) <==> m >= x && m - x in sums
  {
    if sums != [] { AddToAllMember(x, sums[1..], m); }
  }

  lemma {:induction false} AddToAllElements(x: nat, sums: seq<nat>)
    ensures |AddToAll(x, sums)| == |sums|
    ensures forall i :: 0 <= i < |sums| ==> AddToAll(x, sums)[i] == x + sums[i]
  {
    if sums != [] { AddToAllElements(x, sums[1..]); }
  }
}

/** The modified immediate constants of the decoder (decoder.c) against the manual's. */
module ExpandImm {
  import opened Bytes
  import Bits

  // ----- the helpers, as the C code computes them

  function Ror32(x: word, rotate: nat): nat
    requires 0 < rotate < 32
  {
    var loMask := Bits.Pow2(rotate) - 1;
    Bits.Or(Wrap(Bits.Shl(Bits.And(x, loMask), 32 - rotate)),
            Bits.Shr(Bits.And(x, Bits.Mask(rotate, 32 - rotate)), rotate))
  }

  /** The number of bits the rotating form rotates by. */
  function RotationOf(imm: nat): nat {
    Bits.Shr(Bits.And(imm, 0xf80), 7)
  }

  /** The byte with its top bit forced that the rotating form rotates. */
  function Unrotated(imm: nat): nat {
    Bits.Or(0x80, Bits.And(imm, 0x7f))
  }

  function ThumbExpandImm(imm: nat): nat
    requires imm < 0x1000
  {
    var low := Bits.And(imm, 0xff);
    if Bits.And(imm, 0xc00) == 0 then
      if Bits.And(imm, 0x300) == 0 then low
      else if Bits.And(imm, 0x300) == 0x100 then Bits.Or(Bits.Shl(low, 16), low)
      else if Bits.And(imm, 0x300) == 0x200 then Bits.Or(Bits.Shl(low, 24), Bits.Shl(low, 8))
      else Bits.Or(Bits.Or(Bits.Or(Bits.Shl(low, 24), Bits.Shl(low, 16)), Bits.Shl(low, 8)), Bits.Shl(low, 0))
    else
      RotatingForm(imm);
      Ror32(Unrotated(imm), RotationOf(imm))
  }

  // ----- the ARMv7-M Architecture Reference Manual

  /** ROR on 32 bits: bit i of the result is bit i + n of x, round the end. */
  function RotateRight(x: nat, n: nat): nat {
    Bits.FromBits(seq(32, i requires 0 <= i < 32 => Bits.Bit(x, (i + n) % 32)))
  }

  /** ThumbExpandImm of section A5.3.2, for a 12-bit immediate. */
  function ManualExpandImm(imm: nat): nat
    requires imm < 0x1000
  {
    var imm8 := imm % 256;
    if imm / 1024 == 0 then
      match imm / 256 % 4
      case 0 => imm8
      case 1 => 0x0001_0001 * imm8
      case 2 => 0x0100_0100 * imm8
      case _ => 0x0101_0101 * imm8
    else RotateRight(128 + imm % 128, imm / 128)
  }

  // ----- agreement

  lemma TestsOf(imm: nat)
    requires imm < 0x1000
    ensures Bits.And(imm, 0xc00) == imm / 1024 * 1024
    ensures Bits.And(imm, 0x300) == imm / 256 % 4 * 256
  {
    hide Bits.And, Bits.Mask, Bits.Pow2, Bits.FieldAt;
    Bits.SmallPowers();
    Bits.BytePowers();
    Bits.AndMask(imm, 10, 2);
    Bits.FieldIs(imm, 10, 2);
    Bits.AndMask(imm, 8, 2);
    Bits.FieldIs(imm, 8, 2);
  }

  lemma RotationIs(imm: nat)
    requires imm < 0x1000
    ensures RotationOf(imm) == imm / 128
  {
    hide Bits.And, Bits.Mask, Bits.Pow2, Bits.Shr;
    Bits.SmallPowers();
    Bits.AndMask(imm, 7, 5);
    Bits.FieldIs(imm, 7, 5);
    assert RotationOf(imm) == Bits.FieldAt(imm, 7, 5);
  }

  lemma UnrotatedIs(imm: nat)
    ensures Unrotated(imm) == 128 + imm % 128
  {
    hide Bits.And, Bits.Or, Bits.Shl, Bits.Pow2;
    Bits.SmallPowers();
    Bits.AndOnes(imm, 7);
    Bits.ShlIsMul(1, 7);
    Bits.OrUnder(1, 7, imm % 128);
  }

  /** The rotating form never asks for a shift that C does not define. */
  lemma RotatingForm(imm: nat)
    requires imm < 0x1000 && Bits.And(imm, 0xc00) != 0
    ensures 8 <= RotationOf(imm) < 32 && Unrotated(imm) < 256
  {
    hide Bits.And, RotationOf, Unrotated;
    TestsOf(imm);
    RotationIs(imm);
    UnrotatedIs(imm);
  }

  lemma RotatedBit(x: nat, n: nat, i: nat)
    ensures Bits.Bit(RotateRight(x, n), i) <==> i < 32 && Bits.Bit(x, (i + n) % 32)
  {
    Bits.FromBitsBit(seq(32, j requires 0 <= j < 32 => Bits.Bit(x, (j + n) % 32)), i);
  }

  /** The shift-or of the code rotates, for every word and distance. */
  lemma Ror32Rotates(x: word, n: nat)
    requires 0 < n < 32
    ensures Ror32(x, n) == RotateRight(x, n)
  {
    hide Bits.Bit, Bits.Shl, Bits.Shr, Bits.And, Bits.Or, Bits.Mask, Bits.Pow2, RotateRight;
    var (loMask, hiMask, k) := (Bits.Pow2(n) - 1, Bits.Mask(n, 32 - n), 32 - n);
    var (low, high) := (Bits.Shl(Bits.And(x, loMask), k), Bits.Shr(Bits.And(x, hiMask), n));
    forall i: nat ensures Bits.Bit(low, i) <==> k <= i < 32 && Bits.Bit(x, i - k) {
      Bits.ShlBit(Bits.And(x, loMask), k, i);
      if i >= k {
        Bits.AndBit(x, loMask, i - k);
        Bits.OnesBit(n, i - k);
      }
    }
    Bits.BitsBounded(low, 32);
    Bits.BytePowers();
    forall i: nat ensures Bits.Bit(high, i) <==> i < k && Bits.Bit(x, i + n) {
      Bits.ShrBit(Bits.And(x, hiMask), n, i);
      Bits.AndBit(x, hiMask, i + n);
      Bits.MaskBit(n, k, i + n);
    }
    var joined := Bits.Or(low, high);
    forall i: nat ensures Bits.Bit(joined, i) <==> Bits.Bit(RotateRight(x, n), i) {
      Bits.OrBit(low, high, i);
      RotatedBit(x, n, i);
    }
    Bits.Extensionality(joined, RotateRight(x, n));
  }

  lemma RotateFits(x: nat, n: nat)
    ensures RotateRight(x, n) < 0x1_0000_0000
  {
    hide RotateRight, Bits.Pow2, Bits.Bit;
    Bits.BytePowers();
    var r := RotateRight(x, n);
    forall i: nat ensures Bits.Bit(r, i) ==> i < 32 { RotatedBit(x, n, i); }
    Bits.BitsBounded(r, 32);
  }

  lemma Replicated(b: nat)
    requires b < 256
    ensures Bits.Or(Bits.Shl(b, 16), b) == 0x0001_0001 * b
    ensures Bits.Or(Bits.Shl(b, 24), Bits.Shl(b, 8)) == 0x0100_0100 * b
    ensures Bits.Or(Bits.Or(Bits.Or(Bits.Shl(b, 24), Bits.Shl(b, 16)), Bits.Shl(b, 8)), Bits.Shl(b, 0)) ==
      0x0101_0101 * b
  {
    hide Bits.Or, Bits.Shl, Bits.Pow2;
    Bits.BytePowers();
    Bits.SmallPowers();
    Bits.ShlIsMul(b, 0);
    Bits.ShlIsMul(b, 8);
    Bits.ShlIsMul(b, 16);
    Bits.ShlIsMul(b, 24);
    Bits.ShlIsMul(0x101 * b, 16);
    Bits.ShlIsMul(0x1_0101 * b, 8);
    Bits.OrUnder(b, 16, b);
    Bits.OrUnder(b, 24, Bits.Shl(b, 8));
    Bits.OrUnder(b, 24, Bits.Shl(b, 16));
    Bits.OrUnder(0x101 * b, 16, Bits.Shl(b, 8));
    Bits.OrUnder(0x1_0101 * b, 8, b);
  }

  /** Each of the 4096 immediates expands to the manual's constant. */
  lemma ExpandImmIsManual(imm: nat)
    requires imm < 0x1000
    ensures ThumbExpandImm(imm) == ManualExpandImm(imm) < 0x1_0000_0000
  {
    hide Bits.And, Bits.Or, Bits.Shl, Bits.Pow2, RotationOf, Unrotated, Ror32, RotateRight;
    TestsOf(imm);
    if imm / 1024 == 0 {
      Bits.AndByte(imm);
      Replicated(imm % 256);
    } else {
      RotationIs(imm);
      UnrotatedIs(imm);
      RotatingForm(imm);
      Ror32Rotates(128 + imm % 128, imm / 128);
      RotateFits(128 + imm % 128, imm / 128);
    }
  }
}

/** Bytes and 32-bit words of the emulated machine. */
module Bytes {
  type byte = x: int | 0 <= x < 256
  type word = x: int | 0 <= x < 0x1_0000_0000

  /** The low 32 bits of an integer: C's conversion to `uint32_t`. */
  function Wrap(x: int): word {
    x % 0x1_0000_0000
  }

  /** Sums and differences of 32-bit words. */
  function Add32(x: int, y: int): word {
    Wrap(x + y)
  }

  function Sub32(x: int, y: int): word {
    Wrap(x - y)
  }

  /** The number a bit vector stands for. */
  function AsWord(x: bv32): word {
    x as int
  }

  /** C's conversion of a 32-bit word to `int32_t`. */
  function Signed(x: word): int {
    if x < 0x8000_0000 then x else x - 0x1_0000_0000
  }

  /** A number as n bytes, low-order byte first; higher bytes are cut off. */
  function LittleEndian(x: nat, n: nat): (b: seq<byte>)
    ensures |b| == n
  {
    if n == 0 then [] else [x % 256] + LittleEndian(x / 256, n - 1)
  }

  /** The number n bytes stand for, low-order byte first. */
  function FromLittleEndian(b: seq<byte>): nat {
    if b == [] then 0 else b[0] + 256 * FromLittleEndian(b[1..])
  }

  lemma WordRoundTrip(x: word)
    ensures FromLittleEndian(LittleEndian(x, 4)) == x
  {
    var (x1, x2, x3) := (x / 256, x / 256 / 256, x / 256 / 256 / 256);
    ByteAtATime(x3, 0);
    ByteAtATime(x2, 1);
    ByteAtATime(x1, 2);
    ByteAtATime(x, 3);
    assert x3 < 256;
  }

  lemma ByteAtATime(x: nat, n: nat)
    ensures FromLittleEndian(LittleEndian(x, n + 1)) == x % 256 + 256 * FromLittleEndian(LittleEndian(x / 256, n))
  {
    assert LittleEndian(x, n + 1)[1..] == LittleEndian(x / 256, n);
  }

  lemma FromLittleEndianWord(b: seq<byte>)
    requires |b| <= 4
    ensures FromLittleEndian(b) < 0x1_0000_0000
    ensures |b| <= 2 ==> FromLittleEndian(b) < 0x1_0000
    ensures |b| <= 1 ==> FromLittleEndian(b) < 0x100
  {
    if b != [] {
      if |b| > 1 {
        if |b| > 2 {
          if |b| > 3 { assert b[1..][1..][1..][1..] == []; }
          assert |b| == 3 ==> b[1..][1..][1..] == [];
        }
        assert |b| == 2 ==> b[1..][1..] == [];
      }
      assert |b| == 1 ==> b[1..] == [];
    }
  }
}

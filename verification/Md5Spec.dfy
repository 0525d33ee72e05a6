/** The MD5 message digest as RFC 1321 defines it, for whole messages. */
module Md5Spec {
  import opened Bytes

  datatype State = State(a: bv32, b: bv32, c: bv32, d: bv32)

  const INITIAL_STATE := State(0x67452301, 0xefcdab89, 0x98badcfe, 0x10325476)

  // ----- section 3.4: the four auxiliary functions

  function F(x: bv32, y: bv32, z: bv32): bv32 { (x & y) | (!x & z) }

  function G(x: bv32, y: bv32, z: bv32): bv32 { (x & z) | (y & !z) }

  function H(x: bv32, y: bv32, z: bv32): bv32 { x ^ y ^ z }

  function I(x: bv32, y: bv32, z: bv32): bv32 { y ^ (x | !z) }

  /** X <<< s for the sixteen distances that occur. */
  function RotateLeft(x: bv32, s: bv6): bv32 {
    if s == 7 then x.RotateLeft(7) else if s == 12 then x.RotateLeft(12)
    else if s == 17 then x.RotateLeft(17) else if s == 22 then x.RotateLeft(22)
    else if s == 5 then x.RotateLeft(5) else if s == 9 then x.RotateLeft(9)
    else if s == 14 then x.RotateLeft(14) else if s == 20 then x.RotateLeft(20)
    else if s == 4 then x.RotateLeft(4) else if s == 11 then x.RotateLeft(11)
    else if s == 16 then x.RotateLeft(16) else if s == 23 then x.RotateLeft(23)
    else if s == 6 then x.RotateLeft(6) else if s == 10 then x.RotateLeft(10)
    else if s == 15 then x.RotateLeft(15) else x.RotateLeft(21)
  }

  /** Shift distances: four per round, repeated. */
  function Distance(i: nat): bv6 {
    match (i / 16, i % 4)
    case (0, 0) => 7 case (0, 1) => 12 case (0, 2) => 17 case (0, _) => 22
    case (1, 0) => 5 case (1, 1) => 9 case (1, 2) => 14 case (1, _) => 20
    case (2, 0) => 4 case (2, 1) => 11 case (2, 2) => 16 case (2, _) => 23
    case (_, 0) => 6 case (_, 1) => 10 case (_, 2) => 15 case (_, _) => 21
  }

  /** Which word of the block step i reads. */
  function Index(i: nat): (k: nat)
    ensures k < 16
  {
    match i / 16
    case 0 => i % 16
    case 1 => (5 * i + 1) % 16
    case 2 => (3 * i + 5) % 16
    case _ => 7 * i % 16
  }

  /** The table T, the integer parts of 4294967296 times abs(sin(i + 1)). */
  function T(i: nat): bv32 {
    var row := TableRow(i / 4);
    match i % 4
    case 0 => row.0
    case 1 => row.1
    case 2 => row.2
    case _ => row.3
  }

  function TableRow(r: nat): (bv32, bv32, bv32, bv32) {
    match r
    case 0 => (0xd76aa478, 0xe8c7b756, 0x242070db, 0xc1bdceee)
    case 1 => (0xf57c0faf, 0x4787c62a, 0xa8304613, 0xfd469501)
    case 2 => (0x698098d8, 0x8b44f7af, 0xffff5bb1, 0x895cd7be)
    case 3 => (0x6b901122, 0xfd987193, 0xa679438e, 0x49b40821)
    case 4 => (0xf61e2562, 0xc040b340, 0x265e5a51, 0xe9b6c7aa)
    case 5 => (0xd62f105d, 0x02441453, 0xd8a1e681, 0xe7d3fbc8)
    case 6 => (0x21e1cde6, 0xc33707d6, 0xf4d50d87, 0x455a14ed)
    case 7 => (0xa9e3e905, 0xfcefa3f8, 0x676f02d9, 0x8d2a4c8a)
    case 8 => (0xfffa3942, 0x8771f681, 0x6d9d6122, 0xfde5380c)
    case 9 => (0xa4beea44, 0x4bdecfa9, 0xf6bb4b60, 0xbebfbc70)
    case 10 => (0x289b7ec6, 0xeaa127fa, 0xd4ef3085, 0x04881d05)
    case 11 => (0xd9d4d039, 0xe6db99e5, 0x1fa27cf8, 0xc4ac5665)
    case 12 => (0xf4292244, 0x432aff97, 0xab9423a7, 0xfc93a039)
    case 13 => (0x655b59c3, 0x8f0ccc92, 0xffeff47d, 0x85845dd1)
    case 14 => (0x6fa87e4f, 0xfe2ce6e0, 0xa3014314, 0x4e0811a1)
    case _ => (0xf7537e82, 0xbd3af235, 0x2ad7d2bb, 0xeb86d391)
  }

  /** The auxiliary function of step i. */
  function Auxiliary(i: nat, x: bv32, y: bv32, z: bv32): bv32 {
    match i / 16
    case 0 => F(x, y, z)
    case 1 => G(x, y, z)
    case 2 => H(x, y, z)
    case _ => I(x, y, z)
  }

  /** b + ((a + f + x + t) <<< s) */
  function Mix(f: bv32, a: bv32, b: bv32, x: bv32, t: bv32, s: bv6): bv32 {
    Plus(b, RotateLeft(Sum(a, f, x, t), s))
  }

  /** Addition modulo 2^32. */
  function Plus(x: bv32, y: bv32): bv32 {
    x + y
  }

  function Sum(a: bv32, f: bv32, x: bv32, t: bv32): bv32 {
    a + f + x + t
  }

  /** Step i of the 64: the roles of a, b, c and d move on by one. */
  function Round(i: nat, s: State, x: seq<bv32>): State
    requires |x| == 16
  {
    State(s.d, Mix(Auxiliary(i, s.b, s.c, s.d), s.a, s.b, x[Index(i)], T(i), Distance(i)), s.b, s.c)
  }

  function Rounds(n: nat, s: State, x: seq<bv32>): State
    requires |x| == 16
  {
    if n == 0 then s else Round(n - 1, Rounds(n - 1, s, x), x)
  }

  /** Four bytes make a word, low-order byte first. */
  function Word(b: seq<byte>, k: nat): bv32
    requires 4 * k + 4 <= |b|
  {
    (b[4 * k] as bv32) | ((b[4 * k + 1] as bv32) << 8) | ((b[4 * k + 2] as bv32) << 16) | ((b[4 * k + 3] as bv32) << 24)
  }

  function Words(b: seq<byte>): (x: seq<bv32>)
    requires |b| == 64
    ensures |x| == 16
  {
    seq(16, k requires 0 <= k < 16 => Word(b, k))
  }

  function Compress(s: State, b: seq<byte>): State
    requires |b| == 64
  {
    var r := Rounds(64, s, Words(b));
    State(Plus(s.a, r.a), Plus(s.b, r.b), Plus(s.c, r.c), Plus(s.d, r.d))
  }

  /** Section 3.4 over all complete blocks. */
  function Fold(s: State, m: seq<byte>): State
    decreases |m|
  {
    if |m| < 64 then s else Fold(Compress(s, m[..64]), m[64..])
  }

  // ----- sections 3.1 and 3.2: padding and length

  function Zeros(n: nat): (z: seq<byte>)
    ensures |z| == n
  {
    seq(n, _ => 0)
  }

  function Padding(length: nat): seq<byte> {
    [0x80] + Zeros((55 - length) % 64)
  }

  function Padded(m: seq<byte>): (p: seq<byte>)
    ensures |p| % 64 == 0
  {
    m + Padding(|m|) + LengthField(8 * |m|)
  }

  /** The low-order 64 bits of the length in bits, as two words, low-order word first. */
  function LengthField(bits: nat): (b: seq<byte>)
    ensures |b| == 8
  {
    LittleEndian(bits % 0x1_0000_0000, 4) + LittleEndian(bits / 0x1_0000_0000 % 0x1_0000_0000, 4)
  }

  /** The padded message is the shortest run of whole blocks that holds the message, the marker
      bit's byte and the 8 length bytes. */
  lemma PaddedIsShortest(m: seq<byte>, n: nat)
    requires n % 64 == 0 && n >= |m| + 9
    ensures |m| + 9 <= |Padded(m)| <= n
  {
    hide LengthField, Zeros;
    ShortestPadding(|m|, n);
  }

  lemma ShortestPadding(length: nat, n: nat)
    requires n % 64 == 0 && n >= length + 9
    ensures length + 9 + (55 - length) % 64 <= n
  {
    var (q, z) := ((n - length - 9) / 64, (n - length - 9) % 64);
    assert n - length - 9 == 64 * q + z;
  }

  // ----- section 3.5: output

  function WordBytes(w: bv32): (b: seq<byte>)
    ensures |b| == 4
  {
    [(w & 0xff) as bv8 as int, ((w >> 8) & 0xff) as bv8 as int,
     ((w >> 16) & 0xff) as bv8 as int, ((w >> 24) & 0xff) as bv8 as int]
  }

  function Digest(m: seq<byte>): (d: seq<byte>)
    ensures |d| == 16
  {
    var s := Fold(INITIAL_STATE, Padded(m));
    WordBytes(s.a) + WordBytes(s.b) + WordBytes(s.c) + WordBytes(s.d)
  }

  lemma {:induction false} FoldAppend(s: State, a: seq<byte>, b: seq<byte>)
    requires |a| % 64 == 0
    ensures Fold(s, a + b) == Fold(Fold(s, a), b)
    decreases |a|
  {
    hide Compress;
    if |a| < 64 {
      assert a + b == b;
    } else {
      FoldAppend(Compress(s, a[..64]), a[64..], b);
      assert (a + b)[..64] == a[..64] && (a + b)[64..] == a[64..] + b;
    }
  }
}

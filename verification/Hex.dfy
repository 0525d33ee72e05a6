/** Hexadecimal text on both ends of the debug protocol (gdbserver.c, DebuggingProtocol.py). */
module Hex {
  import opened Bytes
  import opened Options
  import Bits

  /** `nibble_to_hexchar` */
  function HexDigit(nibble: nat): byte {
    var low := nibble % 16;
    if low < 10 then 48 + low else 97 + low - 10
  }

  function DigitValue(c: byte): (v: Option<nat>)
    ensures v.Some? ==> v.value < 16
  {
    if 48 <= c <= 57 then Some(c - 48)
    else if 97 <= c <= 102 then Some(c - 97 + 10)
    else if 65 <= c <= 70 then Some(c - 65 + 10)
    else None
  }

  predicate IsDigit(c: byte) {
    DigitValue(c).Some?
  }

  // ----- bytes

  function HexStr(b: seq<byte>): (t: seq<byte>)
    ensures |t| == 2 * |b|
  {
    if b == [] then []
    else HexStr(b[..|b| - 1]) + [HexDigit(b[|b| - 1] / 16), HexDigit(b[|b| - 1])]
  }

  /** Python's `bytes.fromhex`. */
  function FromHex(t: seq<byte>): Option<seq<byte>> {
    if t == [] then Some([])
    else if |t| == 1 then None
    else
      var n := |t| - 2;
      match (FromHex(t[..n]), DigitValue(t[n]), DigitValue(t[n + 1]))
      case (Some(front), Some(high), Some(low)) => Some(front + [16 * high + low])
      case _ => None
  }

  lemma DigitRoundTrip(n: nat)
    ensures DigitValue(HexDigit(n)) == Some(n % 16)
  {
  }

  lemma FromHexLast(t: seq<byte>, front: seq<byte>, x: byte)
    requires FromHex(t) == Some(front)
    ensures FromHex(t + [HexDigit(x / 16), HexDigit(x)]) == Some(front + [x])
  {
    hide HexDigit, DigitValue;
    DigitRoundTrip(x / 16);
    DigitRoundTrip(x);
    var u := t + [HexDigit(x / 16), HexDigit(x)];
    assert u[..|u| - 2] == t;
    assert 16 * (x / 16 % 16) + x % 16 == x;
  }

  lemma {:induction false} HexRoundTrip(b: seq<byte>)
    ensures FromHex(HexStr(b)) == Some(b)
  {
    hide FromHex, HexDigit;
    if b == [] {
      EmptyText();
    } else {
      HexRoundTrip(b[..|b| - 1]);
      FromHexLast(HexStr(b[..|b| - 1]), b[..|b| - 1], b[|b| - 1]);
      assert b == b[..|b| - 1] + [b[|b| - 1]];
    }
  }

  lemma EmptyText()
    ensures FromHex([]) == Some([])
  {
  }

  /** No hexadecimal text holds a frame's hash sign, or any other character but digits. */
  lemma {:induction false} HexStrIsDigits(b: seq<byte>)
    ensures forall c :: c in HexStr(b) ==> IsDigit(c)
  {
    if b != [] { HexStrIsDigits(b[..|b| - 1]); }
  }

  lemma HexStrSnoc(b: seq<byte>, i: nat)
    requires i < |b|
    ensures HexStr(b[..i + 1]) == HexStr(b[..i]) + [HexDigit(b[i] / 16), HexDigit(b[i])]
  {
    assert b[..i + 1][..i] == b[..i];
  }

  /** `memory_to_hexstr` */
  method MemoryToHexstr(dest: array<byte>, src: seq<byte>)
    requires dest.Length >= 2 * |src| + 1
    modifies dest
    ensures dest[..2 * |src|] == HexStr(src) && dest[2 * |src|] == 0
    ensures dest[2 * |src| + 1..] == old(dest[2 * |src| + 1..])
  {
    hide HexStr, HexDigit;
    assert HexStr(src[..0]) == [] by { assert |HexStr(src[..0])| == 0; }
    for i := 0 to |src|
      invariant dest[..2 * i] == HexStr(src[..i])
      invariant dest[2 * |src| + 1..] == old(dest[2 * |src| + 1..])
    {
      dest[2 * i + 0] := HexDigit(src[i] / 16);
      dest[2 * i + 1] := HexDigit(src[i]);
      HexStrSnoc(src, i);
      assert dest[..2 * (i + 1)] == dest[..2 * i] + [dest[2 * i], dest[2 * i + 1]];
    }
    assert src[..|src|] == src;
    dest[2 * |src|] := 0;
  }

  // ----- numbers

  /** `%x` */
  function PrintHex(n: nat): (t: seq<byte>)
    ensures t != []
  {
    if n < 16 then [HexDigit(n)] else PrintHex(n / 16) + [HexDigit(n)]
  }

  /** `%0<width>x` for numbers of at most that many digits. */
  function FixedHex(n: nat, width: nat): (t: seq<byte>)
    ensures |t| == width
  {
    if width == 0 then [] else FixedHex(n / 16, width - 1) + [HexDigit(n)]
  }

  /** The value of a text of digits. */
  function Number(t: seq<byte>): nat {
    if t == [] then 0 else 16 * Number(t[..|t| - 1]) + DigitValue(t[|t| - 1]).GetOr(0)
  }

  predicate AllDigits(t: seq<byte>) {
    forall i :: 0 <= i < |t| ==> IsDigit(t[i])
  }

  /** How many digits stand at the front. */
  function Leading(t: seq<byte>): (n: nat)
    ensures n <= |t| && AllDigits(t[..n]) && (n < |t| ==> !IsDigit(t[n]))
  {
    if t == [] || !IsDigit(t[0]) then 0
    else
      assert t[..1 + Leading(t[1..])] == [t[0]] + t[1..][..Leading(t[1..])];
      1 + Leading(t[1..])
  }

  const LLONG_MAX := 0x7fff_ffff_ffff_ffff

  const LLONG_MIN := -0x8000_0000_0000_0000

  predicate IsBlank(c: byte) {
    c == 32 || 9 <= c <= 13
  }

  predicate AllBlank(t: seq<byte>) {
    forall i :: 0 <= i < |t| ==> IsBlank(t[i])
  }

  function SkipBlanks(t: seq<byte>): seq<byte> {
    if t != [] && IsBlank(t[0]) then SkipBlanks(t[1..]) else t
  }

  predicate IsX(c: byte) {
    c == 88 || c == 120
  }

  function Clamp(n: int): int {
    if n < LLONG_MIN then LLONG_MIN else if n > LLONG_MAX then LLONG_MAX else n
  }

  /** The number behind the sign, with or without `0x`. */
  function Magnitude(t: seq<byte>): nat {
    var digits := if |t| >= 2 && t[0] == 48 && IsX(t[1]) then t[2..] else t;
    Number(digits[..Leading(digits)])
  }

  /** `strtoll(t, NULL, 16)` */
  function Strtoll(t: seq<byte>): int {
    var s := SkipBlanks(t);
    if s != [] && s[0] == 45 then Clamp(0 - Magnitude(s[1..]))
    else if s != [] && s[0] == 43 then Clamp(Magnitude(s[1..]))
    else Clamp(Magnitude(s))
  }

  /** Python's `int(t, 16)`. */
  function ParseInt(t: seq<byte>): Option<nat> {
    if t != [] && AllDigits(t) then Some(Number(t)) else None
  }

  lemma {:induction false} PrintedNumber(n: nat)
    ensures AllDigits(PrintHex(n)) && Number(PrintHex(n)) == n
  {
    if n >= 16 {
      PrintedNumber(n / 16);
      assert PrintHex(n)[..|PrintHex(n)| - 1] == PrintHex(n / 16);
    } else {
      assert PrintHex(n)[..0] == [];
    }
  }

  lemma {:induction false} LeadingDigits(t: seq<byte>, rest: seq<byte>)
    requires AllDigits(t) && (rest == [] || !IsDigit(rest[0]))
    ensures (t + rest)[..Leading(t + rest)] == t
  {
    hide DigitValue;
    if t == [] {
      assert t + rest == rest;
    } else {
      LeadingDigits(t[1..], rest);
      assert (t + rest)[1..] == t[1..] + rest;
    }
  }

  lemma {:induction false} BlanksSkipped(blanks: seq<byte>, t: seq<byte>)
    requires AllBlank(blanks) && (t == [] || !IsBlank(t[0]))
    ensures SkipBlanks(blanks + t) == t
  {
    hide IsBlank;
    if blanks == [] {
      assert blanks + t == t;
    } else {
      BlanksSkipped(blanks[1..], t);
      assert (blanks + t)[1..] == blanks[1..] + t;
    }
  }

  /** Neither a digit nor the `x` behind a first 0. */
  predicate EndsNumber(rest: seq<byte>) {
    rest == [] || !(IsDigit(rest[0]) || IsX(rest[0]))
  }

  lemma MagnitudeOfPrinted(n: nat, prefixed: bool, rest: seq<byte>)
    requires EndsNumber(rest)
    ensures Magnitude((if prefixed then [48, 120] else []) + (PrintHex(n) + rest)) == n
  {
    hide PrintHex, Number, Leading;
    PrintedNumber(n);
    LeadingDigits(PrintHex(n), rest);
    var (d, u) := (PrintHex(n) + rest, [48, 120] + (PrintHex(n) + rest));
    assert u[2..] == d && [] + d == d;
    assert IsDigit(d[0]);
    if |d| >= 2 {
      assert d[1] == if |PrintHex(n)| > 1 then PrintHex(n)[1] else rest[0];
    }
  }

  datatype Sign = Unsigned | Plus | Minus

  function SignText(sign: Sign): seq<byte> {
    match sign
    case Unsigned => []
    case Plus => [43]
    case Minus => [45]
  }

  /** Blanks, a sign and `0x` may stand before the number and anything that is no digit behind it; what
      does not fit is cut to the ends of the range. */
  lemma StrtollReads(blanks: seq<byte>, sign: Sign, prefixed: bool, n: nat, rest: seq<byte>)
    requires AllBlank(blanks) && EndsNumber(rest)
    ensures Strtoll(blanks + (SignText(sign) + ((if prefixed then [48, 120] else []) + (PrintHex(n) + rest)))) ==
      Clamp(if sign == Minus then 0 - n else n)
  {
    hide PrintHex, Magnitude, SkipBlanks;
    MagnitudeOfPrinted(n, prefixed, rest);
    PrintedNumber(n);
    var u := (if prefixed then [48, 120] else []) + (PrintHex(n) + rest);
    assert IsDigit(u[0]) by { assert u[0] == if prefixed then 48 else PrintHex(n)[0]; }
    var t := SignText(sign) + u;
    assert if sign == Unsigned then t == u else t[1..] == u;
    BlanksSkipped(blanks, t);
  }

  lemma StrtollOfPrinted(n: nat)
    requires n <= LLONG_MAX
    ensures Strtoll(PrintHex(n)) == n
  {
    hide PrintHex, Strtoll;
    StrtollReads([], Unsigned, false, n, []);
    assert [] + ([] + ([] + (PrintHex(n) + []))) == PrintHex(n);
  }

  lemma {:induction false} FixedNumber(n: nat, width: nat)
    ensures AllDigits(FixedHex(n, width))
    ensures n < Bits.Pow2(4 * width) ==> Number(FixedHex(n, width)) == n
  {
    hide HexDigit, DigitValue;
    assert Bits.Pow2(0) == 1;
    hide Bits.Pow2;
    if width > 0 {
      FixedNumber(n / 16, width - 1);
      DigitRoundTrip(n);
      assert FixedHex(n, width)[..width - 1] == FixedHex(n / 16, width - 1);
      Bits.FourPowers(4 * (width - 1));
    }
  }

  lemma ParseFixedWord(n: word)
    ensures ParseInt(FixedHex(n, 8)) == Some(n)
  {
    FixedNumber(n, 8);
    Bits.BytePowers();
  }

  // ----- byte order

  /** `htonl` on a little-endian host. */
  function Htonl(w: word): word {
    var b := LittleEndian(w, 4);
    var swapped := [b[3], b[2], b[1], b[0]];
    FromLittleEndianWord(swapped);
    FromLittleEndian(swapped)
  }

  /** `_byteorder` */
  function ByteOrder(value: nat): nat {
    Bits.Or(Bits.Or(Bits.Or(
      Bits.Shl(Bits.And(Bits.Shr(value, 0), 0xff), 24),
      Bits.Shl(Bits.And(Bits.Shr(value, 8), 0xff), 16)),
      Bits.Shl(Bits.And(Bits.Shr(value, 16), 0xff), 8)),
      Bits.Shl(Bits.And(Bits.Shr(value, 24), 0xff), 0))
  }

  lemma ShlByte(x: nat, k: nat)
    ensures Bits.Shl(x, k + 8) == 256 * Bits.Shl(x, k) && Bits.Shl(x, 0) == x
  {
    assert Bits.Shl(x, k + 4) == 2 * Bits.Shl(x, k + 3) == 4 * Bits.Shl(x, k + 2) == 8 * Bits.Shl(x, k + 1);
    assert Bits.Shl(x, k + 8) == 2 * Bits.Shl(x, k + 7) == 4 * Bits.Shl(x, k + 6) == 8 * Bits.Shl(x, k + 5);
  }

  lemma FourBytes(a: byte, b: byte, c: byte, d: byte)
    ensures Bits.Or(Bits.Or(Bits.Or(Bits.Shl(a, 24), Bits.Shl(b, 16)), Bits.Shl(c, 8)), Bits.Shl(d, 0)) ==
      0x100_0000 * a + 0x1_0000 * b + 0x100 * c + d
  {
    hide Bits.Shl, Bits.Or, Bits.Pow2;
    Bits.BytePowers();
    Shifted(a, b);
    Shifted(256 * a + b, c);
    Shifted(256 * (256 * a + b) + c, d);
    Bits.OrUnder(a, 24, Bits.Shl(b, 16));
    Bits.OrUnder(256 * a + b, 16, Bits.Shl(c, 8));
    Bits.OrUnder(256 * (256 * a + b) + c, 8, d);
  }

  lemma Shifted(x: nat, d: byte)
    ensures Bits.Shl(x, 8) == 256 * x && Bits.Shl(x, 16) == 0x1_0000 * x && Bits.Shl(x, 24) == 0x100_0000 * x
    ensures Bits.Shl(d, 0) == d && Bits.Shl(d, 8) == 256 * d && Bits.Shl(d, 16) == 0x1_0000 * d
  {
    hide Bits.Shl;
    ShlByte(x, 0);
    ShlByte(x, 8);
    ShlByte(x, 16);
    ShlByte(d, 0);
    ShlByte(d, 8);
  }

  lemma ByteOrderOfBytes(a: byte, b: byte, c: byte, d: byte)
    ensures ByteOrder(a + 256 * (b + 256 * (c + 256 * d))) == 0x100_0000 * a + 0x1_0000 * b + 0x100 * c + d
  {
    hide Bits.Shl, Bits.Or, Bits.And, Bits.Shr;
    var v := a + 256 * (b + 256 * (c + 256 * d));
    Bits.ShrStep(v, 0);
    Bits.ByteOf(v, 0);
    Bits.ByteOf(v, 8);
    Bits.ByteOf(v, 16);
    Bits.ByteOf(v, 24);
    assert Bits.Shr(v, 8) == b + 256 * (c + 256 * d);
    assert Bits.Shr(v, 16) == c + 256 * d;
    assert Bits.Shr(v, 24) == d;
    FourBytes(a, b, c, d);
  }

  /** The client's byte swap undoes the server's. */
  lemma ByteOrderOfHtonl(w: word)
    ensures ByteOrder(Htonl(w)) == w
  {
    hide ByteOrder;
    var b := LittleEndian(w, 4);
    WordOfBytes(b[3], b[2], b[1], b[0]);
    ByteOrderOfBytes(b[3], b[2], b[1], b[0]);
    WordRoundTrip(w);
    WordOfBytes(b[0], b[1], b[2], b[3]);
    assert b == [b[0], b[1], b[2], b[3]];
  }

  lemma WordOfBytes(a: byte, b: byte, c: byte, d: byte)
    ensures FromLittleEndian([a, b, c, d]) == a + 256 * (b + 256 * (c + 256 * d))
  {
    assert [a, b, c, d][1..] == [b, c, d] && [b, c, d][1..] == [c, d] && [c, d][1..] == [d] && [d][1..] == [];
    assert FromLittleEndian([c, d]) == c + 256 * FromLittleEndian([d]);
  }
}

/**
 * Parsing of the hexadecimal key text read from the encryption file. The
 * text is a C string, so it is handled as bytes: its length is what strlen
 * counts, and character i is byte i. The firmware turns each pair of bytes
 * into a two-byte string, converts it with strtol in base 16, and stores
 * the long result in a uint8_t; PairByte models that for any two non-NUL
 * bytes.
 */
module KeyHex {
  import opened Bytes

  /** The bytes of a NUL-terminated C string (the terminator excluded). */
  type CString = s: seq<Byte> | 0 !in s

  /** isspace in the C locale: space, \t, \n, \v, \f, \r. */
  predicate IsSpace(b: Byte)
  {
    b as int == ' ' as int || '\t' as int <= b as int <= '\r' as int
  }

  predicate IsHexDigit(b: Byte)
  {
    var v := b as int;
    '0' as int <= v <= '9' as int || 'a' as int <= v <= 'f' as int || 'A' as int <= v <= 'F' as int
  }

  function DigitValue(b: Byte): (v: nat)
    requires IsHexDigit(b)
    ensures v < 16
  {
    var c := b as int;
    if '0' as int <= c <= '9' as int then c - '0' as int
    else if 'a' as int <= c <= 'f' as int then c - 'a' as int + 10
    else c - 'A' as int + 10
  }

  /** strtol(s, nullptr, 16) for a string made of the single byte b. */
  function StrtolOne(b: Byte): (r: int)
    ensures 0 <= r < 16
  {
    if IsHexDigit(b) then DigitValue(b) else 0
  }

  /**
   * strtol(s, nullptr, 16) for the two-byte string b0 b1: leading white
   * space is skipped, one sign is accepted, a "0x" prefix without a hex
   * digit after it reads as 0, and conversion stops at the first byte that
   * is not a hex digit (0 when there is none). The value always lies in
   * [-15, 255].
   */
  function StrtolPair(b0: Byte, b1: Byte): (r: int)
    ensures -15 <= r <= 255
  {
    if IsSpace(b0) then StrtolOne(b1)
    else if b0 as int == '+' as int then StrtolOne(b1)
    else if b0 as int == '-' as int then -StrtolOne(b1)
    else if IsHexDigit(b0) then
      if IsHexDigit(b1) then 16 * DigitValue(b0) + DigitValue(b1) else DigitValue(b0)
    else 0
  }

  /** The long-to-uint8_t conversion: the value modulo 256. */
  function Truncate(v: int): (b: Byte)
    ensures b as int == v % 256
  {
    ByteOfNat(v % 256)
  }

  /** The byte pushed into the key: the long from strtol truncated to uint8_t. */
  function PairByte(b0: Byte, b1: Byte): Byte
  {
    Truncate(StrtolPair(b0, b1))
  }

  /** The bytes the loop over i produces, one per byte pair 2i, 2i + 1. */
  function ParseHex(s: seq<Byte>): (r: seq<Byte>)
    ensures |r| == |s| / 2
  {
    seq(|s| / 2, i requires 0 <= i < |s| / 2 => PairByte(s[2 * i], s[2 * i + 1]))
  }

  /** On two hex digits, the pair reads as the byte 16 * high + low. */
  lemma WellFormedPair(b0: Byte, b1: Byte)
    requires IsHexDigit(b0) && IsHexDigit(b1)
    ensures PairByte(b0, b1) as int == 16 * DigitValue(b0) + DigitValue(b1)
  {
    var d0, d1 := DigitValue(b0), DigitValue(b1);
    var v := StrtolPair(b0, b1);
    assert v == 16 * d0 + d1;
    SmallMod(v);
  }

  lemma SmallMod(v: int)
    requires 0 <= v < 256
    ensures v % 256 == v
  {
  }

  /** A pair with no hex digit at all (and no sign before one) reads as 0. */
  lemma NonHexPairIsZero(b0: Byte, b1: Byte)
    requires !IsHexDigit(b0) && !IsHexDigit(b1)
    ensures PairByte(b0, b1) == 0
  {
    assert StrtolPair(b0, b1) == 0;
    ByteOfInt(PairByte(b0, b1), 0);
  }

  /** The minus sign '-'. */
  const MINUS: Byte := 0x2D

  /** "-f" and the like wrap around: strtol gives -15, stored as 241. */
  lemma NegativePairWraps(b1: Byte)
    requires IsHexDigit(b1) && DigitValue(b1) > 0
    ensures PairByte(MINUS, b1) as int == 256 - DigitValue(b1)
  {
    var d: int := DigitValue(b1);
    assert StrtolPair(MINUS, b1) == -d;
    assert (-d) % 256 == 256 - d;
  }

  /** Lower-case hex digit of a nibble. */
  function NibbleDigit(v: nat): (c: Byte)
    requires v < 16
    ensures IsHexDigit(c) && DigitValue(c) == v
  {
    if v < 10 then ByteOfNat('0' as int + v) else ByteOfNat('a' as int + v - 10)
  }

  /** The high four bits of a byte. */
  function HighNibble(x: Byte): (h: nat)
    ensures h < 16
  {
    x as int / 16
  }

  /** The low four bits of a byte; together with the high ones they give the byte back. */
  function LowNibble(x: Byte): (l: nat)
    ensures l < 16 && 16 * HighNibble(x) + l == x as int
  {
    x as int % 16
  }

  /** The hex text of a byte string, two lower-case digits per byte, high nibble first. */
  function ToHex(b: seq<Byte>): (s: seq<Byte>)
    ensures |s| == 2 * |b|
    ensures forall k :: 0 <= k < |s| ==> IsHexDigit(s[k])
  {
    seq(2 * |b|, k requires 0 <= k < 2 * |b| =>
      if k % 2 == 0 then NibbleDigit(HighNibble(b[k / 2])) else NibbleDigit(LowNibble(b[k / 2])))
  }

  /** The two digits written for one byte read back as that byte. */
  lemma PairOfByte(x: Byte)
    ensures PairByte(NibbleDigit(HighNibble(x)), NibbleDigit(LowNibble(x))) == x
  {
    var b0, b1 := NibbleDigit(HighNibble(x)), NibbleDigit(LowNibble(x));
    WellFormedPair(b0, b1);
    ByteOfInt(PairByte(b0, b1), x);
  }

  /** The loop's i + 1 first bytes: the i first ones and the byte of pair i. */
  lemma ParseHexSnoc(s: seq<Byte>, i: nat)
    requires i < |s| / 2
    ensures 2 * i + 1 < |s|
    ensures ParseHex(s)[..i + 1] == ParseHex(s)[..i] + [PairByte(s[2 * i], s[2 * i + 1])]
  {
  }

  /** All |s| / 2 bytes of ParseHex(s) make up the whole result. */
  lemma ParseHexWhole(s: seq<Byte>, n: nat)
    requires n == |s| / 2
    ensures ParseHex(s)[..n] == ParseHex(s)
  {
  }

  /** Hex text written by ToHex parses back to the same bytes. */
  lemma ParseToHex(b: seq<Byte>)
    ensures ParseHex(ToHex(b)) == b
  {
    var s := ToHex(b);
    forall i | 0 <= i < |b|
      ensures ParseHex(s)[i] == b[i]
    {
      var j := 2 * i;
      var k := j + 1;
      ToHexDigits(b, i, j, k);
      ParseHexAt(s, i, j, k);
      PairOfByte(b[i]);
    }
  }

  /** Byte i of ParseHex(s) reads bytes 2i and 2i + 1. */
  lemma ParseHexAt(s: seq<Byte>, i: nat, j: nat, k: nat)
    requires i < |s| / 2 && j == 2 * i && k == j + 1
    ensures k < |s| && ParseHex(s)[i] == PairByte(s[j], s[k])
  {
  }

  /** Bytes 2i and 2i + 1 of ToHex(b) are the two digits of byte i. */
  lemma ToHexDigits(b: seq<Byte>, i: nat, j: nat, k: nat)
    requires i < |b| && j == 2 * i && k == j + 1
    ensures ToHex(b)[j] == NibbleDigit(HighNibble(b[i]))
    ensures ToHex(b)[k] == NibbleDigit(LowNibble(b[i]))
  {
    assert j % 2 == 0 && j / 2 == i;
    assert k % 2 == 1 && k / 2 == i;
  }
}

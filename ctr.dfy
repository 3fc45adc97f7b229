/**
 * The cipher structure used by the LoRa link: zero padding to the AES block
 * size and AES-128 in counter mode (NIST SP 800-38A, section 6.5). The AES
 * block function itself is not modelled; it is a parameter of type
 * BlockCipher. Counter blocks are incremented as one 128-bit big-endian
 * integer (NIST SP 800-38A, Appendix B.1), as mbedtls_aes_crypt_ctr does.
 */
module Ctr {
  import opened Bytes

  /** A 16-byte AES block. */
  type Block = b: seq<Byte> | |b| == 16 witness [0, 0, 0, 0, 0, 0, 0, 0, 0, 0, 0, 0, 0, 0, 0, 0]

  /** The AES-128 forward block function: (key, input block) to output block. */
  type BlockCipher = (seq<Byte>, Block) -> Block

  function Zeros(n: nat): (z: seq<Byte>)
    ensures |z| == n
    ensures forall i :: 0 <= i < n ==> z[i] == 0
  {
    seq(n, _ => 0)
  }

  const ZERO_BLOCK: Block := Zeros(16)

  /** The length a buffer of n bytes is resized to before encryption. */
  function PaddedLength(n: nat): (m: nat)
    ensures m % 16 == 0
    ensures n <= m < n + 16
  {
    (n + 15) / 16 * 16
  }

  /** PaddedLength is the only multiple of 16 in [n, n + 16). */
  lemma PaddedLengthUnique(n: nat, m: nat)
    requires m % 16 == 0 && n <= m < n + 16
    ensures m == PaddedLength(n)
  {
  }

  /**
   * The source computes the padded size as `(n + 15) & ~15` on a 32-bit
   * size_t; while n + 15 does not wrap, that value has the same
   * characterisation as PaddedLength (a multiple of 16 in [n, n + 16)).
   */
  lemma PaddedLengthMask(n: bv32)
    requires n <= 0xFFFF_FFF0
    ensures ((n + 15) & !15) % 16 == 0
    ensures n <= (n + 15) & !15 && ((n + 15) & !15) - n < 16
  {
  }

  /** The buffer after `resize`: the data followed by zero bytes up to a multiple of 16. */
  function Pad(data: seq<Byte>): (p: seq<Byte>)
    ensures |p| == PaddedLength(|data|)
  {
    data + Zeros(PaddedLength(|data|) - |data|)
  }

  lemma PadKeepsData(data: seq<Byte>)
    ensures Pad(data)[..|data|] == data
    ensures forall i :: |data| <= i < |Pad(data)| ==> Pad(data)[i] == 0
    ensures data == [] ==> Pad(data) == []
  {
  }

  /** Padding a buffer whose length is already a multiple of 16 changes nothing. */
  lemma PadAligned(data: seq<Byte>)
    requires |data| % 16 == 0
    ensures Pad(data) == data
  {
    assert PaddedLength(|data|) == |data|;
    assert Zeros(0) == [];
  }

  /** Adding one to a counter block read as a big-endian integer, wrapping on overflow. */
  function Increment(c: seq<Byte>): (r: seq<Byte>)
    ensures |r| == |c|
    decreases |c|
  {
    if c == [] then []
    else
      var last := c[|c| - 1];
      if last == 255 then Increment(c[..|c| - 1]) + [0]
      else c[..|c| - 1] + [last + 1]
  }

  /** The counter block used for block number k of a message started at iv. */
  function CounterBlock(iv: Block, k: nat): Block
  {
    IncrementTimes(iv, k)
  }

  /** The counter c after k increments. */
  function IncrementTimes(c: seq<Byte>, k: nat): (r: seq<Byte>)
    ensures |r| == |c|
  {
    if k == 0 then c else Increment(IncrementTimes(c, k - 1))
  }

  /** Byte j of the keystream: byte j % 16 of the AES image of counter block j / 16. */
  function KeystreamByte(aes: BlockCipher, key: seq<Byte>, iv: Block, j: nat): Byte
  {
    aes(key, CounterBlock(iv, j / 16))[j % 16]
  }

  /** Counter-mode transformation of data: XOR with the keystream. */
  function Crypt(aes: BlockCipher, key: seq<Byte>, iv: Block, data: seq<Byte>): (r: seq<Byte>)
    ensures |r| == |data|
  {
    seq(|data|, j requires 0 <= j < |data| => data[j] ^ KeystreamByte(aes, key, iv, j))
  }

  /** Counter mode is its own inverse under the same key and starting counter. */
  lemma CryptInvolutive(aes: BlockCipher, key: seq<Byte>, iv: Block, data: seq<Byte>)
    ensures Crypt(aes, key, iv, Crypt(aes, key, iv, data)) == data
  {
    var c := Crypt(aes, key, iv, data);
    var d := Crypt(aes, key, iv, c);
    forall j | 0 <= j < |data|
      ensures d[j] == data[j]
    {
      var k := KeystreamByte(aes, key, iv, j);
      assert d[j] == (data[j] ^ k) ^ k;
    }
  }

  /**
   * Keystream reuse: two messages encrypted with the same key and the same
   * starting counter leak the XOR of their plaintexts.
   */
  lemma KeystreamReuse(aes: BlockCipher, key: seq<Byte>, iv: Block, p: seq<Byte>, q: seq<Byte>, j: nat)
    requires j < |p| && j < |q|
    ensures Crypt(aes, key, iv, p)[j] ^ Crypt(aes, key, iv, q)[j] == p[j] ^ q[j]
  {
    var k := KeystreamByte(aes, key, iv, j);
    assert (p[j] ^ k) ^ (q[j] ^ k) == p[j] ^ q[j];
  }

  function Pow256(n: nat): (p: nat)
    ensures p >= 1
  {
    if n == 0 then 1 else 256 * Pow256(n - 1)
  }

  /** The number a counter block denotes, most significant byte first. */
  function Value(c: seq<Byte>): nat
  {
    if c == [] then 0 else 256 * Value(c[..|c| - 1]) + c[|c| - 1] as int
  }

  predicate IsMax(c: seq<Byte>)
  {
    forall i :: 0 <= i < |c| ==> c[i] == 255
  }

  lemma ValueSnoc(p: seq<Byte>, b: Byte)
    ensures Value(p + [b]) == 256 * Value(p) + b as int
  {
    assert (p + [b])[..|p|] == p;
  }

  lemma IncrementSnoc(p: seq<Byte>, b: Byte)
    ensures Increment(p + [b]) == if b == 255 then Increment(p) + [0] else p + [b + 1]
  {
    assert (p + [b])[..|p|] == p;
  }

  lemma MaxSnoc(p: seq<Byte>, b: Byte)
    ensures IsMax(p + [b]) <==> IsMax(p) && b == 255
  {
    if IsMax(p) && b == 255 {
      forall i | 0 <= i < |p| + 1 ensures (p + [b])[i] == 255 {
        if i < |p| { assert (p + [b])[i] == p[i]; }
      }
    }
    if IsMax(p + [b]) {
      forall i | 0 <= i < |p| ensures p[i] == 255 {
        assert (p + [b])[i] == p[i];
      }
      assert (p + [b])[|p|] == b;
    }
  }

  lemma Pow256Succ(a: nat, b: nat)
    requires b == a + 1
    ensures Pow256(b) == 256 * Pow256(a)
  {
  }

  lemma {:induction false} IncrementValue(c: seq<Byte>)
    requires !IsMax(c)
    ensures Value(Increment(c)) == Value(c) + 1
    decreases |c|
  {
    var p := c[..|c| - 1];
    var b := c[|c| - 1];
    assert c == p + [b];
    IncrementSnoc(p, b);
    MaxSnoc(p, b);
    ValueSnoc(p, b);
    if b == 255 {
      IncrementValue(p);
      ValueSnoc(Increment(p), 0);
    } else {
      ByteSucc(b);
      ValueSnoc(p, b + 1);
    }
  }

  lemma {:induction false} ValueBound(c: seq<Byte>)
    ensures Value(c) < Pow256(|c|)
    ensures Value(c) + 1 == Pow256(|c|) <==> IsMax(c)
    decreases |c|
  {
    if c != [] {
      var p := c[..|c| - 1];
      var b := c[|c| - 1];
      assert c == p + [b];
      ValueBound(p);
      ValueSnoc(p, b);
      MaxSnoc(p, b);
      Pow256Succ(|p|, |c|);
    }
  }

  lemma {:induction false} ValueZeros(len: nat)
    ensures Value(Zeros(len)) == 0
  {
    if len > 0 {
      var p := Zeros(len - 1);
      assert Zeros(len) == p + [0];
      ValueZeros(len - 1);
      ValueSnoc(p, 0);
    }
  }

  lemma {:induction false} IncrementMax(c: seq<Byte>)
    requires IsMax(c)
    ensures Increment(c) == Zeros(|c|)
    decreases |c|
  {
    if c != [] {
      var p := c[..|c| - 1];
      var b := c[|c| - 1];
      assert c == p + [b];
      MaxSnoc(p, b);
      IncrementSnoc(p, b);
      IncrementMax(p);
      assert Zeros(|c|) == Zeros(|p|) + [0];
    }
  }

  lemma IncrementTimesSucc(c: seq<Byte>, j: nat, k: nat)
    requires k == j + 1
    ensures IncrementTimes(c, k) == Increment(IncrementTimes(c, j))
  {
  }

  /** After k increments of the all-zero counter, below 256^len, the counter denotes k. */
  lemma {:induction false} IncrementTimesValue(k: nat, len: nat)
    requires k < Pow256(len)
    ensures Value(IncrementTimes(Zeros(len), k)) == k
  {
    if k == 0 {
      ValueZeros(len);
    } else {
      var j: nat :| j + 1 == k;
      IncrementTimesValue(j, len);
      var c := IncrementTimes(Zeros(len), j);
      IncrementTimesSucc(Zeros(len), j, k);
      ValueBound(c);
      IncrementValue(c);
    }
  }

  /** Two blocks of the same length that denote the same number are equal. */
  lemma {:induction false} ValueInjective(a: seq<Byte>, b: seq<Byte>)
    requires |a| == |b| && Value(a) == Value(b)
    ensures a == b
    decreases |a|
  {
    if a != [] {
      var pa, ka := a[..|a| - 1], a[|a| - 1];
      var pb, kb := b[..|b| - 1], b[|b| - 1];
      var va := ValueOfLast(a, pa, ka);
      var vb := ValueOfLast(b, pb, kb);
      SameDigits(va, vb, ka, kb);
      ValueInjective(pa, pb);
      SnocCongruent(pa, ka, pb, kb);
    }
  }

  /** Splits off the last (least significant) byte of a non-empty block. */
  lemma ValueOfLast(c: seq<Byte>, p: seq<Byte>, b: Byte) returns (v: nat)
    requires c != [] && p == c[..|c| - 1] && b == c[|c| - 1]
    ensures c == p + [b] && |p| == |c| - 1
    ensures v == Value(p) && Value(c) == 256 * v + b as int
  {
    v := Value(p);
  }

  lemma SnocCongruent(p: seq<Byte>, a: Byte, q: seq<Byte>, b: Byte)
    requires p == q && a == b
    ensures p + [a] == q + [b]
  {
  }

  /** Base-256 digits are unique: the quotient and the last byte determine each other. */
  lemma SameDigits(x: nat, y: nat, a: Byte, b: Byte)
    requires 256 * x + a as int == 256 * y + b as int
    ensures x == y && a == b
  {
    assert a as int < 256 && b as int < 256;
    DigitsUnique(x, y, a as int, b as int);
  }

  lemma DigitsUnique(x: nat, y: nat, a: int, b: int)
    requires 0 <= a < 256 && 0 <= b < 256 && 256 * x + a == 256 * y + b
    ensures x == y && a == b
  {
  }

  /**
   * Starting from the all-zero block, counter block k (k below 2^128)
   * denotes k: block k of the keystream is AES of the number k written as
   * 128 bits, most significant byte first.
   */
  lemma ZeroCounterIsIndex(k: nat)
    requires k < Pow256(16)
    ensures Value(CounterBlock(ZERO_BLOCK, k)) == k
  {
    IncrementTimesValue(k, 16);
  }

  /** With the all-zero starting counter, keystream byte j comes from the block that denotes j / 16. */
  lemma ZeroIvKeystream(aes: BlockCipher, key: seq<Byte>, j: nat, q: nat, block: Block)
    requires q == j / 16 && q < Pow256(16) && Value(block) == q
    ensures KeystreamByte(aes, key, ZERO_BLOCK, j) == aes(key, block)[j % 16]
  {
    ZeroCounterIsIndex(q);
    ValueInjective(CounterBlock(ZERO_BLOCK, q), block);
  }
}

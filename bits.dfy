/**
 * Bits and characters shared by every codec.
 *
 * A character is modelled by its code point; the model restricts the
 * alphabet to the single-byte range 0..255. A bit string is a sequence of
 * 0/1 values (the source keeps it as a string of '0'/'1' characters).
 */
module Bits {

  type Bit = b: int | 0 <= b < 2
  type CodePoint = c: int | 0 <= c < 256

  /** The reserved end-of-message character '#'. */
  const Delimiter: CodePoint := 35

  datatype Option<+T> = None | Some(value: T)

  function Pow2(n: nat): (r: nat)
    ensures r >= 1
  {
    if n == 0 then 1 else 2 * Pow2(n - 1)
  }

  lemma {:induction false} Pow2AtMost256(n: nat)
    requires n <= 8
    ensures Pow2(n) <= 256
    decreases 8 - n
  {
    if n < 8 { Pow2AtMost256(n + 1); }
  }

  /** The n-bit, most-significant-bit-first binary form of c (Python's format(c, "0nb") for c < 2^n). */
  function BitsOf(c: nat, n: nat): (r: seq<Bit>)
    ensures |r| == n
  {
    if n == 0 then [] else BitsOf(c / 2, n - 1) + [c % 2]
  }

  const ByteWidth: nat := 8

  /** format(ord(ch), "08b"): eight bits, most significant first. */
  function Byte(c: CodePoint): (r: seq<Bit>)
    ensures |r| == 8
  {
    BitsOf(c, ByteWidth)
  }

  /** int(bits, 2): the big-endian value of a bit string. */
  function Value(b: seq<Bit>): (r: nat)
    ensures r < Pow2(|b|)
  {
    if b == [] then 0 else 2 * Value(b[..|b| - 1]) + b[|b| - 1]
  }

  lemma {:induction false} ValueOfBitsOf(c: nat, n: nat)
    requires c < Pow2(n)
    ensures Value(BitsOf(c, n)) == c
  {
    if n > 0 {
      var s := BitsOf(c / 2, n - 1) + [c % 2];
      assert s[..|s| - 1] == BitsOf(c / 2, n - 1);
      ValueOfBitsOf(c / 2, n - 1);
    }
  }

  /** Reading the eight bits of a code point back gives the code point. */
  lemma ByteRoundTrip(c: CodePoint)
    ensures Value(Byte(c)) == c
  {
    assert Pow2(8) == 256;
    ValueOfBitsOf(c, ByteWidth);
  }

  /** Distinct code points have distinct 8-bit forms. */
  lemma ByteInjective(c: CodePoint, d: CodePoint)
    ensures Byte(c) == Byte(d) <==> c == d
  {
    ByteRoundTrip(c);
    ByteRoundTrip(d);
  }
}

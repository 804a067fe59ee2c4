/**
 The byte domain of the DFA driver. States and input symbols are unsigned
 bytes in [0, 255]; the data arriving from callers is a C `char`, which on the
 driver's target is signed and lies in [-128, 127]. `Normalize` is the one place
 where a signed char becomes a table index.
 */
module Bytes {

  /** Number of states, and also the size of the input alphabet (MAX_STATES). */
  const MaxStates: nat := 256

  /** An unsigned byte: a state number or an input symbol. */
  type Byte = x: int | 0 <= x < 256

  /** A C `char` as the driver receives it (signed, two's complement). */
  type SignedChar = x: int | -128 <= x < 128

  /** A 32-bit unsigned word, the value type of the data store's u32 entries. */
  type Word = x: int | 0 <= x < 0x1_0000_0000

  /** Maps a signed char to the unsigned byte with the same bit pattern:
      negative values have MAX_STATES added, the others are kept. */
  function Normalize(c: SignedChar): (b: Byte)
    ensures b as int % 256 == c as int % 256
    ensures 0 <= c ==> b == c
  {
    if c < 0 then MaxStates + c else c
  }

  /** Reinterprets an unsigned byte as a signed char (the bit pattern a caller
      writes when it sends byte `b`). */
  function ToSigned(b: Byte): (c: SignedChar)
    ensures c as int % 256 == b as int % 256
    ensures c < 0 <==> b >= 128
  {
    if b >= 128 then b - 256 else b
  }

  /** Normalisation is the inverse of the two's complement reinterpretation,
      in both directions, so it is a bijection between the two domains. */
  lemma NormalizeToSigned(b: Byte)
    ensures Normalize(ToSigned(b)) == b
  {
  }

  lemma ToSignedNormalize(c: SignedChar)
    ensures ToSigned(Normalize(c)) == c
  {
  }

  /** Two chars select the same table row or column exactly when they are
      congruent modulo 256; in particular -1 and 255 name the same index. */
  lemma NormalizeSameIndex(c: SignedChar, d: SignedChar)
    ensures Normalize(c) == Normalize(d) <==> c == d
    ensures Normalize(-1) == 255
  {
  }

  /** Normalises a whole buffer, element by element, keeping the order. */
  function NormalizeAll(cs: seq<SignedChar>): (bs: seq<Byte>)
    ensures |bs| == |cs|
    ensures forall i :: 0 <= i < |cs| ==> bs[i] as int % 256 == cs[i] as int % 256
  {
    seq(|cs|, i requires 0 <= i < |cs| => Normalize(cs[i]))
  }

  lemma NormalizeAllAppend(xs: seq<SignedChar>, ys: seq<SignedChar>)
    ensures NormalizeAll(xs + ys) == NormalizeAll(xs) + NormalizeAll(ys)
  {
  }
}

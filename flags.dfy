/**
 * The bit-flag macros shared by src/decoderGG.h and include/slncGGDecoder.h.
 *
 * FLAGS is `unsigned long`, a 64-bit word on the LP64 targets the library
 * is built for, so a flag word is a `bv64`.  `1UL << n` is undefined in C
 * once n reaches the width, so every macro here requires n < Width.  Bit
 * positions are themselves `bv64` values, the type of the shift.
 */
module Flags {
  /** The width of `unsigned long`. */
  const Width: bv64 := 64

  /** FB_THOLD: the number of slots of the `grecent` ring of the GG decoders. */
  const FeedbackThreshold: nat := 1

  type FlagWord = bv64

  /** Bit k of x is on. */
  predicate Bit(x: FlagWord, k: bv64)
    requires k < Width
  {
    (x >> k) & 1 == 1
  }

  /** _BIT_MASK(n): only bit n is on. */
  function BitMask(n: bv64): (r: FlagWord)
    requires n < Width
    ensures Bit(r, n)
    ensures forall k :: k < Width && k != n ==> !Bit(r, k)
  {
    var m := 1 << n;
    MaskBits(m, n);
    m
  }

  lemma MaskBits(m: FlagWord, n: bv64)
    requires n < Width && m == 1 << n
    ensures Bit(m, n)
    ensures forall k :: k < Width && k != n ==> !Bit(m, k)
  {
  }

  /** _FLAG_SET(x, n): the word after `x |= _BIT_MASK(n)`. */
  function FlagSet(x: FlagWord, n: bv64): (r: FlagWord)
    requires n < Width
  {
    x | BitMask(n)
  }

  /** _FLAG_ON(x, n). */
  predicate FlagOn(x: FlagWord, n: bv64)
    requires n < Width
  {
    x & BitMask(n) == BitMask(n)
  }

  /** _FLAG_OFF(x, n). */
  predicate FlagOff(x: FlagWord, n: bv64)
    requires n < Width
  {
    x & BitMask(n) == 0
  }

  /** _FLAG_ON(x, n) tests exactly bit n of x. */
  lemma FlagOnIsBit(x: FlagWord, n: bv64)
    requires n < Width
    ensures FlagOn(x, n) <==> Bit(x, n)
  {
    var m := BitMask(n);
    assert m == 1 << n;
  }

  /** _FLAG_ON and _FLAG_OFF are negations of each other. */
  lemma OnOffComplement(x: FlagWord, n: bv64)
    requires n < Width
    ensures FlagOn(x, n) <==> !FlagOff(x, n)
  {
    var m := BitMask(n);
    assert m == 1 << n;
  }

  /** After _FLAG_SET(x, n), bit n is on and every other bit is as before. */
  lemma SetThenOn(x: FlagWord, n: bv64)
    requires n < Width
    ensures FlagOn(FlagSet(x, n), n)
  {
    var m := BitMask(n);
    assert m == 1 << n;
  }

  /** Bit k of x | m is on when bit k of x or of m is on. */
  lemma OrBit(x: FlagWord, m: FlagWord, k: bv64)
    requires k < Width
    ensures Bit(x | m, k) <==> Bit(x, k) || Bit(m, k)
  {
  }

  /** _FLAG_SET leaves the flags of the other bits alone. */
  lemma SetKeepsOthers(x: FlagWord, n: bv64, k: bv64)
    requires n < Width && k < Width && k != n
    ensures FlagOn(FlagSet(x, n), k) <==> FlagOn(x, k)
  {
    OrBit(x, BitMask(n), k);
    FlagOnIsBit(FlagSet(x, n), k);
    FlagOnIsBit(x, k);
  }

  /** Setting a flag twice is setting it once; setting a flag that is on changes nothing. */
  lemma SetIdempotent(x: FlagWord, n: bv64)
    requires n < Width
    ensures FlagSet(FlagSet(x, n), n) == FlagSet(x, n)
    ensures FlagOn(x, n) ==> FlagSet(x, n) == x
  {
  }
}

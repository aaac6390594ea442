/**
 * 32-bit machine words as the simulator's Java `int` sees them.
 *
 * A Java `int` is a 32-bit two's-complement value whose `+`, `-`, `*`, `<<`,
 * `&`, `|`, `^` and `>>>` are exactly the bv32 operations `+`, `-`, `*`,
 * `<<`, `&`, `|`, `^` and `>>`: every one of them wraps modulo 2^32 and none
 * traps.  The signed operations the instruction handlers use are the
 * comparisons `<` and `>`, modelled here by SignedLess.
 */
module Word32 {

  type Word = bv32

  /** Bit 31: the word is negative as a Java int. */
  predicate Neg(w: Word) {
    w & 0x8000_0000 != 0
  }

  /** Java's `a < b` on two ints: signed comparison of two's-complement words. */
  predicate SignedLess(a: Word, b: Word) {
    if Neg(a) != Neg(b) then Neg(a) else a < b
  }

  /** Signed order is unsigned order after flipping the sign bit. */
  lemma SignedLessBiased(a: Word, b: Word)
    ensures SignedLess(a, b) <==> (a ^ 0x8000_0000) < (b ^ 0x8000_0000)
  {
  }

  /**
   * Sign extension of the low 16 bits, as the simulator delivers every
   * 16-bit immediate or displacement field to a handler: the low half is
   * kept (and SignExtendUpper shows bit 15 copied into the upper half).
   */
  function SignExtend16(h: Word): (r: Word)
    ensures r & 0xFFFF == h & 0xFFFF
  {
    SignExtendHalf(h & 0xFFFF)
  }

  /** Sign extension of a value already cut down to its low 16 bits. */
  function SignExtendHalf(low: Word): Word
    requires low < 0x1_0000
  {
    (low ^ 0x8000) - 0x8000
  }

  /** The upper half of a sign extension is sixteen copies of bit 15. */
  lemma SignExtendUpper(h: Word)
    ensures h & 0x8000 == 0 ==> SignExtend16(h) >> 16 == 0
    ensures h & 0x8000 != 0 ==> SignExtend16(h) >> 16 == 0xFFFF
  {
  }

  /**
   * A word a sign-extended 16-bit field can deliver: a Java int in
   * [-32768, 32767], whose bits 31..15 are all equal.
   */
  predicate IsImm16(x: Word) {
    x >> 15 == 0 || x >> 15 == 0x1_FFFF
  }

  /** Every sign extension is such a word ... */
  lemma SignExtendIsImm16(h: Word)
    ensures IsImm16(SignExtend16(h))
  {
  }

  /** ... and sign extension gives such a word back unchanged. */
  lemma SignExtendFixesImm16(x: Word)
    requires IsImm16(x)
    ensures SignExtend16(x) == x
  {
  }

  /** A logical right shift distributes over OR. */
  lemma ShiftRightOr(a: Word, b: Word)
    ensures (a | b) >> 2 == (a >> 2) | (b >> 2)
  {
  }

  /** Shifting left by two and back clears the top two bits. */
  lemma ShiftLeftRight(t: Word)
    ensures (t << 2) >> 2 == t & 0x3FFF_FFFF
  {
  }
}

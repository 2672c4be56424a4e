/**
 The bit operations of the page map on 64-bit words, given bit by bit. Only 32 bits of a word are
 numbered, and `1 << 31` is a negative int, so the mask of bit 31 sign-extends over the upper
 half of the word.
 */
module Bitmap {

  const BITS := 32
  const WORD := 64

  /** An unsigned long; bit 0 first. */
  type Word = w: seq<bool> | |w| == WORD witness seq(WORD, i => false)

  const ZERO: Word := seq(WORD, i => false)

  /** Bit `i` of `(unsigned long)(1 << k)`. */
  predicate InMask(k: nat, i: nat) { if k == 31 then i >= 31 else i == k }

  /** set_bit: `word |= 1 << k` */
  function SetBit(w: Word, k: nat): Word { seq(WORD, i requires 0 <= i < WORD => w[i] || InMask(k, i)) }

  /** clear_bit: `word &= ~(1 << k)` */
  function ClearBit(w: Word, k: nat): Word { seq(WORD, i requires 0 <= i < WORD => w[i] && !InMask(k, i)) }

  /** get_bit: `word & (1 << k)` is not zero */
  predicate Test(w: Word, k: nat) { exists i :: 0 <= i < WORD && w[i] && InMask(k, i) }

  /** The mask of bit 31 takes the whole upper half of the word with it, the others do not. */
  lemma SetFromZero(k: nat, i: nat)
    requires k < BITS && i < WORD
    ensures SetBit(ZERO, k)[i] <==> i == k || (k == 31 && i > 31)
  {
  }

  lemma ZeroTests(k: nat)
    ensures !Test(ZERO, k)
  {
  }

  /** The numbered bits are independent, although bit 31's mask covers half the word. */
  lemma SetTests(w: Word, k: nat, m: nat)
    requires k < BITS && m < BITS
    ensures Test(SetBit(w, k), m) <==> m == k || Test(w, m)
  {
    var w' := SetBit(w, k);
    if m == k { assert w'[k] && InMask(k, k); }
    if Test(w, m) {
      var i :| 0 <= i < WORD && w[i] && InMask(m, i);
      assert w'[i];
    }
  }

  lemma ClearTests(w: Word, k: nat, m: nat)
    requires k < BITS && m < BITS
    ensures Test(ClearBit(w, k), m) <==> m != k && Test(w, m)
  {
    var w' := ClearBit(w, k);
    if m != k && Test(w, m) {
      var i :| 0 <= i < WORD && w[i] && InMask(m, i);
      assert w'[i];
    }
  }
}

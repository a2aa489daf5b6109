/** Unsigned 64-bit words, bit `i` at index `i`, with the operators the schedule code uses. */
module Words {

  const WORD_BITS := 64

  type Word = w: seq<bool> | |w| == WORD_BITS witness seq(WORD_BITS, _ => false)

  function Zero(): Word { seq(WORD_BITS, _ => false) }
  function One(): Word { seq(WORD_BITS, i => i == 0) }
  function AllOnes(): Word { seq(WORD_BITS, _ => true) }

  /** Left shift; bits shifted past the top are lost, so a shift by 64 or more gives zero. */
  function ShiftLeft(w: Word, k: nat): Word {
    seq(WORD_BITS, i requires 0 <= i < WORD_BITS => k <= i && w[i - k])
  }

  function And(a: Word, b: Word): Word {
    seq(WORD_BITS, i requires 0 <= i < WORD_BITS => a[i] && b[i])
  }

  function Or(a: Word, b: Word): Word {
    seq(WORD_BITS, i requires 0 <= i < WORD_BITS => a[i] || b[i])
  }

  function Not(a: Word): Word {
    seq(WORD_BITS, i requires 0 <= i < WORD_BITS => !a[i])
  }

  /** The test `1 << k & w != 0`. */
  predicate Has(w: Word, k: nat) {
    And(ShiftLeft(One(), k), w) != Zero()
  }

  /** The masked test reads exactly bit `k`; past the top it is always false. */
  lemma HasReadsBit(w: Word, k: nat)
    ensures Has(w, k) <==> k < WORD_BITS && w[k]
  {
    var masked := And(ShiftLeft(One(), k), w);
    if k < WORD_BITS && w[k] {
      assert masked[k] && !Zero()[k];
    } else {
      assert masked == Zero();
    }
  }
}

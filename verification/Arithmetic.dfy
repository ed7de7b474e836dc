/** Machine words and the few product and quotient facts that several modules need.  */
module Arithmetic {
  /** Number of 32-bit values. */
  const WORD: nat := 0x1_0000_0000

  /** Unsigned 32-bit difference of two clock readings. */
  function Elapsed(now: nat, start: nat): (d: nat)
    requires now < WORD && start < WORD
    ensures d < WORD
  {
    (now - start) % WORD
  }

  /** The difference of two readings is the time between them, less whole wraps. */
  lemma ElapsedModulo(now: nat, start: nat)
    requires start <= now
    ensures Elapsed(now % WORD, start % WORD) == (now - start) % WORD
  {
    var q := now / WORD - start / WORD;
    assert now % WORD - start % WORD == (now - start) - WORD * q;
  }

  /** Within one wrap it is the time itself. */
  lemma ElapsedWithinAWrap(now: nat, start: nat)
    requires start <= now < start + WORD
    ensures Elapsed(now % WORD, start % WORD) == now - start
  {
    ElapsedModulo(now, start);
  }

  lemma ProductOrder(a: nat, b: nat, f: nat)
    requires a <= b
    ensures a * f <= b * f && f * a <= f * b
  {
  }

  lemma ProductNext(q: nat, d: nat)
    ensures (q + 1) * d == q * d + d
  {
  }

  /** Quotient and remainder are unique. */
  lemma Quotient(n: nat, d: nat, q: nat, r: nat)
    requires n == q * d + r && r < d
    ensures n / d == q && n % d == r
  {
    var q' := n / d;
    assert n == q' * d + n % d;
    if q' < q {
      ProductOrder(q' + 1, q, d);
      ProductNext(q', d);
    } else if q' > q {
      ProductOrder(q + 1, q', d);
      ProductNext(q, d);
    }
  }
}

/**
  Positions in the byte stream are absolute natural numbers; shared memory only holds
  their residues modulo the capacity. This module relates the two with linear facts.
*/
module Residues {

  /** The residue of an absolute position, by repeated subtraction. */
  function Wrap(i: nat, n: nat): (r: nat)
    requires n > 0
    ensures r < n
    decreases i
  {
    if i < n then i else Wrap(i - n, n)
  }

  /** Advancing by at most one lap wraps at most once. */
  lemma {:induction false} WrapAdd(i: nat, k: nat, n: nat)
    requires n > 0 && k <= n
    ensures Wrap(i + k, n) == if Wrap(i, n) + k < n then Wrap(i, n) + k else Wrap(i, n) + k - n
    decreases i
  {
    if i >= n {
      WrapAdd(i - n, k, n);
      assert Wrap(i + k, n) == Wrap(i + k - n, n);
    }
  }

  /** Two positions less than a lap apart share a residue only when they are equal. */
  lemma WrapInjective(i: nat, j: nat, n: nat)
    requires n > 0 && i <= j < i + n
    requires Wrap(i, n) == Wrap(j, n)
    ensures i == j
  {
    WrapAdd(i, j - i, n);
  }

  /** The residue is what the `%` operator computes. */
  lemma {:induction false} WrapIsRemainder(i: nat, n: nat)
    requires n > 0
    ensures Wrap(i, n) == i % n
    decreases i
  {
    if i >= n {
      WrapIsRemainder(i - n, n);
      RemainderStep(i - n, n);
    }
  }

  lemma RemainderStep(i: nat, n: nat)
    requires n > 0
    ensures (i + n) % n == i % n
  {
    var q, r := i / n, i % n;
    assert i + n == (q + 1) * n + r;
    RemainderUnique(i + n, n, q + 1, r);
  }

  lemma RemainderUnique(x: nat, n: nat, q: nat, r: nat)
    requires n > 0 && r < n && x == q * n + r
    ensures x % n == r
  {
    var q', r' := x / n, x % n;
    if q' < q {
      NextMultiple(q', q, n);
    } else if q < q' {
      NextMultiple(q, q', n);
    }
  }

  lemma {:induction false} NextMultiple(a: nat, b: nat, n: nat)
    requires a < b
    ensures a * n + n <= b * n
  {
    assert b * n == (b - 1) * n + n;
    if a < b - 1 { NextMultiple(a, b - 1, n); }
  }

  /** What `(x) % n` yields for the sums the ring computes: one conditional subtraction. */
  lemma RemainderOnce(x: nat, n: nat)
    requires n > 0 && x < 2 * n
    ensures x % n == if x < n then x else x - n
  {
    if x >= n { RemainderUnique(x, n, 1, x - n); }
  }

  /** How many whole laps a distance makes. */
  function Laps(i: nat, n: nat): nat
    requires n > 0
    decreases i
  {
    if i < n then 0 else 1 + Laps(i - n, n)
  }

  /** Rounding `p` down to whole laps reaches at most `q` exactly when both make the same laps. */
  lemma {:induction false} RoundDown(q: nat, p: nat, n: nat)
    requires n > 0 && q <= p
    ensures p - Wrap(p, n) <= q <==> Laps(q, n) == Laps(p, n)
    decreases q
  {
    if n <= q {
      RoundDown(q - n, p - n, n);
    } else if n <= p {
      RoundDownPositive(p, n);
    }
  }

  lemma {:induction false} RoundDownPositive(p: nat, n: nat)
    requires 0 < n <= p
    ensures p - Wrap(p, n) >= n
    decreases p
  {
    if 2 * n <= p { RoundDownPositive(p - n, n); }
  }
}

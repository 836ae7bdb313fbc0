/** Remainders of positions less than one lap past a ring. */
module Modular {

  lemma ModOnce(p: nat, n: nat)
    requires 0 < n && p < 2 * n
    ensures p % n == if p < n then p else p - n
  {
    var q, m := p / n, p % n;
    assert p == n * q + m;
    AtLeastTwo(n, q);
    assert q == 0 || q == 1;
  }

  lemma AtLeastTwo(n: nat, q: nat)
    ensures q >= 2 ==> n * q >= n * 2
  {
    if q >= 2 { assert n * q == n * 2 + n * (q - 2); }
  }
}

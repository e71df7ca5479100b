/** Quotients and remainders by an arbitrary divisor. */
module Arithmetic {
  lemma Distribute(p: int, q: int, n: int)
    ensures (p - q) * n == p * n - q * n
  {}

  lemma Multiple(d: int, n: int)
    requires n > 0
    ensures d >= 1 ==> d * n >= n
  {
    if d >= 1 {
      assert (d - 1) * n >= 0;
      assert (d - 1) * n == d * n - n;
    }
  }

  /** Quotient and remainder are determined by the equation between them. */
  lemma Quotient(a: int, n: int, q: int, r: int)
    requires n > 0 && a == q * n + r && 0 <= r < n
    ensures a / n == q && a % n == r
  {
    var p := a / n;
    Distribute(p, q, n);
    Distribute(q, p, n);
    Multiple(p - q, n);
    Multiple(q - p, n);
  }

  /** The start of the aligned block of size p that the number lies in. */
  function AlignedDown(a: nat, p: nat): (start: nat)
    requires p > 0
    ensures start == a / p * p && start <= a < start + p
  {
    a - a % p
  }

  /** Two numbers have the same quotient exactly when one lies in the aligned block of the other. */
  lemma SameQuotient(a: nat, b: nat, p: nat)
    requires p > 0
    ensures a / p == b / p <==> AlignedDown(b, p) <= a < AlignedDown(b, p) + p
  {
    var q, r := a / p, b / p;
    assert a == q * p + a % p;
    if r * p <= a < r * p + p { Quotient(a, p, r, a - r * p); }
  }
}

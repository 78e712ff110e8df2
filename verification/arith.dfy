/** Facts about Dafny's (Euclidean) division that the solver does not find on
    its own when the divisor is not a literal. */
module Arith {

  lemma {:induction false} MulAtLeast(k: int, m: int)
    requires k >= 1 && m > 0
    ensures k * m >= m
    decreases k
  {
    if k > 1 {
      MulAtLeast(k - 1, m);
      assert k * m == (k - 1) * m + m;
    }
  }

  /** Quotient and remainder are the unique pair with `a == q * m + r`, `0 <= r < m`. */
  lemma DivModUnique(a: int, m: int, q: int, r: int)
    requires m > 0 && 0 <= r < m && a == q * m + r
    ensures a / m == q && a % m == r
  {
    var q', r' := a / m, a % m;
    if q' > q {
      assert (q' - q) * m == r - r';
      MulAtLeast(q' - q, m);
    } else if q' < q {
      assert (q - q') * m == r' - r;
      MulAtLeast(q - q', m);
    }
  }

  /** Tripling a product triples its first factor. */
  lemma MulByThree(p: int, t: int)
    ensures 3 * (p * t) == (3 * p) * t
  {
  }

}

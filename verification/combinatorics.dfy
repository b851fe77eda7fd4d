/** Binomial coefficients and sums of exponent tuples. */
module Combinatorics {

  /** C(n, k), by Pascal's rule. */
  function Binom(n: nat, k: nat): nat
  {
    if k == 0 then 1
    else if n == 0 then 0
    else Binom(n - 1, k - 1) + Binom(n - 1, k)
  }

  /** The total degree of an exponent tuple. */
  function Sum(s: seq<nat>): nat
  {
    if |s| == 0 then 0 else s[0] + Sum(s[1..])
  }

  lemma {:induction false} BinomAboveIsZero(n: nat, k: nat)
    requires k > n
    ensures Binom(n, k) == 0
  {
    if n > 0 {
      BinomAboveIsZero(n - 1, k - 1);
      BinomAboveIsZero(n - 1, k);
    }
  }

  lemma {:induction false} BinomDiagonal(n: nat)
    ensures Binom(n, n) == 1
  {
    if n > 0 {
      BinomDiagonal(n - 1);
      BinomAboveIsZero(n - 1, n);
    }
  }

  /** C(n + 1, n) = n + 1: the number of linear monomials in n variables. */
  lemma {:induction false} BinomLinear(n: nat)
    ensures Binom(n + 1, n) == n + 1
  {
    BinomDiagonal(n);
    if n > 0 {
      BinomLinear(n - 1);
    }
  }

  /** C(n + 2, n) = (n + 2)(n + 1) / 2: the number of monomials of degree at most two. */
  lemma {:induction false} BinomQuadratic(n: nat)
    ensures 2 * Binom(n + 2, n) == (n + 2) * (n + 1)
  {
    BinomLinear(n);
    if n > 0 {
      BinomQuadratic(n - 1);
    }
  }
}

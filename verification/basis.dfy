/**
 * The polynomial tail's basis: the exponent tuples of all monomials in n
 * variables, listed by non_negative_solutions and canonical_basis.
 * A monomial x_1^e_1 ... x_n^e_n is represented by its exponent tuple e.
 */
module PolynomialBasis {
  import opened Combinatorics

  type Exponents = seq<nat>

  /** s is a length-n tuple of non-negative integers summing to d. */
  predicate IsSolution(s: Exponents, d: nat, n: nat)
  {
    |s| == n && Sum(s) == d
  }

  /** Strict reverse-lexicographic order: a comes before b. */
  predicate LexGreater(a: Exponents, b: Exponents)
    decreases |a|
  {
    |a| > 0 && |b| > 0 && (a[0] > b[0] || (a[0] == b[0] && LexGreater(a[1..], b[1..])))
  }

  ghost predicate Descending(ss: seq<Exponents>)
  {
    forall p, q :: 0 <= p < q < |ss| ==> LexGreater(ss[p], ss[q])
  }

  /** Graded order: lower total degree first, reverse-lexicographic within a degree. */
  predicate GradedBefore(a: Exponents, b: Exponents)
  {
    Sum(a) < Sum(b) || (Sum(a) == Sum(b) && LexGreater(a, b))
  }

  /** Every tuple of tails with h put in front, `[ h ; t ]` for each t. */
  function Prepend(h: nat, tails: seq<Exponents>): seq<Exponents>
  {
    seq(|tails|, k requires 0 <= k < |tails| => [h] + tails[k])
  }

  /**
   * The list non_negative_solutions(d, n) returns: (d) for one variable;
   * otherwise, for i = 0 .. d, each solution for i in n - 1 variables with
   * d - i put in front.
   */
  function Solutions(d: nat, n: nat): seq<Exponents>
    requires n >= 1
    decreases n, d + 2
  {
    if n == 1 then [[d]] else SolutionsAfter(d, n, d + 1)
  }

  /** The list after the outer loop of non_negative_solutions has run for 0 .. i - 1. */
  function SolutionsAfter(d: nat, n: nat, i: nat): seq<Exponents>
    requires n >= 2 && i <= d + 1
    decreases n, i
  {
    if i == 0 then []
    else SolutionsAfter(d, n, i - 1) + Prepend(d - (i - 1), Solutions(i - 1, n - 1))
  }

  /** The list after canonical_basis has appended the solutions of degrees 0 .. e - 1. */
  function Graded(n: nat, e: nat): seq<Exponents>
    requires n >= 1
  {
    if e == 0 then [] else Graded(n, e - 1) + Solutions(e - 1, n)
  }

  /** canonical_basis(n, d): the exponents of all monomials of degree at most d. */
  function Basis(n: nat, d: int): seq<Exponents>
    requires n >= 1 || d < 0
  {
    if d < 0 then [] else Graded(n, d + 1)
  }

  // ---------------------------------------------------------------------------
  // The two routines as they run: push! inside nested loops.

  /** non_negative_solutions(d, n). */
  method NonNegativeSolutions(d: nat, n: nat) returns (solutions: seq<Exponents>)
    requires n >= 1
    ensures solutions == Solutions(d, n)
    decreases n
  {
    if n == 1 {
      return [[d]];
    }
    solutions := [];
    for i := 0 to d + 1
      invariant solutions == SolutionsAfter(d, n, i)
    {
      var shorter := NonNegativeSolutions(i, n - 1);
      for j := 0 to |shorter|
        invariant solutions == SolutionsAfter(d, n, i) + Prepend(d - i, shorter[..j])
      {
        assert Prepend(d - i, shorter[..j + 1]) == Prepend(d - i, shorter[..j]) + [[d - i] + shorter[j]];
        solutions := solutions + [[d - i] + shorter[j]];
      }
      assert shorter[..|shorter|] == shorter;
    }
  }

  /** canonical_basis(n, d), as exponent tuples; the loop `for d̄ = 0 : d` is empty for d < 0. */
  method CanonicalBasis(n: nat, d: int) returns (basis: seq<Exponents>)
    requires n >= 1 || d < 0
    ensures basis == Basis(n, d)
  {
    basis := [];
    var e := 0;
    while e <= d
      invariant 0 <= e <= if d < 0 then 0 else d + 1
      invariant basis == Basis(n, e - 1)
    {
      var solutions := NonNegativeSolutions(e, n);
      for j := 0 to |solutions|
        invariant basis == Basis(n, e - 1) + solutions[..j]
      {
        assert solutions[..j + 1] == solutions[..j] + [solutions[j]];
        basis := basis + [solutions[j]];
      }
      assert solutions[..|solutions|] == solutions;
      assert Basis(n, e - 1) == Graded(n, e);
      e := e + 1;
    }
  }

  // ---------------------------------------------------------------------------
  // What the lists contain.

  lemma PrependMembership(h: nat, tails: seq<Exponents>, x: Exponents)
    ensures x in Prepend(h, tails) <==> |x| > 0 && x[0] == h && x[1..] in tails
  {
    if |x| > 0 && x[0] == h && x[1..] in tails {
      var k :| 0 <= k < |tails| && tails[k] == x[1..];
      assert Prepend(h, tails)[k] == x;
    }
    if x in Prepend(h, tails) {
      var k :| 0 <= k < |Prepend(h, tails)| && Prepend(h, tails)[k] == x;
      assert x[1..] == tails[k];
    }
  }

  /** Every listed tuple has length n and sums to d (the docstring's promise). */
  lemma {:induction false} SolutionsSound(d: nat, n: nat, s: Exponents)
    requires n >= 1 && s in Solutions(d, n)
    ensures IsSolution(s, d, n)
    decreases n, d + 2
  {
    if n > 1 {
      SolutionsAfterSound(d, n, d + 1, s);
    }
  }

  lemma {:induction false} SolutionsAfterSound(d: nat, n: nat, i: nat, s: Exponents)
    requires n >= 2 && i <= d + 1 && s in SolutionsAfter(d, n, i)
    ensures IsSolution(s, d, n) && s[0] > d - i
    decreases n, i
  {
    if s in SolutionsAfter(d, n, i - 1) {
      SolutionsAfterSound(d, n, i - 1, s);
    } else {
      PrependMembership(d - (i - 1), Solutions(i - 1, n - 1), s);
      SolutionsSound(i - 1, n - 1, s[1..]);
    }
  }

  /** Every length-n tuple summing to d is listed. */
  lemma {:induction false} SolutionsComplete(d: nat, n: nat, s: Exponents)
    requires n >= 1 && IsSolution(s, d, n)
    ensures s in Solutions(d, n)
    decreases n, d + 2
  {
    if n == 1 {
      assert Sum(s) == s[0] + Sum(s[1..]) && s[1..] == [];
      assert s == [d];
    } else {
      SolutionsAfterComplete(d, n, d + 1, s);
    }
  }

  lemma {:induction false} SolutionsAfterComplete(d: nat, n: nat, i: nat, s: Exponents)
    requires n >= 2 && i <= d + 1 && IsSolution(s, d, n) && s[0] > d - i
    ensures s in SolutionsAfter(d, n, i)
    decreases n, i
  {
    assert i > 0;
    if s[0] == d - (i - 1) {
      SolutionsComplete(i - 1, n - 1, s[1..]);
      PrependMembership(d - (i - 1), Solutions(i - 1, n - 1), s);
    } else {
      SolutionsAfterComplete(d, n, i - 1, s);
    }
  }

  /** The order is reverse-lexicographic, strictly: first coordinates d, d - 1, ..., 0. */
  lemma {:induction false} SolutionsDescending(d: nat, n: nat)
    requires n >= 1
    ensures Descending(Solutions(d, n))
    decreases n, d + 2
  {
    if n > 1 {
      SolutionsAfterDescending(d, n, d + 1);
    }
  }

  lemma {:induction false} SolutionsAfterDescending(d: nat, n: nat, i: nat)
    requires n >= 2 && i <= d + 1
    ensures Descending(SolutionsAfter(d, n, i))
    decreases n, i
  {
    if i > 0 {
      var front := SolutionsAfter(d, n, i - 1);
      var tails := Solutions(i - 1, n - 1);
      var block := Prepend(d - (i - 1), tails);
      SolutionsAfterDescending(d, n, i - 1);
      SolutionsDescending(i - 1, n - 1);
      var all := front + block;
      forall p, q | 0 <= p < q < |all|
        ensures LexGreater(all[p], all[q])
      {
        if q < |front| {
          assert all[p] == front[p] && all[q] == front[q];
        } else if p < |front| {
          SolutionsAfterSound(d, n, i - 1, front[p]);
          assert all[p] == front[p] && all[q] == [d - (i - 1)] + tails[q - |front|];
        } else {
          var a, b := tails[p - |front|], tails[q - |front|];
          assert all[p] == [d - (i - 1)] + a && all[q] == [d - (i - 1)] + b;
          assert all[p][1..] == a && all[q][1..] == b;
        }
      }
    }
  }

  lemma {:induction false} LexGreaterIrreflexive(a: Exponents)
    ensures !LexGreater(a, a)
    decreases |a|
  {
    if |a| > 0 {
      LexGreaterIrreflexive(a[1..]);
    }
  }

  /** No tuple is listed twice. */
  lemma SolutionsDistinct(d: nat, n: nat)
    requires n >= 1
    ensures forall p, q :: 0 <= p < q < |Solutions(d, n)| ==> Solutions(d, n)[p] != Solutions(d, n)[q]
  {
    SolutionsDescending(d, n);
    forall p, q | 0 <= p < q < |Solutions(d, n)|
      ensures Solutions(d, n)[p] != Solutions(d, n)[q]
    {
      LexGreaterIrreflexive(Solutions(d, n)[p]);
    }
  }

  /** First coordinates never increase along the list. */
  lemma FirstCoordinatesNonIncreasing(d: nat, n: nat, p: nat, q: nat)
    requires n >= 1 && p < q < |Solutions(d, n)|
    ensures |Solutions(d, n)[p]| == |Solutions(d, n)[q]| == n
    ensures Solutions(d, n)[p][0] >= Solutions(d, n)[q][0]
  {
    SolutionsSound(d, n, Solutions(d, n)[p]);
    SolutionsSound(d, n, Solutions(d, n)[q]);
    SolutionsDescending(d, n);
  }

  /** There are C(d + n - 1, n - 1) solutions (stars and bars). */
  lemma {:induction false} SolutionsCount(d: nat, n: nat)
    requires n >= 1
    ensures |Solutions(d, n)| == Binom(d + n - 1, n - 1)
    decreases n, d + 2
  {
    if n > 1 {
      SolutionsAfterCount(d, n, d + 1);
    }
  }

  lemma {:induction false} SolutionsAfterCount(d: nat, n: nat, i: nat)
    requires n >= 2 && i <= d + 1
    ensures |SolutionsAfter(d, n, i)| == Binom(i + n - 2, n - 1)
    decreases n, i
  {
    if i == 0 {
      BinomAboveIsZero(n - 2, n - 1);
    } else {
      SolutionsAfterCount(d, n, i - 1);
      SolutionsCount(i - 1, n - 1);
    }
  }

  // ---------------------------------------------------------------------------
  // What the basis contains.

  lemma {:induction false} GradedMembership(n: nat, e: nat, s: Exponents)
    requires n >= 1
    ensures s in Graded(n, e) <==> |s| == n && Sum(s) < e
  {
    if e > 0 {
      GradedMembership(n, e - 1, s);
      if s in Solutions(e - 1, n) {
        SolutionsSound(e - 1, n, s);
      }
      if |s| == n && Sum(s) == e - 1 {
        SolutionsComplete(e - 1, n, s);
      }
    }
  }

  /** The basis holds exactly the monomials in n variables of degree at most d. */
  lemma BasisMembership(n: nat, d: int, s: Exponents)
    requires n >= 1
    ensures s in Basis(n, d) <==> |s| == n && Sum(s) <= d
  {
    if d >= 0 {
      GradedMembership(n, d + 1, s);
    }
  }

  lemma {:induction false} GradedCount(n: nat, e: nat)
    requires n >= 1
    ensures |Graded(n, e)| == Binom(e + n - 1, n)
  {
    if e == 0 {
      BinomAboveIsZero(n - 1, n);
    } else {
      GradedCount(n, e - 1);
      SolutionsCount(e - 1, n);
    }
  }

  /** The basis has Q = C(n + d, n) elements, and none for d < 0. */
  lemma BasisCount(n: nat, d: int)
    requires n >= 1 || d < 0
    ensures |Basis(n, d)| == if d < 0 then 0 else Binom(n + d, n)
  {
    if d >= 0 {
      GradedCount(n, d + 1);
    }
  }

  /** Q = n + 1 for linear and Q = (n + 2)(n + 1)/2 for quadratic polynomials. */
  lemma LinearAndQuadraticCounts(n: nat)
    requires n >= 1
    ensures |Basis(n, 1)| == n + 1
    ensures 2 * |Basis(n, 2)| == (n + 2) * (n + 1)
  {
    BasisCount(n, 1);
    BasisCount(n, 2);
    BinomLinear(n);
    BinomQuadratic(n);
  }

  lemma {:induction false} GradedOrdered(n: nat, e: nat)
    requires n >= 1
    ensures forall p, q :: 0 <= p < q < |Graded(n, e)| ==> GradedBefore(Graded(n, e)[p], Graded(n, e)[q])
  {
    if e > 0 {
      var front, block := Graded(n, e - 1), Solutions(e - 1, n);
      GradedOrdered(n, e - 1);
      SolutionsDescending(e - 1, n);
      var all := front + block;
      forall p, q | 0 <= p < q < |all|
        ensures GradedBefore(all[p], all[q])
      {
        if q < |front| {
          assert all[p] == front[p] && all[q] == front[q];
        } else if p < |front| {
          GradedMembership(n, e - 1, front[p]);
          SolutionsSound(e - 1, n, block[q - |front|]);
          assert all[p] == front[p] && all[q] == block[q - |front|];
        } else {
          SolutionsSound(e - 1, n, block[p - |front|]);
          SolutionsSound(e - 1, n, block[q - |front|]);
          assert all[p] == block[p - |front|] && all[q] == block[q - |front|];
        }
      }
    }
  }

  /**
   * The basis is in graded order: all degree-0 exponents, then degree 1, ...,
   * then degree d, reverse-lexicographic within a degree; hence no duplicates.
   */
  lemma BasisOrdered(n: nat, d: int)
    requires n >= 1 || d < 0
    ensures forall p, q :: 0 <= p < q < |Basis(n, d)| ==> GradedBefore(Basis(n, d)[p], Basis(n, d)[q])
    ensures forall p, q :: 0 <= p < q < |Basis(n, d)| ==> Basis(n, d)[p] != Basis(n, d)[q]
  {
    if d >= 0 {
      GradedOrdered(n, d + 1);
      forall p, q | 0 <= p < q < |Basis(n, d)|
        ensures Basis(n, d)[p] != Basis(n, d)[q]
      {
        LexGreaterIrreflexive(Basis(n, d)[p]);
      }
    }
  }
}

/**
 * The coefficient solver: the function matrix of kernels and monomials at the
 * sites, the augmented system [Φ P; Pᵗ 0] [w; λ] = [Y; 0], and the split of
 * its solution into kernel weights w and polynomial coefficients λ.
 */
module InterpolationSystem {
  import opened Outcomes
  import opened Matrices
  import opened Kernels
  import opened PolynomialBasis

  /** The monomial with exponents e at x: prod(x .^ e). */
  function Monomial(e: Exponents, x: seq<real>): real
    requires |e| == |x|
    decreases |e|
  {
    if |e| == 0 then 1.0 else Power(x[0], e[0]) * Monomial(e[1..], x[1..])
  }

  /** The shifted kernels as functions of a point, `k(x)`. */
  function KernelEvaluator(T: Numerics): (f: (ShiftedKernel, seq<real>) --> real)
    ensures forall kernel: ShiftedKernel, x: seq<real> | |x| == |kernel.center| :: f.requires(kernel, x)
    ensures forall kernel: ShiftedKernel, x: seq<real> | |x| == |kernel.center| :: f(kernel, x) == EvalShifted(kernel, x, T)
  {
    (kernel: ShiftedKernel, x: seq<real>) requires |x| == |kernel.center| => EvalShifted(kernel, x, T)
  }

  /** `[ funcs[j](func_args[i]) for i, j ]`: rows are arguments, columns are functions. */
  function FuncMatrixOf<F>(funcs: seq<F>, args: seq<seq<real>>, eval: (F, seq<real>) --> real): Matrix
    requires forall i, j :: 0 <= i < |args| && 0 <= j < |funcs| ==> eval.requires(funcs[j], args[i])
  {
    seq(|args|, i requires 0 <= i < |args| =>
      seq(|funcs|, j requires 0 <= j < |funcs| => eval(funcs[j], args[i])))
  }

  /**
   * _func_matrix(funcs, func_args): a length(func_args) × length(funcs)
   * buffer, filled one column (one function) at a time, then copied out.
   */
  method FuncMatrix<F>(funcs: seq<F>, args: seq<seq<real>>, eval: (F, seq<real>) --> real) returns (m: Matrix)
    requires |args| > 0
    requires forall i, j :: 0 <= i < |args| && 0 <= j < |funcs| ==> eval.requires(funcs[j], args[i])
    ensures IsMatrix(m, |args|, |funcs|)
    ensures forall i, j :: 0 <= i < |args| && 0 <= j < |funcs| ==> m[i][j] == eval(funcs[j], args[i])
    ensures m == FuncMatrixOf(funcs, args, eval)
  {
    var buffer := new real[|args|, |funcs|];
    for j := 0 to |funcs|
      invariant forall i, c :: 0 <= i < |args| && 0 <= c < j ==> buffer[i, c] == eval(funcs[c], args[i])
    {
      for i := 0 to |args|
        invariant forall r, c :: 0 <= r < |args| && 0 <= c < j ==> buffer[r, c] == eval(funcs[c], args[r])
        invariant forall r :: 0 <= r < i ==> buffer[r, j] == eval(funcs[j], args[r])
      {
        buffer[i, j] := eval(funcs[j], args[i]);
      }
    }
    m := seq(|args|, i requires 0 <= i < |args| reads buffer =>
      seq(|funcs|, j requires 0 <= j < |funcs| reads buffer => buffer[i, j]));
    forall i | 0 <= i < |args|
      ensures m[i] == FuncMatrixOf(funcs, args, eval)[i]
    {
    }
  }

  /** Φ: entry [i][j] is kernel j at site i. */
  function KernelMatrix(kernels: seq<ShiftedKernel>, sites: Matrix, T: Numerics): Matrix
    requires forall i, j :: 0 <= i < |sites| && 0 <= j < |kernels| ==> |sites[i]| == |kernels[j].center|
  {
    FuncMatrixOf(kernels, sites, KernelEvaluator(T))
  }

  /** P: entry [i][q] is basis monomial q at site i. */
  function PolyMatrix(basis: seq<Exponents>, sites: Matrix): Matrix
    requires forall i, q :: 0 <= i < |sites| && 0 <= q < |basis| ==> |sites[i]| == |basis[q]|
  {
    FuncMatrixOf(basis, sites, Monomial)
  }

  /** A = [Φ P; Pᵗ 0], of size (N + Q) × (N + Q). */
  function SystemMatrix(Phi: Matrix, P: Matrix, N: nat, Q: nat): (A: Matrix)
    requires IsMatrix(Phi, N, N) && IsMatrix(P, N, Q)
    ensures IsMatrix(A, N + Q, N + Q)
    ensures forall i, j :: 0 <= i < N && 0 <= j < N ==> A[i][j] == Phi[i][j]
    ensures forall i, j :: 0 <= i < N && N <= j < N + Q ==> A[i][j] == P[i][j - N]
    ensures forall i, j :: N <= i < N + Q && 0 <= j < N ==> A[i][j] == P[j][i - N]
    ensures forall i, j :: N <= i < N + Q && N <= j < N + Q ==> A[i][j] == 0.0
  {
    var A := seq(N + Q, r requires 0 <= r < N + Q =>
      if r < N then Phi[r] + P[r] else Column(P, r - N) + ZeroRow(Q));
    assert forall r :: N <= r < N + Q ==> A[r] == Column(P, r - N) + ZeroRow(Q);
    A
  }

  /** The right-hand side [Y; 0]: the values, then Q rows of zeros. */
  function Rhs(values: Matrix, Q: nat, k: nat): (B: Matrix)
    requires IsMatrix(values, |values|, k)
    ensures IsMatrix(B, |values| + Q, k)
    ensures B[..|values|] == values
    ensures forall i, l :: |values| <= i < |values| + Q && 0 <= l < k ==> B[i][l] == 0.0
  {
    values + Zeros(Q, k)
  }

  /** What `coefficients` needs of its arguments, all established by the model constructor. */
  ghost predicate WellShaped(sites: Matrix, values: Matrix, kernels: seq<ShiftedKernel>, basis: seq<Exponents>)
  {
    && |sites| >= 1 && |values| == |sites| && |kernels| == |sites|
    && IsMatrix(sites, |sites|, Width(sites))
    && IsMatrix(values, |values|, Width(values))
    && (forall j :: 0 <= j < |kernels| ==> |kernels[j].center| == Width(sites))
    && (forall q :: 0 <= q < |basis| ==> |basis[q]| == Width(sites))
  }

  /** coefficients(sites, values, kernels, polys): w (N × k) and λ (Q × k), or the solve's failure. */
  function CoefficientsOf(sites: Matrix, values: Matrix, kernels: seq<ShiftedKernel>, basis: seq<Exponents>,
                          solve: Solver, T: Numerics): (r: Result<(Matrix, Matrix)>)
    requires WellShaped(sites, values, kernels, basis) && SoundSolver(solve)
    ensures r.Failure? <==>
      solve(SystemMatrix(KernelMatrix(kernels, sites, T), PolyMatrix(basis, sites), |kernels|, |basis|),
            Rhs(values, |basis|, Width(values))).None?
    ensures r.Failure? ==> r.error == SingularSystem
  {
    var N, Q, k := |kernels|, |basis|, Width(values);
    var A := SystemMatrix(KernelMatrix(kernels, sites, T), PolyMatrix(basis, sites), N, Q);
    var B := Rhs(values, Q, k);
    match solve(A, B)
    case None => Failure(SingularSystem)
    case Some(X) => Success((X[..N], X[N..]))
  }

  /**
   * coefficients: Φ and P through _func_matrix, A = [Φ P; Pᵗ Z], the values
   * copied row by row into an N × k buffer, RHS = [F; zeros(Q, k)], the
   * solve, and its first N rows as w and the rest as λ.
   */
  method Coefficients(sites: Matrix, values: Matrix, kernels: seq<ShiftedKernel>, basis: seq<Exponents>,
                      solve: Solver, T: Numerics) returns (r: Result<(Matrix, Matrix)>)
    requires WellShaped(sites, values, kernels, basis) && SoundSolver(solve)
    ensures r == CoefficientsOf(sites, values, kernels, basis, solve, T)
  {
    var k := |values[0]|;
    var N := |kernels|;
    var Phi := FuncMatrix(kernels, sites, KernelEvaluator(T));
    var Q := |basis|;
    var P := FuncMatrix(basis, sites, Monomial);
    var A := SystemMatrix(Phi, P, N, Q);

    var F := new real[|values|, k];
    for i := 0 to |values|
      invariant forall r, l :: 0 <= r < i && 0 <= l < k ==> F[r, l] == values[r][l]
    {
      for l := 0 to k
        invariant forall r, c :: 0 <= r < i && 0 <= c < k ==> F[r, c] == values[r][c]
        invariant forall c :: 0 <= c < l ==> F[i, c] == values[i][c]
      {
        F[i, l] := values[i][l];
      }
    }
    var rows := seq(|values|, i requires 0 <= i < |values| reads F =>
      seq(k, l requires 0 <= l < k reads F => F[i, l]));
    forall i | 0 <= i < |values|
      ensures rows[i] == values[i]
    {
    }
    assert rows == values;
    assert Phi == KernelMatrix(kernels, sites, T) && P == PolyMatrix(basis, sites);
    var B := Rhs(rows, Q, k);

    match solve(A, B)
    case None =>
      r := Failure(SingularSystem);
    case Some(X) =>
      r := Success((X[..N], X[N..]));
  }

  /**
   * What the solve's contract gives: w is N × k, λ is Q × k, every site's
   * row of the system holds (Φ w + P λ = Y) and the weights are orthogonal
   * to every basis polynomial at the sites (Pᵗ w = 0).
   */
  lemma CoefficientsSolveSystem(sites: Matrix, values: Matrix, kernels: seq<ShiftedKernel>, basis: seq<Exponents>,
                                solve: Solver, T: Numerics)
    requires WellShaped(sites, values, kernels, basis) && SoundSolver(solve)
    requires CoefficientsOf(sites, values, kernels, basis, solve, T).Success?
    ensures var (W, L) := CoefficientsOf(sites, values, kernels, basis, solve, T).value;
      && IsMatrix(W, |sites|, Width(values))
      && IsMatrix(L, |basis|, Width(values))
      && (forall i, l :: 0 <= i < |sites| && 0 <= l < Width(values) ==>
            Dot(KernelMatrix(kernels, sites, T)[i], Column(W, l))
              + Dot(PolyMatrix(basis, sites)[i], Column(L, l)) == values[i][l])
      && (forall q, l :: 0 <= q < |basis| && 0 <= l < Width(values) ==>
            Dot(Column(PolyMatrix(basis, sites), q), Column(W, l)) == 0.0)
  {
    var N, Q, k := |kernels|, |basis|, Width(values);
    var Phi, P := KernelMatrix(kernels, sites, T), PolyMatrix(basis, sites);
    var A := SystemMatrix(Phi, P, N, Q);
    var B := Rhs(values, Q, k);
    assert Solves(A, solve(A, B).value, B);
    SolvedBlocks(Phi, P, values, solve(A, B).value, N, Q, k);
  }

  /** The block rows of a solution of [Φ P; Pᵗ 0] X = [Y; 0]: Φ X₁ + P X₂ = Y and Pᵗ X₁ = 0. */
  lemma SolvedBlocks(Phi: Matrix, P: Matrix, values: Matrix, X: Matrix, N: nat, Q: nat, k: nat)
    requires N >= 1 && IsMatrix(Phi, N, N) && IsMatrix(P, N, Q) && IsMatrix(values, N, k)
    requires Solves(SystemMatrix(Phi, P, N, Q), X, Rhs(values, Q, k))
    ensures IsMatrix(X[..N], N, k) && IsMatrix(X[N..], Q, k)
    ensures forall i, l :: 0 <= i < N && 0 <= l < k ==>
      Dot(Phi[i], Column(X[..N], l)) + Dot(P[i], Column(X[N..], l)) == values[i][l]
    ensures forall q, l :: 0 <= q < Q && 0 <= l < k ==> Dot(Column(P, q), Column(X[..N], l)) == 0.0
  {
    var B := Rhs(values, Q, k);
    assert Width(B) == k by {
      assert B[0] == values[0];
    }
    forall i, l | 0 <= i < N && 0 <= l < k
      ensures Dot(Phi[i], Column(X[..N], l)) + Dot(P[i], Column(X[N..], l)) == values[i][l]
    {
      SolvedUpperRow(Phi, P, values, X, N, Q, k, i, l);
    }
    forall q, l | 0 <= q < Q && 0 <= l < k
      ensures Dot(Column(P, q), Column(X[..N], l)) == 0.0
    {
      SolvedLowerRow(Phi, P, values, X, N, Q, k, q, l);
    }
  }

  /** Row i < N of A X = B, split at the block boundary. */
  lemma SolvedUpperRow(Phi: Matrix, P: Matrix, values: Matrix, X: Matrix, N: nat, Q: nat, k: nat, i: nat, l: nat)
    requires IsMatrix(Phi, N, N) && IsMatrix(P, N, Q) && IsMatrix(values, N, k)
    requires Solves(SystemMatrix(Phi, P, N, Q), X, Rhs(values, Q, k))
    requires i < N && l < k && Width(Rhs(values, Q, k)) == k
    ensures Dot(Phi[i], Column(X[..N], l)) + Dot(P[i], Column(X[N..], l)) == values[i][l]
  {
    ColumnSplit(X, N, l);
    DotSplit(Phi[i], P[i], Column(X[..N], l), Column(X[N..], l));
    assert Rhs(values, Q, k)[i] == values[i];
  }

  /** Row N + q of A X = B: its right-hand side is zero and so is its Λ part. */
  lemma SolvedLowerRow(Phi: Matrix, P: Matrix, values: Matrix, X: Matrix, N: nat, Q: nat, k: nat, q: nat, l: nat)
    requires IsMatrix(Phi, N, N) && IsMatrix(P, N, Q) && IsMatrix(values, N, k)
    requires Solves(SystemMatrix(Phi, P, N, Q), X, Rhs(values, Q, k))
    requires q < Q && l < k && Width(Rhs(values, Q, k)) == k
    ensures Dot(Column(P, q), Column(X[..N], l)) == 0.0
  {
    var A, B := SystemMatrix(Phi, P, N, Q), Rhs(values, Q, k);
    var W, L := X[..N], X[N..];
    assert A[N + q] == Column(P, q) + ZeroRow(Q);
    assert B[N + q] == ZeroRow(k);
    assert Dot(A[N + q], Column(X, l)) == 0.0;
    ColumnSplit(X, N, l);
    DotSplit(Column(P, q), ZeroRow(Q), Column(W, l), Column(L, l));
    DotSymmetric(ZeroRow(Q), Column(L, l));
    DotZero(Column(L, l), ZeroRow(Q));
  }

  /**
   * With one radial function centred at every site (make_kernels with a
   * single φ), Φ and hence A are symmetric: the saddle-point system.
   */
  lemma SystemMatrixSymmetric(sites: Matrix, phi: RadialFunction, basis: seq<Exponents>, T: Numerics)
    requires |sites| >= 1 && IsMatrix(sites, |sites|, Width(sites))
    requires forall q :: 0 <= q < |basis| ==> |basis[q]| == Width(sites)
    ensures var kernels := seq(|sites|, i requires 0 <= i < |sites| => ShiftedKernel(phi, sites[i]));
      var A := SystemMatrix(KernelMatrix(kernels, sites, T), PolyMatrix(basis, sites), |sites|, |basis|);
      forall i, j :: 0 <= i < |A| && 0 <= j < |A| ==> A[i][j] == A[j][i]
  {
    var kernels := seq(|sites|, i requires 0 <= i < |sites| => ShiftedKernel(phi, sites[i]));
    var Phi := KernelMatrix(kernels, sites, T);
    var A := SystemMatrix(Phi, PolyMatrix(basis, sites), |sites|, |basis|);
    forall i, j | 0 <= i < |sites| && 0 <= j < |sites|
      ensures Phi[i][j] == Phi[j][i]
    {
      DistanceSymmetric(sites[i], sites[j], T);
    }
  }
}

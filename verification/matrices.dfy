/** Dense real matrices as sequences of rows, and the contract of the external dense solve. */
module Matrices {
  import opened Outcomes

  type Matrix = seq<seq<real>>

  predicate IsMatrix(m: Matrix, rows: nat, cols: nat)
  {
    |m| == rows && forall i :: 0 <= i < rows ==> |m[i]| == cols
  }

  /** The number of columns of a matrix given as rows (0 for no rows). */
  function Width(m: Matrix): nat
  {
    if |m| == 0 then 0 else |m[0]|
  }

  function Dot(u: seq<real>, v: seq<real>): real
    requires |u| == |v|
    decreases |u|
  {
    if |u| == 0 then 0.0 else u[0] * v[0] + Dot(u[1..], v[1..])
  }

  /** Column l, `m[:, l]`. */
  function Column(m: Matrix, l: nat): (c: seq<real>)
    requires forall i :: 0 <= i < |m| ==> l < |m[i]|
    ensures |c| == |m|
  {
    seq(|m|, i requires 0 <= i < |m| => m[i][l])
  }

  function ZeroRow(n: nat): (r: seq<real>)
    ensures |r| == n && forall j :: 0 <= j < n ==> r[j] == 0.0
  {
    seq(n, _ => 0.0)
  }

  /** `zeros(rows, cols)`. */
  function Zeros(rows: nat, cols: nat): (z: Matrix)
    ensures IsMatrix(z, rows, cols)
  {
    seq(rows, _ => ZeroRow(cols))
  }

  /** A * X == B, with X of the shape Julia's `\` returns. */
  ghost predicate Solves(A: Matrix, X: Matrix, B: Matrix)
  {
    && IsMatrix(A, |A|, |A|)
    && IsMatrix(B, |A|, Width(B))
    && IsMatrix(X, |A|, Width(B))
    && forall i, l :: 0 <= i < |A| && 0 <= l < Width(B) ==> Dot(A[i], Column(X, l)) == B[i][l]
  }

  /**
   * The dense solve `A \ B` is a library call outside the model. It is a
   * function parameter; what the model requires of it is that whenever it
   * returns a matrix, that matrix solves the system.
   */
  type Solver = (Matrix, Matrix) -> Option<Matrix>

  ghost predicate SoundSolver(solve: Solver)
  {
    forall A, B :: solve(A, B).Some? ==> Solves(A, solve(A, B).value, B)
  }

  lemma {:induction false} DotSplit(a: seq<real>, b: seq<real>, c: seq<real>, e: seq<real>)
    requires |a| == |c| && |b| == |e|
    ensures Dot(a + b, c + e) == Dot(a, c) + Dot(b, e)
    decreases |a|
  {
    if |a| > 0 {
      assert (a + b)[1..] == a[1..] + b && (c + e)[1..] == c[1..] + e;
      DotSplit(a[1..], b, c[1..], e);
    } else {
      assert a + b == b && c + e == e;
    }
  }

  lemma {:induction false} DotSymmetric(u: seq<real>, v: seq<real>)
    requires |u| == |v|
    ensures Dot(u, v) == Dot(v, u)
    decreases |u|
  {
    if |u| > 0 {
      DotSymmetric(u[1..], v[1..]);
    }
  }

  lemma {:induction false} DotZero(u: seq<real>, v: seq<real>)
    requires |u| == |v| && forall j :: 0 <= j < |v| ==> v[j] == 0.0
    ensures Dot(u, v) == 0.0
    decreases |u|
  {
    if |u| > 0 {
      DotZero(u[1..], v[1..]);
    }
  }

  /** A column of a stacked matrix is the two columns stacked. */
  lemma ColumnSplit(m: Matrix, k: nat, l: nat)
    requires k <= |m| && forall i :: 0 <= i < |m| ==> l < |m[i]|
    ensures Column(m, l) == Column(m[..k], l) + Column(m[k..], l)
  {
  }
}

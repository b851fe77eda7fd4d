/**
 * The radial kernel catalogue: the five radial functions, their constructors'
 * parameter checks, their CPD orders, their values, the kernel-name table,
 * and shifted kernels (a radial function bound to a center).
 */
module Kernels {
  import opened Outcomes

  /**
   * The transcendental functions the kernels use (exp, log, real powers and
   * the square root in norm2); they are floating-point library calls and are
   * taken as parameters.
   */
  datatype Numerics = Numerics(
    exp: real -> real,
    log: real -> real,
    pow: (real, real) -> real,
    sqrt: real -> real)

  datatype RadialFunction =
    | Gaussian(alpha: real)
    | Multiquadric(alpha: real, beta: real)
    | InverseMultiquadric(alpha: real, beta: real)
    | Cubic(beta: real)
    | ThinPlateSpline(k: nat)

  // ---------------------------------------------------------------------------
  // Julia's rem, ceil(Int, x) and (-1)^e on the unbounded numbers.

  predicate IsInteger(x: real)
  {
    x == x.Floor as real
  }

  /** Rounding toward zero. */
  function Trunc(x: real): (t: int)
    ensures t as real <= x < t as real + 1.0 || t as real - 1.0 < x <= t as real
  {
    if x >= 0.0 then x.Floor else -((-x).Floor)
  }

  /** Julia's `x % m` on reals: the remainder of rounding toward zero, with the sign of x. */
  function Rem(x: real, m: real): real
    requires m != 0.0
  {
    x - m * Trunc(x / m) as real
  }

  lemma TruncExactOnIntegers(y: real)
    ensures Trunc(y) as real == y <==> IsInteger(y)
  {
    if y < 0.0 && IsInteger(y) {
      var z := -y;
      assert z == (-(y.Floor)) as real;
      assert z.Floor == -(y.Floor);
    }
  }

  /** `x % m == 0` holds exactly when x is an integer multiple of m. */
  lemma RemZeroIffMultiple(x: real, m: real)
    requires m != 0.0
    ensures Rem(x, m) == 0.0 <==> IsInteger(x / m)
  {
    var t := Trunc(x / m) as real;
    TruncExactOnIntegers(x / m);
    if Rem(x, m) == 0.0 {
      assert x == m * t;
      assert x / m == t;
    }
    if IsInteger(x / m) {
      assert t == x / m;
      assert m * t == x;
    }
  }

  /** Julia's ceil(Int, x). */
  function Ceil(x: real): (c: int)
    ensures c as real - 1.0 < x <= c as real
  {
    -((-x).Floor)
  }

  /** (-1)^e for an integer exponent. */
  function Parity(e: int): (s: int)
    ensures s == 1 || s == -1
  {
    if e % 2 == 0 then 1 else -1
  }

  /** x^e for a natural exponent, computed exactly. */
  function Power(x: real, e: nat): real
  {
    if e == 0 then 1.0 else x * Power(x, e - 1)
  }

  lemma {:induction false} PowerPositive(x: real, e: nat)
    requires x > 0.0
    ensures Power(x, e) > 0.0
  {
    if e > 0 {
      PowerPositive(x, e - 1);
    }
  }

  // ---------------------------------------------------------------------------
  // Parameter checks.

  /** The parameters each constructor accepts. */
  predicate Admissible(phi: RadialFunction)
  {
    match phi
    case Gaussian(alpha) => alpha > 0.0
    case Multiquadric(alpha, beta) => alpha > 0.0 && beta > 0.0 && !IsInteger(beta)
    case InverseMultiquadric(alpha, beta) => alpha > 0.0 && beta > 0.0
    case Cubic(beta) => beta > 0.0 && !IsInteger(beta / 2.0)
    case ThinPlateSpline(k) => k > 0
  }

  /** Gaussian(α): α must be positive. */
  function NewGaussian(alpha: real): (r: Result<RadialFunction>)
    ensures r.Success? <==> Admissible(Gaussian(alpha))
    ensures r.Success? ==> r.value == Gaussian(alpha)
    ensures r.Failure? ==> r.error == ShapeNotPositive
  {
    if alpha > 0.0 then Success(Gaussian(alpha)) else Failure(ShapeNotPositive)
  }

  /** Multiquadric(α, β): checks α > 0, then β % 1 != 0, then β > 0. */
  function NewMultiquadric(alpha: real, beta: real): (r: Result<RadialFunction>)
    ensures r.Success? <==> Admissible(Multiquadric(alpha, beta))
    ensures r.Success? ==> r.value == Multiquadric(alpha, beta)
    ensures alpha <= 0.0 ==> r == Failure(ShapeNotPositive)
    ensures alpha > 0.0 && IsInteger(beta) ==> r == Failure(ExponentIsInteger)
    ensures alpha > 0.0 && !IsInteger(beta) && beta <= 0.0 ==> r == Failure(ExponentNotPositive)
  {
    RemZeroIffMultiple(beta, 1.0);
    if !(alpha > 0.0) then Failure(ShapeNotPositive)
    else if Rem(beta, 1.0) == 0.0 then Failure(ExponentIsInteger)
    else if !(beta > 0.0) then Failure(ExponentNotPositive)
    else Success(Multiquadric(alpha, beta))
  }

  /** InverseMultiquadric(α, β): checks α > 0, then β > 0. */
  function NewInverseMultiquadric(alpha: real, beta: real): (r: Result<RadialFunction>)
    ensures r.Success? <==> Admissible(InverseMultiquadric(alpha, beta))
    ensures r.Success? ==> r.value == InverseMultiquadric(alpha, beta)
    ensures alpha <= 0.0 ==> r == Failure(ShapeNotPositive)
    ensures alpha > 0.0 && beta <= 0.0 ==> r == Failure(ExponentNotPositive)
  {
    if !(alpha > 0.0) then Failure(ShapeNotPositive)
    else if !(beta > 0.0) then Failure(ExponentNotPositive)
    else Success(InverseMultiquadric(alpha, beta))
  }

  /** Cubic(β): checks β > 0, then β % 2 != 0. */
  function NewCubic(beta: real): (r: Result<RadialFunction>)
    ensures r.Success? <==> Admissible(Cubic(beta))
    ensures r.Success? ==> r.value == Cubic(beta)
    ensures beta <= 0.0 ==> r == Failure(ExponentNotPositive)
    ensures beta > 0.0 && IsInteger(beta / 2.0) ==> r == Failure(ExponentIsEven)
  {
    RemZeroIffMultiple(beta, 2.0);
    if !(beta > 0.0) then Failure(ExponentNotPositive)
    else if Rem(beta, 2.0) == 0.0 then Failure(ExponentIsEven)
    else Success(Cubic(beta))
  }

  /** ThinPlateSpline(k): k must be a positive integer; it is stored as an Int. */
  function NewThinPlateSpline(k: real): (r: Result<RadialFunction>)
    ensures r.Success? <==> k > 0.0 && IsInteger(k)
    ensures r.Success? ==> r.value.ThinPlateSpline? && r.value.k as real == k && Admissible(r.value)
    ensures r.Failure? ==> r.error == OrderNotPositiveInteger
  {
    RemZeroIffMultiple(k, 1.0);
    if k > 0.0 && Rem(k, 1.0) == 0.0 then Success(ThinPlateSpline(k.Floor))
    else Failure(OrderNotPositiveInteger)
  }

  // ---------------------------------------------------------------------------
  // CPD order and values.

  /** cpd_order: the order of conditional positive definiteness. */
  function CpdOrder(phi: RadialFunction): (order: int)
    ensures Admissible(phi) ==> order >= 0
    ensures Admissible(phi) ==> (order == 0 <==> phi.Gaussian? || phi.InverseMultiquadric?)
    ensures phi.Multiquadric? ==> order as real - 1.0 < phi.beta <= order as real
    ensures phi.Cubic? ==> order as real - 1.0 < phi.beta / 2.0 <= order as real
    ensures phi.ThinPlateSpline? ==> order == phi.k + 1
    ensures phi.Gaussian? || phi.InverseMultiquadric? ==> order == 0
  {
    match phi
    case Gaussian(_) => 0
    case Multiquadric(_, beta) => Ceil(beta)
    case InverseMultiquadric(_, _) => 0
    case Cubic(beta) => Ceil(beta / 2.0)
    case ThinPlateSpline(k) => k + 1
  }

  /**
   * φ(ρ), with the thin plate spline using its own order k. The sign factor
   * of the multiquadric, the cubic and the thin plate spline is
   * (-1)^cpd_order.
   */
  function Phi(phi: RadialFunction, rho: real, T: Numerics): (r: real)
    ensures phi.Multiquadric? ==>
      r == Parity(CpdOrder(phi)) as real * T.pow(1.0 + (phi.alpha * rho) * (phi.alpha * rho), phi.beta)
    ensures phi.Cubic? ==> r == Parity(CpdOrder(phi)) as real * T.pow(rho, phi.beta)
    ensures phi.ThinPlateSpline? ==>
      r == Parity(CpdOrder(phi)) as real * Power(rho, 2 * phi.k) * T.log(rho)
  {
    match phi
    case Gaussian(alpha) => T.exp(-((alpha * rho) * (alpha * rho)))
    case Multiquadric(alpha, beta) =>
      Parity(Ceil(beta)) as real * T.pow(1.0 + (alpha * rho) * (alpha * rho), beta)
    case InverseMultiquadric(alpha, beta) => T.pow(1.0 + (alpha * rho) * (alpha * rho), -beta)
    case Cubic(beta) => Parity(Ceil(beta / 2.0)) as real * T.pow(rho, beta)
    case ThinPlateSpline(k) => Parity(k + 1) as real * Power(rho, 2 * k) * T.log(rho)
  }

  /**
   * φ(ρ) as the source writes it: the thin plate spline's formula reads a
   * variable `k` that is bound nowhere in its scope (it should be φ.k), so
   * evaluating one throws UndefVarError.
   */
  function PhiAsWritten(phi: RadialFunction, rho: real, T: Numerics): (r: Result<real>)
    ensures r.Failure? <==> phi.ThinPlateSpline?
    ensures r.Failure? ==> r.error == UndefinedVariable("k")
    ensures r.Success? ==> r.value == Phi(phi, rho, T)
  {
    if phi.ThinPlateSpline? then Failure(UndefinedVariable("k")) else Success(Phi(phi, rho, T))
  }

  /** As written, every thin plate spline fails at evaluation, whatever its order. */
  lemma ThinPlateSplineAsWrittenFails(k: nat, rho: real, T: Numerics)
    ensures PhiAsWritten(ThinPlateSpline(k), rho, T) == Failure(UndefinedVariable("k"))
  {
  }

  /**
   * The corrected thin plate spline follows its own order k: where ρ > 0 and
   * log ρ > 0 its sign is (-1)^(k+1), which is (-1)^cpd_order; and every other
   * kernel evaluates as written.
   */
  lemma ThinPlateSplineSign(k: nat, rho: real, T: Numerics)
    requires k > 0 && rho > 0.0 && T.log(rho) > 0.0
    ensures Phi(ThinPlateSpline(k), rho, T) > 0.0 <==> CpdOrder(ThinPlateSpline(k)) % 2 == 0
    ensures Phi(ThinPlateSpline(k), rho, T) < 0.0 <==> CpdOrder(ThinPlateSpline(k)) % 2 == 1
  {
    PowerPositive(rho, 2 * k);
    var m := Power(rho, 2 * k) * T.log(rho);
    assert m > 0.0;
  }

  lemma PhiAsWrittenElsewhere(phi: RadialFunction, rho: real, T: Numerics)
    requires !phi.ThinPlateSpline?
    ensures PhiAsWritten(phi, rho, T) == Success(Phi(phi, rho, T))
  {
  }

  // ---------------------------------------------------------------------------
  // The name table of the by-name model constructor.

  datatype KernelName =
    | GaussianName
    | MultiquadricName
    | InverseMultiquadricName
    | CubicName
    | ThinPlateSplineName

  /**
   * SymbolToRadialConstructor. Every key is already lower case, so each
   * entry is reachable after `lowercase`, and every constructor has a key.
   */
  function KernelTable(): (t: map<string, KernelName>)
    ensures forall key :: key in t ==> LowerCase(key) == key
    ensures t.Values == {GaussianName, MultiquadricName, InverseMultiquadricName, CubicName, ThinPlateSplineName}
  {
    assert LowerCase("gaussian") == "gaussian";
    assert LowerCase("multiquadric") == "multiquadric";
    assert LowerCase("inv_multiquadric") == "inv_multiquadric";
    assert LowerCase("cubic") == "cubic";
    assert LowerCase("thin_plate_spline") == "thin_plate_spline";
    var t := map[
      "gaussian" := GaussianName,
      "multiquadric" := MultiquadricName,
      "inv_multiquadric" := InverseMultiquadricName,
      "cubic" := CubicName,
      "thin_plate_spline" := ThinPlateSplineName];
    assert t["gaussian"] == GaussianName && t["multiquadric"] == MultiquadricName;
    assert t["inv_multiquadric"] == InverseMultiquadricName && t["cubic"] == CubicName;
    assert t["thin_plate_spline"] == ThinPlateSplineName;
    t
  }

  function LowerChar(c: char): char
  {
    if 'A' <= c <= 'Z' then (c as int - 'A' as int + 'a' as int) as char else c
  }

  /** `lowercase` on ASCII letters. */
  function LowerCase(s: string): (r: string)
    ensures |r| == |s|
    ensures forall i :: 0 <= i < |s| ==> r[i] == LowerChar(s[i])
  {
    seq(|s|, i requires 0 <= i < |s| => LowerChar(s[i]))
  }

  /**
   * The kernel a name selects, and whether the "not known, using Gaussian"
   * warning is issued.
   */
  function ResolveKernelName(name: string): (r: (KernelName, bool))
    ensures r.1 <==> LowerCase(name) !in KernelTable()
    ensures r.1 ==> r.0 == GaussianName
    ensures !r.1 ==> r.0 == KernelTable()[LowerCase(name)]
  {
    var key := LowerCase(name);
    if key in KernelTable() then (KernelTable()[key], false) else (GaussianName, true)
  }

  /** Lookup ignores letter case. */
  lemma ResolveIgnoresCase(name: string)
    ensures ResolveKernelName(LowerCase(name)) == ResolveKernelName(name)
  {
    assert LowerCase(LowerCase(name)) == LowerCase(name);
  }

  /** Each table entry, in one sample spelling, names the constructor it is spelled after. */
  lemma ResolveTableNames()
    ensures ResolveKernelName("Gaussian") == (GaussianName, false)
    ensures ResolveKernelName("MULTIQUADRIC") == (MultiquadricName, false)
    ensures ResolveKernelName("inv_multiquadric") == (InverseMultiquadricName, false)
    ensures ResolveKernelName("Cubic") == (CubicName, false)
    ensures ResolveKernelName("thin_plate_spline") == (ThinPlateSplineName, false)
  {
    assert LowerCase("Gaussian") == "gaussian";
    assert LowerCase("MULTIQUADRIC") == "multiquadric";
    assert LowerCase("inv_multiquadric") == "inv_multiquadric";
    assert LowerCase("Cubic") == "cubic";
    assert LowerCase("thin_plate_spline") == "thin_plate_spline";
  }

  /** The default values of a constructor's parameters, in order. */
  function DefaultArgs(name: KernelName): (d: seq<real>)
    ensures |d| == if name.MultiquadricName? || name.InverseMultiquadricName? then 2 else 1
  {
    match name
    case GaussianName => [1.0]
    case MultiquadricName => [1.0, 0.5]
    case InverseMultiquadricName => [1.0, 0.5]
    case CubicName => [3.0]
    case ThinPlateSplineName => [2.0]
  }

  /** The arguments given, followed by the defaults of the parameters not given. */
  function Padded(args: seq<real>, defaults: seq<real>): (a: seq<real>)
    requires |args| <= |defaults|
    ensures |a| == |defaults|
    ensures forall j :: 0 <= j < |args| ==> a[j] == args[j]
    ensures forall j :: |args| <= j < |defaults| ==> a[j] == defaults[j]
  {
    args + defaults[|args|..]
  }

  /** The kernel a constructor called with no arguments builds. */
  function DefaultKernel(name: KernelName): RadialFunction
  {
    match name
    case GaussianName => Gaussian(1.0)
    case MultiquadricName => Multiquadric(1.0, 0.5)
    case InverseMultiquadricName => InverseMultiquadric(1.0, 0.5)
    case CubicName => Cubic(3.0)
    case ThinPlateSplineName => ThinPlateSpline(2)
  }

  /**
   * `constructor(constructor_args...)`: the named constructor applied to the
   * given arguments, missing trailing ones taking their defaults
   * (Gaussian(1), Multiquadric(1, 1/2), InverseMultiquadric(1, 1/2),
   * Cubic(3), ThinPlateSpline(2)); extra arguments have no method.
   */
  function NewKernel(name: KernelName, args: seq<real>): (r: Result<RadialFunction>)
    ensures r.Success? ==> Admissible(r.value)
    ensures |args| == 0 ==> r.Success?
    ensures |args| > |DefaultArgs(name)| ==> r == Failure(TooManyArguments)
    ensures |args| <= |DefaultArgs(name)| ==>
      var a := Padded(args, DefaultArgs(name));
      match name
      case GaussianName => r == NewGaussian(a[0])
      case MultiquadricName => r == NewMultiquadric(a[0], a[1])
      case InverseMultiquadricName => r == NewInverseMultiquadric(a[0], a[1])
      case CubicName => r == NewCubic(a[0])
      case ThinPlateSplineName => r == NewThinPlateSpline(a[0])
  {
    match name
    case GaussianName =>
      if |args| == 0 then NewGaussian(1.0)
      else if |args| == 1 then NewGaussian(args[0])
      else Failure(TooManyArguments)
    case MultiquadricName =>
      if |args| == 0 then NewMultiquadric(1.0, 0.5)
      else if |args| == 1 then NewMultiquadric(args[0], 0.5)
      else if |args| == 2 then NewMultiquadric(args[0], args[1])
      else Failure(TooManyArguments)
    case InverseMultiquadricName =>
      if |args| == 0 then NewInverseMultiquadric(1.0, 0.5)
      else if |args| == 1 then NewInverseMultiquadric(args[0], 0.5)
      else if |args| == 2 then NewInverseMultiquadric(args[0], args[1])
      else Failure(TooManyArguments)
    case CubicName =>
      if |args| == 0 then NewCubic(3.0)
      else if |args| == 1 then NewCubic(args[0])
      else Failure(TooManyArguments)
    case ThinPlateSplineName =>
      if |args| == 0 then NewThinPlateSpline(2.0)
      else if |args| == 1 then NewThinPlateSpline(args[0])
      else Failure(TooManyArguments)
  }

  /** Every constructor called without arguments builds its documented default kernel. */
  lemma DefaultKernels(name: KernelName)
    ensures NewKernel(name, []) == Success(DefaultKernel(name))
  {
    match name
    case GaussianName =>
    case MultiquadricName => RemZeroIffMultiple(0.5, 1.0);
    case InverseMultiquadricName =>
    case CubicName => RemZeroIffMultiple(3.0, 2.0);
    case ThinPlateSplineName => RemZeroIffMultiple(2.0, 1.0);
  }

  /** The per-site list `[ constructor(arg_tuple...) for arg_tuple ∈ constructor_args ]`; the first failure propagates. */
  function NewKernels(name: KernelName, argList: seq<seq<real>>): (r: Result<seq<RadialFunction>>)
    ensures r.Success? ==> |r.value| == |argList|
    ensures r.Success? ==> forall i :: 0 <= i < |argList| ==> NewKernel(name, argList[i]) == Success(r.value[i])
    ensures r.Failure? <==> exists i :: 0 <= i < |argList| && NewKernel(name, argList[i]).Failure?
  {
    if |argList| == 0 then Success([])
    else
      match NewKernel(name, argList[0])
      case Failure(e) => Failure(e)
      case Success(phi) =>
        match NewKernels(name, argList[1..])
        case Failure(e) =>
          var j :| 0 <= j < |argList[1..]| && NewKernel(name, argList[1..][j]).Failure?;
          assert NewKernel(name, argList[1 + j]).Failure?;
          Failure(e)
        case Success(rest) =>
          assert forall i :: 1 <= i < |argList| ==> argList[i] == argList[1..][i - 1];
          Success([phi] + rest)
  }

  // ---------------------------------------------------------------------------
  // Shifted kernels and distances.

  /** A radial function bound to a center point. */
  datatype ShiftedKernel = ShiftedKernel(phi: RadialFunction, center: seq<real>)

  function SumOfSquares(v: seq<real>): real
  {
    if |v| == 0 then 0.0 else v[0] * v[0] + SumOfSquares(v[1..])
  }

  lemma SquareNonNegative(x: real)
    ensures x * x >= 0.0
  {
    if x < 0.0 {
      ProductPositive(-x, -x);
      assert x * x == (-x) * (-x);
    }
  }

  lemma ProductPositive(a: real, b: real)
    requires a > 0.0 && b > 0.0
    ensures a * b > 0.0
  {
  }

  /** A sum of squares is never negative. */
  lemma {:induction false} SumOfSquaresNonNegative(v: seq<real>)
    ensures SumOfSquares(v) >= 0.0
    decreases |v|
  {
    if |v| > 0 {
      SquareNonNegative(v[0]);
      SumOfSquaresNonNegative(v[1..]);
    }
  }

  /** The zero vector has sum of squares zero. */
  lemma {:induction false} SumOfSquaresZero(v: seq<real>)
    ensures (forall j :: 0 <= j < |v| ==> v[j] == 0.0) ==> SumOfSquares(v) == 0.0
    decreases |v|
  {
    if |v| > 0 && forall j :: 0 <= j < |v| ==> v[j] == 0.0 {
      SumOfSquaresZero(v[1..]);
    }
  }

  /** norm2(v) = sqrt(sum(v.^2)). */
  function Norm2(v: seq<real>, T: Numerics): (r: real)
    ensures exists s: real :: s >= 0.0 && r == T.sqrt(s)
    ensures (forall j :: 0 <= j < |v| ==> v[j] == 0.0) ==> r == T.sqrt(0.0)
  {
    SumOfSquaresNonNegative(v);
    SumOfSquaresZero(v);
    T.sqrt(SumOfSquares(v))
  }

  /** a .- b on vectors of one length. */
  function Minus(a: seq<real>, b: seq<real>): (r: seq<real>)
    requires |a| == |b|
    ensures |r| == |a|
  {
    seq(|a|, j requires 0 <= j < |a| => a[j] - b[j])
  }

  /**
   * The shifted kernel at x: φ(norm2(x .- c)). This is φ at the distance
   * `_distances` measures, norm2(c .- x), and at its own centre it is φ at
   * distance zero.
   */
  function EvalShifted(kernel: ShiftedKernel, x: seq<real>, T: Numerics): (r: real)
    requires |x| == |kernel.center|
    ensures r == Phi(kernel.phi, Norm2(Minus(kernel.center, x), T), T)
    ensures x == kernel.center ==> r == Phi(kernel.phi, T.sqrt(0.0), T)
  {
    DistanceSymmetric(x, kernel.center, T);
    Phi(kernel.phi, Norm2(Minus(x, kernel.center), T), T)
  }

  lemma {:induction false} SumOfSquaresSymmetric(a: seq<real>, b: seq<real>)
    requires |a| == |b|
    ensures SumOfSquares(Minus(a, b)) == SumOfSquares(Minus(b, a))
    decreases |a|
  {
    if |a| > 0 {
      SumOfSquaresSymmetric(a[1..], b[1..]);
      assert Minus(a, b)[1..] == Minus(a[1..], b[1..]);
      assert Minus(b, a)[1..] == Minus(b[1..], a[1..]);
    }
  }

  /** The distance from x to c is the distance from c to x, so norm2(x .- c) == norm2(c .- x). */
  lemma DistanceSymmetric(a: seq<real>, b: seq<real>, T: Numerics)
    requires |a| == |b|
    ensures Norm2(Minus(a, b), T) == Norm2(Minus(b, a), T)
  {
    SumOfSquaresSymmetric(a, b);
  }
}

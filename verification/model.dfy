/**
 * The interpolation model: data checks and conversion, kernel placement,
 * the polynomial degree cap, the fitted output systems, evaluation at a
 * point (all outputs or output ℓ, as a vector or a scalar), and the
 * constructor that selects the radial function by name.
 */
module RBFModels {
  import opened Outcomes
  import opened Combinatorics
  import opened Matrices
  import opened Kernels
  import opened PolynomialBasis
  import opened InterpolationSystem

  // ---------------------------------------------------------------------------
  // Training data.

  /** A list of sites or values: all plain numbers or all vectors. */
  datatype Data = Scalars(xs: seq<real>) | Vectors(vs: seq<seq<real>>)

  function Count(data: Data): nat
  {
    match data
    case Scalars(xs) => |xs|
    case Vectors(vs) => |vs|
  }

  /** convert_list_of_vecs: numbers become one-element vectors, vectors are kept. */
  function AsVectors(data: Data): (m: Matrix)
    ensures |m| == Count(data)
    ensures data.Scalars? ==> forall i :: 0 <= i < |m| ==> m[i] == [data.xs[i]]
    ensures data.Vectors? ==> m == data.vs
    ensures data.Scalars? ==> Uniform(m) && (|m| > 0 ==> Width(m) == 1)
  {
    match data
    case Scalars(xs) => seq(|xs|, i requires 0 <= i < |xs| => [xs[i]])
    case Vectors(vs) => vs
  }

  /** Every row has the length of the first. */
  predicate Uniform(m: Matrix)
  {
    IsMatrix(m, |m|, Width(m))
  }

  /**
   * The data integrity checks of RBFInterpolationModel, in their order:
   * as many sites as values, at least one site, uniform site dimension,
   * uniform value dimension; on success the data as vectors.
   */
  function Validate(sites: Data, values: Data): (r: Result<(Matrix, Matrix)>)
    ensures Count(sites) != Count(values) ==> r == Failure(SiteValueCountMismatch)
    ensures Count(sites) == Count(values) == 0 ==> r == Failure(NoSites)
    ensures Count(sites) == Count(values) > 0 && !Uniform(AsVectors(sites)) ==> r == Failure(SiteDimensionMismatch)
    ensures (Count(sites) == Count(values) > 0 && Uniform(AsVectors(sites)) && !Uniform(AsVectors(values)))
      ==> r == Failure(ValueDimensionMismatch)
    ensures r.Success? <==> Count(sites) == Count(values) > 0 && Uniform(AsVectors(sites)) && Uniform(AsVectors(values))
    ensures r.Success? ==> r.value == (AsVectors(sites), AsVectors(values))
  {
    var xs, ys := AsVectors(sites), AsVectors(values);
    if |xs| != |ys| then Failure(SiteValueCountMismatch)
    else if |xs| == 0 then Failure(NoSites)
    else if !Uniform(xs) then Failure(SiteDimensionMismatch)
    else if !Uniform(ys) then Failure(ValueDimensionMismatch)
    else Success((xs, ys))
  }

  // ---------------------------------------------------------------------------
  // Kernels and the polynomial degree.

  /** One radial function for every site, or one per site. */
  datatype KernelChoice = Single(phi: RadialFunction) | PerSite(phis: seq<RadialFunction>)

  /** make_kernels: kernel j is centred at site j, with the shared or the j-th radial function. */
  function MakeKernels(choice: KernelChoice, centers: Matrix): (r: Result<seq<ShiftedKernel>>)
    ensures r.Success? <==> choice.Single? || |choice.phis| == |centers|
    ensures r.Failure? ==> r.error == KernelCountMismatch
    ensures r.Success? ==> |r.value| == |centers|
    ensures r.Success? && choice.Single? ==>
      forall j :: 0 <= j < |centers| ==> r.value[j] == ShiftedKernel(choice.phi, centers[j])
    ensures r.Success? && choice.PerSite? ==>
      forall j :: 0 <= j < |centers| ==> r.value[j] == ShiftedKernel(choice.phis[j], centers[j])
  {
    match choice
    case Single(phi) =>
      Success(seq(|centers|, j requires 0 <= j < |centers| => ShiftedKernel(phi, centers[j])))
    case PerSite(phis) =>
      if |phis| != |centers| then Failure(KernelCountMismatch)
      else Success(seq(|centers|, j requires 0 <= j < |centers| => ShiftedKernel(phis[j], centers[j])))
  }

  /**
   * make_kernels as written: the per-site method checks the count and then
   * reads `φ[i]`, a name that is not bound in it.
   */
  function MakeKernelsAsWritten(choice: KernelChoice, centers: Matrix): (r: Result<seq<ShiftedKernel>>)
    ensures choice.Single? ==> r == MakeKernels(choice, centers)
    ensures choice.PerSite? ==> r.Failure?
  {
    match choice
    case Single(_) => MakeKernels(choice, centers)
    case PerSite(phis) =>
      if |phis| != |centers| then Failure(KernelCountMismatch) else Failure(UndefinedVariable("φ"))
  }

  /** The largest CPD order in a list of radial functions (0 for none). */
  function MaxCpdOrder(phis: seq<RadialFunction>): (order: int)
    ensures forall j :: 0 <= j < |phis| ==> CpdOrder(phis[j]) <= order
    ensures |phis| == 0 ==> order == 0
    ensures |phis| > 0 ==> exists j :: 0 <= j < |phis| && order == CpdOrder(phis[j])
  {
    if |phis| == 0 then 0
    else if |phis| == 1 then CpdOrder(phis[0])
    else
      var rest := MaxCpdOrder(phis[1..]);
      assert forall j :: 1 <= j < |phis| ==> phis[j] == phis[1..][j - 1];
      if CpdOrder(phis[0]) >= rest then CpdOrder(phis[0]) else rest
  }

  /** cpd_order of the kernel argument: that of the one function, or the largest of the per-site ones. */
  function ChoiceCpdOrder(choice: KernelChoice): (order: int)
    ensures choice.Single? ==> order == CpdOrder(choice.phi)
    ensures choice.PerSite? ==> forall j :: 0 <= j < |choice.phis| ==> CpdOrder(choice.phis[j]) <= order
    ensures choice.PerSite? && |choice.phis| > 0 ==>
      exists j :: 0 <= j < |choice.phis| && order == CpdOrder(choice.phis[j])
  {
    match choice
    case Single(phi) => CpdOrder(phi)
    case PerSite(phis) => MaxCpdOrder(phis)
  }

  /** cpd_order as written has a method for one radial function only. */
  function ChoiceCpdOrderAsWritten(choice: KernelChoice): (r: Result<int>)
    ensures choice.Single? ==> r == Success(ChoiceCpdOrder(choice))
    ensures choice.PerSite? ==> r == Failure(NoMethod("cpd_order"))
  {
    match choice
    case Single(phi) => Success(CpdOrder(phi))
    case PerSite(_) => Failure(NoMethod("cpd_order"))
  }

  /** `min(poly_deg, cpd_order(φ) - 1)`. */
  function WorkingDegree(polyDeg: int, choice: KernelChoice): (d: int)
    ensures d <= polyDeg && d < ChoiceCpdOrder(choice)
    ensures d == polyDeg || d == ChoiceCpdOrder(choice) - 1
  {
    if polyDeg <= ChoiceCpdOrder(choice) - 1 then polyDeg else ChoiceCpdOrder(choice) - 1
  }

  // ---------------------------------------------------------------------------
  // Output polynomials.

  /** Σ_q coeffs[q] · x^basis[q]. */
  datatype Polynomial = Polynomial(basis: seq<Exponents>, coeffs: seq<real>)

  predicate PolyShaped(p: Polynomial, n: nat)
  {
    |p.coeffs| == |p.basis| && forall q :: 0 <= q < |p.basis| ==> |p.basis[q]| == n
  }

  /** The basis monomials at x. */
  function MonomialVector(basis: seq<Exponents>, x: seq<real>): (v: seq<real>)
    requires forall q :: 0 <= q < |basis| ==> |basis[q]| == |x|
    ensures |v| == |basis|
  {
    seq(|basis|, q requires 0 <= q < |basis| => Monomial(basis[q], x))
  }

  function EvalPolynomial(p: Polynomial, x: seq<real>): real
    requires PolyShaped(p, |x|)
  {
    Dot(MonomialVector(p.basis, x), p.coeffs)
  }

  /** One polynomial per column of λ: `poly_basis'coeff_ℓ` for each `coeff_ℓ ∈ eachcol(λ)`. */
  function OutputPolynomials(basis: seq<Exponents>, L: Matrix, k: nat): (ps: seq<Polynomial>)
    requires |L| == |basis| && forall q :: 0 <= q < |L| ==> k <= |L[q]|
    ensures |ps| == k
    ensures forall l :: 0 <= l < k ==> ps[l] == Polynomial(basis, Column(L, l))
  {
    seq(k, l requires 0 <= l < k => Polynomial(basis, Column(L, l)))
  }

  /** The loop that pushes the output polynomials, column by column. */
  method BuildPolynomials(basis: seq<Exponents>, L: Matrix, k: nat) returns (polys: seq<Polynomial>)
    requires IsMatrix(L, |basis|, k)
    ensures |polys| == k
    ensures forall l :: 0 <= l < k ==> polys[l].basis == basis && polys[l].coeffs == Column(L, l)
    ensures polys == OutputPolynomials(basis, L, k)
  {
    polys := [];
    for l := 0 to k
      invariant polys == OutputPolynomials(basis, L, l)
    {
      polys := polys + [Polynomial(basis, Column(L, l))];
    }
  }

  // ---------------------------------------------------------------------------
  // The model.

  datatype RBFOutputSystem = RBFOutputSystem(kernels: seq<ShiftedKernel>, weights: Matrix, numOutputs: nat, numCenters: nat)

  datatype PolySystem = PolySystem(polys: seq<Polynomial>, numOutputs: nat)

  /** RBFModel{S,V}; `vecOutput` is the type parameter V (static arrays, S, are not modelled). */
  datatype RBFModel = RBFModel(
    rbfSys: RBFOutputSystem,
    polySys: PolySystem,
    numVars: nat,
    numOutputs: nat,
    numCenters: nat,
    vecOutput: bool)

  /** The shape facts evaluation relies on. */
  predicate ValidModel(m: RBFModel)
  {
    && m.rbfSys.numOutputs == m.numOutputs && m.polySys.numOutputs == m.numOutputs
    && m.rbfSys.numCenters == m.numCenters && |m.rbfSys.kernels| == m.numCenters
    && IsMatrix(m.rbfSys.weights, m.numCenters, m.numOutputs)
    && (forall j :: 0 <= j < |m.rbfSys.kernels| ==> |m.rbfSys.kernels[j].center| == m.numVars)
    && |m.polySys.polys| == m.numOutputs
    && (forall l :: 0 <= l < |m.polySys.polys| ==> PolyShaped(m.polySys.polys[l], m.numVars))
  }

  /** `num_outputs == 1 ? vector_output : true`: the flag matters only for one output. */
  function VecOutput(numOutputs: nat, vectorOutput: bool): (v: bool)
    ensures numOutputs != 1 ==> v
    ensures numOutputs == 1 ==> (v <==> vectorOutput)
  {
    if numOutputs == 1 then vectorOutput else true
  }

  /** `num_outputs == 1 ? vector_output : false`, as written. */
  function VecOutputAsWritten(numOutputs: nat, vectorOutput: bool): (v: bool)
    ensures numOutputs != 1 ==> !v
  {
    if numOutputs == 1 then vectorOutput else false
  }

  lemma BasisShape(n: nat, d: int)
    requires n >= 1 || d < 0
    ensures forall q :: 0 <= q < |Basis(n, d)| ==> |Basis(n, d)[q]| == n
  {
    forall q | 0 <= q < |Basis(n, d)|
      ensures |Basis(n, d)[q]| == n
    {
      BasisMembership(n, d, Basis(n, d)[q]);
    }
  }

  /**
   * RBFInterpolationModel(sites, values, φ, poly_deg; vector_output): the
   * data checks, kernels at the sites, the capped degree and its basis, the
   * coefficients, one output polynomial per output.
   */
  function InterpolationModel(sites: Data, values: Data, choice: KernelChoice, polyDeg: int, vectorOutput: bool,
                              solve: Solver, T: Numerics): (r: Result<RBFModel>)
    requires SoundSolver(solve)
    ensures Validate(sites, values).Failure? ==> r == Failure(Validate(sites, values).error)
    ensures (Validate(sites, values).Success? && choice.PerSite? && |choice.phis| != Count(sites))
      ==> r == Failure(KernelCountMismatch)
    ensures Validate(sites, values).Success? && MakeKernels(choice, AsVectors(sites)).Success? ==>
      r == Fit(AsVectors(sites), AsVectors(values), MakeKernels(choice, AsVectors(sites)).value,
               WorkingDegree(polyDeg, choice), vectorOutput, solve, T)
    ensures r.Success? ==> ValidModel(r.value)
  {
    match Validate(sites, values)
    case Failure(e) => Failure(e)
    case Success(data) =>
      match MakeKernels(choice, data.0)
      case Failure(e) => Failure(e)
      case Success(kernels) => Fit(data.0, data.1, kernels, WorkingDegree(polyDeg, choice), vectorOutput, solve, T)
  }

  /**
   * The part of RBFInterpolationModel after make_kernels: the basis of
   * degree deg (whose recursion does not stop for zero-dimensional sites),
   * the coefficients, and the model assembled from them.
   */
  function Fit(xs: Matrix, ys: Matrix, kernels: seq<ShiftedKernel>, deg: int, vectorOutput: bool,
               solve: Solver, T: Numerics): (r: Result<RBFModel>)
    requires |xs| >= 1 && Uniform(xs) && |ys| == |xs| && Uniform(ys) && |kernels| == |xs|
    requires forall j :: 0 <= j < |kernels| ==> |kernels[j].center| == Width(xs)
    requires SoundSolver(solve)
    ensures Width(xs) == 0 && deg >= 0 ==> r == Failure(StackOverflow)
    ensures Width(xs) >= 1 || deg < 0 ==> forall q :: 0 <= q < |Basis(Width(xs), deg)| ==> |Basis(Width(xs), deg)[q]| == Width(xs)
    ensures Width(xs) >= 1 || deg < 0 ==>
      (r.Success? <==> CoefficientsOf(xs, ys, kernels, Basis(Width(xs), deg), solve, T).Success?)
    ensures r.Failure? ==> r.error == StackOverflow || r.error == SingularSystem
    ensures r.Success? ==> ValidModel(r.value)
  {
    var n, k := |xs[0]|, |ys[0]|;
    if n == 0 && deg >= 0 then Failure(StackOverflow)
    else
      var basis := Basis(n, deg);
      BasisShape(n, deg);
      match CoefficientsOf(xs, ys, kernels, basis, solve, T)
      case Failure(e) => Failure(e)
      case Success(coeffs) =>
        CoefficientsSolveSystem(xs, ys, kernels, basis, solve, T);
        Success(RBFModel(
          RBFOutputSystem(kernels, coeffs.0, k, |xs|),
          PolySystem(OutputPolynomials(basis, coeffs.1, k), k),
          n, k, |xs|, VecOutput(k, vectorOutput)))
  }

  /** RBFInterpolationModel as it runs: the basis and the coefficients from their loops, then the polynomial loop. */
  method RBFInterpolationModel(sites: Data, values: Data, choice: KernelChoice, polyDeg: int, vectorOutput: bool,
                               solve: Solver, T: Numerics) returns (r: Result<RBFModel>)
    requires SoundSolver(solve)
    ensures r == InterpolationModel(sites, values, choice, polyDeg, vectorOutput, solve, T)
  {
    var checked := Validate(sites, values);
    if checked.Failure? {
      return Failure(checked.error);
    }
    var xs, ys := checked.value.0, checked.value.1;
    var n, k := |xs[0]|, |ys[0]|;
    var made := MakeKernels(choice, xs);
    if made.Failure? {
      return Failure(made.error);
    }
    var kernels := made.value;
    var deg := WorkingDegree(polyDeg, choice);
    if n == 0 && deg >= 0 {
      return Failure(StackOverflow);
    }
    var basis := CanonicalBasis(n, deg);
    BasisShape(n, deg);
    var coeffs := Coefficients(xs, ys, kernels, basis, solve, T);
    if coeffs.Failure? {
      return Failure(coeffs.error);
    }
    CoefficientsSolveSystem(xs, ys, kernels, basis, solve, T);
    var W, L := coeffs.value.0, coeffs.value.1;
    var polys := BuildPolynomials(basis, L, k);
    r := Success(RBFModel(
      RBFOutputSystem(kernels, W, k, |xs|),
      PolySystem(polys, k),
      n, k, |xs|, VecOutput(k, vectorOutput)));
  }

  // ---------------------------------------------------------------------------
  // Evaluation.

  /** An evaluation point: a number or a vector. */
  datatype Point = Num(x: real) | Vec(v: seq<real>)

  /** What evaluation returns: a scalar or a vector. */
  datatype Output = Scalar(y: real) | Vector(ys: seq<real>)

  /** The point as a vector; a number is a one-element vector (_eval_polys wraps it, broadcasting in _distances treats it alike). */
  function PointVector(x: Point): seq<real>
  {
    match x
    case Num(v) => [v]
    case Vec(v) => v
  }

  /** _distances: `norm2(k.c .- x)` for each kernel, the distance the shifted kernel measures. */
  function Distances(kernels: seq<ShiftedKernel>, x: seq<real>, T: Numerics): (rho: seq<real>)
    requires forall j :: 0 <= j < |kernels| ==> |kernels[j].center| == |x|
    ensures |rho| == |kernels|
    ensures forall j :: 0 <= j < |kernels| ==> rho[j] == Norm2(Minus(x, kernels[j].center), T)
    ensures forall j :: 0 <= j < |kernels| ==> Phi(kernels[j].phi, rho[j], T) == EvalShifted(kernels[j], x, T)
  {
    DistancesSymmetric(kernels, x, T);
    seq(|kernels|, j requires 0 <= j < |kernels| => Norm2(Minus(kernels[j].center, x), T))
  }

  lemma DistancesSymmetric(kernels: seq<ShiftedKernel>, x: seq<real>, T: Numerics)
    requires forall j :: 0 <= j < |kernels| ==> |kernels[j].center| == |x|
    ensures forall j :: 0 <= j < |kernels| ==>
      Norm2(Minus(kernels[j].center, x), T) == Norm2(Minus(x, kernels[j].center), T)
  {
    forall j | 0 <= j < |kernels| {
      DistanceSymmetric(kernels[j].center, x, T);
    }
  }

  /** _kernel_vector: `kernels[i].φ(ρ[i])`. */
  function KernelVector(kernels: seq<ShiftedKernel>, rho: seq<real>, T: Numerics): (kv: seq<real>)
    requires |rho| == |kernels|
    ensures |kv| == |rho|
  {
    seq(|rho|, i requires 0 <= i < |rho| => Phi(kernels[i].phi, rho[i], T))
  }

  /** The weights an evaluation reads: all columns, or column ℓ. */
  predicate RbfShaped(sys: RBFOutputSystem, ell: Option<nat>)
  {
    IsMatrix(sys.weights, |sys.kernels|, sys.numOutputs) && (ell.Some? ==> ell.value < sys.numOutputs)
  }

  /** _eval_rbfs_at_ρ: `kv'W`, with W all weights or column ℓ, as a vector. */
  function EvalRbfsAtRho(sys: RBFOutputSystem, rho: seq<real>, ell: Option<nat>, T: Numerics): (out: seq<real>)
    requires |rho| == |sys.kernels| && RbfShaped(sys, ell)
    ensures |out| == if ell.Some? then 1 else sys.numOutputs
  {
    var kv := KernelVector(sys.kernels, rho, T);
    match ell
    case None => seq(sys.numOutputs, l requires 0 <= l < sys.numOutputs => Dot(kv, Column(sys.weights, l)))
    case Some(l) => [Dot(kv, Column(sys.weights, l))]
  }

  /**
   * _eval_rbfs_at_ρ as written: for a given ℓ, kv'W is a number and
   * `vec` has no method for numbers.
   */
  function EvalRbfsAtRhoAsWritten(sys: RBFOutputSystem, rho: seq<real>, ell: Option<nat>, T: Numerics): (r: Result<seq<real>>)
    requires |rho| == |sys.kernels| && RbfShaped(sys, ell)
    ensures ell.None? ==> r == Success(EvalRbfsAtRho(sys, rho, ell, T))
    ensures ell.Some? ==> r == Failure(NoMethod("vec"))
  {
    if ell.None? then Success(EvalRbfsAtRho(sys, rho, ell, T)) else Failure(NoMethod("vec"))
  }

  /** `rbf(x, ℓ)`: distances, then the weighted kernel values. */
  function EvalRbfSys(sys: RBFOutputSystem, x: seq<real>, ell: Option<nat>, T: Numerics): (out: seq<real>)
    requires forall j :: 0 <= j < |sys.kernels| ==> |sys.kernels[j].center| == |x|
    requires RbfShaped(sys, ell)
    ensures |out| == if ell.Some? then 1 else sys.numOutputs
  {
    EvalRbfsAtRho(sys, Distances(sys.kernels, x, T), ell, T)
  }

  /** _eval_polys: every output polynomial at x, or polynomial ℓ alone. */
  function EvalPolys(sys: PolySystem, x: seq<real>, ell: Option<nat>): (out: seq<real>)
    requires forall l :: 0 <= l < |sys.polys| ==> PolyShaped(sys.polys[l], |x|)
    requires ell.Some? ==> ell.value < |sys.polys|
    ensures |out| == if ell.Some? then 1 else |sys.polys|
  {
    match ell
    case None => seq(|sys.polys|, l requires 0 <= l < |sys.polys| => EvalPolynomial(sys.polys[l], x))
    case Some(l) => [EvalPolynomial(sys.polys[l], x)]
  }

  function Add(a: seq<real>, b: seq<real>): (c: seq<real>)
    requires |a| == |b|
    ensures |c| == |a|
  {
    seq(|a|, i requires 0 <= i < |a| => a[i] + b[i])
  }

  /**
   * `mod(x, ℓ)`: the kernel part plus the polynomial part, as a vector when
   * V holds and as the last entry of each part otherwise.
   */
  function Evaluate(m: RBFModel, x: Point, ell: Option<nat>, T: Numerics): (r: Result<Output>)
    requires ValidModel(m)
    ensures |PointVector(x)| != m.numVars ==> r == Failure(DimensionMismatch)
    ensures |PointVector(x)| == m.numVars && ell.Some? && ell.value >= m.numOutputs ==> r == Failure(IndexOutOfBounds)
    ensures r.Success? ==> (r.value.Vector? <==> m.vecOutput)
    ensures r.Success? && m.vecOutput ==> |r.value.ys| == if ell.Some? then 1 else m.numOutputs
  {
    var v := PointVector(x);
    if |v| != m.numVars then Failure(DimensionMismatch)
    else if ell.Some? && ell.value >= m.numOutputs then Failure(IndexOutOfBounds)
    else
      var rbf := EvalRbfSys(m.rbfSys, v, ell, T);
      var poly := EvalPolys(m.polySys, v, ell);
      if m.vecOutput then Success(Vector(Add(rbf, poly)))
      else if |rbf| == 0 then Failure(IndexOutOfBounds)
      else Success(Scalar(rbf[|rbf| - 1] + poly[|poly| - 1]))
  }

  /** The kernels' values at x, φⱼ(‖x − cⱼ‖). */
  function KernelValues(kernels: seq<ShiftedKernel>, x: seq<real>, T: Numerics): (v: seq<real>)
    requires forall j :: 0 <= j < |kernels| ==> |kernels[j].center| == |x|
    ensures |v| == |kernels|
  {
    seq(|kernels|, j requires 0 <= j < |kernels| => EvalShifted(kernels[j], x, T))
  }

  /**
   * The model as the formula of the coefficients docstring,
   * r_ℓ(x) = Σⱼ wⱼℓ φⱼ(‖x − cⱼ‖) + Σ_q λ_qℓ p_q(x), output by output.
   */
  function ModelValue(m: RBFModel, x: seq<real>, T: Numerics): (out: seq<real>)
    requires ValidModel(m) && |x| == m.numVars
    ensures |out| == m.numOutputs
  {
    seq(m.numOutputs, l requires 0 <= l < m.numOutputs =>
      Dot(Column(m.rbfSys.weights, l), KernelValues(m.rbfSys.kernels, x, T))
        + EvalPolynomial(m.polySys.polys[l], x))
  }

  // ---------------------------------------------------------------------------
  // Properties of evaluation.

  /** Each entry of the kernel part is the weighted sum of the kernels' values. */
  lemma RbfPartIsWeightedSum(m: RBFModel, x: seq<real>, ell: Option<nat>, T: Numerics)
    requires ValidModel(m) && |x| == m.numVars && RbfShaped(m.rbfSys, ell)
    ensures var out := EvalRbfSys(m.rbfSys, x, ell, T);
      forall i :: 0 <= i < |out| ==>
        out[i] == Dot(Column(m.rbfSys.weights, if ell.Some? then ell.value else i), KernelValues(m.rbfSys.kernels, x, T))
  {
    var kernels := m.rbfSys.kernels;
    var kv := KernelVector(kernels, Distances(kernels, x, T), T);
    KernelVectorAtDistances(kernels, x, T);
    var out := EvalRbfSys(m.rbfSys, x, ell, T);
    forall i | 0 <= i < |out|
      ensures out[i] == Dot(Column(m.rbfSys.weights, if ell.Some? then ell.value else i), kv)
    {
      DotSymmetric(kv, Column(m.rbfSys.weights, if ell.Some? then ell.value else i));
    }
  }

  /** `_kernel_vector` at the `_distances` of x is the shifted kernels' values at x. */
  lemma KernelVectorAtDistances(kernels: seq<ShiftedKernel>, x: seq<real>, T: Numerics)
    requires forall j :: 0 <= j < |kernels| ==> |kernels[j].center| == |x|
    ensures KernelVector(kernels, Distances(kernels, x, T), T) == KernelValues(kernels, x, T)
  {
    var kv, values := KernelVector(kernels, Distances(kernels, x, T), T), KernelValues(kernels, x, T);
    assert forall j :: 0 <= j < |kernels| ==> kv[j] == values[j];
  }

  /**
   * Evaluation is the model formula: all outputs as a vector when V holds,
   * otherwise only the last; with ℓ given, output ℓ alone, in a
   * one-element vector when V holds and as a number otherwise.
   */
  lemma EvaluateIsModelValue(m: RBFModel, x: Point, ell: Option<nat>, T: Numerics)
    requires ValidModel(m) && |PointVector(x)| == m.numVars
    ensures var value := ModelValue(m, PointVector(x), T);
      Evaluate(m, x, ell, T) ==
        match ell
        case None =>
          if m.vecOutput then Success(Vector(value))
          else if m.numOutputs == 0 then Failure(IndexOutOfBounds)
          else Success(Scalar(value[m.numOutputs - 1]))
        case Some(l) =>
          if l >= m.numOutputs then Failure(IndexOutOfBounds)
          else if m.vecOutput then Success(Vector([value[l]]))
          else Success(Scalar(value[l]))
  {
    match ell
    case None => EvaluateAll(m, x, T);
    case Some(l) =>
      if l < m.numOutputs {
        EvaluateOne(m, x, l, T);
      }
  }

  /** Evaluation without ℓ: the whole model formula, or its last entry. */
  lemma EvaluateAll(m: RBFModel, x: Point, T: Numerics)
    requires ValidModel(m) && |PointVector(x)| == m.numVars
    ensures var value := ModelValue(m, PointVector(x), T);
      Evaluate(m, x, None, T) ==
        if m.vecOutput then Success(Vector(value))
        else if m.numOutputs == 0 then Failure(IndexOutOfBounds)
        else Success(Scalar(value[m.numOutputs - 1]))
  {
    var v := PointVector(x);
    PartsAddUp(m, v, None, T);
    var rbf, poly := EvalRbfSys(m.rbfSys, v, None, T), EvalPolys(m.polySys, v, None);
    if !m.vecOutput && |rbf| > 0 {
      assert Add(rbf, poly)[|rbf| - 1] == rbf[|rbf| - 1] + poly[|poly| - 1];
    }
  }

  /** Evaluation of output ℓ alone: entry ℓ of the model formula. */
  lemma EvaluateOne(m: RBFModel, x: Point, l: nat, T: Numerics)
    requires ValidModel(m) && |PointVector(x)| == m.numVars && l < m.numOutputs
    ensures var value := ModelValue(m, PointVector(x), T);
      Evaluate(m, x, Some(l), T) ==
        if m.vecOutput then Success(Vector([value[l]])) else Success(Scalar(value[l]))
  {
    var v := PointVector(x);
    PartsAddUp(m, v, Some(l), T);
    var rbf, poly := EvalRbfSys(m.rbfSys, v, Some(l), T), EvalPolys(m.polySys, v, Some(l));
    assert Add(rbf, poly)[0] == rbf[0] + poly[0];
  }

  /** The kernel part plus the polynomial part is the model formula, for all outputs or for output ℓ. */
  lemma PartsAddUp(m: RBFModel, v: seq<real>, ell: Option<nat>, T: Numerics)
    requires ValidModel(m) && |v| == m.numVars && (ell.Some? ==> ell.value < m.numOutputs)
    ensures Add(EvalRbfSys(m.rbfSys, v, ell, T), EvalPolys(m.polySys, v, ell))
      == if ell.None? then ModelValue(m, v, T) else [ModelValue(m, v, T)[ell.value]]
  {
    var value := ModelValue(m, v, T);
    RbfPartIsWeightedSum(m, v, ell, T);
    var sum := Add(EvalRbfSys(m.rbfSys, v, ell, T), EvalPolys(m.polySys, v, ell));
    forall i | 0 <= i < |sum|
      ensures sum[i] == value[if ell.Some? then ell.value else i]
    {
    }
    if ell.None? {
      assert sum == value;
    } else {
      assert sum == [value[ell.value]];
    }
  }

  /** A number is evaluated as the one-element vector holding it. */
  lemma NumberIsOneElementVector(m: RBFModel, v: real, ell: Option<nat>, T: Numerics)
    requires ValidModel(m)
    ensures Evaluate(m, Num(v), ell, T) == Evaluate(m, Vec([v]), ell, T)
    ensures m.numVars != 1 ==> Evaluate(m, Num(v), ell, T) == Failure(DimensionMismatch)
  {
  }

  /** Selecting output ℓ before the product gives entry ℓ of the full product. */
  lemma ColumnSelection(sys: RBFOutputSystem, rho: seq<real>, l: nat, T: Numerics)
    requires |rho| == |sys.kernels| && RbfShaped(sys, Some(l))
    ensures EvalRbfsAtRho(sys, rho, Some(l), T) == [EvalRbfsAtRho(sys, rho, None, T)[l]]
  {
  }

  /** For a given ℓ the kernel part as written always fails, where the intended result is its entry ℓ. */
  lemma OutputSelectionAsWrittenFails(m: RBFModel, x: seq<real>, l: nat, T: Numerics)
    requires ValidModel(m) && |x| == m.numVars && l < m.numOutputs
    ensures EvalRbfsAtRhoAsWritten(m.rbfSys, Distances(m.rbfSys.kernels, x, T), Some(l), T).Failure?
    ensures EvalRbfSys(m.rbfSys, x, Some(l), T) == [EvalRbfSys(m.rbfSys, x, None, T)[l]]
  {
    ColumnSelection(m.rbfSys, Distances(m.rbfSys.kernels, x, T), l, T);
  }

  // ---------------------------------------------------------------------------
  // Properties of construction.

  /** Where the site of index i is, as given: a number or a vector. */
  function SitePoint(sites: Data, i: nat): Point
    requires i < Count(sites)
  {
    match sites
    case Scalars(xs) => Num(xs[i])
    case Vectors(vs) => Vec(vs[i])
  }

  /**
   * When RBFInterpolationModel succeeds, exactly: the data checks pass,
   * the kernels are built, the basis recursion stops (the sites have at
   * least one coordinate or no polynomial tail is used), and the solve of
   * the interpolation system succeeds. A zero-dimensional site with a
   * polynomial tail overflows the stack; any other failure after the
   * kernels are built is the singular system.
   */
  lemma BuildOutcome(sites: Data, values: Data, choice: KernelChoice, polyDeg: int, vectorOutput: bool,
                     solve: Solver, T: Numerics)
    requires SoundSolver(solve)
    ensures var r := InterpolationModel(sites, values, choice, polyDeg, vectorOutput, solve, T);
      var xs, d := AsVectors(sites), WorkingDegree(polyDeg, choice);
      && (r.Success? <==>
           && Validate(sites, values).Success?
           && MakeKernels(choice, xs).Success?
           && (Width(xs) >= 1 || d < 0)
           && CoefficientsOf(xs, AsVectors(values), MakeKernels(choice, xs).value, Basis(Width(xs), d), solve, T).Success?)
      && ((Validate(sites, values).Success? && MakeKernels(choice, xs).Success? && Width(xs) == 0 && d >= 0)
          ==> r == Failure(StackOverflow))
      && ((Validate(sites, values).Success? && MakeKernels(choice, xs).Success? && (Width(xs) >= 1 || d < 0)
           && r.Failure?)
          ==> r == Failure(SingularSystem))
  {
  }

  /**
   * A successful construction, step by step: valid data, kernels at the
   * sites, the capped basis, a solved system, and the model assembled from
   * its solution.
   */
  lemma BuiltModelShape(sites: Data, values: Data, choice: KernelChoice, polyDeg: int, vectorOutput: bool,
                        solve: Solver, T: Numerics)
    requires SoundSolver(solve)
    requires InterpolationModel(sites, values, choice, polyDeg, vectorOutput, solve, T).Success?
    ensures var m := InterpolationModel(sites, values, choice, polyDeg, vectorOutput, solve, T).value;
      var xs, ys := AsVectors(sites), AsVectors(values);
      var n, k, d := Width(xs), Width(ys), WorkingDegree(polyDeg, choice);
      && Validate(sites, values) == Success((xs, ys))
      && Count(sites) == Count(values) >= 1
      && MakeKernels(choice, xs).Success?
      && (n >= 1 || d < 0)
      && (forall q :: 0 <= q < |Basis(n, d)| ==> |Basis(n, d)[q]| == n)
      && WellShaped(xs, ys, MakeKernels(choice, xs).value, Basis(n, d))
      && CoefficientsOf(xs, ys, MakeKernels(choice, xs).value, Basis(n, d), solve, T).Success?
      && var (W, L) := CoefficientsOf(xs, ys, MakeKernels(choice, xs).value, Basis(n, d), solve, T).value;
         && IsMatrix(L, |Basis(n, d)|, k)
         && m == RBFModel(
              RBFOutputSystem(MakeKernels(choice, xs).value, W, k, Count(sites)),
              PolySystem(OutputPolynomials(Basis(n, d), L, k), k),
              n, k, Count(sites), VecOutput(k, vectorOutput))
  {
    var xs, ys := AsVectors(sites), AsVectors(values);
    assert Validate(sites, values) == Success((xs, ys));
    var kernels := MakeKernels(choice, xs).value;
    var n, k, d := Width(xs), Width(ys), WorkingDegree(polyDeg, choice);
    BasisShape(n, d);
    CoefficientsSolveSystem(xs, ys, kernels, Basis(n, d), solve, T);
  }

  /** The sizes, output mode and polynomial basis of a fitted model. */
  lemma BuiltModelSizes(sites: Data, values: Data, choice: KernelChoice, polyDeg: int, vectorOutput: bool,
                        solve: Solver, T: Numerics)
    requires SoundSolver(solve)
    requires InterpolationModel(sites, values, choice, polyDeg, vectorOutput, solve, T).Success?
    ensures var m := InterpolationModel(sites, values, choice, polyDeg, vectorOutput, solve, T).value;
      var d := WorkingDegree(polyDeg, choice);
      && Count(sites) == Count(values) >= 1
      && Uniform(AsVectors(sites)) && Uniform(AsVectors(values))
      && m.numVars == Width(AsVectors(sites)) && m.numOutputs == Width(AsVectors(values))
      && m.numCenters == Count(sites)
      && m.vecOutput == VecOutput(m.numOutputs, vectorOutput)
      && (m.numVars >= 1 || d < 0)
      && (forall l :: 0 <= l < m.numOutputs ==> m.polySys.polys[l].basis == Basis(m.numVars, d))
  {
    var m := InterpolationModel(sites, values, choice, polyDeg, vectorOutput, solve, T).value;
    BuiltModelShape(sites, values, choice, polyDeg, vectorOutput, solve, T);
    var xs, ys := AsVectors(sites), AsVectors(values);
    var n, d := Width(xs), WorkingDegree(polyDeg, choice);
    var L := CoefficientsOf(xs, ys, MakeKernels(choice, xs).value, Basis(n, d), solve, T).value.1;
    assert m.polySys.polys == OutputPolynomials(Basis(n, d), L, Width(ys));
  }

  /**
   * Every output polynomial is over the same tail basis, which holds exactly
   * the monomials of degree at most poly_deg and below the CPD order.
   */
  lemma DegreeCapped(sites: Data, values: Data, choice: KernelChoice, polyDeg: int, vectorOutput: bool,
                     solve: Solver, T: Numerics)
    requires SoundSolver(solve)
    requires InterpolationModel(sites, values, choice, polyDeg, vectorOutput, solve, T).Success?
    ensures var m := InterpolationModel(sites, values, choice, polyDeg, vectorOutput, solve, T).value;
      var d := WorkingDegree(polyDeg, choice);
      var tail := Basis(m.numVars, d);
      && (forall l :: 0 <= l < m.numOutputs ==> m.polySys.polys[l].basis == tail)
      && (forall e :: e in tail <==> |e| == m.numVars && Sum(e) <= polyDeg && Sum(e) < ChoiceCpdOrder(choice))
  {
    var m := InterpolationModel(sites, values, choice, polyDeg, vectorOutput, solve, T).value;
    BuiltModelSizes(sites, values, choice, polyDeg, vectorOutput, solve, T);
    CappedBasis(m.numVars, polyDeg, choice);
  }

  /**
   * The basis of the working degree min(poly_deg, cpd_order − 1): exactly
   * the monomials of degree at most poly_deg and below the CPD order, and
   * binom(n + d, n) of them (none when the degree is negative).
   */
  lemma CappedBasis(n: nat, polyDeg: int, choice: KernelChoice)
    requires n >= 1 || WorkingDegree(polyDeg, choice) < 0
    ensures var d := WorkingDegree(polyDeg, choice);
      && (forall e :: e in Basis(n, d) <==> |e| == n && Sum(e) <= polyDeg && Sum(e) < ChoiceCpdOrder(choice))
      && |Basis(n, d)| == if d < 0 then 0 else Binom(n + d, n)
  {
    var d := WorkingDegree(polyDeg, choice);
    forall e
      ensures e in Basis(n, d) <==> |e| == n && Sum(e) <= polyDeg && Sum(e) < ChoiceCpdOrder(choice)
    {
      if d >= 0 {
        BasisMembership(n, d, e);
      }
    }
    BasisCount(n, d);
  }

  /** Gaussian and inverse multiquadric kernels are positive definite: the model has no polynomial tail. */
  lemma PositiveDefiniteKernelsHaveNoTail(sites: Data, values: Data, phi: RadialFunction, polyDeg: int,
                                          vectorOutput: bool, solve: Solver, T: Numerics)
    requires SoundSolver(solve) && Admissible(phi) && (phi.Gaussian? || phi.InverseMultiquadric?)
    requires InterpolationModel(sites, values, Single(phi), polyDeg, vectorOutput, solve, T).Success?
    ensures var m := InterpolationModel(sites, values, Single(phi), polyDeg, vectorOutput, solve, T).value;
      forall l :: 0 <= l < m.numOutputs ==> m.polySys.polys[l].basis == []
  {
    BuiltModelSizes(sites, values, Single(phi), polyDeg, vectorOutput, solve, T);
  }

  /**
   * The model interpolates: at every site its value is the site's value
   * vector, whenever the solve succeeds.
   */
  lemma ModelInterpolates(sites: Data, values: Data, choice: KernelChoice, polyDeg: int, vectorOutput: bool,
                          solve: Solver, T: Numerics)
    requires SoundSolver(solve)
    requires InterpolationModel(sites, values, choice, polyDeg, vectorOutput, solve, T).Success?
    ensures var m := InterpolationModel(sites, values, choice, polyDeg, vectorOutput, solve, T).value;
      forall i :: 0 <= i < Count(sites) ==> ModelValue(m, AsVectors(sites)[i], T) == AsVectors(values)[i]
  {
    var m := InterpolationModel(sites, values, choice, polyDeg, vectorOutput, solve, T).value;
    BuiltModelShape(sites, values, choice, polyDeg, vectorOutput, solve, T);
    var xs, ys := AsVectors(sites), AsVectors(values);
    var kernels := MakeKernels(choice, xs).value;
    var basis := Basis(Width(xs), WorkingDegree(polyDeg, choice));
    CoefficientsSolveSystem(xs, ys, kernels, basis, solve, T);
    var L := CoefficientsOf(xs, ys, kernels, basis, solve, T).value.1;
    SolvedModelInterpolates(m, xs, ys, kernels, basis, L, T);
  }

  /** A model assembled from a solution of the system takes the values at the sites. */
  lemma SolvedModelInterpolates(m: RBFModel, xs: Matrix, ys: Matrix, kernels: seq<ShiftedKernel>,
                                basis: seq<Exponents>, L: Matrix, T: Numerics)
    requires ValidModel(m) && WellShaped(xs, ys, kernels, basis)
    requires m.numVars == Width(xs) && m.numOutputs == Width(ys)
    requires m.rbfSys.kernels == kernels && IsMatrix(L, |basis|, Width(ys))
    requires m.polySys.polys == OutputPolynomials(basis, L, Width(ys))
    requires forall i, l :: 0 <= i < |xs| && 0 <= l < Width(ys) ==>
      Dot(KernelMatrix(kernels, xs, T)[i], Column(m.rbfSys.weights, l))
        + Dot(PolyMatrix(basis, xs)[i], Column(L, l)) == ys[i][l]
    ensures forall i :: 0 <= i < |xs| ==> ModelValue(m, xs[i], T) == ys[i]
  {
    var W, k := m.rbfSys.weights, Width(ys);
    var Phi, P := KernelMatrix(kernels, xs, T), PolyMatrix(basis, xs);
    forall i | 0 <= i < |xs|
      ensures ModelValue(m, xs[i], T) == ys[i]
    {
      assert KernelValues(kernels, xs[i], T) == Phi[i];
      assert MonomialVector(basis, xs[i]) == P[i];
      forall l | 0 <= l < k
        ensures ModelValue(m, xs[i], T)[l] == ys[i][l]
      {
        DotSymmetric(Column(W, l), Phi[i]);
        assert m.polySys.polys[l] == Polynomial(basis, Column(L, l));
      }
    }
  }

  /**
   * `m(sites[i]) == values[i]`: evaluating at a site as given returns its
   * value, as a vector unless a single output is asked for as a scalar.
   */
  lemma InterpolatesAtSites(sites: Data, values: Data, choice: KernelChoice, polyDeg: int, vectorOutput: bool,
                            solve: Solver, T: Numerics, i: nat)
    requires SoundSolver(solve)
    requires InterpolationModel(sites, values, choice, polyDeg, vectorOutput, solve, T).Success?
    requires i < Count(sites)
    ensures var m := InterpolationModel(sites, values, choice, polyDeg, vectorOutput, solve, T).value;
      var y := AsVectors(values)[i];
      Evaluate(m, SitePoint(sites, i), None, T) ==
        if !vectorOutput && |y| == 1 then Success(Scalar(y[0])) else Success(Vector(y))
  {
    var m := InterpolationModel(sites, values, choice, polyDeg, vectorOutput, solve, T).value;
    SiteFacts(sites, values, choice, polyDeg, vectorOutput, solve, T, i);
    EvaluateInMode(m, m.vecOutput, SitePoint(sites, i), AsVectors(values)[i], T);
    assert m.(vecOutput := m.vecOutput) == m;
  }

  /** At site i the built model is valid, has the site's and the value's dimensions, and its formula gives the value. */
  lemma SiteFacts(sites: Data, values: Data, choice: KernelChoice, polyDeg: int, vectorOutput: bool,
                  solve: Solver, T: Numerics, i: nat)
    requires SoundSolver(solve)
    requires InterpolationModel(sites, values, choice, polyDeg, vectorOutput, solve, T).Success?
    requires i < Count(sites)
    ensures var m := InterpolationModel(sites, values, choice, polyDeg, vectorOutput, solve, T).value;
      var x, y := PointVector(SitePoint(sites, i)), AsVectors(values)[i];
      && ValidModel(m) && |x| == m.numVars && |y| == m.numOutputs && ModelValue(m, x, T) == y
      && m.vecOutput == VecOutput(m.numOutputs, vectorOutput)
  {
    BuiltModelSizes(sites, values, choice, polyDeg, vectorOutput, solve, T);
    ModelInterpolates(sites, values, choice, polyDeg, vectorOutput, solve, T);
    assert PointVector(SitePoint(sites, i)) == AsVectors(sites)[i];
  }

  /** Evaluation without ℓ at a point where the model formula gives y, in either output mode. */
  lemma EvaluateInMode(m: RBFModel, vecOutput: bool, x: Point, y: seq<real>, T: Numerics)
    requires ValidModel(m) && |PointVector(x)| == m.numVars && ModelValue(m, PointVector(x), T) == y
    ensures Evaluate(m.(vecOutput := vecOutput), x, None, T) ==
      if vecOutput then Success(Vector(y))
      else if |y| == 0 then Failure(IndexOutOfBounds)
      else Success(Scalar(y[|y| - 1]))
  {
    var m' := m.(vecOutput := vecOutput);
    assert ModelValue(m', PointVector(x), T) == y;
    EvaluateIsModelValue(m', x, None, T);
  }

  /**
   * With the vector flag as written, a model with k ≥ 2 outputs evaluated at
   * a site returns only the last output's value: outputs 1 … k − 1 are lost.
   */
  lemma AsWrittenKeepsOnlyLastOutput(sites: Data, values: Data, choice: KernelChoice, polyDeg: int,
                                     vectorOutput: bool, solve: Solver, T: Numerics, i: nat)
    requires SoundSolver(solve)
    requires InterpolationModel(sites, values, choice, polyDeg, vectorOutput, solve, T).Success?
    requires i < Count(sites) && Width(AsVectors(values)) >= 2
    ensures var m := InterpolationModel(sites, values, choice, polyDeg, vectorOutput, solve, T).value;
      var k := m.numOutputs;
      var y := AsVectors(values)[i];
      Evaluate(m.(vecOutput := VecOutputAsWritten(k, vectorOutput)), SitePoint(sites, i), None, T)
        == Success(Scalar(y[k - 1]))
  {
    var m := InterpolationModel(sites, values, choice, polyDeg, vectorOutput, solve, T).value;
    SiteFacts(sites, values, choice, polyDeg, vectorOutput, solve, T, i);
    EvaluateInMode(m, VecOutputAsWritten(m.numOutputs, vectorOutput), SitePoint(sites, i), AsVectors(values)[i], T);
  }

  /** Giving every site the same radial function is the same as giving it once. */
  lemma PerSiteMatchesSingle(sites: Data, values: Data, phi: RadialFunction, polyDeg: int, vectorOutput: bool,
                             solve: Solver, T: Numerics)
    requires SoundSolver(solve)
    ensures var phis := seq(Count(sites), _ => phi);
      InterpolationModel(sites, values, PerSite(phis), polyDeg, vectorOutput, solve, T)
        == InterpolationModel(sites, values, Single(phi), polyDeg, vectorOutput, solve, T)
  {
    var phis := seq(Count(sites), _ => phi);
    if Validate(sites, values).Success? {
      assert MaxCpdOrder(phis) == CpdOrder(phi);
      assert WorkingDegree(polyDeg, PerSite(phis)) == WorkingDegree(polyDeg, Single(phi));
      var xs := AsVectors(sites);
      assert MakeKernels(PerSite(phis), xs).value == MakeKernels(Single(phi), xs).value;
    }
  }

  /**
   * The per-site kernel list as written never yields a model: make_kernels
   * fails on it whatever the count, and cpd_order would fail after it;
   * the corrected path succeeds in both steps when the count matches.
   */
  lemma PerSiteAsWrittenFails(phis: seq<RadialFunction>, centers: Matrix)
    ensures MakeKernelsAsWritten(PerSite(phis), centers).Failure?
    ensures |phis| == |centers| ==> MakeKernelsAsWritten(PerSite(phis), centers) == Failure(UndefinedVariable("φ"))
    ensures |phis| == |centers| ==> MakeKernels(PerSite(phis), centers).Success?
    ensures ChoiceCpdOrderAsWritten(PerSite(phis)).Failure?
    ensures forall j :: 0 <= j < |phis| ==> CpdOrder(phis[j]) <= ChoiceCpdOrder(PerSite(phis))
  {
  }

  // ---------------------------------------------------------------------------
  // The by-name constructor.

  /** constructor_args: nothing, one tuple for every site, or one tuple per site. */
  datatype ConstructorArgs = Defaults | Shared(args: seq<real>) | OnePerSite(argList: seq<seq<real>>)

  /** The radial function(s) the named constructor builds from constructor_args. */
  function KernelChoiceByName(name: KernelName, cargs: ConstructorArgs, numSites: nat): (r: Result<KernelChoice>)
    ensures cargs.Defaults? ==> r.Success? && r.value.Single?
    ensures r.Success? && r.value.Single? ==> Admissible(r.value.phi)
    ensures r.Success? && r.value.PerSite? ==>
      |r.value.phis| == numSites && forall j :: 0 <= j < numSites ==> Admissible(r.value.phis[j])
    ensures cargs.OnePerSite? && |cargs.argList| != numSites ==> r == Failure(KernelCountMismatch)
    ensures cargs.Defaults? ==> r == Success(Single(DefaultKernel(name)))
    ensures cargs.Shared? ==>
      && (r.Success? <==> NewKernel(name, cargs.args).Success?)
      && (r.Success? ==> r.value == Single(NewKernel(name, cargs.args).value))
      && (r.Failure? ==> r.error == NewKernel(name, cargs.args).error)
    ensures cargs.OnePerSite? && |cargs.argList| == numSites ==>
      && (r.Success? <==> forall j :: 0 <= j < numSites ==> NewKernel(name, cargs.argList[j]).Success?)
      && (r.Success? ==> r.value.PerSite?)
      && (r.Success? ==> forall j :: 0 <= j < numSites ==> NewKernel(name, cargs.argList[j]) == Success(r.value.phis[j]))
  {
    DefaultKernels(name);
    match cargs
    case Defaults => Success(Single(NewKernel(name, []).value))
    case Shared(args) =>
      (match NewKernel(name, args)
       case Failure(e) => Failure(e)
       case Success(phi) => Success(Single(phi)))
    case OnePerSite(argList) =>
      if |argList| != numSites then Failure(KernelCountMismatch)
      else
        match NewKernels(name, argList)
        case Failure(e) => Failure(e)
        case Success(phis) =>
          assert forall j :: 0 <= j < numSites ==> NewKernel(name, argList[j]) == Success(phis[j]);
          Success(PerSite(phis))
  }

  /**
   * RBFInterpolationModel(sites, values, radial_func, constructor_args,
   * poly_deg): the model and whether the unknown-name warning was issued.
   */
  function ModelByName(sites: Data, values: Data, name: string, cargs: ConstructorArgs, polyDeg: int,
                       vectorOutput: bool, solve: Solver, T: Numerics): (r: (Result<RBFModel>, bool))
    requires SoundSolver(solve)
    ensures r.1 <==> LowerCase(name) !in KernelTable()
    ensures var kernel := if LowerCase(name) in KernelTable() then KernelTable()[LowerCase(name)] else GaussianName;
      var choice := KernelChoiceByName(kernel, cargs, Count(sites));
      r.0 == if choice.Success? then InterpolationModel(sites, values, choice.value, polyDeg, vectorOutput, solve, T)
             else Failure(choice.error)
  {
    var (kernel, warned) := ResolveKernelName(name);
    match KernelChoiceByName(kernel, cargs, Count(sites))
    case Failure(e) => (Failure(e), warned)
    case Success(choice) => (InterpolationModel(sites, values, choice, polyDeg, vectorOutput, solve, T), warned)
  }

  /** An unknown name warns and builds the Gaussian model. */
  lemma UnknownNameFallsBack(sites: Data, values: Data, name: string, cargs: ConstructorArgs, polyDeg: int,
                             vectorOutput: bool, solve: Solver, T: Numerics)
    requires SoundSolver(solve) && LowerCase(name) !in KernelTable()
    ensures ModelByName(sites, values, name, cargs, polyDeg, vectorOutput, solve, T)
      == (ModelByName(sites, values, "gaussian", cargs, polyDeg, vectorOutput, solve, T).0, true)
  {
    assert LowerCase("gaussian") == "gaussian";
  }

  /**
   * With no constructor arguments a known name, in any spelling, builds the
   * model with its constructor's default kernel, e.g. Gaussian(1), without a
   * warning.
   */
  lemma DefaultArgumentsUseDefaultKernel(sites: Data, values: Data, name: string, polyDeg: int, vectorOutput: bool,
                                         solve: Solver, T: Numerics)
    requires SoundSolver(solve) && LowerCase(name) in KernelTable()
    ensures var kernel := DefaultKernel(KernelTable()[LowerCase(name)]);
      ModelByName(sites, values, name, Defaults, polyDeg, vectorOutput, solve, T)
        == (InterpolationModel(sites, values, Single(kernel), polyDeg, vectorOutput, solve, T), false)
  {
    var kernel := KernelTable()[LowerCase(name)];
    assert KernelChoiceByName(kernel, Defaults, Count(sites)) == Success(Single(DefaultKernel(kernel)));
  }
}

# RBFModels interpolation core in Dafny

This project models the core of RBFModels.jl, a Julia package for radial basis
function (RBF) interpolation. The code is read from the text embedded in the
package's generated documentation search index, `dev/search_index.js`. That
index is built from the literate source `src/RBFModels.jl`, and all of its
entries sit on line 2 of the file, so every citation below is that line.

Given N data sites xⁱ ∈ ℝⁿ and values yⁱ ∈ ℝᵏ, the package builds the model
r(x) = Σᵢ wᵢ φᵢ(‖x − xⁱ‖) + Σ_q λ_q p_q(x). The polynomial tail uses the
canonical monomial basis of degree at most min(poly_deg, cpd_order(φ) − 1).
The weights w and λ come from solving the augmented system
[Φ P; Pᵗ 0][w; λ] = [Y; 0].

The model covers the following:

* **Radial functions** (`kernels.dfy`, module `Kernels`):
  * the five radial functions, with the parameter checks of their constructors, in source order, together with their defaults and error values;
  * `cpd_order`;
  * the formulas φ(ρ);
  * the shifted kernel φ(‖x − c‖);
  * the name table and case folding of the by-name constructor.
* **Polynomial basis** (`basis.dfy`, module `PolynomialBasis`): `non_negative_solutions` and `canonical_basis`. Each is an imperative method with loops, proved equal to a recursive specification. The lemmas prove:
  * soundness and completeness;
  * ordering and distinctness;
  * the basis size binom(n + d, n).
* **The equation system** (`system.dfy`, module `InterpolationSystem`):
  * `_func_matrix`, which fills a 2-D buffer column by column;
  * the block matrix [Φ P; Pᵗ 0] and the right-hand side [Y; 0];
  * `coefficients`, which copies the values row by row into a buffer, solves, and splits the solution into w and λ. It is proved to satisfy the interpolation equations and the side condition Pᵗw = 0.
* **The model** (`model.dfy`, module `RBFModels`):
  * `RBFInterpolationModel`: the data checks in source order, the conversion of scalars to vectors, `make_kernels`, the degree cap, and the loop that builds one output polynomial per column of λ;
  * evaluation at a point, for all outputs or for output ℓ, returning a vector or a scalar;
  * the by-name constructor, including its unknown-name fallback to the Gaussian and its three forms of constructor arguments;
  * the interpolation property m(xⁱ) = yⁱ.
* **Support modules**: `Combinatorics` (binomial coefficients), `Matrices` (dense matrices as row sequences, and the contract of the external solve), and `Outcomes` (the error, `Result` and `Option` types).

The source raises exceptions: `AssertionError`, `MethodError`, `UndefVarError`,
stack overflow and `SingularException`. The model returns these as
`Failure(...)` values of `Outcomes.Error` instead.

Three things are parameters of the model rather than code in it:

* The transcendental functions exp, log, real powers and sqrt form a `Numerics` record of function values.
* The dense solve `A \ B` is a `Solver`. A solver is assumed sound: any matrix it returns solves the system.
* The output index ℓ counts from 0.

## Model

| member | source | states |
|---|---|---|
| Combinatorics.BinomLinear | dev/search_index.js:2 | binom(n+1, n) = n + 1, the size of the linear basis |
| Combinatorics.BinomQuadratic | dev/search_index.js:2 | 2·binom(n+2, n) = (n+2)(n+1), the size of the quadratic basis |
| PolynomialBasis.NonNegativeSolutions | dev/search_index.js:2 | the nested push loops of non_negative_solutions produce exactly the list `Solutions(d, n)` |
| PolynomialBasis.CanonicalBasis | dev/search_index.js:2 | the loop over degrees 0..d appends the solutions of each degree; the result is `Basis(n, d)`, and empty for d < 0 |
| PolynomialBasis.SolutionsSound | dev/search_index.js:2 | every returned vector has length n and non-negative entries summing to d |
| PolynomialBasis.SolutionsComplete | dev/search_index.js:2 | every length-n non-negative vector summing to d is returned |
| PolynomialBasis.SolutionsDescending | dev/search_index.js:2 | the solutions come in strictly decreasing lexicographic order, the first entry d − i falling as i rises |
| PolynomialBasis.SolutionsDistinct | dev/search_index.js:2 | no solution is returned twice |
| PolynomialBasis.FirstCoordinatesNonIncreasing | dev/search_index.js:2 | earlier solutions have a first exponent at least as large as later ones |
| PolynomialBasis.SolutionsCount | dev/search_index.js:2 | there are binom(d+n−1, n−1) solutions |
| PolynomialBasis.BasisMembership | dev/search_index.js:2 | s is in canonical_basis(n, d) iff it has n entries of total degree at most d |
| PolynomialBasis.BasisCount | dev/search_index.js:2 | canonical_basis(n, d) has binom(n+d, n) monomials, and none for d < 0 |
| PolynomialBasis.LinearAndQuadraticCounts | dev/search_index.js:2 | the linear basis has n + 1 monomials, and twice the quadratic basis size is (n+2)(n+1) |
| PolynomialBasis.BasisOrdered | dev/search_index.js:2 | the basis is graded (lower total degree first) and has no duplicates |
| Kernels.RemZeroIffMultiple | dev/search_index.js:2 | Julia's `x % m == 0` with truncating remainder holds iff x/m is an integer |
| Kernels.NewGaussian | dev/search_index.js:2 | `Gaussian(α)` succeeds iff α > 0, otherwise fails with the shape assertion |
| Kernels.NewMultiquadric | dev/search_index.js:2 | `Multiquadric(α, β)` succeeds iff α > 0, β is not an integer and β > 0; the checks fail in that order |
| Kernels.NewInverseMultiquadric | dev/search_index.js:2 | `InverseMultiquadric(α, β)` succeeds iff α > 0 and β > 0; the checks fail in that order |
| Kernels.NewCubic | dev/search_index.js:2 | `Cubic(β)` succeeds iff β > 0 and β is not an even integer; the checks fail in that order |
| Kernels.NewThinPlateSpline | dev/search_index.js:2 | `ThinPlateSpline(k)` succeeds iff k is a positive integer, and stores Int(k) |
| Kernels.CpdOrder | dev/search_index.js:2 | the cpd_order table: 0 for Gaussian and inverse multiquadric whatever their parameters, ⌈β⌉ for multiquadric, ⌈β/2⌉ for cubic and k + 1 for the thin plate spline; for admissible kernels it is 0 exactly for the first two |
| Kernels.Phi | dev/search_index.js:2 | the call methods `(φ::…)(ρ)`: the multiquadric, cubic and thin plate spline carry the sign factor (−1)^cpd_order, and the thin plate spline uses its own order k |
| Kernels.ThinPlateSplineAsWrittenFails | dev/search_index.js:2 | as written, evaluating any thin plate spline fails on the unbound `k` (follows from the definition) |
| Kernels.ThinPlateSplineSign | dev/search_index.js:2 | the corrected φ(ρ) = (−1)^(k+1) ρ^(2k) log ρ has the sign (−1)^cpd_order wherever log ρ > 0 |
| Kernels.PhiAsWritten | dev/search_index.js:2 | as written, evaluation fails (on the unbound `k`) exactly for the thin plate spline, and otherwise gives the corrected φ(ρ) |
| Kernels.PhiAsWrittenElsewhere | dev/search_index.js:2 | the other four radial functions evaluate as written (follows from the definition) |
| Kernels.ResolveKernelName | dev/search_index.js:2 | a lower-cased name not in the table warns and selects the Gaussian; a known name selects its table entry without warning |
| Kernels.ResolveIgnoresCase | dev/search_index.js:2 | name lookup is insensitive to letter case |
| Kernels.ResolveTableNames | dev/search_index.js:2 | each of the five table entries, in one sample spelling each, selects the constructor it names without warning; other spellings follow from ResolveIgnoresCase |
| Kernels.KernelTable | dev/search_index.js:2 | SymbolToRadialConstructor: every key is lower case, so each entry can be reached after `lowercase`, and every one of the five constructors has a key |
| Kernels.NewKernel | dev/search_index.js:2 | `constructor(args...)`: more arguments than the constructor has parameters fail with TooManyArguments; otherwise the result is that name's constructor applied to the arguments padded with its defaults; every success is admissible |
| Kernels.DefaultKernels | dev/search_index.js:2 | each constructor called without arguments builds its documented default: Gaussian(1), Multiquadric(1, 1/2), InverseMultiquadric(1, 1/2), Cubic(3), ThinPlateSpline(2) (follows from the definitions and contracts it uses) |
| Kernels.NewKernels | dev/search_index.js:2 | the per-site list has one kernel per argument tuple and fails iff some tuple fails |
| Kernels.DistanceSymmetric | dev/search_index.js:2 | norm2(x .− c) = norm2(c .− x), so `_distances` and the shifted kernel measure the same distance |
| Kernels.Norm2 | dev/search_index.js:2 | norm2 takes the square root of a non-negative number, and of the zero vector it is sqrt(0) |
| Kernels.SumOfSquaresNonNegative | dev/search_index.js:2 | `sum(v.^2)` is never negative |
| Kernels.SumOfSquaresZero | dev/search_index.js:2 | `sum(v.^2)` of the zero vector is 0 |
| Kernels.EvalShifted | dev/search_index.js:2 | the ShiftedKernel call φ(norm2(x .− c)) equals φ(norm2(c .− x)), and at its own centre it is φ(sqrt(0)) |
| InterpolationSystem.FuncMatrix | dev/search_index.js:2 | the column-by-column buffer fill yields the N×M matrix whose entry [i][j] is funcs[j](args[i]) |
| InterpolationSystem.SystemMatrix | dev/search_index.js:2 | A is (N+Q)×(N+Q) with blocks Φ, P, Pᵗ and zeros |
| InterpolationSystem.Rhs | dev/search_index.js:2 | the right-hand side is the values followed by Q zero rows |
| InterpolationSystem.CoefficientsOf | dev/search_index.js:2 | the coefficients fail exactly when the solve of `A X = [F; 0]` does, and then with SingularSystem |
| InterpolationSystem.Coefficients | dev/search_index.js:2 | the buffered construction and the solve give exactly `CoefficientsOf`; a failed solve gives SingularSystem |
| InterpolationSystem.CoefficientsSolveSystem | dev/search_index.js:2 | w is N×k and λ is Q×k; Φw + Pλ = Y row by row; Pᵗw = 0 |
| InterpolationSystem.SystemMatrixSymmetric | dev/search_index.js:2 | with one radial function at every site, the system matrix is symmetric (follows from the definitions and contracts it uses) |
| RBFModels.AsVectors | dev/search_index.js:2 | convert_list_of_vecs turns each number x into [x], so scalar data is uniform of dimension 1 |
| RBFModels.Validate | dev/search_index.js:2 | the four data assertions, in source order, each with its own error; success returns the data as vectors |
| RBFModels.MakeKernels | dev/search_index.js:2 | kernel j is centred at site j with the shared or the j-th function; the per-site list must match the number of sites |
| RBFModels.MakeKernelsAsWritten | dev/search_index.js:2 | as written, the per-site make_kernels always fails |
| RBFModels.ChoiceCpdOrder | dev/search_index.js:2 | the order of one function, or for a per-site list an order attained by some function and bounding all of them |
| RBFModels.ChoiceCpdOrderAsWritten | dev/search_index.js:2 | as written, cpd_order has no method for a list of functions |
| RBFModels.WorkingDegree | dev/search_index.js:2 | `min(poly_deg, cpd_order(φ) − 1)`: at most poly_deg, below the CPD order, and equal to one of the two |
| RBFModels.BuildPolynomials | dev/search_index.js:2 | the eachcol loop pushes, for each output ℓ, the polynomial over the basis with column ℓ of λ as coefficients |
| RBFModels.VecOutput | dev/search_index.js:2 | vector output is the user's choice for one output and forced for several |
| RBFModels.VecOutputAsWritten | dev/search_index.js:2 | as written, several outputs force scalar output |
| RBFModels.InterpolationModel | dev/search_index.js:2 | data errors and a per-site count mismatch fail first; once the data and kernels are built, the result is `Fit` of them with the capped degree; a success is a well-shaped model |
| RBFModels.Fit | dev/search_index.js:2 | zero-dimensional sites with a polynomial tail overflow the stack in the basis recursion; otherwise the fit succeeds exactly when `coefficients` does, and its only other failure is the singular system; a success is a well-shaped model |
| RBFModels.BuildOutcome | dev/search_index.js:2 | the constructor succeeds exactly when the data checks pass, the kernels are built, the basis recursion stops and the solve succeeds; after the kernels are built it fails only with StackOverflow (zero-dimensional sites with a tail) or SingularSystem (follows from the contracts of InterpolationModel and Fit) |
| RBFModels.RBFInterpolationModel | dev/search_index.js:2 | the constructor with its loops computes exactly `InterpolationModel` |
| RBFModels.EvalRbfsAtRhoAsWritten | dev/search_index.js:2 | as written, `vec(kv'W[:, ℓ])` has no method when ℓ is given |
| RBFModels.Distances | dev/search_index.js:2 | `_distances`: one distance per kernel, norm2(x .− c_j), at which φ_j gives the shifted kernel's value at x |
| RBFModels.KernelVector | dev/search_index.js:2 | `_kernel_vector`: one value per distance (length only; KernelVectorAtDistances gives the values) |
| RBFModels.KernelVectorAtDistances | dev/search_index.js:2 | `_kernel_vector` at the `_distances` of x is the vector of shifted kernels' values at x (follows from the definitions and contracts it uses) |
| RBFModels.EvalRbfsAtRho | dev/search_index.js:2 | `_eval_rbfs_at_ρ`: k entries without ℓ and one with ℓ (length only; ColumnSelection and RbfPartIsWeightedSum give the values) |
| RBFModels.EvalRbfSys | dev/search_index.js:2 | the RBFOutputSystem call: k entries without ℓ and one with ℓ (length only; RbfPartIsWeightedSum gives the values) |
| RBFModels.EvalPolys | dev/search_index.js:2 | `_eval_polys`: k entries without ℓ and one with ℓ (length only; EvaluateIsModelValue relates them to the model formula) |
| RBFModels.Evaluate | dev/search_index.js:2 | a point of the wrong dimension or an out-of-range ℓ fails; a result is a vector exactly when V holds, with k entries or one entry |
| RBFModels.RbfPartIsWeightedSum | dev/search_index.js:2 | `vec(kv'W)` is, output by output, Σⱼ wⱼℓ φⱼ(‖x − cⱼ‖) |
| RBFModels.EvaluateIsModelValue | dev/search_index.js:2 | evaluation equals the model formula: all outputs as a vector when V holds, otherwise only the last; with ℓ, output ℓ alone |
| RBFModels.EvaluateAll | dev/search_index.js:2 | without ℓ, evaluation is the whole model formula as a vector when V holds, otherwise its last entry |
| RBFModels.EvaluateOne | dev/search_index.js:2 | with ℓ, evaluation is entry ℓ of the model formula, as a one-element vector when V holds |
| RBFModels.NumberIsOneElementVector | dev/search_index.js:2 | a number is evaluated as the one-element vector holding it; for n ≠ 1 it is a dimension error (follows from the definition) |
| RBFModels.ColumnSelection | dev/search_index.js:2 | selecting column ℓ before the product gives entry ℓ of the full product (follows from the definition) |
| RBFModels.OutputSelectionAsWrittenFails | dev/search_index.js:2 | with ℓ given, the as-written kernel part fails, while the intended result is entry ℓ of the full output (follows from the definitions) |
| RBFModels.BuiltModelShape | dev/search_index.js:2 | a successful construction is, step by step, valid data, kernels at the sites, the capped basis and a solved system |
| RBFModels.DegreeCapped | dev/search_index.js:2 | every output polynomial of a built model is over one tail basis, which holds exactly the monomials of degree at most poly_deg and below cpd_order |
| RBFModels.CappedBasis | dev/search_index.js:2 | the basis of degree min(poly_deg, cpd_order − 1) holds exactly those monomials, binom(n+d, n) of them for d ≥ 0 and none otherwise |
| RBFModels.PositiveDefiniteKernelsHaveNoTail | dev/search_index.js:2 | Gaussian and inverse multiquadric models have no polynomial tail |
| RBFModels.ModelInterpolates | dev/search_index.js:2 | at every site the model value equals that site's value vector |
| RBFModels.InterpolatesAtSites | dev/search_index.js:2 | m(sites[i]) == values[i], as a scalar when one output is asked for as a scalar and as a vector otherwise |
| RBFModels.AsWrittenKeepsOnlyLastOutput | dev/search_index.js:2 | with the flag as written, a model with k ≥ 2 outputs returns only the last output at a site |
| RBFModels.PerSiteMatchesSingle | dev/search_index.js:2 | one function repeated per site builds the same model as that function given once |
| RBFModels.PerSiteAsWrittenFails | dev/search_index.js:2 | the as-written per-site path fails in make_kernels and in cpd_order, while the corrected one succeeds when the count matches (follows from the definitions) |
| RBFModels.KernelChoiceByName | dev/search_index.js:2 | constructor_args: nothing builds the default kernel; a tuple builds `constructor(args...)` and fails with its error; a vector must have one tuple per site, and succeeds iff every tuple does, kernel j being `constructor(argList[j]...)`; every kernel built is admissible |
| RBFModels.ModelByName | dev/search_index.js:2 | the warning flag is raised exactly for names not in the table; the model is the one built from the choice that the table entry (or the Gaussian) and constructor_args give, and a failing choice propagates its error |
| RBFModels.UnknownNameFallsBack | dev/search_index.js:2 | an unknown name warns and builds the Gaussian model (follows from the definitions) |
| RBFModels.DefaultArgumentsUseDefaultKernel | dev/search_index.js:2 | without constructor_args, any spelling of a known name builds, without warning, the model with that constructor's default kernel: Gaussian(1), Multiquadric(1, 1/2), InverseMultiquadric(1, 1/2), Cubic(3) or ThinPlateSpline(2) (follows from the definitions and contracts it uses) |

## Left out

- Floating point: reals are exact. Overflow, rounding and NaN are not modelled, including the thin plate spline's 0·log 0 at ρ = 0.
- exp, log, real powers and sqrt are parameters of the model, so a property that depends on their values is not stated.
- The dense solve `A \ B` is a parameter with a soundness contract. LU factorisation and its pivoting are not modelled.
- Static arrays (`static_arrays`, `SVector`, `SMatrix`) only change the container, not the values, and are not modelled.
- The promotion of element types is not modelled: `promote_type(TypeS, TypeV, Float16)` gives `Float16` when sites and values are integers. The source then computes in half precision, so 4097 becomes 4096 and magnitudes of 65520 and above become Inf. The model computes with exact reals; see the floating-point line above.
- The Zygote `Buffer` is modelled as a plain 2-D array.
- The memoisation of `canonical_basis` is left out; it caches results and does not change them.
- The thread-safe dictionary behind that memoisation is left out too.
- DynamicPolynomials and StaticPolynomials are external packages. A monomial is its exponent vector, and a polynomial is its basis and coefficients, evaluated as Σ λ_q x^e_q.
- The `@warn` message is modelled as a returned flag. Logging is not modelled.
- `lowercase` is modelled on ASCII letters only.
- Julia's type dispatch on element types is not modelled. This includes `Vector{RadialFunction}` against `Vector{Gaussian}`.
- Default arguments (poly_deg = 1, vector_output = true) are not modelled. Callers pass every argument.
- The output index ℓ counts from 0 instead of 1.
- For zero-dimensional sites with a non-negative degree, the basis recursion never stops. The model reports this as `StackOverflow` instead of recursing.
- RBFModels.Evaluate treats a point whose dimension differs from the sites' as an error. Julia's broadcasting of a one-element point against longer centres is not modelled, nor what the external polynomial package then does.
- Kernels.Norm2: states that `sum(v.^2)` is non-negative and is 0 at the zero vector, but not that it is 0 only there. The solver's nonlinear real arithmetic does not derive `x * x != 0` from `x != 0` in the proof by induction.
- The documentation's later sections on derivatives (gradients and Jacobians) are not part of this model.

## Findings

| source | as written | input that shows it | evidently intended | confidence | as-written member | corrected member |
|---|---|---|---|---|---|---|
| dev/search_index.js:2 | the thin plate spline's call method computes `(-1)^(k+1) * ρ^(2*k) * log(ρ)`, where `k` is not bound | `ThinPlateSpline()(2.0)` | use the field `φ.k` | high, not executed | Kernels.PhiAsWritten | Kernels.Phi |
| dev/search_index.js:2 | the per-site `make_kernels` reads `φ[i]`, but its parameter is `φ_arr`. The by-name constructor also passes a concretely typed `Vector{Gaussian}`, which no method accepts | `RBFInterpolationModel(sites, values, RadialFunction[Gaussian(), Gaussian()])` with two sites | `ShiftedKernel(φ_arr[i], sites[i])` | high, not executed | RBFModels.MakeKernelsAsWritten | RBFModels.MakeKernels |
| dev/search_index.js:2 | `cpd_order(φ)` is called with the per-site vector, but has methods for single radial functions only | the call above, once `make_kernels` is fixed | the largest order among the functions | high that it fails, low on the intended order; not executed | RBFModels.ChoiceCpdOrderAsWritten | RBFModels.ChoiceCpdOrder |
| dev/search_index.js:2 | `vec_output = num_outputs == 1 ? vector_output : false`. Models with several outputs then return only the last one (`[end]`) | values `[[1.0, 2.0], [3.0, 4.0]]` evaluated at the first site gives `2.0`, not `[1.0, 2.0]` | `true` for several outputs, as the docstring says vector_output is then ignored | medium, not executed | RBFModels.VecOutputAsWritten | RBFModels.VecOutput |
| dev/search_index.js:2 | with ℓ given, `_eval_rbfs_at_ρ` takes `W = weights[:, ℓ]`. Then `kv'W` is a number, and `vec` of a number has no method | `m(x, 1)` on any model | the one-element vector `[kv'W]` | medium, not executed | RBFModels.EvalRbfsAtRhoAsWritten | RBFModels.EvalRbfsAtRho |

The rest of the model uses the corrected members throughout. ModelInterpolates and
InterpolatesAtSites prove the intended interpolation property. ThinPlateSplineSign
proves the corrected spline's sign. AsWrittenKeepsOnlyLastOutput proves what the
as-written output flag returns at a site. ThinPlateSplineAsWrittenFails,
PerSiteAsWrittenFails and OutputSelectionAsWrittenFails follow directly from the
as-written definitions: they record the discrepancies rather than prove anything
beyond them.

# optimization-rust, modelled in Dafny

This project models the core of `optimization`, a small Rust library for
first-order minimisation:

- the three line searches (fixed step, exact grid search, Armijo backtracking);
- the full-batch gradient descent driver and its validating builder;
- the summation objective;
- the flat-gradient ("saddle point") test;
- forward-difference numerical differentiation;
- the configuration of stochastic gradient descent;
- the Sphere and Rosenbrock test problems.

Numbers are Dafny `real`, standing in for `f64`. The properties proved are
about which points are evaluated, which one is kept and when loops stop.
None of them depends on rounding.

Modules follow the source files:

| module | file | source |
|---|---|---|
| `Outcomes` | `outcomes.dfy` | `Option`, a `Checked` result for constructors and setters that may panic, and an `Outcome` for runs that may panic or exhaust their fuel |
| `Vectors` | `vectors.dfy` | `zip`/`map`/`sum` arithmetic on positions, plus integer powers |
| `Utils` | `utils.dfy` | `src/utils.rs` |
| `Types` | `types.dfy` | `src/types.rs` |
| `LineSearches` | `line_search.dfy` | `src/line_search.rs` |
| `Gd` | `gd.dfy` | `src/gd.rs` |
| `Numeric` | `numeric.dfy` | `src/numeric.rs` |
| `Sgd` | `sgd.dfy` | `src/sgd.rs` |
| `Problems` | `problems.dfy` | `src/problems.rs` |

Modelling choices:

- **Panics.** An `assert!` in a constructor or setter, and Armijo's
  descent-direction assertion, are modelled as an explicit outcome (`Panic` /
  `Panicked`). Each validation can then be stated as an if-and-only-if. The
  assertion that a test problem is evaluated at a legal position is a
  precondition of `Value` and `Gradient` instead: it guards against a
  programming error, not a runtime condition.
- **Termination.** The Armijo loop and the uncapped gradient descent loop
  need not terminate for an arbitrary objective. Both take a `fuel` bound and
  report `OutOfFuel` when it runs out. The exact line search needs no fuel:
  its step width grows geometrically, so the model proves that it reaches the
  stop value after a bounded number of steps (Bernoulli's inequality).
- **State.** `GradientDescent` is built by value (`mut self` in, `self`
  out), so it is a datatype whose setters return an updated copy.
  `StochasticGradientDescent` is changed through `&mut self`, so it is a
  class whose setters modify its fields. The summation gradient accumulates
  into an array. The numerical gradient perturbs and restores an array
  scratch buffer, as the source does.
- **Square root.** `sqrt` is a parameter of type `SquareRoot`: any function
  that is positive on positive arguments.
- **Exact search: code and doc disagree.** The doc comment of
  `ExactLineSearch` (`src/line_search.rs:54-57`) says step widths up to and
  including the stop value are tried. The loop stops as soon as the step
  width is `>= stop` (`src/line_search.rs:98-100`), so a step width equal to
  the stop value is never tried. The model follows the code: the tried step
  widths are exactly the `start · factorᵏ` that are `< stop`.
- **Rosenbrock minimum: doc and code disagree.** The doc comment
  (`src/problems.rs:140-142`) calls `f(a, a²) = 0` the global minimum without
  a condition, but `Rosenbrock::new` accepts any `b` (`src/problems.rs:152-157`).
  For a negative `b` the claim is false: with `a = 1, b = -1`,
  `f(0, 2) = 1 - 4 = -3` (`Problems.RosenbrockNegativeB`). `Problems.RosenbrockGlobalMinimum` therefore
  requires `b >= 0`, the case in which the documented claim holds.
- **API revisions.** The files come from different API revisions
  (`FixedStepWidth` versus `NoLineSearch`, `Solution{x, y}` versus
  `Solution::new`). The model uses one `Solution(position, value)` and the
  name `NoLineSearch` throughout.

## Model

| member | source | states |
|---|---|---|
| Utils.IsSaddlePoint | src/utils.rs:7-9 | the flat-gradient test, checked component by component: the first component within the tolerance and the rest flat |
| Utils.SaddlePointIff | src/utils.rs:7-9 | the flat-gradient test holds iff every component has absolute value at most the tolerance |
| Utils.EmptyIsFlat | src/utils.rs:8 | an empty gradient is always flat |
| Utils.SteepComponent | src/utils.rs:43-44 | one component above the tolerance, positive or negative, makes the test fail |
| Utils.BoundaryIsFlat | src/utils.rs:41-42 | the bound is inclusive: components equal to plus or minus the tolerance are flat |
| Utils.Monotone | src/utils.rs:8 | flat at one tolerance implies flat at every larger tolerance |
| Utils.NegationInvariant | src/utils.rs:8 | negating every component does not change the verdict |
| Utils.UnitTestCases | src/utils.rs:40-45 | the four cases of the unit test have the expected verdicts |
| Types.Differentiable.Probe | src/types.rs:28-30 | `probe` returns exactly the value and the gradient at the same position |
| Types.Summation.Terms | src/types.rs:52-61 | `terms()` returns exactly the terms the summation was built from |
| Types.Summation.Value | src/types.rs:65-73 | the accumulating loop computes the sum of the term values (0.0 without terms) |
| Types.Summation.Gradient | src/types.rs:77-88 | the in-place accumulation into a zero buffer of the position's length computes the summed gradient |
| Types.SumGradients | src/types.rs:78 | the summed gradient has one component per coordinate of the position |
| Types.SumGradientsComponents | src/types.rs:81-85 | component j of the summed gradient is the sum of the terms' j-th components; a shorter term gradient contributes nothing |
| Types.NoTerms | src/types.rs:66-72 | without terms the value is 0.0 and the gradient is the zero vector |
| Types.SumValuesAppend | src/types.rs:42-43 | the value of a concatenation of term lists is the sum of the two values |
| Types.ComponentSumAppend | src/types.rs:81-85 | the j-th component sum is additive over concatenated term lists |
| Types.SumGradientsAppend | src/types.rs:42-43 | the gradient of a concatenation of term lists is the component-wise sum of the two gradients |
| Types.PartialValue | src/sgd.rs:69 | the sum of the values of the terms at the listed indices, repeated indices counted repeatedly |
| Types.PartialValueAppend | src/sgd.rs:69 | the partial value over concatenated index lists is the sum of the two partial values |
| Types.PartialValueOverAllTerms | src/sgd.rs:67-69 | the partial value over the indices 0..n is the value of the first n terms |
| LineSearches.NoLineSearch.Search | src/line_search.rs:34-40 | the result has the common length of position and direction, and component i is `x_i + γ·d_i` |
| LineSearches.NewNoLineSearch | src/line_search.rs:23-30 | construction succeeds iff the step width is positive |
| LineSearches.FixedIgnoresObjective | src/line_search.rs:34-40 | the fixed-step result does not depend on the objective |
| LineSearches.ExactLineSearch.StepBound | src/line_search.rs:85-101 | a positive index bound exists for the growing step widths |
| LineSearches.ExactLineSearch.StepBoundReached | src/line_search.rs:96-100 | the step width at the bound has reached the stop value, so the loop terminates |
| LineSearches.ExactLineSearch.CandidateNext | src/line_search.rs:96 | each iteration multiplies the step width by the increase factor |
| LineSearches.ExactLineSearch.CandidateIncreasing | src/line_search.rs:96 | step widths strictly increase with their index |
| LineSearches.ExactLineSearch.CountFromSpec | src/line_search.rs:98-100 | the search for the first step width at or above stop lands within the bound and skips only step widths below stop |
| LineSearches.ExactLineSearch.TriedCountSpec | src/line_search.rs:83-101 | the loop tries at least one and finitely many step widths: exactly the indices whose step width is below stop |
| LineSearches.ExactLineSearch.BestOfSpec | src/line_search.rs:80-94 | the kept point is the start or one tried candidate; it is no worse than the start or any tried candidate; a later candidate replaces it only when strictly better, so ties keep the earlier point |
| LineSearches.ExactLineSearch.Search | src/line_search.rs:77-104 | the loop returns the best point over the tried step widths, as `Chosen` defines it |
| LineSearches.NewExactLineSearch | src/line_search.rs:58-73 | construction succeeds iff `0 < start < stop` and `factor > 1` |
| LineSearches.ExactSearchNeverWorse | src/line_search.rs:89-94 | the exact search result is no worse than the start and than `x + γ·d` for every tried γ, and is the start or one of those points |
| LineSearches.ArmijoLineSearch.Search | src/line_search.rs:139-164 | the loop's outcome is the specification `Accepted`: a panic when `t <= 0`, else the first step width passing the Armijo test within the fuel |
| LineSearches.ArmijoLineSearch.FirstAcceptedSpec | src/line_search.rs:152-163 | the index found passes the Armijo test and no earlier index does; when none is found, none in the range passes |
| LineSearches.ArmijoLineSearch.StepWidthDecreasing | src/line_search.rs:162 | step widths stay positive and strictly decrease with their index |
| LineSearches.NewArmijoLineSearch | src/line_search.rs:121-135 | construction succeeds iff control and decay lie in (0, 1) and the initial step width is positive |
| LineSearches.ArmijoSearchSpec | src/line_search.rs:145-163 | Armijo panics iff `d` is not a descent direction; a returned point is `x + γₖ·d` for an accepted k whose step width is the largest accepted one; running out of fuel means no index below the fuel passes |
| LineSearches.ArmijoFuelIrrelevant | src/line_search.rs:152-163 | once the search returns, more fuel gives the same result |
| LineSearches.FirstAcceptedMonotone | src/line_search.rs:152-163 | more fuel cannot change which index is found first |
| LineSearches.LineSearch.Search | src/line_search.rs:7-12 | dispatching to the chosen strategy yields that strategy's outcome |
| LineSearches.SteepestSlopePositive | src/line_search.rs:145-148 | along the negated gradient the Armijo threshold `t` is positive whenever a gradient component is not zero |
| LineSearches.SteepestDescentNeverPanics | src/gd.rs:82-87 | searching along the negated gradient of a non-flat point never trips Armijo's descent assertion |
| Gd.GradientDescent.WithLineSearch | src/gd.rs:30-36 | swaps the strategy and keeps tolerance and cap |
| Gd.GradientDescent.WithGradientTolerance | src/gd.rs:40-45 | succeeds iff the tolerance is positive, and then changes only the tolerance |
| Gd.GradientDescent.WithMaxIterations | src/gd.rs:49-54 | succeeds iff the cap is `None` or positive, and then changes only the cap |
| Gd.Minimize | src/gd.rs:61-102 | the visited positions follow the algorithm (each step searches along the negated non-flat gradient); the run never panics; with a cap n at most n searches run; a returned value is f at the returned position, which is flat or reached exactly at the cap; a flat start is returned unchanged with no search |
| Gd.New | src/gd.rs:19-25 | the default is Armijo(0.5, 1.0, 0.5), tolerance 1e-4 and no cap, and it is valid |
| Problems.AllInsideIff | src/problems.rs:40-42 | the `zip`/`all` legality test holds iff every coordinate that has an interval lies strictly inside it |
| Problems.Problem.Dimensions | src/problems.rs:125 | the Sphere reports its configured number of dimensions, Rosenbrock always 2 (line 162) |
| Problems.Problem.IsLegalPosition | src/problems.rs:38-43 | legal iff the length equals `dimensions()` and every zipped coordinate lies strictly inside its interval |
| Problems.Problem.Value | src/problems.rs:130 | on legal positions, Σ xᵢ² for the Sphere and (a−x)² + b·(y−x²)² for Rosenbrock (line 167) |
| Problems.Problem.Domain | src/problems.rs:126 | one interval per dimension, each unbounded on both sides |
| Problems.Problem.Minimum | src/problems.rs:127-128 | the reported minimum position has one coordinate per dimension |
| Problems.Problem.Gradient | src/problems.rs:131 | the gradient has the position's length |
| Problems.NewSphere | src/problems.rs:114-120 | construction succeeds iff there is at least one dimension, and then builds the Sphere of exactly that many dimensions, with the origin as reported minimum |
| Problems.NewRosenbrock | src/problems.rs:152-157 | any `a` and `b`; builds the Rosenbrock problem storing exactly `a` and `b`; two dimensions; reported minimum 0 at `(a, a²)` |
| Problems.DefaultSphere | src/problems.rs:124 | the default is the successful `Sphere::new(2)` |
| Problems.DefaultRosenbrock | src/problems.rs:161 | the default is `Rosenbrock::new(1, 100)` |
| Problems.LegalIff | src/problems.rs:38-43 | a position is legal iff it has `dimensions()` coordinates, each strictly inside its interval |
| Problems.LegalIffLength | src/problems.rs:163 | with unbounded domains, legal iff of the right length |
| Problems.MinimumAttained | src/problems.rs:164-167 | the reported minimum position is legal and the value there is the reported minimum value |
| Problems.OriginSumSquares | src/problems.rs:127-130 | the Sphere value at the origin is 0 |
| Problems.GradientVanishesAtMinimum | src/problems.rs:168-169 | the gradient is the zero vector at the reported minimum |
| Problems.SphereGlobalMinimum | src/problems.rs:105-107 | every Sphere value is at least the reported minimum, with equality exactly at the origin |
| Problems.SphereGradientExpansion | src/problems.rs:130-131 | moving coordinate i by h changes the Sphere value by `h·g_i + h²`, so `g_i` is the derivative |
| Problems.SphereFlatOnlyAtMinimum | src/problems.rs:131 | the Sphere gradient is exactly flat only at the reported minimum |
| Problems.RosenbrockGlobalMinimum | src/problems.rs:140-142 | for `b >= 0` no value lies below the reported minimum |
| Problems.RosenbrockNegativeB | src/problems.rs:140-142 | for `b = -1` the value at `(0, 2)` is -3, below the reported minimum, so the documented global minimum needs `b >= 0` |
| Problems.RosenbrockFirstCoordinate | src/problems.rs:167-168 | the Rosenbrock polynomial expanded along x has the first gradient component as linear coefficient |
| Problems.RosenbrockSecondCoordinate | src/problems.rs:167-169 | the Rosenbrock polynomial expanded along y has the second gradient component as linear coefficient |
| Problems.RosenbrockGradientExpansion | src/problems.rs:167-169 | moving either coordinate by h changes the value by h times that gradient component plus the written-out higher-order remainder |
| Numeric.Value | src/numeric.rs:38-40 | the value is the wrapped function's value at the same position |
| Numeric.StepSize | src/numeric.rs:50-54 | the step width is positive, both at zero and elsewhere |
| Numeric.Probe | src/numeric.rs:58-62 | a probe differs from the position only in coordinate i, which is moved by h |
| Numeric.DifferenceIs | src/numeric.rs:64 | if moving coordinate i by h raises the value by `h·u`, the forward difference is u |
| Numeric.NumericalGradient | src/numeric.rs:49-69 | one component per coordinate; component i is the forward difference with that coordinate's step width |
| Numeric.ProbeCoordinate | src/numeric.rs:58-64 | perturbing and restoring the scratch buffer leaves it unchanged and yields the forward difference |
| Numeric.Gradient | src/numeric.rs:44-70 | the loop over the restored scratch buffer, with the value computed once at the unperturbed point, computes the numerical gradient |
| Numeric.AsDifferentiable | src/numeric.rs:37-70 | the wrapper is a differentiable objective whose value is the wrapped one and whose gradient is the numerical one |
| Numeric.LinearIsExact | src/numeric.rs:58-64 | for a linear function the numerical gradient is exactly its coefficient vector |
| Numeric.ConstantIsFlat | src/numeric.rs:58-64 | a constant function has a flat numerical gradient at every tolerance |
| Numeric.SquareDifference | src/numeric.rs:15-17 | the forward difference of `x0²` at v is `2v + h` |
| Numeric.DocumentationExample | src/numeric.rs:15-21 | the documented example: below 1e-3 at 0, above 1 at 1, below 1 at -1 |
| Numeric.ProblemFunction | src/problems.rs:64-69 | a test problem as a value function agrees with its `value` on legal positions |
| Numeric.SphereForwardError | src/numeric.rs:58-64 | on the Sphere the numerical gradient exceeds the analytical one by exactly the step width |
| Numeric.Dimensions | src/numeric.rs:80-82 | the wrapped problem's dimensions |
| Numeric.Domain | src/numeric.rs:84-86 | the wrapped problem's domain, one interval per dimension |
| Numeric.Minimum | src/numeric.rs:88-90 | the wrapped problem's minimum, which is legal and attained |
| Sgd.StochasticGradientDescent.constructor | src/sgd.rs:14-21 | fixed step 0.01, tolerance 1e-4, no cap, mini batches of 1; valid |
| Sgd.StochasticGradientDescent.FromParts | src/sgd.rs:27-32 | the struct literal holds exactly the given fields |
| Sgd.StochasticGradientDescent.WithLineSearch | src/sgd.rs:26-33 | a new configuration with the given strategy keeps tolerance, cap and mini-batch size |
| Sgd.StochasticGradientDescent.GradientTolerance | src/sgd.rs:37-42 | succeeds iff the tolerance is positive; then sets it; no other field changes |
| Sgd.StochasticGradientDescent.MaxIterations | src/sgd.rs:46-51 | succeeds iff the cap is `None` or positive; then sets it; no other field changes |
| Sgd.StochasticGradientDescent.MiniBatch | src/sgd.rs:54-59 | succeeds iff the size is positive; then sets it; no other field changes |
| Sgd.StochasticGradientDescent.Minimize | src/sgd.rs:66-72 | the stub returns the initial position unchanged with value 0.0 |

## Left out

- Floating point: NaN, infinities, rounding and the `is_finite()` assertions in `src/line_search.rs` and `src/numeric.rs:56,66` have no counterpart over `real`. Only the positivity parts of those checks are modelled.
- `are_close` (`src/utils.rs:14-30`) and its test: test-only, and defined by IEEE special values.
- The exact value of `sqrt(EPSILON·|x_i|)`: there is no square root over `real`. The step width is kept abstract and positive (`SquareRoot`).
- Numeric.DocumentationExample: needs the assumption that the root of `EPSILON` squares back to `EPSILON`, which the source gets from `f64::sqrt`.
- `random_start` (`src/problems.rs:129,166` and its forwarding in `src/numeric.rs:92-94`): it draws random numbers.
- Logging (`info!`, `debug!` in `src/gd.rs`): output only.
- The commented-out SGD algorithm (`src/sgd.rs:75-134`), its shuffle and mini-batch epochs, and the commented-out McCormick problem: not live code.
- The gradient-accuracy and convergence tests: they need calculus, floating-point error bounds and random starts.
- The demo programs `line_fitting.rs`, `minimal.rs` and `rosenbrock.rs`: demos with printing and random noise, written against an older API.
- `src/lib.rs`: only module declarations and re-exports.
- Trait and macro plumbing: the `&'a F` forwarding impls and `define_problem!`. The generated functions are modelled directly.
- LineSearches.ArmijoLineSearch.Search: the backtracking loop is bounded by `fuel`. A search that would loop longer is reported as `OutOfFuel`.
- Gd.Minimize: without a cap, the loop is bounded by `fuel` iterations, and each Armijo search shares the same fuel bound.
- Gd.Minimize: the `u64` iteration counter and the `u64` caps are unbounded `nat`s, so wrap-around is not modelled.
- Problems.Problem.Value: the legality `assert!` is a precondition rather than a panic outcome.
- Problems.Problem.Gradient: the legality `assert!` is a precondition rather than a panic outcome.
- Numeric.ProblemFunction: the numerical gradient of a wrapped test problem is only reached through this total value function, which is 0 off the legal positions. Those are the inputs where the source panics.
- Numeric.SquareOfFirst: the documentation's closure indexes `x[0]`; the model gives the empty position the value 0 instead of panicking.
- Sgd.StochasticGradientDescent.WithLineSearch: the source changes the strategy's static type parameter. The model has one `LineSearch` type with three cases.
- Types.PartialValue: the `partial_value` method used by `src/sgd.rs:69` belongs to a summation trait that `src/types.rs` does not define. It is modelled as the sum of the values of the listed terms.

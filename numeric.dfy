/** Forward-difference differentiation of `src/numeric.rs`. */
module Numeric {
  import opened Vectors
  import opened Utils
  import opened Types
  import opened Problems

  /** `f64::EPSILON`, which is 2^-52. */
  const EPSILON: real := 1.0 / 4503599627370496.0

  /** The step used for a zero coordinate, `EPSILON * 1.0e10`. */
  const ZERO_STEP: real := EPSILON * 10000000000.0

  /** Stands for `f64::sqrt`: all the model relies on is that a positive
      argument has a positive root. */
  type SquareRoot = f: real -> real | forall v :: 0.0 < v ==> 0.0 < f(v) witness _ => 1.0

  /** The wrapper `NumericalDifferentiation<F>`. Over a value function it is
      differentiable by forward differences; over a `Problem` it delegates the
      problem's description. */
  datatype NumericalDifferentiation<F> = NumericalDifferentiation(wrapped: F)

  /** `value`: the wrapped function's value at the same position. */
  function Value(nd: NumericalDifferentiation<Function>, position: seq<real>): (r: real)
    ensures r == nd.wrapped(position)
  {
    nd.wrapped(position)
  }

  /** The step width `h` for coordinate value `xi`: `EPSILON·1e10` at zero,
      `sqrt(EPSILON·|xi|)` elsewhere; positive either way. */
  function StepSize(sqrt: SquareRoot, xi: real): (h: real)
    ensures h > 0.0
  {
    if xi == 0.0 then ZERO_STEP else sqrt(EPSILON * Abs(xi))
  }

  /** The scratch buffer while coordinate `i` is probed: `position` with its
      `i`-th coordinate moved by `h` and every other coordinate untouched. */
  function Probe(position: seq<real>, i: nat, h: real): (r: seq<real>)
    requires i < |position|
    ensures |r| == |position| && r[i] == position[i] + h
    ensures forall j :: 0 <= j < |position| && j != i ==> r[j] == position[j]
  {
    position[i := position[i] + h]
  }

  /** The forward difference of the wrapped function along coordinate `i`
      with step `h`: `(f(x[i := x_i + h]) - f(x)) / h`. */
  function Difference(nd: NumericalDifferentiation<Function>, position: seq<real>, i: nat, h: real): real
    requires i < |position| && h != 0.0
  {
    (nd.wrapped(Probe(position, i, h)) - nd.wrapped(position)) / h
  }

  /** When moving coordinate `i` by `h` raises the value by `h·u`, the
      forward difference is `u`. */
  lemma DifferenceIs(nd: NumericalDifferentiation<Function>, position: seq<real>, i: nat, h: real, u: real)
    requires i < |position| && h != 0.0
    requires nd.wrapped(Probe(position, i, h)) == nd.wrapped(position) + h * u
    ensures Difference(nd, position, i, h) == u
  {
    ForwardQuotient(h, nd.wrapped(position), nd.wrapped(Probe(position, i, h)), u);
  }

  /** The numerical gradient: for each coordinate, the forward difference
      with that coordinate's step. */
  function NumericalGradient(nd: NumericalDifferentiation<Function>, sqrt: SquareRoot, position: seq<real>): (r: seq<real>)
    ensures |r| == |position|
    ensures forall i :: 0 <= i < |position| ==>
      r[i] == Difference(nd, position, i, StepSize(sqrt, position[i]))
  {
    seq(|position|, i requires 0 <= i < |position| => Difference(nd, position, i, StepSize(sqrt, position[i])))
  }

  /** The body of the source's closure for coordinate `i`: move the
      coordinate of the scratch buffer by `h`, evaluate, move it back, and
      form the forward difference against `current`. */
  method ProbeCoordinate(nd: NumericalDifferentiation<Function>, x: array<real>, i: nat, h: real, current: real)
    returns (derivative: real)
    requires i < x.Length && h != 0.0 && current == nd.wrapped(x[..])
    modifies x
    ensures x[..] == old(x[..])
    ensures derivative == Difference(nd, old(x[..]), i, h)
  {
    ghost var position := x[..];
    var xi := x[i];
    x[i] := xi + h;
    assert x[..] == Probe(position, i, h);
    var forward := nd.wrapped(x[..]);
    x[i] := xi;
    assert x[..] == position;
    derivative := (forward - current) / h;
  }

  /** `gradient`: evaluates the function once at the unperturbed position,
      then probes each coordinate in a scratch buffer that is restored
      after every probe. */
  method Gradient(nd: NumericalDifferentiation<Function>, sqrt: SquareRoot, position: seq<real>)
    returns (gradient: seq<real>)
    ensures gradient == NumericalGradient(nd, sqrt, position)
  {
    var x := new real[|position|](i requires 0 <= i < |position| => position[i]);
    var current := Value(nd, x[..]);
    gradient := [];
    for i := 0 to |position|
      invariant x[..] == position
      invariant current == nd.wrapped(position)
      invariant |gradient| == i
      invariant forall j :: 0 <= j < i ==> gradient[j] == Difference(nd, position, j, StepSize(sqrt, position[j]))
    {
      var h := StepSize(sqrt, position[i]);
      var derivative := ProbeCoordinate(nd, x, i, h, current);
      gradient := gradient + [derivative];
    }
  }

  /** The wrapped function together with its numerical gradient, usable as
      the objective of a minimizer. */
  function AsDifferentiable(nd: NumericalDifferentiation<Function>, sqrt: SquareRoot): (r: Differentiable)
    ensures forall position :: r.value(position) == nd.wrapped(position)
    ensures forall position :: r.gradient(position) == NumericalGradient(nd, sqrt, position)
  {
    Differentiable(nd.wrapped, position => NumericalGradient(nd, sqrt, position))
  }

  /** The linear function `x ↦ c·x`. */
  function Linear(c: seq<real>): Function {
    x => Dot(c, x)
  }

  /** Moving coordinate `i` by `h` moves `c·x` by `h·c[i]`. */
  lemma LinearStep(c: seq<real>, position: seq<real>, i: nat, h: real)
    requires |c| == |position| && i < |position|
    ensures Linear(c)(Probe(position, i, h)) == Linear(c)(position) + h * c[i]
  {
    DotUpdate(c, position, i, h);
    assert Probe(position, i, h) == position[i := position[i] + h];
  }

  /** The forward difference of `x ↦ c·x` is `c[i]` for every step `h`. */
  lemma LinearDifference(c: seq<real>, position: seq<real>, i: nat, h: real)
    requires |c| == |position| && i < |position| && h != 0.0
    ensures Difference(NumericalDifferentiation(Linear(c)), position, i, h) == c[i]
  {
    LinearStep(c, position, i, h);
    DifferenceIs(NumericalDifferentiation(Linear(c)), position, i, h, c[i]);
  }

  /** Forward differences are exact for linear functions: the numerical
      gradient of `x ↦ c·x` is `c`. */
  lemma LinearIsExact(c: seq<real>, sqrt: SquareRoot, position: seq<real>)
    requires |c| == |position|
    ensures NumericalGradient(NumericalDifferentiation(Linear(c)), sqrt, position) == c
  {
    forall i | 0 <= i < |position| {
      LinearDifference(c, position, i, StepSize(sqrt, position[i]));
    }
  }

  /** A constant function has a flat numerical gradient, so a minimizer
      using it stops at once. */
  lemma ConstantIsFlat(k: real, sqrt: SquareRoot, position: seq<real>, tolerance: real)
    requires tolerance >= 0.0
    ensures IsSaddlePoint(NumericalGradient(NumericalDifferentiation(_ => k), sqrt, position), tolerance)
  {
    var g := NumericalGradient(NumericalDifferentiation((_: seq<real>) => k), sqrt, position);
    forall i | 0 <= i < |g|
      ensures Abs(g[i]) <= tolerance
    {
      assert g[i] == (k - k) / StepSize(sqrt, position[i]) == 0.0;
    }
    SaddlePointIff(g, tolerance);
  }

  /** `x ↦ x0²` from the documentation; the closure there reads `x[0]`, so
      the model gives the empty position the value 0. */
  function SquareOfFirst(): Function {
    x => if |x| == 0 then 0.0 else x[0] * x[0]
  }

  /** Moving the single coordinate `v` by `h` raises `v²` by `h·(2v + h)`. */
  lemma SquareStep(v: real, h: real)
    ensures SquareOfFirst()(Probe([v], 0, h)) == SquareOfFirst()([v]) + h * (2.0 * v + h)
  {
    assert Probe([v], 0, h) == [v + h];
  }

  /** The forward difference of `x0²` at `v` overshoots `2v` by the step. */
  lemma SquareDifference(v: real, h: real)
    requires h != 0.0
    ensures Difference(NumericalDifferentiation(SquareOfFirst()), [v], 0, h) == 2.0 * v + h
  {
    SquareStep(v, h);
    DifferenceIs(NumericalDifferentiation(SquareOfFirst()), [v], 0, h, 2.0 * v + h);
  }

  /** The documentation's example: the numerical derivative of `x0²` is
      below 1e-3 at 0, above 1 at 1 and below 1 at -1. The last needs the
      root of `EPSILON` to square back to `EPSILON`. */
  lemma DocumentationExample(sqrt: SquareRoot)
    requires sqrt(EPSILON) * sqrt(EPSILON) == EPSILON
    ensures NumericalGradient(NumericalDifferentiation(SquareOfFirst()), sqrt, [0.0])[0] < 0.001
    ensures NumericalGradient(NumericalDifferentiation(SquareOfFirst()), sqrt, [1.0])[0] > 1.0
    ensures NumericalGradient(NumericalDifferentiation(SquareOfFirst()), sqrt, [-1.0])[0] < 1.0
  {
    var s := sqrt(EPSILON);
    assert EPSILON * Abs(1.0) == EPSILON && EPSILON * Abs(-1.0) == EPSILON;
    assert StepSize(sqrt, 0.0) == ZERO_STEP;
    assert StepSize(sqrt, 1.0) == s && StepSize(sqrt, -1.0) == s;
    SquareDifference(0.0, ZERO_STEP);
    SquareDifference(1.0, s);
    SquareDifference(-1.0, s);
    if s >= 3.0 {
      SquareExceedsEpsilon(s);
      assert false;
    }
  }

  /** A number of at least 3 squares to far more than `EPSILON`. */
  lemma SquareExceedsEpsilon(s: real)
    requires s >= 3.0
    ensures s * s > EPSILON
  {
    calc {
      s * s;
      >= { MulAtLeast(s, s, 3.0); } 3.0 * 3.0;
      > EPSILON;
    }
  }

  /** A problem as a total value function: it agrees with `Problem.Value` on
      legal positions, where the source does not panic. */
  function ProblemFunction(p: Problem): (r: Function)
    ensures forall position :: p.IsLegalPosition(position) ==> r(position) == p.Value(position)
  {
    position => if p.IsLegalPosition(position) then p.Value(position) else 0.0
  }

  lemma SphereStep(n: nat, position: seq<real>, i: nat, h: real)
    requires Sphere(n).IsLegalPosition(position) && i < n
    ensures ProblemFunction(Sphere(n))(Probe(position, i, h))
      == ProblemFunction(Sphere(n))(position) + h * (Sphere(n).Gradient(position)[i] + h)
  {
    SphereGradientExpansion(n, position, i, h);
  }

  /** The forward difference of the Sphere overshoots component `i` of its
      gradient by the step `h`. */
  lemma SphereDifference(n: nat, position: seq<real>, i: nat, h: real)
    requires Sphere(n).IsLegalPosition(position) && i < n && h != 0.0
    ensures Difference(NumericalDifferentiation(ProblemFunction(Sphere(n))), position, i, h)
      == Sphere(n).Gradient(position)[i] + h
  {
    SphereStep(n, position, i, h);
    DifferenceIs(NumericalDifferentiation(ProblemFunction(Sphere(n))), position, i, h, Sphere(n).Gradient(position)[i] + h);
  }

  /** On the Sphere the forward difference overshoots the analytical
      gradient by exactly the step width. */
  lemma SphereForwardError(n: nat, sqrt: SquareRoot, position: seq<real>)
    requires Sphere(n).IsLegalPosition(position)
    ensures forall i :: 0 <= i < n ==>
      NumericalGradient(NumericalDifferentiation(ProblemFunction(Sphere(n))), sqrt, position)[i]
        == Sphere(n).Gradient(position)[i] + StepSize(sqrt, position[i])
  {
    forall i | 0 <= i < n {
      SphereDifference(n, position, i, StepSize(sqrt, position[i]));
    }
  }

  /** `dimensions` of a wrapped problem. */
  function Dimensions(nd: NumericalDifferentiation<Problem>): (r: nat)
    ensures r == nd.wrapped.Dimensions()
  {
    nd.wrapped.Dimensions()
  }

  /** `domain` of a wrapped problem. */
  function Domain(nd: NumericalDifferentiation<Problem>): (r: seq<(Bound, Bound)>)
    ensures r == nd.wrapped.Domain()
    ensures |r| == Dimensions(nd)
  {
    nd.wrapped.Domain()
  }

  /** `minimum` of a wrapped problem: the wrapped problem's, which it does attain. */
  function Minimum(nd: NumericalDifferentiation<Problem>): (r: (seq<real>, real))
    ensures r == nd.wrapped.Minimum()
    ensures nd.wrapped.IsLegalPosition(r.0) && nd.wrapped.Value(r.0) == r.1
  {
    MinimumAttained(nd.wrapped);
    nd.wrapped.Minimum()
  }
}

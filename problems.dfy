/** The test problems of `src/problems.rs`: the n-dimensional Sphere and the
    two-dimensional Rosenbrock function, with their domains and minima. */
module Problems {
  import opened Outcomes
  import opened Vectors
  import opened Utils

  /** One side of an input interval; the source writes the open sides as
      `-INFINITY` and `INFINITY`. */
  datatype Bound = NegInfinity | Finite(value: real) | PosInfinity

  /** `lower < v`. */
  predicate AboveLower(lower: Bound, v: real) {
    match lower
    case NegInfinity => true
    case Finite(l) => l < v
    case PosInfinity => false
  }

  /** `v < upper`. */
  predicate BelowUpper(upper: Bound, v: real) {
    match upper
    case NegInfinity => false
    case Finite(u) => v < u
    case PosInfinity => true
  }

  /** `v` lies strictly inside the interval `(lower, upper)`. */
  predicate Inside(interval: (Bound, Bound), v: real) {
    AboveLower(interval.0, v) && BelowUpper(interval.1, v)
  }

  /** `position.iter().zip(domain).all(...)`: every coordinate that has an
      interval lies inside it. */
  predicate AllInside(position: seq<real>, domain: seq<(Bound, Bound)>) {
    if |position| == 0 || |domain| == 0 then true
    else Inside(domain[0], position[0]) && AllInside(position[1..], domain[1..])
  }

  lemma {:induction false} AllInsideIff(position: seq<real>, domain: seq<(Bound, Bound)>)
    ensures AllInside(position, domain) <==>
      forall i :: 0 <= i < Min(|position|, |domain|) ==> Inside(domain[i], position[i])
  {
    if |position| > 0 && |domain| > 0 {
      AllInsideIff(position[1..], domain[1..]);
      if AllInside(position, domain) {
        forall i | 0 <= i < Min(|position|, |domain|)
          ensures Inside(domain[i], position[i])
        {
          if i > 0 {
            assert position[1..][i - 1] == position[i] && domain[1..][i - 1] == domain[i];
          }
        }
      } else if !Inside(domain[0], position[0]) {
      } else {
        var k :| 0 <= k < Min(|position| - 1, |domain| - 1) && !Inside(domain[1..][k], position[1..][k]);
        assert !Inside(domain[k + 1], position[k + 1]);
      }
    }
  }

  /** `n` copies of `(-INFINITY, INFINITY)`. */
  function Unbounded(n: nat): (r: seq<(Bound, Bound)>)
    ensures |r| == n && forall i :: 0 <= i < n ==> r[i] == (NegInfinity, PosInfinity)
  {
    seq(n, _ => (NegInfinity, PosInfinity))
  }

  /** The origin of `n` dimensions. */
  function Origin(n: nat): (r: seq<real>)
    ensures |r| == n && forall i :: 0 <= i < n ==> r[i] == 0.0
  {
    seq(n, _ => 0.0)
  }

  /** `v.powi(2)`. */
  function Square(v: real): real {
    v * v
  }

  /** `v.powi(3)`. */
  function Cube(v: real): real {
    v * v * v
  }

  /** `(a - x)² + b·(y - x²)²`. */
  function RosenbrockValue(a: real, b: real, x: real, y: real): real {
    Square(a - x) + b * Square(y - Square(x))
  }

  /** The two partial derivatives of `RosenbrockValue` in the form the source writes them. */
  function RosenbrockGradient(a: real, b: real, x: real, y: real): seq<real> {
    [-2.0 * a + 4.0 * b * Cube(x) - 4.0 * b * x * y + 2.0 * x, 2.0 * b * (y - Square(x))]
  }

  /** The two problems. Sphere: `f(x) = Σ x_i²`, minimum 0 at the origin.
      Rosenbrock: `f(x, y) = (a - x)² + b·(y - x²)²`, minimum 0 at `(a, a²)`. */
  datatype Problem = Sphere(dimensions: nat) | Rosenbrock(a: real, b: real)
  {
    function Dimensions(): nat {
      match this
      case Sphere(n) => n
      case Rosenbrock(_, _) => 2
    }

    /** Every coordinate is unbounded on both sides. */
    function Domain(): (r: seq<(Bound, Bound)>)
      ensures |r| == Dimensions()
      ensures forall i :: 0 <= i < |r| ==> r[i] == (NegInfinity, PosInfinity)
    {
      Unbounded(Dimensions())
    }

    /** The reported global minimum: its position and its value. */
    function Minimum(): (r: (seq<real>, real))
      ensures |r.0| == Dimensions()
    {
      match this
      case Sphere(n) => (Origin(n), 0.0)
      case Rosenbrock(a, _) => ([a, Square(a)], 0.0)
    }

    /** The provided `is_legal_position` of the `Problem` trait. */
    predicate IsLegalPosition(position: seq<real>) {
      |position| == Dimensions() && AllInside(position, Domain())
    }

    /** `value`; the source asserts that the position is legal. */
    function Value(position: seq<real>): real
      requires IsLegalPosition(position)
    {
      match this
      case Sphere(_) => SumSquares(position)
      case Rosenbrock(a, b) => RosenbrockValue(a, b, position[0], position[1])
    }

    /** `gradient`; the source asserts that the position is legal. */
    function Gradient(position: seq<real>): (r: seq<real>)
      requires IsLegalPosition(position)
      ensures |r| == |position|
    {
      match this
      case Sphere(_) => seq(|position|, i requires 0 <= i < |position| => 2.0 * position[i])
      case Rosenbrock(a, b) => RosenbrockGradient(a, b, position[0], position[1])
    }
  }

  /** `Sphere::new`: panics unless there is at least one dimension. */
  function NewSphere(dimensions: nat): (r: Checked<Problem>)
    ensures r.Ok? <==> dimensions > 0
    ensures r.Ok? ==> r.value.Dimensions() == dimensions && r.value.Minimum() == (Origin(dimensions), 0.0)
    ensures r.Ok? ==> r.value == Sphere(dimensions)
  {
    if dimensions > 0 then Ok(Sphere(dimensions)) else Panic("dimensions must be larger than 1")
  }

  /** `Rosenbrock::new`: any `a` and `b`. */
  function NewRosenbrock(a: real, b: real): (r: Problem)
    ensures r.Dimensions() == 2 && r.Minimum() == ([a, Square(a)], 0.0)
    ensures r == Rosenbrock(a, b)
  {
    Rosenbrock(a, b)
  }

  /** `Sphere::default`, which is `Sphere::new(2)`. */
  function DefaultSphere(): (r: Problem)
    ensures NewSphere(2) == Ok(r)
  {
    Sphere(2)
  }

  /** `Rosenbrock::default`, which is `Rosenbrock::new(1.0, 100.0)`. */
  function DefaultRosenbrock(): (r: Problem)
    ensures r == NewRosenbrock(1.0, 100.0)
  {
    Rosenbrock(1.0, 100.0)
  }

  /** Legality is the length check plus every coordinate strictly inside its interval. */
  lemma LegalIff(p: Problem, position: seq<real>)
    ensures p.IsLegalPosition(position) <==>
      |position| == p.Dimensions() && forall i :: 0 <= i < |position| ==> Inside(p.Domain()[i], position[i])
  {
    AllInsideIff(position, p.Domain());
  }

  /** With unbounded domains, a position is legal exactly when it has the right length. */
  lemma LegalIffLength(p: Problem, position: seq<real>)
    ensures p.IsLegalPosition(position) <==> |position| == p.Dimensions()
  {
    LegalIff(p, position);
  }

  /** The reported minimum is a legal position and the function takes the
      reported value there. */
  lemma MinimumAttained(p: Problem)
    ensures p.IsLegalPosition(p.Minimum().0)
    ensures p.Value(p.Minimum().0) == p.Minimum().1
  {
    LegalIffLength(p, p.Minimum().0);
    match p
    case Sphere(n) => OriginSumSquares(n);
    case Rosenbrock(a, b) =>
      calc {
        p.Value(p.Minimum().0);
        == RosenbrockValue(a, b, a, Square(a));
        == Square(a - a) + b * Square(Square(a) - Square(a));
        == 0.0;
      }
  }

  lemma {:induction false} OriginSumSquares(n: nat)
    ensures SumSquares(Origin(n)) == 0.0
  {
    if n > 0 {
      assert Origin(n)[1..] == Origin(n - 1);
      OriginSumSquares(n - 1);
    }
  }

  /** The gradient is zero at the reported minimum. */
  lemma GradientVanishesAtMinimum(p: Problem)
    ensures p.IsLegalPosition(p.Minimum().0)
    ensures p.Gradient(p.Minimum().0) == Origin(p.Dimensions())
  {
    MinimumAttained(p);
    match p
    case Sphere(n) =>
    case Rosenbrock(a, b) =>
      var g := p.Gradient(p.Minimum().0);
      assert g == RosenbrockGradient(a, b, a, Square(a));
      calc {
        g[0];
        == -2.0 * a + 4.0 * b * Cube(a) - 4.0 * b * a * Square(a) + 2.0 * a;
        == 4.0 * b * (Cube(a) - a * Square(a));
        == 0.0;
      }
      assert g[1] == 2.0 * b * (Square(a) - Square(a)) == 0.0;
  }

  /** The Sphere minimum is global and unique: every legal value is at least
      the reported one, with equality only at the origin. */
  lemma SphereGlobalMinimum(n: nat, position: seq<real>)
    requires Sphere(n).IsLegalPosition(position)
    ensures Sphere(n).Value(position) >= Sphere(n).Minimum().1
    ensures Sphere(n).Value(position) == Sphere(n).Minimum().1 <==> position == Sphere(n).Minimum().0
  {
    SumSquaresNonNegative(position);
    if position == Origin(n) {
      OriginSumSquares(n);
    } else {
      var i :| 0 <= i < n && position[i] != 0.0;
      SumSquaresPositive(position, i);
    }
  }

  /** The Sphere gradient is the exact first-order coefficient: moving
      coordinate `i` by `h` changes the value by `h·g_i + h²`. */
  lemma SphereGradientExpansion(n: nat, position: seq<real>, i: nat, h: real)
    requires Sphere(n).IsLegalPosition(position) && i < n
    ensures Sphere(n).IsLegalPosition(position[i := position[i] + h])
    ensures Sphere(n).Value(position[i := position[i] + h])
      == Sphere(n).Value(position) + h * Sphere(n).Gradient(position)[i] + h * h
  {
    LegalIffLength(Sphere(n), position);
    LegalIffLength(Sphere(n), position[i := position[i] + h]);
    SumSquaresUpdate(position, i, h);
  }

  /** The Sphere gradient is flat at tolerance 0 only at the minimum. */
  lemma SphereFlatOnlyAtMinimum(n: nat, position: seq<real>)
    requires Sphere(n).IsLegalPosition(position)
    ensures IsSaddlePoint(Sphere(n).Gradient(position), 0.0) <==> position == Sphere(n).Minimum().0
  {
    var g := Sphere(n).Gradient(position);
    SaddlePointIff(g, 0.0);
    if IsSaddlePoint(g, 0.0) {
      forall i | 0 <= i < n
        ensures position[i] == 0.0
      {
        assert Abs(g[i]) <= 0.0;
      }
    }
  }

  /** The Rosenbrock value never drops below the reported minimum as long as
      `b` is not negative. */
  lemma RosenbrockGlobalMinimum(a: real, b: real, position: seq<real>)
    requires b >= 0.0 && Rosenbrock(a, b).IsLegalPosition(position)
    ensures Rosenbrock(a, b).Value(position) >= Rosenbrock(a, b).Minimum().1
  {
    var s := Square(position[1] - Square(position[0]));
    SquareNonNegative(a - position[0]);
    SquareNonNegative(position[1] - Square(position[0]));
    if b > 0.0 && s > 0.0 {
      MulPositive(b, s);
    }
  }

  /** Without `b >= 0` the reported minimum is not a lower bound:
      `Rosenbrock(1, -1)` takes the value -3 at `(0, 2)`. */
  lemma RosenbrockNegativeB()
    ensures Rosenbrock(1.0, -1.0).IsLegalPosition([0.0, 2.0])
    ensures Rosenbrock(1.0, -1.0).Value([0.0, 2.0]) == -3.0 < Rosenbrock(1.0, -1.0).Minimum().1
  {
    LegalIffLength(Rosenbrock(1.0, -1.0), [0.0, 2.0]);
    assert RosenbrockValue(1.0, -1.0, 0.0, 2.0) == Square(1.0) + -1.0 * Square(2.0 - Square(0.0));
  }

  /** Multiplying equal reals by the same factor gives equal products. The
      solver does not always identify two syntactically different but equal
      factors inside a product; this lemma hands it the equation. */
  lemma Scale(k: real, u: real, w: real)
    requires u == w
    ensures k * u == k * w
  {
  }

  lemma ShiftSquare(u: real, h: real)
    ensures Square(u + h) == Square(u) + 2.0 * u * h + h * h
  {
  }

  lemma SquareOfSum(x: real, h: real)
    ensures Square(2.0 * x * h + h * h) == 4.0 * Square(x) * Square(h) + 4.0 * x * Cube(h) + Square(Square(h))
  {
  }

  /** How the squared valley term `(y - x²)²` changes when `x` moves by `h`. */
  lemma ValleyFirstCoordinate(x: real, y: real, h: real)
    ensures Square(y - Square(x + h))
      == Square(y - Square(x)) + h * (4.0 * Cube(x) - 4.0 * x * y)
         + Square(h) * (6.0 * Square(x) - 2.0 * y) + 4.0 * x * Cube(h) + Square(Square(h))
  {
    var w := y - Square(x);
    var e := 2.0 * x * h + h * h;
    ShiftSquare(x, h);
    assert y - Square(x + h) == w + -e;
    ShiftSquare(w, -e);
    SquareOfSum(x, h);
    assert (-e) * (-e) == Square(e);
    assert 2.0 * w * -e == h * (4.0 * Cube(x) - 4.0 * x * y) + Square(h) * (2.0 * Square(x) - 2.0 * y);
  }

  /** How the squared distance term `(a - x)²` changes when `x` moves by `h`. */
  lemma DistanceFirstCoordinate(a: real, x: real, h: real)
    ensures Square(a - (x + h)) == Square(a - x) + h * (2.0 * x - 2.0 * a) + Square(h)
  {
    ShiftSquare(a - x, -h);
    assert a - (x + h) == (a - x) + -h;
    assert 2.0 * (a - x) * -h == h * (2.0 * x - 2.0 * a);
    assert -h * -h == Square(h);
  }

  /** `ValleyFirstCoordinate` scaled by `b`. */
  lemma ScaledValleyFirstCoordinate(b: real, x: real, y: real, h: real)
    ensures b * Square(y - Square(x + h))
      == b * Square(y - Square(x)) + h * (b * (4.0 * Cube(x) - 4.0 * x * y))
         + Square(h) * (b * (6.0 * Square(x) - 2.0 * y)) + 4.0 * b * x * Cube(h) + b * Square(Square(h))
  {
    var v := Square(y - Square(x));
    var d := 4.0 * Cube(x) - 4.0 * x * y;
    var q := 6.0 * Square(x) - 2.0 * y;
    var t := 4.0 * x * Cube(h);
    var f := Square(Square(h));
    ValleyFirstCoordinate(x, y, h);
    Scale(b, Square(y - Square(x + h)), v + h * d + Square(h) * q + t + f);
    assert b * (v + h * d + Square(h) * q + t + f)
      == b * v + h * (b * d) + Square(h) * (b * q) + b * t + b * f;
    assert b * t == 4.0 * b * x * Cube(h);
  }

  /** The polynomial identity behind the expansion along the first coordinate. */
  lemma RosenbrockFirstCoordinate(a: real, b: real, x: real, y: real, h: real)
    ensures RosenbrockValue(a, b, x + h, y)
      == RosenbrockValue(a, b, x, y) + h * RosenbrockGradient(a, b, x, y)[0]
         + Square(h) * (1.0 + b * (6.0 * Square(x) - 2.0 * y)) + 4.0 * b * x * Cube(h) + b * Square(Square(h))
  {
    DistanceFirstCoordinate(a, x, h);
    ScaledValleyFirstCoordinate(b, x, y, h);
    Scale(h, RosenbrockGradient(a, b, x, y)[0], (2.0 * x - 2.0 * a) + b * (4.0 * Cube(x) - 4.0 * x * y));
    assert h * ((2.0 * x - 2.0 * a) + b * (4.0 * Cube(x) - 4.0 * x * y))
      == h * (2.0 * x - 2.0 * a) + h * (b * (4.0 * Cube(x) - 4.0 * x * y));
    assert Square(h) + Square(h) * (b * (6.0 * Square(x) - 2.0 * y))
      == Square(h) * (1.0 + b * (6.0 * Square(x) - 2.0 * y));
  }

  /** The polynomial identity behind the expansion along the second coordinate. */
  lemma RosenbrockSecondCoordinate(a: real, b: real, x: real, y: real, h: real)
    ensures RosenbrockValue(a, b, x, y + h)
      == RosenbrockValue(a, b, x, y) + h * RosenbrockGradient(a, b, x, y)[1] + b * Square(h)
  {
    ShiftSquare(y - Square(x), h);
    assert y + h - Square(x) == (y - Square(x)) + h;
    calc {
      b * Square(y + h - Square(x));
      == b * (Square(y - Square(x)) + 2.0 * (y - Square(x)) * h + h * h);
      == b * Square(y - Square(x)) + h * (2.0 * b * (y - Square(x))) + b * Square(h);
    }
  }

  lemma RosenbrockMovedFirst(a: real, b: real, position: seq<real>, h: real)
    requires Rosenbrock(a, b).IsLegalPosition(position)
    ensures Rosenbrock(a, b).IsLegalPosition(position[0 := position[0] + h])
    ensures Rosenbrock(a, b).Value(position[0 := position[0] + h])
      == RosenbrockValue(a, b, position[0] + h, position[1])
  {
    LegalIffLength(Rosenbrock(a, b), position);
    LegalIffLength(Rosenbrock(a, b), position[0 := position[0] + h]);
  }

  lemma RosenbrockMovedSecond(a: real, b: real, position: seq<real>, h: real)
    requires Rosenbrock(a, b).IsLegalPosition(position)
    ensures Rosenbrock(a, b).IsLegalPosition(position[1 := position[1] + h])
    ensures Rosenbrock(a, b).Value(position[1 := position[1] + h])
      == RosenbrockValue(a, b, position[0], position[1] + h)
  {
    LegalIffLength(Rosenbrock(a, b), position);
    LegalIffLength(Rosenbrock(a, b), position[1 := position[1] + h]);
  }

  /** The Rosenbrock gradient is the first-order coefficient of the value
      along each coordinate; the higher-order remainders are written out. */
  lemma RosenbrockGradientExpansion(a: real, b: real, position: seq<real>, h: real)
    requires Rosenbrock(a, b).IsLegalPosition(position)
    ensures Rosenbrock(a, b).IsLegalPosition(position[0 := position[0] + h])
    ensures Rosenbrock(a, b).IsLegalPosition(position[1 := position[1] + h])
    ensures Rosenbrock(a, b).Value(position[0 := position[0] + h])
      == Rosenbrock(a, b).Value(position) + h * Rosenbrock(a, b).Gradient(position)[0]
         + Square(h) * (1.0 + b * (6.0 * Square(position[0]) - 2.0 * position[1]))
         + 4.0 * b * position[0] * Cube(h) + b * Square(Square(h))
    ensures Rosenbrock(a, b).Value(position[1 := position[1] + h])
      == Rosenbrock(a, b).Value(position) + h * Rosenbrock(a, b).Gradient(position)[1] + b * Square(h)
  {
    RosenbrockMovedFirst(a, b, position, h);
    RosenbrockMovedSecond(a, b, position, h);
    assert Rosenbrock(a, b).Value(position) == RosenbrockValue(a, b, position[0], position[1]);
    assert Rosenbrock(a, b).Gradient(position) == RosenbrockGradient(a, b, position[0], position[1]);
    assert h * Rosenbrock(a, b).Gradient(position)[0] == h * RosenbrockGradient(a, b, position[0], position[1])[0];
    assert h * Rosenbrock(a, b).Gradient(position)[1] == h * RosenbrockGradient(a, b, position[0], position[1])[1];
    RosenbrockFirstCoordinate(a, b, position[0], position[1], h);
    RosenbrockSecondCoordinate(a, b, position[0], position[1], h);
  }
}

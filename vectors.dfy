/** Arithmetic on positions and directions, as the source writes it with
    `zip`, `map` and `sum` over slices of `f64` (modelled as `real`). */
module Vectors {

  function Abs(v: real): real {
    if v < 0.0 then -v else v
  }

  function Min(a: nat, b: nat): nat {
    if a <= b then a else b
  }

  /** `x + w·d`, computed over the common prefix of `x` and `d`, as
      `x.iter().zip(d).map(|(x, d)| x + w * d).collect()` does. */
  function Shifted(x: seq<real>, d: seq<real>, w: real): seq<real> {
    seq(Min(|x|, |d|), i requires 0 <= i < Min(|x|, |d|) => x[i] + w * d[i])
  }

  /** Component-wise negation, `g.into_iter().map(|g| -g).collect()`. */
  function Negated(g: seq<real>): seq<real> {
    seq(|g|, i requires 0 <= i < |g| => -g[i])
  }

  /** The scalar product over the common prefix,
      `g.iter().zip(d).map(|(g, d)| g * d).sum()`. */
  function Dot(g: seq<real>, d: seq<real>): real {
    if |g| == 0 || |d| == 0 then 0.0 else g[0] * d[0] + Dot(g[1..], d[1..])
  }

  /** The sum of the squared components. */
  function SumSquares(x: seq<real>): real {
    if |x| == 0 then 0.0 else x[0] * x[0] + SumSquares(x[1..])
  }

  /** `b` raised to the natural power `k`, built by repeated multiplication
      as the line searches' `step_width *= factor` builds it. */
  function Pow(b: real, k: nat): real {
    if k == 0 then 1.0 else Pow(b, k - 1) * b
  }

  lemma MulPositive(a: real, b: real)
    requires a > 0.0 && b > 0.0
    ensures a * b > 0.0
  {
  }

  lemma MulNonNegative(a: real, b: real)
    requires a >= 0.0 && b >= 0.0
    ensures a * b >= 0.0
  {
    if a > 0.0 && b > 0.0 {
      MulPositive(a, b);
    }
  }

  lemma SquarePositive(v: real)
    requires v != 0.0
    ensures v * v > 0.0
  {
    if v < 0.0 {
      calc {
        v * v;
        == (-v) * (-v);
        > { MulPositive(-v, -v); } 0.0;
      }
    } else {
      MulPositive(v, v);
    }
  }

  lemma SquareNonNegative(v: real)
    ensures v * v >= 0.0
  {
    if v != 0.0 {
      SquarePositive(v);
    }
  }

  lemma {:induction false} SumSquaresNonNegative(x: seq<real>)
    ensures SumSquares(x) >= 0.0
  {
    if |x| > 0 {
      calc {
        SumSquares(x);
        == x[0] * x[0] + SumSquares(x[1..]);
        >= { SquareNonNegative(x[0]); } SumSquares(x[1..]);
        >= { SumSquaresNonNegative(x[1..]); } 0.0;
      }
    }
  }

  /** A sum of squares is positive as soon as one component is not zero. */
  lemma {:induction false} SumSquaresPositive(x: seq<real>, i: nat)
    requires i < |x| && x[i] != 0.0
    ensures SumSquares(x) > 0.0
  {
    if i == 0 {
      calc {
        SumSquares(x);
        == x[0] * x[0] + SumSquares(x[1..]);
        >= { SumSquaresNonNegative(x[1..]); } x[0] * x[0];
        > { SquarePositive(x[0]); } 0.0;
      }
    } else {
      calc {
        SumSquares(x);
        == x[0] * x[0] + SumSquares(x[1..]);
        >= { SquareNonNegative(x[0]); } SumSquares(x[1..]);
        > { SumSquaresPositive(x[1..], i - 1); } 0.0;
      }
    }
  }

  /** The scalar product of a vector with its negation is minus its squared norm. */
  lemma {:induction false} DotNegated(g: seq<real>)
    ensures Dot(g, Negated(g)) == -SumSquares(g)
  {
    if |g| > 0 {
      assert Negated(g)[1..] == Negated(g[1..]);
      DotNegated(g[1..]);
    }
  }

  /** Powers of a base above 1 are positive and grow at least linearly
      (Bernoulli's inequality). */
  lemma {:induction false} PowAboveOne(b: real, k: nat)
    requires b >= 1.0
    ensures Pow(b, k) >= 1.0 + (k as real) * (b - 1.0)
  {
    if k > 0 {
      calc {
        Pow(b, k);
        == Pow(b, k - 1) * b;
        == Pow(b, k - 1) + Pow(b, k - 1) * (b - 1.0);
        >= { PowAboveOne(b, k - 1);
             MulNonNegative((k - 1) as real, b - 1.0);
             AtLeastOneTimes(Pow(b, k - 1), b - 1.0); }
           Pow(b, k - 1) + (b - 1.0);
        >= { PowAboveOne(b, k - 1); }
           1.0 + ((k - 1) as real) * (b - 1.0) + (b - 1.0);
        == 1.0 + (k as real) * (b - 1.0);
      }
    }
  }

  /** A factor of at least 1 does not shrink a non-negative number. */
  lemma AtLeastOneTimes(p: real, v: real)
    requires p >= 1.0 && v >= 0.0
    ensures p * v >= v
  {
    if p > 1.0 && v > 0.0 {
      MulPositive(p - 1.0, v);
    }
  }

  /** Multiplying by a positive factor preserves `>=`. */
  lemma MulMonotone(c: real, a: real, b: real)
    requires c > 0.0 && a >= b
    ensures c * a >= c * b
  {
    if a > b {
      calc {
        c * a - c * b;
        == c * (a - b);
        > { MulPositive(c, a - b); } 0.0;
      }
    }
  }

  /** Factors of at least `m >= 0` give a product of at least `m²`. */
  lemma MulAtLeast(s: real, t: real, m: real)
    requires s >= m && t >= m && m >= 0.0
    ensures s * t >= m * m
  {
    calc {
      s * t;
      >= { assert (s - m) * t >= 0.0 by { if s > m && t > 0.0 { MulPositive(s - m, t); } } } m * t;
      >= { assert m * (t - m) >= 0.0 by { if m > 0.0 && t > m { MulPositive(m, t - m); } } } m * m;
    }
  }

  /** Powers of a positive base are positive. */
  lemma {:induction false} PowPositive(b: real, k: nat)
    requires b > 0.0
    ensures Pow(b, k) > 0.0
  {
    if k > 0 {
      PowPositive(b, k - 1);
    }
  }

  /** Powers of a base above 1 strictly increase with the exponent. */
  lemma {:induction false} PowIncreasing(b: real, j: nat, k: nat)
    requires b > 1.0 && j < k
    ensures Pow(b, j) < Pow(b, k)
  {
    var p := Pow(b, k - 1);
    assert Pow(b, k) == p * b;
    PowPositive(b, k - 1);
    assert p * b - p == p * (b - 1.0);
    MulPositive(p, b - 1.0);
    if j < k - 1 {
      PowIncreasing(b, j, k - 1);
    }
  }

  /** Powers of a base in (0, 1) strictly decrease with the exponent. */
  lemma {:induction false} PowDecreasing(b: real, j: nat, k: nat)
    requires 0.0 < b < 1.0 && j < k
    ensures Pow(b, k) < Pow(b, j)
  {
    var p := Pow(b, k - 1);
    assert Pow(b, k) == p * b;
    PowPositive(b, k - 1);
    assert p - p * b == p * (1.0 - b);
    MulPositive(p, 1.0 - b);
    if j < k - 1 {
      PowDecreasing(b, j, k - 1);
    }
  }

  /** Moving one coordinate of `x` by `h` moves its scalar product with a
      coefficient vector `c` of the same length by `c[i]·h`. */
  lemma {:induction false} DotUpdate(c: seq<real>, x: seq<real>, i: nat, h: real)
    requires |c| == |x| && i < |x|
    ensures Dot(c, x[i := x[i] + h]) == Dot(c, x) + c[i] * h
  {
    if i > 0 {
      assert x[i := x[i] + h][1..] == x[1..][i - 1 := x[1..][i - 1] + h];
      DotUpdate(c[1..], x[1..], i - 1, h);
    } else {
      assert x[i := x[i] + h][1..] == x[1..];
    }
  }

  /** Moving one coordinate of `x` by `h` moves its sum of squares by
      `2·x[i]·h + h²`. */
  lemma {:induction false} SumSquaresUpdate(x: seq<real>, i: nat, h: real)
    requires i < |x|
    ensures SumSquares(x[i := x[i] + h]) == SumSquares(x) + 2.0 * x[i] * h + h * h
  {
    if i > 0 {
      assert x[i := x[i] + h][1..] == x[1..][i - 1 := x[1..][i - 1] + h];
      SumSquaresUpdate(x[1..], i - 1, h);
    } else {
      assert x[i := x[i] + h][1..] == x[1..];
      calc {
        (x[0] + h) * (x[0] + h);
        == x[0] * x[0] + 2.0 * x[0] * h + h * h;
      }
    }
  }

  /** A forward difference quotient: if `moved` exceeds `base` by `h·u`, the
      quotient `(moved - base) / h` is `u`. */
  lemma ForwardQuotient(h: real, base: real, moved: real, u: real)
    requires h != 0.0 && moved == base + h * u
    ensures (moved - base) / h == u
  {
    assert moved - base == h * u;
  }
}

/** The plateau test of `src/utils.rs`. */
module Utils {
  import opened Vectors

  /** True when every gradient component lies within `tolerance` in absolute
      value, tested component by component as `iter().all(...)` does. */
  predicate IsSaddlePoint(gradient: seq<real>, tolerance: real) {
    |gradient| == 0 || (Abs(gradient[0]) <= tolerance && IsSaddlePoint(gradient[1..], tolerance))
  }

  /** The test holds exactly when every component satisfies `|g[i]| <= tolerance`. */
  lemma {:induction false} SaddlePointIff(gradient: seq<real>, tolerance: real)
    ensures IsSaddlePoint(gradient, tolerance)
        <==> forall i :: 0 <= i < |gradient| ==> Abs(gradient[i]) <= tolerance
  {
    if |gradient| > 0 {
      SaddlePointIff(gradient[1..], tolerance);
      assert forall i :: 1 <= i < |gradient| ==> gradient[i] == gradient[1..][i - 1];
    }
  }

  /** An empty gradient is always flat. */
  lemma EmptyIsFlat(tolerance: real)
    ensures IsSaddlePoint([], tolerance)
  {
  }

  /** A single component beyond the tolerance, of either sign, makes the test fail. */
  lemma SteepComponent(gradient: seq<real>, i: nat, tolerance: real)
    requires i < |gradient| && (gradient[i] > tolerance || gradient[i] < -tolerance)
    ensures !IsSaddlePoint(gradient, tolerance)
  {
    SaddlePointIff(gradient, tolerance);
  }

  /** The bound is inclusive: components of absolute value exactly `tolerance` are flat. */
  lemma BoundaryIsFlat(gradient: seq<real>, tolerance: real)
    requires forall i :: 0 <= i < |gradient| ==> gradient[i] == tolerance || gradient[i] == -tolerance
    requires tolerance >= 0.0
    ensures IsSaddlePoint(gradient, tolerance)
  {
    SaddlePointIff(gradient, tolerance);
  }

  /** Flat at some tolerance means flat at every larger tolerance. */
  lemma {:induction false} Monotone(gradient: seq<real>, tolerance: real, larger: real)
    requires tolerance <= larger && IsSaddlePoint(gradient, tolerance)
    ensures IsSaddlePoint(gradient, larger)
  {
    if |gradient| > 0 {
      Monotone(gradient[1..], tolerance, larger);
    }
  }

  /** Negating the gradient does not change the verdict. */
  lemma {:induction false} NegationInvariant(gradient: seq<real>, tolerance: real)
    ensures IsSaddlePoint(Negated(gradient), tolerance) == IsSaddlePoint(gradient, tolerance)
  {
    if |gradient| > 0 {
      assert Negated(gradient)[1..] == Negated(gradient[1..]);
      NegationInvariant(gradient[1..], tolerance);
    }
  }

  /** The four cases of the unit test in `src/utils.rs`. */
  lemma UnitTestCases()
    ensures IsSaddlePoint([1.0, 2.0], 2.0)
    ensures IsSaddlePoint([1.0, -2.0], 2.0)
    ensures !IsSaddlePoint([1.0, 2.1], 2.0)
    ensures !IsSaddlePoint([1.0, -2.1], 2.0)
  {
    assert [1.0, 2.0][1..] == [2.0];
    assert [1.0, -2.0][1..] == [-2.0];
    assert [1.0, 2.1][1..] == [2.1];
    assert [1.0, -2.1][1..] == [-2.1];
  }
}

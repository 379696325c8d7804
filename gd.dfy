/** The full-batch gradient descent driver of `src/gd.rs`. */
module Gd {
  import opened Outcomes
  import opened Vectors
  import opened Utils
  import opened Types
  import opened LineSearches

  /** The driver's configuration. The source's builder consumes and returns the
      struct by value, so the setters here return an updated copy. */
  datatype GradientDescent = GradientDescent(lineSearch: LineSearch, gradientTolerance: real, maxIterations: Option<nat>)
  {
    /** The invariant that `new` establishes and the setters keep. */
    predicate Valid() {
      lineSearch.Valid() && gradientTolerance > 0.0 && (maxIterations.Some? ==> maxIterations.value > 0)
    }

    /** `line_search`: swaps the strategy, keeps tolerance and iteration cap. */
    function WithLineSearch(ls: LineSearch): (r: GradientDescent)
      ensures r.lineSearch == ls
      ensures r.gradientTolerance == gradientTolerance && r.maxIterations == maxIterations
      ensures Valid() && ls.Valid() ==> r.Valid()
    {
      GradientDescent(ls, gradientTolerance, maxIterations)
    }

    /** `gradient_tolerance`: panics unless the tolerance is positive; changes
        nothing but the tolerance. */
    function WithGradientTolerance(tolerance: real): (r: Checked<GradientDescent>)
      ensures r.Ok? <==> tolerance > 0.0
      ensures r.Ok? ==> (r.value.gradientTolerance == tolerance &&
        r.value.lineSearch == lineSearch && r.value.maxIterations == maxIterations)
      ensures r.Ok? && Valid() ==> r.value.Valid()
    {
      if tolerance > 0.0 then Ok(this.(gradientTolerance := tolerance))
      else Panic("assertion failed: gradient_tolerance > 0.0")
    }

    /** `max_iterations`: panics on `Some(0)`; changes nothing but the cap. */
    function WithMaxIterations(cap: Option<nat>): (r: Checked<GradientDescent>)
      ensures r.Ok? <==> (cap.None? || cap.value > 0)
      ensures r.Ok? ==> (r.value.maxIterations == cap &&
        r.value.lineSearch == lineSearch && r.value.gradientTolerance == gradientTolerance)
      ensures r.Ok? && Valid() ==> r.value.Valid()
    {
      if cap.None? || cap.value > 0 then Ok(this.(maxIterations := cap))
      else Panic("assertion failed: max_iterations > 0")
    }

    /** The run so far follows the algorithm: it starts at `start`, and each
        position is the result of searching from the previous one along its
        negated gradient, which was not flat. */
    predicate Follows(objective: Differentiable, start: seq<real>, trajectory: seq<seq<real>>, fuel: nat)
      requires Valid()
    {
      && |trajectory| >= 1
      && trajectory[0] == start
      && forall i :: 0 <= i < |trajectory| - 1 ==>
           && !IsSaddlePoint(objective.gradient(trajectory[i]), gradientTolerance)
           && lineSearch.SearchOutcome(objective, trajectory[i], Negated(objective.gradient(trajectory[i])), fuel)
                == Returned(trajectory[i + 1])
    }
  }

  /** `new`: Armijo(0.5, 1.0, 0.5), tolerance 1e-4, no iteration cap. */
  function New(): (r: GradientDescent)
    ensures r.Valid()
    ensures r.lineSearch == Armijo(ArmijoLineSearch(0.5, 1.0, 0.5))
    ensures r.gradientTolerance == 0.0001 && r.maxIterations == None
  {
    var armijo := NewArmijoLineSearch(0.5, 1.0, 0.5);
    GradientDescent(Armijo(armijo.value), 0.0001, None)
  }

  /** `minimize` with configuration `gd`. Stops at the first flat gradient
      or when the iteration counter reaches the cap. Without a cap the loop is bounded by `fuel`
      iterations, and each Armijo search by `fuel` backtracking steps. The
      ghost `trajectory` lists the visited positions, the start first; its
      length minus one is the number of line searches performed. */
  method Minimize(gd: GradientDescent, objective: Differentiable, initialPosition: seq<real>, fuel: nat)
    returns (r: Outcome<Solution>, ghost trajectory: seq<seq<real>>)
    requires gd.Valid()
    ensures gd.Follows(objective, initialPosition, trajectory, fuel)
    ensures !r.Panicked?
    ensures gd.maxIterations.Some? ==> |trajectory| - 1 <= gd.maxIterations.value
    ensures r.Returned? ==>
      && r.value.position == trajectory[|trajectory| - 1]
      && r.value.value == objective.value(r.value.position)
      && (IsSaddlePoint(objective.gradient(r.value.position), gd.gradientTolerance)
          || gd.maxIterations == Some(|trajectory| - 1))
    ensures r.OutOfFuel? ==>
      var last := trajectory[|trajectory| - 1];
      && !IsSaddlePoint(objective.gradient(last), gd.gradientTolerance)
      && ((gd.maxIterations.None? && |trajectory| - 1 == fuel)
          || gd.lineSearch.SearchOutcome(objective, last, Negated(objective.gradient(last)), fuel).OutOfFuel?)
    ensures IsSaddlePoint(objective.gradient(initialPosition), gd.gradientTolerance) ==>
      r == Returned(Solution(initialPosition, objective.value(initialPosition))) && trajectory == [initialPosition]
  {
    var position := initialPosition;
    var value := objective.value(position);
    var iteration: nat := 0;
    trajectory := [position];
    while true
      invariant |trajectory| == iteration + 1 && trajectory[iteration] == position
      invariant gd.Follows(objective, initialPosition, trajectory, fuel)
      invariant value == objective.value(position)
      invariant gd.maxIterations.Some? ==> iteration < gd.maxIterations.value
      invariant gd.maxIterations.None? ==> iteration <= fuel
      decreases if gd.maxIterations.Some? then gd.maxIterations.value - iteration else fuel - iteration
    {
      var gradient := objective.gradient(position);
      if IsSaddlePoint(gradient, gd.gradientTolerance) {
        return Returned(Solution(position, value)), trajectory;
      }
      if gd.maxIterations.None? && iteration == fuel {
        return OutOfFuel, trajectory;
      }
      var direction := Negated(gradient);
      SaddlePointIff(gradient, gd.gradientTolerance);
      SteepestDescentNeverPanics(gd.lineSearch, objective, position, gd.gradientTolerance, fuel);
      var found := gd.lineSearch.Search(objective, position, direction, fuel);
      if found.OutOfFuel? {
        return OutOfFuel, trajectory;
      }
      position := found.value;
      value := objective.value(position);
      iteration := iteration + 1;
      trajectory := trajectory + [position];
      if gd.maxIterations == Some(iteration) {
        return Returned(Solution(position, value)), trajectory;
      }
    }
  }
}

/** The stochastic gradient descent configuration of `src/sgd.rs`. Its
    setters change the object in place through `&mut self`. */
module Sgd {
  import opened Outcomes
  import opened Types
  import opened LineSearches

  class StochasticGradientDescent {
    var lineSearch: LineSearch
    var gradientTolerance: real
    var maxIterations: Option<nat>
    var miniBatch: nat

    /** The configuration invariant: `new` establishes it and the setters keep it. */
    ghost predicate Valid()
      reads this
    {
      && lineSearch.Valid()
      && gradientTolerance > 0.0
      && (maxIterations.Some? ==> maxIterations.value > 0)
      && miniBatch > 0
    }

    /** `new`: a fixed step of 0.01, tolerance 1e-4, no iteration cap and
        mini batches of one term. */
    constructor ()
      ensures Valid()
      ensures lineSearch == Fixed(NoLineSearch(0.01))
      ensures gradientTolerance == 0.0001 && maxIterations == None && miniBatch == 1
    {
      lineSearch := Fixed(NoLineSearch(0.01));
      gradientTolerance := 0.0001;
      maxIterations := None;
      miniBatch := 1;
    }

    /** The struct literal that `line_search` builds. */
    constructor FromParts(lineSearch: LineSearch, gradientTolerance: real, maxIterations: Option<nat>, miniBatch: nat)
      ensures this.lineSearch == lineSearch && this.gradientTolerance == gradientTolerance
      ensures this.maxIterations == maxIterations && this.miniBatch == miniBatch
    {
      this.lineSearch := lineSearch;
      this.gradientTolerance := gradientTolerance;
      this.maxIterations := maxIterations;
      this.miniBatch := miniBatch;
    }

    /** `line_search`: a new configuration with the given strategy and the
        same tolerance, cap and mini-batch size. */
    method WithLineSearch(ls: LineSearch) returns (r: StochasticGradientDescent)
      ensures fresh(r)
      ensures r.lineSearch == ls
      ensures r.gradientTolerance == gradientTolerance && r.maxIterations == maxIterations && r.miniBatch == miniBatch
      ensures Valid() && ls.Valid() ==> r.Valid()
    {
      r := new StochasticGradientDescent.FromParts(ls, gradientTolerance, maxIterations, miniBatch);
    }

    /** `gradient_tolerance`: panics unless the tolerance is positive, and
        otherwise sets it and nothing else. */
    method GradientTolerance(tolerance: real) returns (r: Checked<()>)
      modifies this
      ensures r.Ok? <==> tolerance > 0.0
      ensures gradientTolerance == (if r.Ok? then tolerance else old(gradientTolerance))
      ensures lineSearch == old(lineSearch) && maxIterations == old(maxIterations) && miniBatch == old(miniBatch)
      ensures old(Valid()) ==> Valid()
    {
      if !(tolerance > 0.0) {
        return Panic("assertion failed: gradient_tolerance > 0.0");
      }
      gradientTolerance := tolerance;
      r := Ok(());
    }

    /** `max_iterations`: panics on `Some(0)`, and otherwise sets the cap and
        nothing else. */
    method MaxIterations(cap: Option<nat>) returns (r: Checked<()>)
      modifies this
      ensures r.Ok? <==> (cap.None? || cap.value > 0)
      ensures maxIterations == (if r.Ok? then cap else old(maxIterations))
      ensures lineSearch == old(lineSearch) && gradientTolerance == old(gradientTolerance) && miniBatch == old(miniBatch)
      ensures old(Valid()) ==> Valid()
    {
      if !(cap.None? || cap.value > 0) {
        return Panic("assertion failed: max_iterations > 0");
      }
      maxIterations := cap;
      r := Ok(());
    }

    /** `mini_batch`: panics unless the size is positive, and otherwise sets
        it and nothing else. */
    method MiniBatch(size: nat) returns (r: Checked<()>)
      modifies this
      ensures r.Ok? <==> size > 0
      ensures miniBatch == (if r.Ok? then size else old(miniBatch))
      ensures lineSearch == old(lineSearch) && gradientTolerance == old(gradientTolerance) && maxIterations == old(maxIterations)
      ensures old(Valid()) ==> Valid()
    {
      if size == 0 {
        return Panic("assertion failed: mini_batch > 0");
      }
      miniBatch := size;
      r := Ok(());
    }

    /** `minimize` in its current form: it evaluates the partial value over
        every term index, discards it, and reports the start with value 0. */
    method Minimize(objective: Summation, initialPosition: seq<real>) returns (solution: Solution)
      ensures solution.position == initialPosition && solution.value == 0.0
    {
      var indices := Range(|objective.Terms()|);
      var discarded := PartialValue(objective.Terms(), initialPosition, indices);
      solution := Solution(initialPosition, 0.0);
    }
  }
}

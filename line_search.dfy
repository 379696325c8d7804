/** The three step-width strategies of `src/line_search.rs`. */
module LineSearches {
  import opened Outcomes
  import opened Vectors
  import opened Types

  // ---------------------------------------------------------------------------
  // Fixed step width (`NoLineSearch`)
  // ---------------------------------------------------------------------------

  /** Steps by a fixed width `γ` instead of searching. */
  datatype NoLineSearch = NoLineSearch(fixedStepWidth: real)
  {
    /** What `new` checks: the step width is positive. */
    predicate Valid() {
      fixedStepWidth > 0.0
    }

    /** `search`: `x + γ·d` over the common prefix of `x` and `d`; the objective
        is not consulted. */
    function Search(objective: Differentiable, x: seq<real>, d: seq<real>): (r: seq<real>)
      ensures |r| == Min(|x|, |d|)
      ensures forall i :: 0 <= i < |r| ==> r[i] == x[i] + fixedStepWidth * d[i]
    {
      Shifted(x, d, fixedStepWidth)
    }
  }

  /** `NoLineSearch::new`: panics unless the step width is positive. */
  function NewNoLineSearch(fixedStepWidth: real): (r: Checked<NoLineSearch>)
    ensures r.Ok? <==> fixedStepWidth > 0.0
    ensures r.Ok? ==> r.value.Valid() && r.value.fixedStepWidth == fixedStepWidth
  {
    if fixedStepWidth > 0.0 then Ok(NoLineSearch(fixedStepWidth))
    else Panic("fixed_step_width must be greater than 0 and finite")
  }

  /** The fixed-step result does not depend on the objective. */
  lemma FixedIgnoresObjective(ls: NoLineSearch, f: Differentiable, g: Differentiable, x: seq<real>, d: seq<real>)
    ensures ls.Search(f, x, d) == ls.Search(g, x, d)
  {
  }

  // ---------------------------------------------------------------------------
  // Exact (grid) line search
  // ---------------------------------------------------------------------------

  /** Tries the step widths `start · factorᵏ` below `stop` and keeps the best point. */
  datatype ExactLineSearch = ExactLineSearch(startStepWidth: real, stopStepWidth: real, increaseFactor: real)
  {
    /** What `new` checks: `0 < start < stop` and `factor > 1`. */
    predicate Valid() {
      0.0 < startStepWidth < stopStepWidth && increaseFactor > 1.0
    }

    /** The `k`-th step width, `start · factorᵏ`. */
    function Candidate(k: nat): real {
      startStepWidth * Pow(increaseFactor, k)
    }

    /** An index whose step width has reached `stop`: by Bernoulli's inequality
        `start · factorᵏ >= start + k · start · (factor - 1)`. */
    function StepBound(): (n: nat)
      requires Valid()
      ensures n >= 1
    {
      GrowthPositive();
      var quotient := (stopStepWidth - startStepWidth) / Growth();
      assert quotient > 0.0;
      quotient.Floor + 1
    }

    /** The least growth of the step width per iteration, `start · (factor - 1)`. */
    function Growth(): real {
      startStepWidth * (increaseFactor - 1.0)
    }

    lemma GrowthPositive()
      requires Valid()
      ensures Growth() > 0.0
    {
      MulPositive(startStepWidth, increaseFactor - 1.0);
    }

    /** The first index from `k` on whose step width has reached `stop`. */
    function CountFrom(k: nat): nat
      requires Valid() && 1 <= k <= StepBound()
      decreases StepBound() - k
    {
      if k == StepBound() || Candidate(k) >= stopStepWidth then k else CountFrom(k + 1)
    }

    /** How many step widths the loop tries: the first index whose step width
        has reached `stop`. */
    function TriedCount(): nat
      requires Valid()
    {
      CountFrom(1)
    }

    /** The point the loop holds after trying the first `n` step widths: a
        candidate replaces the held point only when its value is strictly lower. */
    function BestOf(objective: Function, x: seq<real>, d: seq<real>, n: nat): seq<real> {
      if n == 0 then x
      else
        var previous := BestOf(objective, x, d, n - 1);
        var candidate := Shifted(x, d, Candidate(n - 1));
        if objective(candidate) < objective(previous) then candidate else previous
    }

    /** Which step width produced `BestOf(..., n)`, or -1 for the start position. */
    function BestIndex(objective: Function, x: seq<real>, d: seq<real>, n: nat): int {
      if n == 0 then -1
      else if objective(Shifted(x, d, Candidate(n - 1))) < objective(BestOf(objective, x, d, n - 1)) then n - 1
      else BestIndex(objective, x, d, n - 1)
    }

    /** The position `search` returns. */
    function Chosen(objective: Differentiable, x: seq<real>, d: seq<real>): seq<real>
      requires Valid()
    {
      BestOf(objective.value, x, d, TriedCount())
    }

    /** `search`: the loop that multiplies the step width by the factor until it
        reaches `stop`, keeping the best position seen. */
    method Search(objective: Differentiable, x: seq<real>, d: seq<real>) returns (r: seq<real>)
      requires Valid()
      ensures r == Chosen(objective, x, d)
    {
      TriedCountSpec();
      var minPosition := x;
      var minValue := objective.value(x);
      var stepWidth := startStepWidth;
      var k: nat := 0;
      while true
        invariant k < TriedCount()
        invariant stepWidth == Candidate(k)
        invariant minPosition == BestOf(objective.value, x, d, k)
        invariant minValue == objective.value(minPosition)
        decreases TriedCount() - k
      {
        var position := Shifted(x, d, stepWidth);
        var value := objective.value(position);
        if value < minValue {
          minPosition := position;
          minValue := value;
        }
        CandidateNext(k);
        stepWidth := stepWidth * increaseFactor;
        k := k + 1;
        if stepWidth >= stopStepWidth {
          assert k == TriedCount();
          break;
        }
        assert Candidate(k) < stopStepWidth;
      }
      r := minPosition;
    }

    /** The bound of `StepBound` is reached. */
    lemma StepBoundReached()
      requires Valid()
      ensures Candidate(StepBound()) >= stopStepWidth
    {
      var n := StepBound();
      GrowthPositive();
      var quotient := (stopStepWidth - startStepWidth) / Growth();
      assert (n as real) > quotient;
      calc {
        Candidate(n);
        == startStepWidth * Pow(increaseFactor, n);
        >= { PowAboveOne(increaseFactor, n);
             MulMonotone(startStepWidth, Pow(increaseFactor, n), 1.0 + (n as real) * (increaseFactor - 1.0)); }
           startStepWidth * (1.0 + (n as real) * (increaseFactor - 1.0));
        == startStepWidth + Growth() * (n as real);
        >= { MulMonotone(Growth(), n as real, quotient); }
           startStepWidth + Growth() * quotient;
        == stopStepWidth;
      }
    }

    lemma CandidateNext(k: nat)
      ensures Candidate(k + 1) == Candidate(k) * increaseFactor
    {
      calc {
        Candidate(k + 1);
        == startStepWidth * (Pow(increaseFactor, k) * increaseFactor);
        == (startStepWidth * Pow(increaseFactor, k)) * increaseFactor;
      }
    }

    /** Step widths strictly increase with their index. */
    lemma CandidateIncreasing(j: nat, k: nat)
      requires Valid() && j < k
      ensures Candidate(j) < Candidate(k)
    {
      PowIncreasing(increaseFactor, j, k);
      calc {
        Candidate(k) - Candidate(j);
        == startStepWidth * (Pow(increaseFactor, k) - Pow(increaseFactor, j));
        > { MulPositive(startStepWidth, Pow(increaseFactor, k) - Pow(increaseFactor, j)); } 0.0;
      }
    }

    lemma {:induction false} CountFromSpec(k: nat)
      requires Valid() && 1 <= k <= StepBound()
      ensures k <= CountFrom(k) <= StepBound()
      ensures Candidate(CountFrom(k)) >= stopStepWidth
      ensures forall j :: k <= j < CountFrom(k) ==> Candidate(j) < stopStepWidth
      decreases StepBound() - k
    {
      if k == StepBound() {
        StepBoundReached();
      } else if Candidate(k) < stopStepWidth {
        CountFromSpec(k + 1);
      }
    }

    /** The loop tries exactly the step widths below `stop`: at least one, and
        no more than `StepBound()` of them, so it terminates. */
    lemma TriedCountSpec()
      requires Valid()
      ensures 1 <= TriedCount() <= StepBound()
      ensures Candidate(TriedCount()) >= stopStepWidth
      ensures forall k: nat :: k < TriedCount() <==> Candidate(k) < stopStepWidth
    {
      CountFromSpec(1);
      var n := TriedCount();
      assert Candidate(0) == startStepWidth;
      forall k: nat | n < k
        ensures Candidate(k) >= stopStepWidth
      {
        CandidateIncreasing(n, k);
      }
    }

    /** What the loop keeps: the start position or the position of one tried
        step width; it is never worse than the start position nor than any
        tried candidate; it is the earliest point of minimal value, since a
        later candidate replaces it only when strictly better. */
    lemma {:induction false} BestOfSpec(objective: Function, x: seq<real>, d: seq<real>, n: nat)
      ensures -1 <= BestIndex(objective, x, d, n) < n
      ensures BestOf(objective, x, d, n)
        == if BestIndex(objective, x, d, n) < 0 then x
           else Shifted(x, d, Candidate(BestIndex(objective, x, d, n)))
      ensures objective(BestOf(objective, x, d, n)) <= objective(x)
      ensures forall k :: 0 <= k < n ==>
        objective(BestOf(objective, x, d, n)) <= objective(Shifted(x, d, Candidate(k)))
      ensures BestIndex(objective, x, d, n) < 0 ==>
        forall k :: 0 <= k < n ==> objective(Shifted(x, d, Candidate(k))) >= objective(x)
      ensures BestIndex(objective, x, d, n) >= 0 ==>
        objective(BestOf(objective, x, d, n)) < objective(x) &&
        forall k :: 0 <= k < BestIndex(objective, x, d, n) ==>
          objective(Shifted(x, d, Candidate(k))) > objective(BestOf(objective, x, d, n))
    {
      if n > 0 {
        BestOfSpec(objective, x, d, n - 1);
      }
    }
  }

  /** `ExactLineSearch::new`: panics unless `0 < start < stop` and `factor > 1`. */
  function NewExactLineSearch(startStepWidth: real, stopStepWidth: real, increaseFactor: real): (r: Checked<ExactLineSearch>)
    ensures r.Ok? <==> 0.0 < startStepWidth < stopStepWidth && increaseFactor > 1.0
    ensures r.Ok? ==> r.value.Valid() && r.value == ExactLineSearch(startStepWidth, stopStepWidth, increaseFactor)
  {
    if !(startStepWidth > 0.0) then Panic("start_step_width must be greater than 0 and finite")
    else if !(stopStepWidth > startStepWidth) then Panic("stop_step_width must be greater than start_step_width")
    else if !(increaseFactor > 1.0) then Panic("increase_factor must be greater than 1 and finite")
    else Ok(ExactLineSearch(startStepWidth, stopStepWidth, increaseFactor))
  }

  /** The exact search never returns a point worse than the start, nor worse
      than `x + γ·d` for any tried `γ`, i.e. any `γ = start · factorᵏ < stop`;
      the point it returns is the start itself or one of those. */
  lemma ExactSearchNeverWorse(ls: ExactLineSearch, f: Differentiable, x: seq<real>, d: seq<real>)
    requires ls.Valid()
    ensures f.value(ls.Chosen(f, x, d)) <= f.value(x)
    ensures forall k: nat :: ls.Candidate(k) < ls.stopStepWidth ==>
      f.value(ls.Chosen(f, x, d)) <= f.value(Shifted(x, d, ls.Candidate(k)))
    ensures ls.Chosen(f, x, d) == x ||
      exists k: nat :: ls.Candidate(k) < ls.stopStepWidth && ls.Chosen(f, x, d) == Shifted(x, d, ls.Candidate(k))
  {
    ls.TriedCountSpec();
    ls.BestOfSpec(f.value, x, d, ls.TriedCount());
  }

  // ---------------------------------------------------------------------------
  // Armijo backtracking line search
  // ---------------------------------------------------------------------------

  /** Shrinks the step width geometrically until the Armijo sufficient-decrease
      test passes. */
  datatype ArmijoLineSearch = ArmijoLineSearch(controlParameter: real, initialStepWidth: real, decayFactor: real)
  {
    /** What `new` checks: control and decay in (0, 1), initial step width positive. */
    predicate Valid() {
      0.0 < controlParameter < 1.0 && initialStepWidth > 0.0 && 0.0 < decayFactor < 1.0
    }

    /** The `k`-th step width, `initial · decayᵏ`. */
    function StepWidth(k: nat): real {
      initialStepWidth * Pow(decayFactor, k)
    }

    /** The threshold slope `t = -control · (∇f(x)·d)`. */
    function Slope(objective: Differentiable, x: seq<real>, d: seq<real>): real {
      -controlParameter * Dot(objective.gradient(x), d)
    }

    /** The Armijo test for the `k`-th step width: `f(x + γ·d) <= f(x) - γ·t`. */
    predicate Accepts(objective: Differentiable, x: seq<real>, d: seq<real>, k: nat) {
      objective.value(Shifted(x, d, StepWidth(k)))
        <= objective.value(x) - StepWidth(k) * Slope(objective, x, d)
    }

    /** The first index from `k` on, among the next `fuel` ones, that passes the test. */
    function FirstAccepted(objective: Differentiable, x: seq<real>, d: seq<real>, k: nat, fuel: nat): Option<nat>
      decreases fuel
    {
      if fuel == 0 then None
      else if Accepts(objective, x, d, k) then Some(k)
      else FirstAccepted(objective, x, d, k + 1, fuel - 1)
    }

    /** The outcome of `search` when the loop may run `fuel` times: a panic when
        `d` is not a descent direction (`t <= 0`), else `x + γₖ·d` for the first
        accepted index `k`. */
    function Accepted(objective: Differentiable, x: seq<real>, d: seq<real>, fuel: nat): Outcome<seq<real>> {
      if !(Slope(objective, x, d) > 0.0) then Panicked
      else match FirstAccepted(objective, x, d, 0, fuel)
        case None => OutOfFuel
        case Some(k) => Returned(Shifted(x, d, StepWidth(k)))
    }

    /** `search`: asserts the descent condition, then loops shrinking the step width. */
    method Search(objective: Differentiable, x: seq<real>, d: seq<real>, fuel: nat) returns (r: Outcome<seq<real>>)
      ensures r == Accepted(objective, x, d, fuel)
    {
      var initialValue := objective.value(x);
      var gradient := objective.gradient(x);
      var m := Dot(gradient, d);
      var t := -controlParameter * m;
      if !(t > 0.0) {
        return Panicked;
      }
      var stepWidth := initialStepWidth;
      var k: nat := 0;
      while k < fuel
        invariant k <= fuel && stepWidth == StepWidth(k)
        invariant FirstAccepted(objective, x, d, 0, fuel) == FirstAccepted(objective, x, d, k, fuel - k)
      {
        var position := Shifted(x, d, stepWidth);
        var value := objective.value(position);
        if value <= initialValue - stepWidth * t {
          return Returned(position);
        }
        stepWidth := stepWidth * decayFactor;
        k := k + 1;
      }
      return OutOfFuel;
    }

    lemma {:induction false} FirstAcceptedSpec(objective: Differentiable, x: seq<real>, d: seq<real>, k: nat, fuel: nat)
      ensures FirstAccepted(objective, x, d, k, fuel).Some? ==>
        var j := FirstAccepted(objective, x, d, k, fuel).value;
        k <= j < k + fuel && Accepts(objective, x, d, j) &&
        forall i :: k <= i < j ==> !Accepts(objective, x, d, i)
      ensures FirstAccepted(objective, x, d, k, fuel).None? ==>
        forall i :: k <= i < k + fuel ==> !Accepts(objective, x, d, i)
      decreases fuel
    {
      if fuel > 0 && !Accepts(objective, x, d, k) {
        FirstAcceptedSpec(objective, x, d, k + 1, fuel - 1);
      }
    }

    /** Step widths strictly decrease with their index and stay positive. */
    lemma StepWidthDecreasing(j: nat, k: nat)
      requires Valid() && j < k
      ensures 0.0 < StepWidth(k) < StepWidth(j)
    {
      PowPositive(decayFactor, k);
      MulPositive(initialStepWidth, Pow(decayFactor, k));
      PowDecreasing(decayFactor, j, k);
      calc {
        StepWidth(j) - StepWidth(k);
        == initialStepWidth * (Pow(decayFactor, j) - Pow(decayFactor, k));
        > { MulPositive(initialStepWidth, Pow(decayFactor, j) - Pow(decayFactor, k)); } 0.0;
      }
    }
  }

  /** `ArmijoLineSearch::new`: panics unless control and decay lie in (0, 1)
      and the initial step width is positive. */
  function NewArmijoLineSearch(controlParameter: real, initialStepWidth: real, decayFactor: real): (r: Checked<ArmijoLineSearch>)
    ensures r.Ok? <==> 0.0 < controlParameter < 1.0 && initialStepWidth > 0.0 && 0.0 < decayFactor < 1.0
    ensures r.Ok? ==> r.value.Valid() && r.value == ArmijoLineSearch(controlParameter, initialStepWidth, decayFactor)
  {
    if !(controlParameter > 0.0 && controlParameter < 1.0) then Panic("control_parameter must be in range (0, 1)")
    else if !(initialStepWidth > 0.0) then Panic("initial_step_width must be > 0 and finite")
    else if !(decayFactor > 0.0 && decayFactor < 1.0) then Panic("decay_factor must be in range (0, 1)")
    else Ok(ArmijoLineSearch(controlParameter, initialStepWidth, decayFactor))
  }

  /** Armijo panics exactly when `d` is not a descent direction. When it
      returns, the result is `x + γ·d` for `γ = initial · decayᵏ` with `k` the
      first index passing the Armijo test, so `γ` is the largest step width of
      the decay sequence that passes. When the loop runs out of fuel, no
      index below the fuel passes. */
  lemma ArmijoSearchSpec(ls: ArmijoLineSearch, f: Differentiable, x: seq<real>, d: seq<real>, fuel: nat)
    requires ls.Valid()
    ensures ls.Accepted(f, x, d, fuel).Panicked? <==> ls.Slope(f, x, d) <= 0.0
    ensures ls.Accepted(f, x, d, fuel).Returned? ==>
      exists k: nat :: k < fuel && ls.Accepted(f, x, d, fuel).value == Shifted(x, d, ls.StepWidth(k)) &&
        ls.Accepts(f, x, d, k) &&
        forall j: nat :: ls.Accepts(f, x, d, j) ==> ls.StepWidth(j) <= ls.StepWidth(k)
    ensures ls.Accepted(f, x, d, fuel).OutOfFuel? ==>
      ls.Slope(f, x, d) > 0.0 && forall j: nat :: j < fuel ==> !ls.Accepts(f, x, d, j)
  {
    ls.FirstAcceptedSpec(f, x, d, 0, fuel);
    var first := ls.FirstAccepted(f, x, d, 0, fuel);
    if ls.Slope(f, x, d) > 0.0 && first.Some? {
      var k := first.value;
      forall j: nat | ls.Accepts(f, x, d, j)
        ensures ls.StepWidth(j) <= ls.StepWidth(k)
      {
        if j > k {
          ls.StepWidthDecreasing(k, j);
        }
      }
    }
  }

  /** More fuel never changes a search that returned: the fuel only bounds the loop. */
  lemma {:induction false} ArmijoFuelIrrelevant(ls: ArmijoLineSearch, f: Differentiable, x: seq<real>, d: seq<real>, fuel: nat, more: nat)
    requires fuel <= more && ls.Accepted(f, x, d, fuel).Returned?
    ensures ls.Accepted(f, x, d, more) == ls.Accepted(f, x, d, fuel)
  {
    FirstAcceptedMonotone(ls, f, x, d, 0, fuel, more);
  }

  lemma {:induction false} FirstAcceptedMonotone(ls: ArmijoLineSearch, f: Differentiable, x: seq<real>, d: seq<real>, k: nat, fuel: nat, more: nat)
    requires fuel <= more && ls.FirstAccepted(f, x, d, k, fuel).Some?
    ensures ls.FirstAccepted(f, x, d, k, more) == ls.FirstAccepted(f, x, d, k, fuel)
    decreases fuel
  {
    if !ls.Accepts(f, x, d, k) {
      FirstAcceptedMonotone(ls, f, x, d, k + 1, fuel - 1, more - 1);
    }
  }

  // ---------------------------------------------------------------------------
  // The strategies as one choice
  // ---------------------------------------------------------------------------

  /** A line search strategy, one of the three implementations of the `LineSearch` trait. */
  datatype LineSearch = Fixed(fixed: NoLineSearch) | Exact(exact: ExactLineSearch) | Armijo(armijo: ArmijoLineSearch)
  {
    predicate Valid() {
      match this
      case Fixed(l) => l.Valid()
      case Exact(l) => l.Valid()
      case Armijo(l) => l.Valid()
    }

    /** The outcome of `search` for the chosen strategy; only Armijo's loop
        needs the fuel bound and only Armijo can panic. */
    function SearchOutcome(objective: Differentiable, x: seq<real>, d: seq<real>, fuel: nat): Outcome<seq<real>>
      requires Valid()
    {
      match this
      case Fixed(l) => Returned(l.Search(objective, x, d))
      case Exact(l) => Returned(l.Chosen(objective, x, d))
      case Armijo(l) => l.Accepted(objective, x, d, fuel)
    }

    /** `search`, dispatched to the chosen strategy. */
    method Search(objective: Differentiable, x: seq<real>, d: seq<real>, fuel: nat) returns (r: Outcome<seq<real>>)
      requires Valid()
      ensures r == SearchOutcome(objective, x, d, fuel)
    {
      match this
      case Fixed(l) =>
        r := Returned(l.Search(objective, x, d));
      case Exact(l) =>
        var p := l.Search(objective, x, d);
        r := Returned(p);
      case Armijo(l) =>
        r := l.Search(objective, x, d, fuel);
    }
  }

  /** Along the negated gradient the Armijo slope is `c·|g|²`, positive
      whenever the gradient is not zero. */
  lemma SteepestSlopePositive(armijo: ArmijoLineSearch, f: Differentiable, x: seq<real>, i: nat)
    requires armijo.Valid() && i < |f.gradient(x)| && f.gradient(x)[i] != 0.0
    ensures armijo.Slope(f, x, Negated(f.gradient(x))) > 0.0
  {
    var g := f.gradient(x);
    SumSquaresPositive(g, i);
    DotNegated(g);
    calc {
      armijo.Slope(f, x, Negated(g));
      == -armijo.controlParameter * Dot(g, Negated(g));
      == armijo.controlParameter * SumSquares(g);
      > { MulPositive(armijo.controlParameter, SumSquares(g)); } 0.0;
    }
  }

  /** Searching along the negated gradient never trips Armijo's descent
      assertion, as long as the gradient is not flat: `t = control · |∇f(x)|² > 0`. */
  lemma SteepestDescentNeverPanics(ls: LineSearch, f: Differentiable, x: seq<real>, tolerance: real, fuel: nat)
    requires ls.Valid() && tolerance >= 0.0
    requires exists i :: 0 <= i < |f.gradient(x)| && Abs(f.gradient(x)[i]) > tolerance
    ensures !ls.SearchOutcome(f, x, Negated(f.gradient(x)), fuel).Panicked?
  {
    if ls.Armijo? {
      var i :| 0 <= i < |f.gradient(x)| && Abs(f.gradient(x)[i]) > tolerance;
      SteepestSlopePositive(ls.armijo, f, x, i);
    }
  }
}

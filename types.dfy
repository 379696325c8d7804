/** The objective abstraction and the summation objective of `src/types.rs`. */
module Types {
  import opened Vectors

  /** A value-only objective, the `Function` trait: a pure map from positions to values. */
  type Function = seq<real> -> real

  /** An analytically differentiable objective, the `DifferentiableFunction` trait. */
  datatype Differentiable = Differentiable(value: Function, gradient: seq<real> -> seq<real>)
  {
    /** `probe` evaluates value and gradient at the same position. */
    function Probe(position: seq<real>): (r: (real, seq<real>))
      ensures r.0 == value(position) && r.1 == gradient(position)
    {
      (value(position), gradient(position))
    }
  }

  /** The result of a minimisation run: a position and the objective's value there. */
  datatype Solution = Solution(position: seq<real>, value: real)

  /** The zero vector of length `n`, `vec![0.0; n]`. */
  function Zeros(n: nat): seq<real> {
    seq(n, _ => 0.0)
  }

  /** `acc` with `g` added component-wise over their common prefix; components of
      `acc` beyond the end of `g` are left alone, as the `zip` in the source leaves them. */
  function AddInto(acc: seq<real>, g: seq<real>): seq<real> {
    seq(|acc|, j requires 0 <= j < |acc| => if j < |g| then acc[j] + g[j] else acc[j])
  }

  /** Component `j` of `g`, or 0.0 when `g` is too short to have one. */
  function Component(g: seq<real>, j: nat): real {
    if j < |g| then g[j] else 0.0
  }

  /** The sum of the terms' values, accumulated from the first term to the last. */
  function SumValues(terms: seq<Differentiable>, x: seq<real>): real {
    if |terms| == 0 then 0.0
    else SumValues(terms[..|terms| - 1], x) + terms[|terms| - 1].value(x)
  }

  /** The summed gradient: a zero vector of the position's length into which
      every term's gradient is added in turn. */
  function SumGradients(terms: seq<Differentiable>, x: seq<real>): (r: seq<real>)
    ensures |r| == |x|
  {
    if |terms| == 0 then Zeros(|x|)
    else AddInto(SumGradients(terms[..|terms| - 1], x), terms[|terms| - 1].gradient(x))
  }

  /** Reference definition: the sum over the terms of their `j`-th gradient component. */
  function ComponentSum(terms: seq<Differentiable>, x: seq<real>, j: nat): real {
    if |terms| == 0 then 0.0
    else ComponentSum(terms[..|terms| - 1], x, j) + Component(terms[|terms| - 1].gradient(x), j)
  }

  /** The sum of the values of the terms at the listed indices (repetitions count repeatedly). */
  function PartialValue(terms: seq<Differentiable>, x: seq<real>, indices: seq<nat>): real
    requires forall k :: 0 <= k < |indices| ==> indices[k] < |terms|
  {
    if |indices| == 0 then 0.0
    else PartialValue(terms, x, indices[..|indices| - 1]) + terms[indices[|indices| - 1]].value(x)
  }

  /** The indices `0..n`. */
  function Range(n: nat): (r: seq<nat>)
    ensures |r| == n && forall k :: 0 <= k < n ==> r[k] == k
  {
    seq(n, k requires 0 <= k < n => k)
  }

  /** A sum of objectives, `f(x) = Σᵢ fᵢ(x)`. The source also sums
      value-only terms (its `Function` impl needs only `F: Function`); here
      every term carries a gradient, and `Value` reads only the terms'
      values, so a value-only term is one whose gradient is never used. */
  datatype Summation = Summation(terms: seq<Differentiable>)
  {
    /** `terms()` hands back the terms the summation was built from. */
    function Terms(): (r: seq<Differentiable>)
      ensures Summation(r) == this
    {
      terms
    }

    /** `value`: adds up the terms' values in a loop, starting from 0.0. */
    method Value(position: seq<real>) returns (value: real)
      ensures value == SumValues(terms, position)
    {
      value := 0.0;
      for k := 0 to |terms|
        invariant value == SumValues(terms[..k], position)
      {
        assert terms[..k + 1][..k] == terms[..k];
        value := value + terms[k].value(position);
      }
      assert terms[..|terms|] == terms;
    }

    /** `gradient`: adds every term's gradient into a zero buffer of the
        position's length, in place. */
    method Gradient(position: seq<real>) returns (gradient: seq<real>)
      ensures gradient == SumGradients(terms, position)
    {
      var buffer := new real[|position|](_ => 0.0);
      assert buffer[..] == Zeros(|position|);
      for k := 0 to |terms|
        invariant buffer.Length == |position|
        invariant buffer[..] == SumGradients(terms[..k], position)
      {
        var termGradient := terms[k].gradient(position);
        ghost var before := buffer[..];
        var j := 0;
        while j < buffer.Length && j < |termGradient|
          invariant 0 <= j <= buffer.Length && j <= |termGradient|
          invariant forall i :: 0 <= i < buffer.Length ==>
            buffer[i] == (if i < j then before[i] + termGradient[i] else before[i])
        {
          buffer[j] := buffer[j] + termGradient[j];
          j := j + 1;
        }
        assert terms[..k + 1][..k] == terms[..k];
        assert buffer[..] == AddInto(before, termGradient);
      }
      assert terms[..|terms|] == terms;
      gradient := buffer[..];
    }
  }

  /** The summed gradient has one component per coordinate of the position, and
      component `j` is the sum of the terms' `j`-th components (0.0 for a term
      whose gradient is shorter). */
  lemma {:induction false} SumGradientsComponents(terms: seq<Differentiable>, x: seq<real>)
    ensures forall j :: 0 <= j < |x| ==> SumGradients(terms, x)[j] == ComponentSum(terms, x, j)
  {
    if |terms| > 0 {
      SumGradientsComponents(terms[..|terms| - 1], x);
    }
  }

  /** With no terms the value is 0.0 and the gradient is the zero vector. */
  lemma NoTerms(x: seq<real>)
    ensures SumValues([], x) == 0.0 && SumGradients([], x) == Zeros(|x|)
  {
  }

  /** The summed value of a concatenation is the sum of the summed values. */
  lemma {:induction false} SumValuesAppend(a: seq<Differentiable>, b: seq<Differentiable>, x: seq<real>)
    ensures SumValues(a + b, x) == SumValues(a, x) + SumValues(b, x)
  {
    if |b| == 0 {
      assert a + b == a;
    } else {
      assert (a + b)[..|a + b| - 1] == a + b[..|b| - 1];
      SumValuesAppend(a, b[..|b| - 1], x);
    }
  }

  lemma {:induction false} ComponentSumAppend(a: seq<Differentiable>, b: seq<Differentiable>, x: seq<real>, j: nat)
    ensures ComponentSum(a + b, x, j) == ComponentSum(a, x, j) + ComponentSum(b, x, j)
  {
    if |b| == 0 {
      assert a + b == a;
    } else {
      assert (a + b)[..|a + b| - 1] == a + b[..|b| - 1];
      ComponentSumAppend(a, b[..|b| - 1], x, j);
    }
  }

  /** The summed gradient of a concatenation is the component-wise sum of the
      summed gradients. */
  lemma SumGradientsAppend(a: seq<Differentiable>, b: seq<Differentiable>, x: seq<real>)
    ensures forall j :: 0 <= j < |x| ==>
      SumGradients(a + b, x)[j] == SumGradients(a, x)[j] + SumGradients(b, x)[j]
  {
    SumGradientsComponents(a + b, x);
    SumGradientsComponents(a, x);
    SumGradientsComponents(b, x);
    forall j | 0 <= j < |x| {
      ComponentSumAppend(a, b, x, j);
    }
  }

  /** Summing the values at the indices of `a` and then of `b` is summing at `a + b`. */
  lemma {:induction false} PartialValueAppend(terms: seq<Differentiable>, x: seq<real>, a: seq<nat>, b: seq<nat>)
    requires forall k :: 0 <= k < |a| ==> a[k] < |terms|
    requires forall k :: 0 <= k < |b| ==> b[k] < |terms|
    ensures forall k :: 0 <= k < |a + b| ==> (a + b)[k] < |terms|
    ensures PartialValue(terms, x, a + b) == PartialValue(terms, x, a) + PartialValue(terms, x, b)
  {
    if |b| == 0 {
      assert a + b == a;
    } else {
      assert (a + b)[..|a + b| - 1] == a + b[..|b| - 1];
      PartialValueAppend(terms, x, a, b[..|b| - 1]);
    }
  }

  /** The partial value over all indices `0..N` is the full summed value. */
  lemma {:induction false} PartialValueOverAllTerms(terms: seq<Differentiable>, x: seq<real>, n: nat)
    requires n <= |terms|
    ensures PartialValue(terms, x, Range(n)) == SumValues(terms[..n], x)
  {
    if n > 0 {
      assert Range(n)[..n - 1] == Range(n - 1);
      assert terms[..n][..n - 1] == terms[..n - 1];
      PartialValueOverAllTerms(terms, x, n - 1);
    }
  }
}

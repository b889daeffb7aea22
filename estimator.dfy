/** The bookkeeping of the iteratively re-weighted homography fit: which points
    take part, with which weights, the Jacobian rows each contributes, and how
    the solved 8-vector becomes a 3x3 estimate. The accumulation of the normal
    equations and their Cholesky solve are supplied by the caller. */
module Estimator {
  import opened Geometry

  /** Points below this reliability are left out of the fit altogether. */
  const ReliabilityGate: real := 0.5
  /** The fixed number of refinement iterations. */
  const Iterations: nat := 50

  predicate Gated(valid: bool, reliability: real) {
    valid && reliability >= ReliabilityGate
  }

  predicate StrictlyIncreasing(s: seq<nat>) {
    forall a, b :: 0 <= a < b < |s| ==> s[a] < s[b]
  }

  /** The indices below n of the points that pass the gate, in scan order. */
  function GatedPrefix(isValid: seq<bool>, reliability: seq<real>, n: nat): (c: seq<nat>)
    requires n <= |isValid| == |reliability|
    ensures forall k: int :: k in c <==> 0 <= k < n && Gated(isValid[k], reliability[k])
    ensures StrictlyIncreasing(c)
    ensures forall a :: 0 <= a < |c| ==> c[a] < n
  {
    if n == 0 then []
    else
      var rest := GatedPrefix(isValid, reliability, n - 1);
      if Gated(isValid[n - 1], reliability[n - 1]) then rest + [n - 1] else rest
  }

  /** The points that contribute to every iteration of the fit. */
  function GatedIndices(isValid: seq<bool>, reliability: seq<real>): seq<nat>
    requires |isValid| == |reliability|
  {
    GatedPrefix(isValid, reliability, |isValid|)
  }

  /** The weight of every contributor on iteration iter: 1 on the first
      iteration (plain least squares), and the robust weight of the previous
      solution h afterwards. */
  function IterationWeights(contributors: seq<nat>, iter: nat, h: Vec8, robust: (Vec8, nat) -> real): (w: seq<real>)
    ensures |w| == |contributors|
  {
    seq(|contributors|, k requires 0 <= k < |contributors| =>
      if iter == 0 then 1.0 else robust(h, contributors[k]))
  }

  function Sum(ws: seq<real>): real {
    if ws == [] then 0.0 else Sum(ws[..|ws| - 1]) + ws[|ws| - 1]
  }

  lemma {:induction false} SumOfOnes(ws: seq<real>)
    requires forall k :: 0 <= k < |ws| ==> ws[k] == 1.0
    ensures Sum(ws) == |ws| as real
    decreases |ws|
  {
    if ws != [] {
      SumOfOnes(ws[..|ws| - 1]);
    }
  }

  /** One pass over the points: the contributors of this iteration, their
      weights and sum_weights. On the first iteration sum_weights is the number
      of points that pass the gate. */
  method AccumulateWeights(isValid: seq<bool>, reliability: seq<real>, iter: nat, h: Vec8, robust: (Vec8, nat) -> real)
    returns (contributors: seq<nat>, weights: seq<real>, sumWeights: real)
    requires |isValid| == |reliability|
    ensures forall k: int :: k in contributors <==> 0 <= k < |isValid| && Gated(isValid[k], reliability[k])
    ensures StrictlyIncreasing(contributors)
    ensures contributors == GatedIndices(isValid, reliability)
    ensures weights == IterationWeights(contributors, iter, h, robust)
    ensures sumWeights == Sum(weights)
    ensures iter == 0 ==> sumWeights == |contributors| as real
  {
    contributors, weights, sumWeights := [], [], 0.0;
    for i := 0 to |reliability|
      invariant contributors == GatedPrefix(isValid, reliability, i)
      invariant weights == IterationWeights(contributors, iter, h, robust)
      invariant sumWeights == Sum(weights)
    {
      if isValid[i] && reliability[i] >= ReliabilityGate {
        var weight := if iter == 0 then 1.0 else robust(h, i);
        contributors := contributors + [i];
        assert (weights + [weight])[..|weights|] == weights;
        weights := weights + [weight];
        sumWeights := sumWeights + weight;
      }
    }
    if iter == 0 {
      SumOfOnes(weights);
    }
  }

  /** The two rows of the 2x8 Jacobian of reference point p0 tracked to p1. */
  function JacobianRow0(p0: Point, p1: Point): Vec8 {
    [p0.x, p0.y, 1.0, 0.0, 0.0, 0.0, -p1.x * p0.x, -p1.x * p0.y]
  }

  function JacobianRow1(p0: Point, p1: Point): Vec8 {
    [0.0, 0.0, 0.0, p0.x, p0.y, 1.0, -p1.y * p0.x, -p1.y * p0.y]
  }

  function Dot(a: Vec8, b: Vec8): real {
    a[0] * b[0] + a[1] * b[1] + a[2] * b[2] + a[3] * b[3]
    + a[4] * b[4] + a[5] * b[5] + a[6] * b[6] + a[7] * b[7]
  }

  /** The row layout of the Jacobian makes J * h == p1 - p0 (the right-hand
      side the fit accumulates) exactly when the homography of h maps p0 onto p1
      in homogeneous coordinates. */
  lemma JacobianLinearizes(p0: Point, p1: Point, h: Vec8)
    ensures var m := FromParams(h).Apply(p0);
      (Dot(JacobianRow0(p0, p1), h) == p1.x - p0.x && Dot(JacobianRow1(p0, p1), h) == p1.y - p0.y)
      <==> (m.x == p1.x * m.w && m.y == p1.y * m.w)
  {
    var m := FromParams(h).Apply(p0);
    assert m.w == h[6] * p0.x + h[7] * p0.y + 1.0;
    assert m.x - p1.x * m.w == Dot(JacobianRow0(p0, p1), h) - (p1.x - p0.x);
    assert m.y - p1.y * m.w == Dot(JacobianRow1(p0, p1), h) - (p1.y - p0.y);
  }

  /** The 8-vector after n iterations, starting from zero, when every
      iteration solves the normal equations of the contributors with that
      iteration's weights. */
  function FitParams(contributors: seq<nat>, n: nat, robust: (Vec8, nat) -> real,
                     solve: (seq<nat>, seq<real>) -> Vec8): Vec8
  {
    if n == 0 then ZeroParams
    else
      var h := FitParams(contributors, n - 1, robust, solve);
      solve(contributors, IterationWeights(contributors, n - 1, h, robust))
  }

  /** The first iteration is an unweighted least-squares fit: it does not
      depend on the robust weighting at all. */
  lemma FirstIterationUnweighted(contributors: seq<nat>, robust1: (Vec8, nat) -> real,
                                 robust2: (Vec8, nat) -> real, solve: (seq<nat>, seq<real>) -> Vec8)
    ensures FitParams(contributors, 1, robust1, solve) == FitParams(contributors, 1, robust2, solve)
    ensures FitParams(contributors, 1, robust1, solve) == solve(contributors, seq(|contributors|, _ => 1.0))
  {
    assert IterationWeights(contributors, 0, ZeroParams, robust1) == seq(|contributors|, _ => 1.0);
    assert IterationWeights(contributors, 0, ZeroParams, robust2) == seq(|contributors|, _ => 1.0);
  }

  /** The 50-iteration loop: every iteration gathers the gated points and their
      weights, solves for h, and rebuilds the estimate as the identity
      perturbed by h. */
  method Fit(isValid: seq<bool>, reliability: seq<real>, robust: (Vec8, nat) -> real,
             solve: (seq<nat>, seq<real>) -> Vec8)
    returns (estimated: Mat3)
    requires |isValid| == |reliability|
    ensures estimated == FromParams(FitParams(GatedIndices(isValid, reliability), Iterations, robust, solve))
    ensures estimated.m22 == 1.0
  {
    estimated := Identity;
    var h := ZeroParams;
    for iter := 0 to Iterations
      invariant h == FitParams(GatedIndices(isValid, reliability), iter, robust, solve)
      invariant estimated == FromParams(h)
    {
      var contributors, weights, sumWeights := AccumulateWeights(isValid, reliability, iter, h, robust);
      h := solve(contributors, weights);
      estimated := FromParams(h);
    }
  }
}

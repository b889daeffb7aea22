/** Per-point consistency check of the forward-backward optical flow and the
    decaying reliability score of every reference point. */
module Tracking {
  import opened Geometry

  /** What the two calcOpticalFlowPyrLK calls return: the points tracked into
      the current frame with their found flags (reference -> current), and the
      points tracked back with their found flags (current -> reference). */
  datatype Flow = Flow(target: seq<Point>, forwardFound: seq<bool>,
                       reReference: seq<Point>, backwardFound: seq<bool>)
  {
    /** One entry per reference point in every output, as the flow produces. */
    predicate SizedFor(n: nat) {
      |target| == n && |forwardFound| == n && |reReference| == n && |backwardFound| == n
    }
  }

  const MaxWeightedError: real := 0.1
  const MaxSquaredError: real := 1000.0
  const ReliabilityDecay: real := 0.95
  const ReliabilityGain: real := 0.05

  /** reference - reReference: how far the round trip drifted. */
  function ReprojectionError(reference: Point, reReference: Point): Point {
    Point(reference.x - reReference.x, reference.y - reReference.y)
  }

  /** The outcome of the floating-point comparison num / den < bound for a
      positive bound. A zero denominator does not trap: num / 0 is +Inf for a
      positive num, NaN for a zero num and -Inf for a negative num, and only
      -Inf compares below the bound. */
  predicate QuotientBelow(num: real, den: real, bound: real)
    requires 0.0 < bound
  {
    if den != 0.0 then num / den < bound else num < 0.0
  }

  /** The four-part validity test of one tracked point: found forwards and
      backwards, tensor-weighted drift below 0.1 of the point's largest
      eigenvalue, and squared drift below 1000 square pixels. */
  predicate PointIsValid(forward: bool, backward: bool, t: Tensor, maxEigenvalue: real, e: Point) {
    && forward && backward
    && QuotientBelow(t.Quadratic(e), maxEigenvalue, MaxWeightedError)
    && e.x * e.x + e.y * e.y < MaxSquaredError
  }

  /** One frame of the reliability rule: decay by 0.95, and gain 0.05 when the
      point is valid in this frame. */
  function NextReliability(r: real, valid: bool): (r': real)
    ensures 0.0 <= r <= 1.0 ==> 0.0 <= r' <= 1.0
    ensures valid && r <= 1.0 ==> r <= r'
    ensures !valid && 0.0 <= r ==> r' <= r
  {
    var decayed := ReliabilityDecay * r;
    if valid then decayed + ReliabilityGain else decayed
  }

  /** The score after a run of frames with the given validity flags. */
  function ReliabilityAfter(r: real, flags: seq<bool>): real
    decreases |flags|
  {
    if flags == [] then r else ReliabilityAfter(NextReliability(r, flags[0]), flags[1..])
  }

  /** A score that starts in [0, 1] stays in [0, 1] for any number of frames. */
  lemma {:induction false} ReliabilityStaysInUnitInterval(r: real, flags: seq<bool>)
    requires 0.0 <= r <= 1.0
    ensures 0.0 <= ReliabilityAfter(r, flags) <= 1.0
    decreases |flags|
  {
    if flags != [] {
      ReliabilityStaysInUnitInterval(NextReliability(r, flags[0]), flags[1..]);
    }
  }

  function Power(a: real, n: nat): real {
    if n == 0 then 1.0 else a * Power(a, n - 1)
  }

  lemma {:induction false} PowerAdd(a: real, m: nat, n: nat)
    ensures Power(a, m + n) == Power(a, m) * Power(a, n)
  {
    if m > 0 {
      PowerAdd(a, m - 1, n);
      assert Power(a, m + n) == a * Power(a, m - 1 + n);
    }
  }

  function Invalid(n: nat): (flags: seq<bool>)
    ensures |flags| == n && forall k :: 0 <= k < n ==> !flags[k]
  {
    seq(n, _ => false)
  }

  /** n invalid frames in a row scale the score by 0.95^n. */
  lemma {:induction false} InvalidRunDecays(r: real, n: nat)
    ensures ReliabilityAfter(r, Invalid(n)) == Power(ReliabilityDecay, n) * r
    decreases n
  {
    if n > 0 {
      assert Invalid(n)[1..] == Invalid(n - 1);
      InvalidRunDecays(ReliabilityDecay * r, n - 1);
      PowerAdd(ReliabilityDecay, 1, n - 1);
    }
  }

  lemma Decay13And14()
    ensures Power(ReliabilityDecay, 13) >= 0.5
    ensures Power(ReliabilityDecay, 14) < 0.5
  {
    var p2 := Power(ReliabilityDecay, 2);
    assert p2 == 0.9025;
    PowerAdd(ReliabilityDecay, 2, 2);
    var p4 := Power(ReliabilityDecay, 4);
    assert p4 == 0.81450625;
    PowerAdd(ReliabilityDecay, 4, 4);
    var p8 := Power(ReliabilityDecay, 8);
    assert p8 == 0.6634204312890625;
    PowerAdd(ReliabilityDecay, 8, 4);
    PowerAdd(ReliabilityDecay, 12, 1);
    PowerAdd(ReliabilityDecay, 12, 2);
  }

  lemma {:induction false} PowerPositive(a: real, n: nat)
    requires 0.0 < a
    ensures 0.0 < Power(a, n)
  {
    if n > 0 {
      PowerPositive(a, n - 1);
    }
  }

  lemma {:induction false} PowerAtMostOne(a: real, n: nat)
    requires 0.0 < a <= 1.0
    ensures Power(a, n) <= 1.0
  {
    if n > 0 {
      PowerAtMostOne(a, n - 1);
      PowerPositive(a, n - 1);
      var p := Power(a, n - 1);
      assert a * p <= 1.0 * p;
    }
  }

  /** With the 0.5 gate of the estimator: a point of any trust in [0, 1] that is
      invalid 14 or more frames in a row no longer takes part in the fit. */
  lemma InvalidRunLeavesGate(r: real, n: nat)
    requires 0.0 <= r <= 1.0 && 14 <= n
    ensures ReliabilityAfter(r, Invalid(n)) < 0.5
  {
    InvalidRunDecays(r, n);
    Decay13And14();
    PowerAdd(ReliabilityDecay, 14, n - 14);
    PowerPositive(ReliabilityDecay, 14);
    PowerPositive(ReliabilityDecay, n - 14);
    PowerAtMostOne(ReliabilityDecay, n - 14);
    var p14, rest := Power(ReliabilityDecay, 14), Power(ReliabilityDecay, n - 14);
    assert p14 * rest <= p14;
    assert p14 * rest * r <= p14 * rest;
  }

  /** ... and a point at full trust that is invalid for at most 13 frames in a
      row still takes part in it. */
  lemma InvalidRunKeepsGate(n: nat)
    requires n <= 13
    ensures ReliabilityAfter(1.0, Invalid(n)) >= 0.5
  {
    InvalidRunDecays(1.0, n);
    Decay13And14();
    PowerAdd(ReliabilityDecay, n, 13 - n);
    PowerPositive(ReliabilityDecay, n);
    PowerAtMostOne(ReliabilityDecay, 13 - n);
    var pn, rest := Power(ReliabilityDecay, n), Power(ReliabilityDecay, 13 - n);
    assert pn * rest <= pn;
  }

  /** A perfectly consistent track (the backward flow returns exactly to the
      reference point) is valid exactly when the point's eigenvalue is not zero:
      a zero eigenvalue makes the weighted error 0 / 0, which is NaN. */
  lemma ConsistentTrackValidity(reference: Point, t: Tensor, maxEigenvalue: real)
    ensures PointIsValid(true, true, t, maxEigenvalue, ReprojectionError(reference, reference))
            <==> maxEigenvalue != 0.0
  {
    var e := ReprojectionError(reference, reference);
    assert e == Point(0.0, 0.0);
    assert t.Quadratic(e) == 0.0;
  }

  /** A patch that kept its default tensor and eigenvalue (no pixel was
      selected) is never valid, whatever the flow reports. */
  lemma DefaultPatchNeverValid(forward: bool, backward: bool, e: Point)
    ensures !PointIsValid(forward, backward, ZeroTensor, 0.0, e)
  {
    assert ZeroTensor.Quadratic(e) == 0.0;
  }

  /** A tensor that is positive semi-definite never yields a negative weighted
      error, so with a zero eigenvalue the point is invalid. */
  lemma ZeroEigenvalueInvalid(forward: bool, backward: bool, t: Tensor, e: Point)
    requires t.Symmetric() && 0.0 <= t.a00 && 0.0 <= t.a11 && t.a01 * t.a10 <= t.a00 * t.a11
    ensures !PointIsValid(forward, backward, t, 0.0, e)
  {
    QuadraticNonNegative(t, e);
  }

  lemma QuadraticNonNegative(t: Tensor, e: Point)
    requires t.Symmetric() && 0.0 <= t.a00 && 0.0 <= t.a11 && t.a01 * t.a10 <= t.a00 * t.a11
    ensures 0.0 <= t.Quadratic(e)
  {
    var a, b, c := t.a00, t.a01, t.a11;
    var x, y := e.x, e.y;
    assert t.Quadratic(e) == a * x * x + 2.0 * b * x * y + c * y * y;
    if a > 0.0 {
      CompletedSquare(a, b, c, x, y);
      SquareNonNegative(a * x + b * y);
      SquareNonNegative(y);
      MulNonNegative(a * c - b * b, y * y);
      NonNegativeQuotient(a, a * x * x + 2.0 * b * x * y + c * y * y);
    } else {
      // a == 0, so a01 * a10 <= 0 with a01 == a10 forces the off-diagonal to 0
      assert t.a01 * t.a10 <= 0.0;
      SameSignProduct(t.a01, t.a10);
      assert t.Quadratic(e) == c * (y * y);
      SquareNonNegative(y);
      MulNonNegative(c, y * y);
    }
  }

  /** a * (a x^2 + 2 b x y + c y^2) == (a x + b y)^2 + (a c - b^2) y^2 */
  lemma CompletedSquare(a: real, b: real, c: real, x: real, y: real)
    ensures a * (a * x * x + 2.0 * b * x * y + c * y * y)
         == (a * x + b * y) * (a * x + b * y) + (a * c - b * b) * (y * y)
  {
  }

  lemma SquareNonNegative(z: real)
    ensures 0.0 <= z * z
  {
    if 0.0 < z {
      MulPositive(z, z);
    } else if z < 0.0 {
      MulNegative(z, z);
    }
  }

  lemma MulNonNegative(x: real, y: real)
    requires 0.0 <= x && 0.0 <= y
    ensures 0.0 <= x * y
  {
  }

  lemma NonNegativeQuotient(a: real, q: real)
    requires 0.0 < a && 0.0 <= a * q
    ensures 0.0 <= q
  {
    if q < 0.0 {
      MulPositive(a, -q);
    }
  }

  lemma MulPositive(x: real, y: real)
    requires 0.0 < x && 0.0 < y
    ensures 0.0 < x * y
  {
  }

  lemma MulNegative(x: real, y: real)
    requires x < 0.0 && y < 0.0
    ensures 0.0 < x * y
  {
  }

  /** Two reals of the same sign whose product is not positive are zero. */
  lemma SameSignProduct(p: real, q: real)
    requires (0.0 < p ==> 0.0 < q) && (p < 0.0 ==> q < 0.0) && p * q <= 0.0
    ensures p == 0.0
  {
    if 0.0 < p {
      MulPositive(p, q);
    } else if p < 0.0 {
      MulNegative(p, q);
    }
  }

  /** The validity flags of all points for one frame. */
  function ValidityFlags(references: seq<Point>, tensors: seq<Tensor>, eigenvalues: seq<real>, flow: Flow): (flags: seq<bool>)
    requires |tensors| == |references| && |eigenvalues| == |references| && flow.SizedFor(|references|)
    ensures |flags| == |references|
    ensures forall i :: 0 <= i < |references| ==>
      (flags[i] <==> PointIsValid(flow.forwardFound[i], flow.backwardFound[i], tensors[i], eigenvalues[i],
                                  ReprojectionError(references[i], flow.reReference[i])))
  {
    seq(|references|, i requires 0 <= i < |references| =>
      PointIsValid(flow.forwardFound[i], flow.backwardFound[i], tensors[i], eigenvalues[i],
                   ReprojectionError(references[i], flow.reReference[i])))
  }

  /** The reliability scores after one frame with the given flags. */
  function NextReliabilities(scores: seq<real>, flags: seq<bool>): (next: seq<real>)
    requires |flags| == |scores|
    ensures |next| == |scores|
    ensures forall i :: 0 <= i < |scores| ==> next[i] == NextReliability(scores[i], flags[i])
    ensures InUnitInterval(scores) ==> InUnitInterval(next)
  {
    seq(|scores|, i requires 0 <= i < |scores| => NextReliability(scores[i], flags[i]))
  }

  predicate InUnitInterval(scores: seq<real>) {
    forall i :: 0 <= i < |scores| ==> 0.0 <= scores[i] <= 1.0
  }
}

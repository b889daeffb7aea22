/** The stabilizer object: per-patch reference data selected once from the
    first frame, per-frame tracking and reliability, and the cumulative
    homography composed frame after frame. */
module Stabilizer {
  import opened Geometry
  import opened Grid
  import opened Selection
  import opened Tracking
  import opened Estimator

  /** An image as far as the stabilizer sees it: its size and its pixel
      values in row-major order, channels interleaved (only the primitives
      look at the values). */
  datatype Image = Image(rows: nat, cols: nat, data: seq<real>) {
    /** cv::Mat::empty(): no pixel at all. */
    predicate Empty() { rows == 0 || cols == 0 }
  }

  const EmptyImage: Image := Image(0, 0, [])

  /** The stabilized frame stabilize hands back: the input itself, or the
      input warped by a homography (linear interpolation, constant border). */
  datatype Output = PassThrough(frame: Image) | Warped(frame: Image, homography: Mat3)

  /** A cv::Mat that holds a 3x3 matrix or nothing at all. */
  datatype MatOrEmpty = EmptyMat | Mat(value: Mat3)

  /** What the image-processing primitives produce for one call of stabilize:
      the grayscale conversion of the frame, the smoothed products of the
      Sobel derivatives of that gray frame (used when it becomes the
      reference), and the forward and backward optical flow of the reference
      points into the gray frame once it has been warped by the cumulative
      homography. */
  datatype Observations = Observations(gray: Image, derivatives: Derivatives, flow: Flow)

  /** The numerical primitives: std::sqrt, the 3x3 inverse, the robust weight
      of a gated point on iterations after the first (given the previous
      solution), and the Cholesky solve of the normal equations accumulated
      from the given contributors and weights. */
  datatype Primitives = Primitives(sqrt: real -> real, inverse: Mat3 -> Mat3,
                                   robust: (Vec8, nat) -> real,
                                   solve: (seq<nat>, seq<real>) -> Vec8)

  /** std::vector::resize: keep the first n elements, pad with fill. */
  function Resized<T>(s: seq<T>, n: nat, fill: T): (r: seq<T>)
    ensures |r| == n
    ensures forall k :: 0 <= k < n ==> r[k] == if k < |s| then s[k] else fill
  {
    if n <= |s| then s[..n] else s + seq(n - |s|, _ => fill)
  }

  /** The cumulative homography after stabilize has an update: reset to the
      identity when the update is empty, otherwise the update composed on the
      left of the current cumulative homography. */
  function NextHomography(updated: MatOrEmpty, cumulative: Mat3): Mat3 {
    match updated
    case EmptyMat => Identity
    case Mat(step) => Mul(step, cumulative)
  }

  /** The frame stabilize hands back for that update. */
  function Render(updated: MatOrEmpty, homography: Mat3, frame: Image): Output {
    if updated.EmptyMat? then PassThrough(frame) else Warped(frame, homography)
  }

  /** The cumulative homography after a run of updates, in frame order. */
  function Cumulative(c: Mat3, updates: seq<MatOrEmpty>): Mat3
    decreases |updates|
  {
    if updates == [] then c else Cumulative(NextHomography(updates[0], c), updates[1..])
  }

  /** An empty update discards all history: what follows is computed from the
      identity, not from the transform held before the reset. */
  lemma {:induction false} ResetForgetsHistory(c: Mat3, before: seq<MatOrEmpty>, after: seq<MatOrEmpty>)
    ensures Cumulative(c, before + [EmptyMat] + after) == Cumulative(Identity, after)
    decreases |before|
  {
    if before == [] {
      assert before + [EmptyMat] + after == [EmptyMat] + after;
      assert ([EmptyMat] + after)[1..] == after;
    } else {
      assert (before + [EmptyMat] + after)[1..] == before[1..] + [EmptyMat] + after;
      ResetForgetsHistory(NextHomography(before[0], c), before[1..], after);
    }
  }

  /** n frames in a row with the same update. */
  function Repeat(u: MatOrEmpty, n: nat): (r: seq<MatOrEmpty>)
    ensures |r| == n && forall k :: 0 <= k < n ==> r[k] == u
  {
    if n == 0 then [] else [u] + Repeat(u, n - 1)
  }

  /** Updates that are all the identity leave the cumulative homography as it
      was, whatever the number of frames. */
  lemma {:induction false} IdentityUpdatesKeepCumulative(c: Mat3, n: nat)
    ensures Cumulative(c, Repeat(Mat(Identity), n)) == c
  {
    if n > 0 {
      var updates := Repeat(Mat(Identity), n);
      assert updates[1..] == Repeat(Mat(Identity), n - 1);
      MulIdentityLeft(c);
      IdentityUpdatesKeepCumulative(c, n - 1);
    }
  }

  class PatchStabilization {
    var Homography: Mat3
    var ReferenceGrayFrame: Image

    var IsValid: seq<bool>
    var Reliability: seq<real>
    var MaxEigenvalues: seq<real>
    var CurrentPoints: seq<Point>
    var ReferencePoints: seq<Point>
    var HarrisMatrices: seq<Tensor>

    /** No reference frame yet: stabilize has not seen a frame. */
    ghost predicate Uninitialized()
      reads this
    {
      ReferenceGrayFrame.Empty()
    }

    ghost predicate Valid()
      reads this
    {
      && (Uninitialized() ==>
            && Homography == Identity
            && IsValid == [] && Reliability == [] && MaxEigenvalues == []
            && CurrentPoints == [] && ReferencePoints == [] && HarrisMatrices == [])
      && (!Uninitialized() ==>
            && |HarrisMatrices| == PatchCount && |ReferencePoints| == PatchCount
            && |MaxEigenvalues| == PatchCount && |IsValid| == PatchCount
            && |Reliability| == PatchCount
            && (|CurrentPoints| == 0 || |CurrentPoints| == PatchCount)
            && InUnitInterval(Reliability)
            && (forall k :: 0 <= k < |HarrisMatrices| ==> HarrisMatrices[k].Symmetric()))
    }

    /** Every patch slot holds what the scan of its cell selects. */
    ghost predicate SelectedFrom(d: Derivatives, sqrt: real -> real)
      reads this
    {
      && |HarrisMatrices| == PatchCount && |ReferencePoints| == PatchCount && |MaxEigenvalues| == PatchCount
      && forall pi, pj :: 0 <= pi < PatchColNum && 0 <= pj < PatchRowNum ==>
           Selects(d, Cell(pi, pj, PatchWidth(ReferenceGrayFrame.cols), PatchHeight(ReferenceGrayFrame.rows)), sqrt,
                   HarrisMatrices[PatchIndex(pi, pj)], ReferencePoints[PatchIndex(pi, pj)],
                   MaxEigenvalues[PatchIndex(pi, pj)])
    }

    constructor ()
      ensures Valid() && Uninitialized()
      ensures Homography == Identity
    {
      Homography := Identity;
      ReferenceGrayFrame := EmptyImage;
      IsValid, Reliability, MaxEigenvalues := [], [], [];
      CurrentPoints, ReferencePoints, HarrisMatrices := [], [], [];
    }

    /** Slot k holds what was there before (hm0, rp0, me0), except that once
        the scan has kept pixel (bi, bj) it holds that pixel's data. */
    ghost predicate SlotHolds(hm0: seq<Tensor>, rp0: seq<Point>, me0: seq<real>, k: int,
                              d: Derivatives, sqrt: real -> real, found: bool, bi: int, bj: int)
      requires 0 <= k < |hm0| && |rp0| == |hm0| && |me0| == |hm0|
      reads this
    {
      && (found ==> && InBounds(d, bi, bj)
                    && HarrisMatrices == hm0[k := TensorAt(d, bi, bj)]
                    && ReferencePoints == rp0[k := Point(bi as real, bj as real)]
                    && MaxEigenvalues == me0[k := MaxEigenvalue(TensorAt(d, bi, bj), sqrt)])
      && (!found ==> HarrisMatrices == hm0 && ReferencePoints == rp0 && MaxEigenvalues == me0)
    }

    /** Scans the patch row by row and keeps, in slot patchIndex, the pixel of
        largest trace together with its tensor and largest eigenvalue. */
    method SetReferencePointsAndEigenvalues(patch: Rect, patchIndex: int, d: Derivatives, sqrt: real -> real)
      requires 0 <= patchIndex < |HarrisMatrices| && |ReferencePoints| == |HarrisMatrices| && |MaxEigenvalues| == |HarrisMatrices|
      requires Readable(d, patch)
      modifies this`HarrisMatrices, this`ReferencePoints, this`MaxEigenvalues
      ensures HasCandidate(d, patch) ==>
        exists i, j :: && FirstMax(d, patch, i, j)
                       && HarrisMatrices == old(HarrisMatrices)[patchIndex := TensorAt(d, i, j)]
                       && ReferencePoints == old(ReferencePoints)[patchIndex := Point(i as real, j as real)]
                       && MaxEigenvalues == old(MaxEigenvalues)[patchIndex := MaxEigenvalue(TensorAt(d, i, j), sqrt)]
      ensures !HasCandidate(d, patch) ==>
        HarrisMatrices == old(HarrisMatrices) && ReferencePoints == old(ReferencePoints) && MaxEigenvalues == old(MaxEigenvalues)
    {
      ghost var hm0, rp0, me0 := HarrisMatrices, ReferencePoints, MaxEigenvalues;
      var maxTrace := InitialMaxTrace;
      ghost var found, bi, bj := false, 0, 0;
      ScanStart(d, patch);
      var j := patch.y;
      while j < patch.Bottom()
        invariant ScanInvariant(d, patch, patch.x, j, found, bi, bj, maxTrace)
        invariant SlotHolds(hm0, rp0, me0, patchIndex, d, sqrt, found, bi, bj)
      {
        var i := patch.x;
        while i < patch.Right()
          invariant patch.x <= i
          invariant ScanInvariant(d, patch, i, j, found, bi, bj, maxTrace)
          invariant SlotHolds(hm0, rp0, me0, patchIndex, d, sqrt, found, bi, bj)
        {
          assert patch.Contains(i, j);
          ScanStep(d, patch, i, j, found, bi, bj, maxTrace);
          var harrisMatrix := TensorAt(d, i, j);
          var trace := harrisMatrix.a00 + harrisMatrix.a11;
          if trace > maxTrace {
            var t := Discriminant(harrisMatrix);
            OverwriteSlot(hm0, HarrisMatrices, patchIndex, harrisMatrix);
            OverwriteSlot(rp0, ReferencePoints, patchIndex, Point(i as real, j as real));
            OverwriteSlot(me0, MaxEigenvalues, patchIndex, 0.5 * (trace + sqrt(t)));
            HarrisMatrices := HarrisMatrices[patchIndex := harrisMatrix];
            ReferencePoints := ReferencePoints[patchIndex := Point(i as real, j as real)];
            maxTrace := trace;
            MaxEigenvalues := MaxEigenvalues[patchIndex := 0.5 * (trace + sqrt(t))];
            found, bi, bj := true, i, j;
          }
          i := i + 1;
        }
        ScanNextRow(d, patch, i, j, found, bi, bj, maxTrace);
        j := j + 1;
      }
      ScanDone(d, patch, j, found, bi, bj, maxTrace);
    }

    /** Makes gray the reference frame, sizes every per-patch vector to 300,
        scans each of the 20 x 15 cells into its slot, and starts every point
        valid with reliability 1. */
    method Initialize(gray: Image, d: Derivatives, sqrt: real -> real)
      requires Valid() && Uninitialized()
      requires !gray.Empty() && Fits(d, gray.rows, gray.cols)
      modifies this`ReferenceGrayFrame, this`HarrisMatrices, this`ReferencePoints, this`MaxEigenvalues,
               this`IsValid, this`Reliability
      ensures Valid() && !Uninitialized()
      ensures ReferenceGrayFrame == gray
      ensures SelectedFrom(d, sqrt)
      ensures IsValid == seq(PatchCount, _ => true)
      ensures Reliability == seq(PatchCount, _ => 1.0)
    {
      ReferenceGrayFrame := gray;
      HarrisMatrices := Resized(HarrisMatrices, PatchCount, ZeroTensor);
      ReferencePoints := Resized(ReferencePoints, PatchCount, Origin);
      MaxEigenvalues := Resized(MaxEigenvalues, PatchCount, 0.0);

      var patchWidth := gray.cols / PatchColNum;
      var patchHeight := gray.rows / PatchRowNum;
      GridStart(d, sqrt, patchWidth, patchHeight, HarrisMatrices, ReferencePoints, MaxEigenvalues);
      for pj := 0 to PatchRowNum
        invariant ReferenceGrayFrame == gray && IsValid == [] && Reliability == []
        invariant GridInvariant(d, sqrt, patchWidth, patchHeight, HarrisMatrices, ReferencePoints, MaxEigenvalues, 0, pj)
      {
        for pi := 0 to PatchColNum
          invariant ReferenceGrayFrame == gray && IsValid == [] && Reliability == []
          invariant GridInvariant(d, sqrt, patchWidth, patchHeight, HarrisMatrices, ReferencePoints, MaxEigenvalues, pi, pj)
        {
          var patchIndex := pj * PatchColNum + pi;
          var patch := Rect(pi * patchWidth, pj * patchHeight, patchWidth, patchHeight);
          CellReadable(d, gray.rows, gray.cols, pi, pj);
          ghost var hm0, rp0, me0 := HarrisMatrices, ReferencePoints, MaxEigenvalues;
          SetReferencePointsAndEigenvalues(patch, patchIndex, d, sqrt);
          ScannedSlot(d, patch, sqrt, patchIndex, hm0, rp0, me0, HarrisMatrices, ReferencePoints, MaxEigenvalues);
          GridStep(d, sqrt, patchWidth, patchHeight, hm0, rp0, me0, HarrisMatrices, ReferencePoints, MaxEigenvalues, pi, pj);
        }
        GridNextRow(d, sqrt, patchWidth, patchHeight, HarrisMatrices, ReferencePoints, MaxEigenvalues, pj);
      }
      GridDone(d, sqrt, patchWidth, patchHeight, HarrisMatrices, ReferencePoints, MaxEigenvalues);

      IsValid := Resized(IsValid, |ReferencePoints|, true);
      Reliability := Resized(Reliability, |ReferencePoints|, 1.0);
      SelectedSymmetric(d, sqrt);
    }

    /** Every slot the scan filled holds a symmetric tensor. */
    lemma SelectedSymmetric(d: Derivatives, sqrt: real -> real)
      requires SelectedFrom(d, sqrt)
      ensures forall k :: 0 <= k < |HarrisMatrices| ==> HarrisMatrices[k].Symmetric()
    {
      forall k | 0 <= k < |HarrisMatrices|
        ensures HarrisMatrices[k].Symmetric()
      {
        PatchIndexOnto(k);
      }
    }

    /** Scores every tracked point: its validity flag from the four-part
        test, and its reliability decayed and, if valid, raised. */
    method UpdatePointsAndReliability(flow: Flow)
      requires Valid() && !Uninitialized()
      requires flow.SizedFor(|ReferencePoints|)
      modifies this`CurrentPoints, this`IsValid, this`Reliability
      ensures Valid()
      ensures CurrentPoints == flow.target
      ensures IsValid == ValidityFlags(ReferencePoints, HarrisMatrices, MaxEigenvalues, flow)
      ensures Reliability == NextReliabilities(old(Reliability), IsValid)
    {
      CurrentPoints := flow.target;
      for i := 0 to |CurrentPoints|
        invariant CurrentPoints == flow.target
        invariant |IsValid| == PatchCount && |Reliability| == PatchCount
        invariant forall k :: 0 <= k < i ==>
          && (IsValid[k] <==> PointIsValid(flow.forwardFound[k], flow.backwardFound[k], HarrisMatrices[k],
                                           MaxEigenvalues[k], ReprojectionError(ReferencePoints[k], flow.reReference[k])))
          && Reliability[k] == NextReliability(old(Reliability)[k], IsValid[k])
        invariant forall k :: i <= k < PatchCount ==> Reliability[k] == old(Reliability)[k]
        invariant InUnitInterval(Reliability)
      {
        var reprojectError := ReprojectionError(ReferencePoints[i], flow.reReference[i]);
        var weightedError := HarrisMatrices[i].a00 * reprojectError.x * reprojectError.x
                             + (HarrisMatrices[i].a01 + HarrisMatrices[i].a10) * reprojectError.x * reprojectError.y
                             + HarrisMatrices[i].a11 * reprojectError.y * reprojectError.y;
        assert weightedError == HarrisMatrices[i].Quadratic(reprojectError);
        IsValid := IsValid[i :=
          && flow.forwardFound[i] && flow.backwardFound[i]
          && QuotientBelow(weightedError, MaxEigenvalues[i], MaxWeightedError)
          && reprojectError.x * reprojectError.x + reprojectError.y * reprojectError.y < MaxSquaredError];
        Reliability := Reliability[i := ReliabilityDecay * Reliability[i]];
        if IsValid[i] {
          Reliability := Reliability[i := Reliability[i] + ReliabilityGain];
        }
      }
    }

    /** Scores the points of this frame, then runs the fit over the points that
        pass the gate and returns the inverse of the final estimate. */
    method UpdateHomography(flow: Flow, prims: Primitives) returns (updated: MatOrEmpty)
      requires Valid() && !Uninitialized()
      requires flow.SizedFor(|ReferencePoints|)
      modifies this`CurrentPoints, this`IsValid, this`Reliability
      ensures Valid()
      ensures CurrentPoints == flow.target
      ensures IsValid == ValidityFlags(ReferencePoints, HarrisMatrices, MaxEigenvalues, flow)
      ensures Reliability == NextReliabilities(old(Reliability), IsValid)
      ensures updated == Mat(prims.inverse(FromParams(
                FitParams(GatedIndices(IsValid, Reliability), Iterations, prims.robust, prims.solve))))
    {
      UpdatePointsAndReliability(flow);
      var estimated := Fit(IsValid, Reliability, prims.robust, prims.solve);
      updated := Mat(prims.inverse(estimated));
    }

    /** One frame: the first frame becomes the reference; every frame is
        tracked, fitted, composed into the cumulative homography and warped. */
    method Stabilize(frame: Image, obs: Observations, prims: Primitives) returns (stabilized: Output)
      requires Valid()
      requires !frame.Empty()
      requires obs.gray.rows == frame.rows && obs.gray.cols == frame.cols
      requires Uninitialized() ==> Fits(obs.derivatives, obs.gray.rows, obs.gray.cols)
      requires obs.flow.SizedFor(PatchCount)
      modifies this
      ensures Valid() && !Uninitialized()
      ensures old(Uninitialized()) ==> ReferenceGrayFrame == obs.gray && SelectedFrom(obs.derivatives, prims.sqrt)
      ensures !old(Uninitialized()) ==>
        && ReferenceGrayFrame == old(ReferenceGrayFrame) && ReferencePoints == old(ReferencePoints)
        && HarrisMatrices == old(HarrisMatrices) && MaxEigenvalues == old(MaxEigenvalues)
      ensures CurrentPoints == obs.flow.target
      ensures IsValid == ValidityFlags(ReferencePoints, HarrisMatrices, MaxEigenvalues, obs.flow)
      ensures Reliability == NextReliabilities(if old(Uninitialized()) then seq(PatchCount, _ => 1.0) else old(Reliability), IsValid)
      ensures var step := prims.inverse(FromParams(
                FitParams(GatedIndices(IsValid, Reliability), Iterations, prims.robust, prims.solve)));
              && Homography == Mul(step, old(Homography)) && stabilized == Warped(frame, Homography)
              && (old(Uninitialized()) ==> Homography == step)
    {
      var grayFrame := obs.gray;
      if ReferenceGrayFrame.Empty() {
        Initialize(grayFrame, obs.derivatives, prims.sqrt);
      }
      // warpPerspective(grayFrame, Homography) only feeds the optical flow,
      // whose results arrive in obs.flow.
      var updatedHomography := UpdateHomography(obs.flow, prims);
      var cumulative := NextHomography(updatedHomography, Homography);
      stabilized := Render(updatedHomography, cumulative, frame);
      // on the first frame the previous cumulative homography is the identity
      MulIdentityRight(updatedHomography.value);
      Homography := cumulative;
    }
  }

  /** What the grid loop knows when it reaches cell (pi, pj): every cell
      visited before it holds its selection, and every slot from its own
      index on still holds the defaults. */
  ghost predicate GridInvariant(d: Derivatives, sqrt: real -> real, pw: nat, ph: nat,
                                hm: seq<Tensor>, rp: seq<Point>, me: seq<real>, pi: int, pj: int)
  {
    && |hm| == PatchCount && |rp| == PatchCount && |me| == PatchCount
    && (forall qi, qj :: 0 <= qi < PatchColNum && 0 <= qj < PatchRowNum && Precedes(qi, qj, pi, pj) ==>
          Selects(d, Cell(qi, qj, pw, ph), sqrt, hm[PatchIndex(qi, qj)], rp[PatchIndex(qi, qj)], me[PatchIndex(qi, qj)]))
    && (forall k :: 0 <= k < PatchCount && pj * PatchColNum + pi <= k ==>
          hm[k] == ZeroTensor && rp[k] == Origin && me[k] == 0.0)
  }

  lemma GridStart(d: Derivatives, sqrt: real -> real, pw: nat, ph: nat, hm: seq<Tensor>, rp: seq<Point>, me: seq<real>)
    requires |hm| == PatchCount && |rp| == PatchCount && |me| == PatchCount
    requires forall k :: 0 <= k < PatchCount ==> hm[k] == ZeroTensor && rp[k] == Origin && me[k] == 0.0
    ensures GridInvariant(d, sqrt, pw, ph, hm, rp, me, 0, 0)
  {
  }

  /** Scanning cell (pi, pj) into its slot moves the loop to the next cell. */
  lemma GridStep(d: Derivatives, sqrt: real -> real, pw: nat, ph: nat,
                 hm0: seq<Tensor>, rp0: seq<Point>, me0: seq<real>,
                 hm: seq<Tensor>, rp: seq<Point>, me: seq<real>, pi: int, pj: int)
    requires 0 <= pi < PatchColNum && 0 <= pj < PatchRowNum
    requires GridInvariant(d, sqrt, pw, ph, hm0, rp0, me0, pi, pj)
    requires |hm| == PatchCount && |rp| == PatchCount && |me| == PatchCount
    requires Selects(d, Cell(pi, pj, pw, ph), sqrt, hm[PatchIndex(pi, pj)], rp[PatchIndex(pi, pj)], me[PatchIndex(pi, pj)])
    requires forall m :: 0 <= m < PatchCount && m != PatchIndex(pi, pj) ==> hm[m] == hm0[m] && rp[m] == rp0[m] && me[m] == me0[m]
    ensures GridInvariant(d, sqrt, pw, ph, hm, rp, me, pi + 1, pj)
  {
    forall qi, qj | 0 <= qi < PatchColNum && 0 <= qj < PatchRowNum && Precedes(qi, qj, pi + 1, pj)
      ensures Selects(d, Cell(qi, qj, pw, ph), sqrt, hm[PatchIndex(qi, qj)], rp[PatchIndex(qi, qj)], me[PatchIndex(qi, qj)])
    {
      if qi != pi || qj != pj {
        assert Precedes(qi, qj, pi, pj);
        assert PatchIndex(qi, qj) < PatchIndex(pi, pj);
      }
    }
  }

  /** Past the last column of row pj the loop continues at the first cell of
      row pj + 1. */
  lemma GridNextRow(d: Derivatives, sqrt: real -> real, pw: nat, ph: nat,
                    hm: seq<Tensor>, rp: seq<Point>, me: seq<real>, pj: int)
    requires GridInvariant(d, sqrt, pw, ph, hm, rp, me, PatchColNum, pj)
    ensures GridInvariant(d, sqrt, pw, ph, hm, rp, me, 0, pj + 1)
  {
    forall qi, qj | 0 <= qi < PatchColNum && 0 <= qj < PatchRowNum && Precedes(qi, qj, 0, pj + 1)
      ensures Selects(d, Cell(qi, qj, pw, ph), sqrt, hm[PatchIndex(qi, qj)], rp[PatchIndex(qi, qj)], me[PatchIndex(qi, qj)])
    {
      assert Precedes(qi, qj, PatchColNum, pj);
    }
  }

  /** Past the last row every cell holds its selection. */
  lemma GridDone(d: Derivatives, sqrt: real -> real, pw: nat, ph: nat,
                 hm: seq<Tensor>, rp: seq<Point>, me: seq<real>)
    requires GridInvariant(d, sqrt, pw, ph, hm, rp, me, 0, PatchRowNum)
    ensures forall pi, pj :: 0 <= pi < PatchColNum && 0 <= pj < PatchRowNum ==>
      Selects(d, Cell(pi, pj, pw, ph), sqrt, hm[PatchIndex(pi, pj)], rp[PatchIndex(pi, pj)], me[PatchIndex(pi, pj)])
  {
    forall pi, pj | 0 <= pi < PatchColNum && 0 <= pj < PatchRowNum
      ensures Selects(d, Cell(pi, pj, pw, ph), sqrt, hm[PatchIndex(pi, pj)], rp[PatchIndex(pi, pj)], me[PatchIndex(pi, pj)])
    {
      assert Precedes(pi, pj, 0, PatchRowNum);
    }
  }

  /** A slot that held the defaults holds what Selects describes once the
      patch has been scanned into it; the other slots keep their values. */
  lemma ScannedSlot(d: Derivatives, patch: Rect, sqrt: real -> real, k: int,
                    hm0: seq<Tensor>, rp0: seq<Point>, me0: seq<real>,
                    hm: seq<Tensor>, rp: seq<Point>, me: seq<real>)
    requires Readable(d, patch)
    requires 0 <= k < |hm0| && |rp0| == |hm0| && |me0| == |hm0|
    requires hm0[k] == ZeroTensor && rp0[k] == Origin && me0[k] == 0.0
    requires HasCandidate(d, patch) ==>
      exists i, j :: && FirstMax(d, patch, i, j)
                     && hm == hm0[k := TensorAt(d, i, j)]
                     && rp == rp0[k := Point(i as real, j as real)]
                     && me == me0[k := MaxEigenvalue(TensorAt(d, i, j), sqrt)]
    requires !HasCandidate(d, patch) ==> hm == hm0 && rp == rp0 && me == me0
    ensures |hm| == |hm0| && |rp| == |hm0| && |me| == |hm0|
    ensures Selects(d, patch, sqrt, hm[k], rp[k], me[k])
    ensures forall m :: 0 <= m < |hm0| && m != k ==> hm[m] == hm0[m] && rp[m] == rp0[m] && me[m] == me0[m]
  {
    if HasCandidate(d, patch) {
      var i, j :| && FirstMax(d, patch, i, j)
                  && hm == hm0[k := TensorAt(d, i, j)]
                  && rp == rp0[k := Point(i as real, j as real)]
                  && me == me0[k := MaxEigenvalue(TensorAt(d, i, j), sqrt)];
      assert hm[k] == TensorAt(d, i, j);
    }
  }

  /** Writing slot k of a vector that differs from s at most in slot k gives
      s with slot k written. */
  lemma OverwriteSlot<T>(s: seq<T>, current: seq<T>, k: int, v: T)
    requires 0 <= k < |s| && |current| == |s|
    requires forall m :: 0 <= m < |s| && m != k ==> current[m] == s[m]
    ensures current[k := v] == s[k := v]
  {
  }

  /** Every cell of the grid can be read from fields the size of the frame. */
  lemma CellReadable(d: Derivatives, rows: nat, cols: nat, pi: int, pj: int)
    requires Fits(d, rows, cols)
    requires 0 <= pi < PatchColNum && 0 <= pj < PatchRowNum
    ensures Readable(d, Cell(pi, pj, PatchWidth(cols), PatchHeight(rows)))
  {
    CellInFrame(pi, pj, rows, cols);
  }
}

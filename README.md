# PatchStabilization in Dafny

A model of the `PatchStabilization` class of the VideoStabilization project.
That class is a video stabiliser that follows a fixed grid of feature points
from a reference frame and warps every frame back onto it. The model covers
the class's own bookkeeping. The image processing is done by OpenCV, so its
results are inputs to the model:

- **Grid and selection** (`Grid`, `Selection`). The reference frame is split
  into 20 x 15 cells. Cell sizes are `cols / 20` and `rows / 15`, truncated.
  Cell (pi, pj) has slot `pj * 20 + pi`. Each cell is scanned row by row. The
  scan keeps the pixel whose structure tensor has the largest trace, and it
  starts from a running maximum of -1. The comparison is a strict `>`, so the
  first maximum in scan order wins. The slot also stores that pixel's tensor
  and the larger eigenvalue of the tensor.
- **Tracking** (`Tracking`). The forward and backward optical flow of every
  reference point are inputs. A point is valid when it is found in both
  directions, its tensor-weighted drift is below 0.1 of its eigenvalue, and
  its squared drift is below 1000. Its reliability is multiplied by 0.95, and
  0.05 is added when the point is valid.
- **Estimator** (`Estimator`). Only points that are valid and have
  reliability of at least 0.5 take part in the fit. The fit runs 50
  iterations. Every weight is 1 on the first one. Each contributing point adds
  two Jacobian rows. The solved 8-vector h becomes the identity perturbed by
  h, with a bottom-right entry of 1.
- **The stabilizer object** (`Stabilizer`). The class has the source's fields,
  and its methods mirror the source's methods: the constructor,
  `setReferencePointsAndEigenvalues`, `initialize`,
  `updatePointsAndReliability`, `updateHomography` and `stabilize`. The first
  frame becomes the reference. On every frame the update is composed on the
  left of the cumulative homography.

`VideoStabilization/PatchStabilization.cpp` is the same code written against
the older OpenCV API. From its line 8 on, each of its lines is the line 4
higher in `PatchStabilization.cpp`. The table cites the root copy, and for the
class's methods it also gives the older copy's lines.

Design notes:

- Single-precision values are modelled as exact reals.
- The `std::vector` members are `seq` fields that the methods update element
  by element.
- Dividing a weighted error by an eigenvalue of zero is not excluded by a
  precondition. The model follows the IEEE result of `q / 0 < 0.1`. It holds
  exactly when `q < 0`, because `q / 0` is +Inf, NaN or -Inf.

`stabilize` has a branch that resets the cumulative transform to the identity
and passes the frame through unchanged when the update is empty
(`PatchStabilization.cpp:196-200`). That branch never runs. `updateHomography`
always assigns a 3x3 matrix to its result (line 181), and it ignores the flag
that `cv::solve` returns (line 172). The model follows the code:
- `UpdateHomography` always returns a matrix.
- The reset branch is kept in `NextHomography` and `Render`.
- `ResetForgetsHistory` states what the branch would do.

## Model

| member | source | states |
|---|---|---|
| Geometry.FromParams | PatchStabilization.cpp:174-178 | the estimate built from h has bottom-right entry 1, and it is the identity exactly when h is zero, which is the state before the first iteration (lines 139-140) |
| Geometry.ParamsRoundTrip | PatchStabilization.cpp:174-178 | reading the eight free entries back out of the estimate gives h again, so no parameter is lost |
| Geometry.MatrixRoundTrip | PatchStabilization.cpp:174-178 | every 3x3 matrix with bottom-right entry 1 is the estimate of its own eight free entries |
| Geometry.MulIdentityLeft | PatchStabilization.cpp:202 | composing an identity update on the left leaves the cumulative homography unchanged |
| Geometry.MulIdentityRight | PatchStabilization.cpp:202 | composing an update with the identity on its right gives the update; `Stabilize` uses it for the first frame, whose previous cumulative homography is the identity |
| Grid.PatchIndex | PatchStabilization.cpp:70 | slot `pj * 20 + pi` lies in [0, 300), and the cell is recovered from it as (slot mod 20, slot div 20) |
| Grid.PatchIndexOnto | PatchStabilization.cpp:62-74 | every slot of the 300-element vectors belongs to some cell of the double loop |
| Grid.PatchIndexInjective | PatchStabilization.cpp:68-72 | two different cells never share a slot |
| Grid.PatchIndexRowMajor | PatchStabilization.cpp:68-72 | the double loop visits slots 0, 1, ..., 299 in order, and the last cell is slot 299 |
| Grid.CellInFrame | PatchStabilization.cpp:66-71 | every cell has non-negative size and lies inside the frame, ending at most at 20 * width and 15 * height |
| Grid.CellsDisjoint | PatchStabilization.cpp:71 | a pixel lies in at most one cell |
| Grid.CoveredIff | PatchStabilization.cpp:66-71 | a pixel lies in some cell exactly when x < 20 * width and y < 15 * height, so the remainder strips at the right and bottom edges are never scanned |
| Selection.TensorAt | PatchStabilization.cpp:21-24 | the tensor read at a pixel is symmetric, with IxIx, IxIy and IyIy in their places |
| Selection.ScanStart | PatchStabilization.cpp:18-19 | before the first pixel nothing is kept and the running maximum is -1 |
| Selection.ScanStep | PatchStabilization.cpp:20-36 | a pixel whose trace is strictly above the running maximum takes over; any other pixel leaves the kept pixel and the maximum alone |
| Selection.ScanNextRow | PatchStabilization.cpp:19-20 | past the right edge of a row, the scan state carries over to the start of the next row |
| Selection.ScanDone | PatchStabilization.cpp:18-38 | after the last row, the kept pixel is the first maximum in row-major order, and nothing is kept exactly when no pixel has a trace above -1 |
| Selection.FirstMaxUnique | PatchStabilization.cpp:27 | the strict comparison makes the choice unique: two first maxima are the same pixel |
| Selection.ZeroSizePatchHasNoCandidate | PatchStabilization.cpp:19-20 | a cell of zero width or height has no pixel to select, so its slot keeps its defaults |
| Selection.NonEmptyPatchHasCandidate | PatchStabilization.cpp:18-27 | with non-negative squared-derivative fields, a cell gets a selection exactly when it has at least one pixel |
| Selection.MaxEigenvalueIsLargerEigenvalue | PatchStabilization.cpp:32-35 | when sqrt returns the root of the discriminant, `0.5 * (trace + sqrt(t))` is a root of the tensor's characteristic polynomial and the larger of its two roots |
| Tracking.NextReliability | PatchStabilization.cpp:130-131 | one update keeps a score in [0, 1], never lowers a valid point's score, and never raises an invalid point's score |
| Tracking.ReliabilityStaysInUnitInterval | PatchStabilization.cpp:130-131 | a score that starts in [0, 1], as after `initialize` (line 77), stays in [0, 1] for any sequence of frames |
| Tracking.InvalidRunDecays | PatchStabilization.cpp:130 | n invalid frames in a row multiply the score by 0.95^n |
| Tracking.InvalidRunLeavesGate | PatchStabilization.cpp:130-131 | 14 or more invalid frames in a row take any score in [0, 1] below the 0.5 gate of the estimator (line 150) |
| Tracking.InvalidRunKeepsGate | PatchStabilization.cpp:130-131 | a point at full trust that is invalid for 13 frames or fewer is still at or above the 0.5 gate |
| Tracking.ConsistentTrackValidity | PatchStabilization.cpp:117-129 | a track that returns exactly to its reference point is valid exactly when the point's eigenvalue is non-zero; a zero eigenvalue gives 0 / 0, which is NaN |
| Tracking.DefaultPatchNeverValid | PatchStabilization.cpp:121-128 | a slot that kept its zero defaults is never valid, whatever the flow reports |
| Tracking.ZeroEigenvalueInvalid | PatchStabilization.cpp:121-128 | with a positive semi-definite tensor and a zero eigenvalue, the point is invalid |
| Tracking.QuadraticNonNegative | PatchStabilization.cpp:121-124 | the weighted-error numerator of a positive semi-definite tensor is never negative |
| Tracking.ValidityFlags | PatchStabilization.cpp:127-129 | each flag holds exactly when the point is found forwards and backwards, its weighted error is below 0.1 and its squared drift is below 1000 |
| Tracking.NextReliabilities | PatchStabilization.cpp:130-131 | every score takes one decay-and-gain step with its own flag, and scores in [0, 1] stay in [0, 1] |
| Estimator.GatedPrefix | PatchStabilization.cpp:149-150 | the contributors are exactly the points that are valid with reliability of at least 0.5, in increasing index order |
| Estimator.SumOfOnes | PatchStabilization.cpp:158-166 | a sum of weights that are all 1 is the number of weights |
| Estimator.AccumulateWeights | PatchStabilization.cpp:148-168 | one pass over the points collects exactly the gated points in order, with weight 1 on iteration 0 and the robust weight afterwards; on iteration 0, sum_weights is the number of gated points |
| Estimator.JacobianLinearizes | PatchStabilization.cpp:160-164 | the two Jacobian rows give J * h == p1 - p0 exactly when the homography of h maps p0 onto p1 in homogeneous coordinates |
| Estimator.FirstIterationUnweighted | PatchStabilization.cpp:158 | the first iteration is a plain least-squares solve with all weights 1, independent of the robust weighting |
| Estimator.Fit | PatchStabilization.cpp:139-179 | after 50 iterations the estimate is the identity perturbed by the last solution, and each iteration solves with weights computed from the previous iteration's solution; its bottom-right entry is 1 |
| Stabilizer.Resized | PatchStabilization.cpp:62-64 | resizing keeps the existing elements and fills the new ones with the given default |
| Stabilizer.ResetForgetsHistory | PatchStabilization.cpp:196-200 | after an empty update, later frames are composed onto the identity, whatever came before |
| Stabilizer.IdentityUpdatesKeepCumulative | PatchStabilization.cpp:202 | any number of identity updates leaves the cumulative homography unchanged |
| Stabilizer.ScannedSlot | PatchStabilization.cpp:72 | after a cell is scanned into a slot that held the defaults, the slot holds what the scan selects and all other slots are unchanged |
| Stabilizer.GridStep | PatchStabilization.cpp:69-73 | scanning cell (pi, pj) extends the invariant of the grid loop to the next cell |
| Stabilizer.GridDone | PatchStabilization.cpp:68-74 | after the double loop every one of the 300 cells holds its selection |
| Stabilizer.PatchStabilization.constructor | PatchStabilization.cpp:3-6 | a new stabilizer has the identity homography, no reference frame and empty vectors (older copy: VideoStabilization/PatchStabilization.cpp lines 3-6) |
| Stabilizer.PatchStabilization.SetReferencePointsAndEigenvalues | PatchStabilization.cpp:8-39 | if some pixel of the cell beats -1, the slot holds the first maximum's tensor, position and eigenvalue; otherwise the three vectors are unchanged; only that slot is written (older copy: VideoStabilization/PatchStabilization.cpp lines 8-35) |
| Stabilizer.PatchStabilization.Initialize | PatchStabilization.cpp:41-78 | the gray frame becomes the reference, every per-patch vector has 300 entries, every cell's slot holds its selection, every point starts valid with reliability 1, and every stored tensor is symmetric (older copy: VideoStabilization/PatchStabilization.cpp lines 37-74) |
| Stabilizer.PatchStabilization.SelectedSymmetric | PatchStabilization.cpp:21-28 | every tensor the grid scan stored is symmetric |
| Stabilizer.PatchStabilization.UpdatePointsAndReliability | PatchStabilization.cpp:115-132 | the current points are the forward targets, the flags are exactly the validity test of every point, each reliability takes one decay-and-gain step, and reliabilities stay in [0, 1] (older copy: VideoStabilization/PatchStabilization.cpp lines 111-128) |
| Stabilizer.PatchStabilization.UpdateHomography | PatchStabilization.cpp:135-182 | after the point update, the returned update is always present: it is the inverse of the 50-iteration estimate over the gated points (older copy: VideoStabilization/PatchStabilization.cpp lines 131-178) |
| Stabilizer.PatchStabilization.Stabilize | PatchStabilization.cpp:184-205 | the reference is taken from the first frame only and is unchanged on later frames; the cumulative homography becomes the update times the previous one, so after the first frame it is that frame's update; the frame comes back warped by it (older copy: VideoStabilization/PatchStabilization.cpp lines 180-201) |

## Left out

- The OpenCV primitives are inputs, not models. `cvtColor`, `GaussianBlur`, `Sobel`, `multiply` and both `calcOpticalFlowPyrLK` calls are given as their results (`Observations`). `std::sqrt`, `Matx::inv` and the robust weight are function-valued parameters (`Primitives`). `warpPerspective` is represented only by the homography it is given (`Output`).
- Estimator.Fit: does not model how A and b are accumulated (weighted by the tensor), their division by sum_weights, or the Cholesky solve. These are one parameter `solve` from contributors and weights to h. The robust weight of iterations after the first is a parameter of the previous h and the point index. It depends on `perspectiveTransform` and the inverse, which are foreign calls.
- Stabilizer.PatchStabilization.UpdateHomography: weaker than the source in the same way as Fit. A zero sum_weights (no gated point) gives a non-finite A and b in the source; the model leaves that to the `solve` parameter.
- Floating point: all arithmetic is exact. Single-precision rounding, the float value of the constants (0.1f is not exactly 0.1), -0.0 and the NaN of a square root of a negative argument are not modelled. The discriminant of a symmetric tensor is never negative.
- Stabilizer.PatchStabilization.Stabilize: requires a non-empty frame. `cvtColor` rejects an empty one, and the capture loop in main.cpp stops at an empty frame before calling `stabilize`. It also requires the derivative fields to match the frame size, as OpenCV produces them.
- The per-patch vectors are values reassigned in the fields, not storage updated in place. No aliasing between them exists in the source either.
- main.cpp (video capture, display, timing and key handling) is I/O, so it is not part of this model. The headers only declare the fields the class mirrors.

/** What the per-patch scan of the reference frame selects: the pixel of
    largest structure-tensor trace, first in row-major order on ties. */
module Selection {
  import opened Geometry
  import opened Grid

  /** The smoothed second-moment fields IxIx, IxIy and IyIy of the reference
      frame (derivatives[0..2]), each indexed [row j][column i]. */
  datatype Derivatives = Derivatives(ixix: seq<seq<real>>, ixiy: seq<seq<real>>, iyiy: seq<seq<real>>)

  /** The three fields are rows x cols, the size of the frame they come from. */
  ghost predicate Fits(d: Derivatives, rows: nat, cols: nat) {
    && |d.ixix| == rows && |d.ixiy| == rows && |d.iyiy| == rows
    && (forall j :: 0 <= j < rows ==> |d.ixix[j]| == cols)
    && (forall j :: 0 <= j < rows ==> |d.ixiy[j]| == cols)
    && (forall j :: 0 <= j < rows ==> |d.iyiy[j]| == cols)
  }

  ghost predicate InBounds(d: Derivatives, i: int, j: int) {
    && 0 <= j < |d.ixix| && 0 <= j < |d.ixiy| && 0 <= j < |d.iyiy|
    && 0 <= i < |d.ixix[j]| && 0 <= i < |d.ixiy[j]| && 0 <= i < |d.iyiy[j]|
  }

  /** The 2x2 structure tensor at pixel (i, j). */
  function TensorAt(d: Derivatives, i: int, j: int): (t: Tensor)
    requires InBounds(d, i, j)
    ensures t.Symmetric()
    ensures t.a00 == d.ixix[j][i] && t.a01 == d.ixiy[j][i] && t.a11 == d.iyiy[j][i]
  {
    Tensor(d.ixix[j][i], d.ixiy[j][i], d.ixiy[j][i], d.iyiy[j][i])
  }

  function TraceAt(d: Derivatives, i: int, j: int): real
    requires InBounds(d, i, j)
  {
    TensorAt(d, i, j).Trace()
  }

  /** Every pixel of the patch can be read from the three fields. */
  ghost predicate Readable(d: Derivatives, patch: Rect) {
    forall x, y :: patch.Contains(x, y) ==> InBounds(d, x, y)
  }

  /** The value max_trace starts from: only a trace above it can be selected. */
  const InitialMaxTrace: real := -1.0

  /** Pixel (x, y) is scanned before pixel (i, j): rows top to bottom, and
      left to right within a row. */
  predicate Precedes(x: int, y: int, i: int, j: int) {
    y < j || (y == j && x < i)
  }

  /** Some pixel of the patch has a trace above the initial max_trace. */
  ghost predicate HasCandidate(d: Derivatives, patch: Rect)
    requires Readable(d, patch)
  {
    exists i, j :: patch.Contains(i, j) && TraceAt(d, i, j) > InitialMaxTrace
  }

  /** (i, j) is the pixel the scan keeps: inside the patch, above the initial
      max_trace, of maximal trace, and strictly larger than every pixel scanned
      before it (the comparison is a strict >, so the first maximum wins). */
  ghost predicate FirstMax(d: Derivatives, patch: Rect, i: int, j: int)
    requires Readable(d, patch)
  {
    && patch.Contains(i, j)
    && TraceAt(d, i, j) > InitialMaxTrace
    && (forall x, y :: patch.Contains(x, y) ==> TraceAt(d, x, y) <= TraceAt(d, i, j))
    && (forall x, y :: patch.Contains(x, y) && Precedes(x, y, i, j) ==> TraceAt(d, x, y) < TraceAt(d, i, j))
  }

  /** The scan's choice is determined: two first maxima are the same pixel. */
  lemma FirstMaxUnique(d: Derivatives, patch: Rect, i1: int, j1: int, i2: int, j2: int)
    requires Readable(d, patch)
    requires FirstMax(d, patch, i1, j1) && FirstMax(d, patch, i2, j2)
    ensures i1 == i2 && j1 == j2
  {
    // Whichever of the two is scanned first would be strictly below the other
    // and also at least as large: neither can come first.
    assert !Precedes(i1, j1, i2, j2) && !Precedes(i2, j2, i1, j1);
  }

  /** What the row-major scan knows when it reaches pixel (i, j): whether a
      pixel has been kept, that the kept pixel (bi, bj) was scanned, that
      max_trace is its trace and beats everything scanned before it, and that
      nothing scanned so far is above max_trace. */
  ghost predicate ScanInvariant(d: Derivatives, patch: Rect, i: int, j: int,
                                found: bool, bi: int, bj: int, maxTrace: real)
    requires Readable(d, patch)
  {
    && (found ==> && patch.Contains(bi, bj) && Precedes(bi, bj, i, j)
                  && maxTrace == TraceAt(d, bi, bj) && maxTrace > InitialMaxTrace
                  && (forall x, y :: patch.Contains(x, y) && Precedes(x, y, bi, bj) ==> TraceAt(d, x, y) < maxTrace))
    && (!found ==> maxTrace == InitialMaxTrace)
    && (forall x, y :: patch.Contains(x, y) && Precedes(x, y, i, j) ==> TraceAt(d, x, y) <= maxTrace)
  }

  /** The scan starts with nothing kept and max_trace at its initial value. */
  lemma ScanStart(d: Derivatives, patch: Rect)
    requires Readable(d, patch)
    ensures ScanInvariant(d, patch, patch.x, patch.y, false, 0, 0, InitialMaxTrace)
  {
  }

  /** Visiting pixel (i, j): a strictly larger trace takes over, anything else
      leaves the kept pixel alone. */
  lemma ScanStep(d: Derivatives, patch: Rect, i: int, j: int, found: bool, bi: int, bj: int, maxTrace: real)
    requires Readable(d, patch) && patch.Contains(i, j)
    requires ScanInvariant(d, patch, i, j, found, bi, bj, maxTrace)
    ensures TraceAt(d, i, j) > maxTrace ==> ScanInvariant(d, patch, i + 1, j, true, i, j, TraceAt(d, i, j))
    ensures TraceAt(d, i, j) <= maxTrace ==> ScanInvariant(d, patch, i + 1, j, found, bi, bj, maxTrace)
  {
    if TraceAt(d, i, j) > maxTrace {
      forall x, y | patch.Contains(x, y) && Precedes(x, y, i + 1, j)
        ensures TraceAt(d, x, y) <= TraceAt(d, i, j)
      {
        if x != i || y != j {
          assert Precedes(x, y, i, j);
        }
      }
    }
  }

  /** Past the right edge of row j the scan continues at the start of row j + 1. */
  lemma ScanNextRow(d: Derivatives, patch: Rect, i: int, j: int, found: bool, bi: int, bj: int, maxTrace: real)
    requires Readable(d, patch) && patch.Right() <= i
    requires ScanInvariant(d, patch, i, j, found, bi, bj, maxTrace)
    ensures ScanInvariant(d, patch, patch.x, j + 1, found, bi, bj, maxTrace)
  {
    forall x, y | patch.Contains(x, y) && Precedes(x, y, patch.x, j + 1)
      ensures TraceAt(d, x, y) <= maxTrace
    {
      assert Precedes(x, y, i, j);
    }
  }

  /** Past the bottom edge the kept pixel is the first maximum, and nothing is
      kept exactly when no pixel beats the initial max_trace. */
  lemma ScanDone(d: Derivatives, patch: Rect, j: int, found: bool, bi: int, bj: int, maxTrace: real)
    requires Readable(d, patch) && patch.Bottom() <= j
    requires ScanInvariant(d, patch, patch.x, j, found, bi, bj, maxTrace)
    ensures found ==> FirstMax(d, patch, bi, bj)
    ensures !found ==> !HasCandidate(d, patch)
  {
    forall x, y | patch.Contains(x, y)
      ensures TraceAt(d, x, y) <= maxTrace
    {
      assert Precedes(x, y, patch.x, j);
    }
  }

  /** A patch of zero width or height has no pixel to select, so its slot is
      left as it was. */
  lemma ZeroSizePatchHasNoCandidate(d: Derivatives, patch: Rect)
    requires Readable(d, patch)
    requires patch.width <= 0 || patch.height <= 0
    ensures !HasCandidate(d, patch)
  {
  }

  /** A structure tensor field has non-negative diagonal entries (smoothed squares). */
  ghost predicate NonNegativeDiagonal(d: Derivatives)
  {
    forall i, j :: InBounds(d, i, j) ==> 0.0 <= d.ixix[j][i] && 0.0 <= d.iyiy[j][i]
  }

  /** With non-negative squared-derivative fields every pixel beats the initial
      max_trace, so every patch with a pixel gets a selection. */
  lemma NonEmptyPatchHasCandidate(d: Derivatives, patch: Rect)
    requires Readable(d, patch)
    requires NonNegativeDiagonal(d)
    ensures HasCandidate(d, patch) <==> 0 < patch.width && 0 < patch.height
  {
    if 0 < patch.width && 0 < patch.height {
      assert patch.Contains(patch.x, patch.y);
      assert InBounds(d, patch.x, patch.y);
      assert TraceAt(d, patch.x, patch.y) > InitialMaxTrace;
    }
  }

  /** The eigenvalue formula of the scan, 0.5 * (trace + sqrt(t)), with the
      square root supplied by the caller (std::sqrt). */
  function Discriminant(t: Tensor): real {
    (t.a00 - t.a11) * (t.a00 - t.a11) + 4.0 * t.a01 * t.a10
  }

  function MaxEigenvalue(t: Tensor, sqrt: real -> real): real {
    0.5 * (t.Trace() + sqrt(Discriminant(t)))
  }

  function Determinant(t: Tensor): real {
    t.a00 * t.a11 - t.a01 * t.a10
  }

  /** When sqrt returns the non-negative square root, MaxEigenvalue is a root
      of the characteristic polynomial, and the larger of its two roots. */
  lemma MaxEigenvalueIsLargerEigenvalue(t: Tensor, sqrt: real -> real)
    requires 0.0 <= sqrt(Discriminant(t)) && sqrt(Discriminant(t)) * sqrt(Discriminant(t)) == Discriminant(t)
    ensures var l := MaxEigenvalue(t, sqrt);
      && l * l - t.Trace() * l + Determinant(t) == 0.0
      && var other := t.Trace() - l;
         other * other - t.Trace() * other + Determinant(t) == 0.0 && other <= l
  {
    var s := sqrt(Discriminant(t));
    var tr := t.Trace();
    var l := MaxEigenvalue(t, sqrt);
    assert l == 0.5 * (tr + s);
    calc {
      l * l - tr * l + Determinant(t);
      0.25 * (tr * tr + 2.0 * tr * s + s * s) - 0.5 * (tr * tr + tr * s) + Determinant(t);
      0.25 * (s * s - tr * tr) + Determinant(t);
      0.25 * ((t.a00 - t.a11) * (t.a00 - t.a11) + 4.0 * t.a01 * t.a10 - (t.a00 + t.a11) * (t.a00 + t.a11)) + Determinant(t);
      0.0;
    }
    var other := tr - l;
    assert other == 0.5 * (tr - s);
    calc {
      other * other - tr * other + Determinant(t);
      0.25 * (tr * tr - 2.0 * tr * s + s * s) - 0.5 * (tr * tr - tr * s) + Determinant(t);
      0.25 * (s * s - tr * tr) + Determinant(t);
      0.0;
    }
  }

  /** What a scanned patch slot holds once the scan has run over a slot that
      held the default (zero) values: the first maximum, or the defaults when
      no pixel beats the initial max_trace (for example a zero-size patch). */
  ghost predicate Selects(d: Derivatives, patch: Rect, sqrt: real -> real, t: Tensor, p: Point, e: real)
  {
    && Readable(d, patch)
    && if HasCandidate(d, patch) then
      exists i, j :: && FirstMax(d, patch, i, j)
                     && t == TensorAt(d, i, j) && p == Point(i as real, j as real)
                     && e == MaxEigenvalue(t, sqrt)
       else
         t == ZeroTensor && p == Origin && e == 0.0
  }
}

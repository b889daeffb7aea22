/** The fixed 20 x 15 partition of the reference frame into patches. */
module Grid {

  const PatchColNum: int := 20
  const PatchRowNum: int := 15
  /** Length of every per-patch vector. */
  const PatchCount: int := PatchColNum * PatchRowNum

  /** cv::Rect: top-left corner (x, y) and size; br() is (Right(), Bottom()). */
  datatype Rect = Rect(x: int, y: int, width: int, height: int) {
    function Right(): int { x + width }
    function Bottom(): int { y + height }
    /** Pixel (i, j) (column i, row j) lies inside the rectangle. */
    predicate Contains(i: int, j: int) {
      x <= i < x + width && y <= j < y + height
    }
    /** The rectangle has non-negative size and lies inside a rows x cols frame. */
    predicate InFrame(rows: int, cols: int) {
      0 <= x && 0 <= y && 0 <= width && 0 <= height && x + width <= cols && y + height <= rows
    }
  }

  /** Patch width and height, truncated by integer division. */
  function PatchWidth(cols: nat): nat { cols / PatchColNum }
  function PatchHeight(rows: nat): nat { rows / PatchRowNum }

  /** Index of patch (pi, pj) in every per-patch vector. */
  function PatchIndex(pi: int, pj: int): (k: int)
    requires 0 <= pi < PatchColNum && 0 <= pj < PatchRowNum
    ensures 0 <= k < PatchCount
    ensures k % PatchColNum == pi && k / PatchColNum == pj
  {
    pj * PatchColNum + pi
  }

  /** The rectangle of patch (pi, pj) for patch size pw x ph. */
  function Cell(pi: int, pj: int, pw: nat, ph: nat): Rect {
    Rect(pi * pw, pj * ph, pw, ph)
  }

  /** A pixel that lies in some cell of the grid. */
  ghost predicate Covered(x: int, y: int, pw: nat, ph: nat) {
    exists pi, pj :: 0 <= pi < PatchColNum && 0 <= pj < PatchRowNum && Cell(pi, pj, pw, ph).Contains(x, y)
  }

  /** Every index of a per-patch vector belongs to exactly one patch. */
  lemma PatchIndexOnto(k: int)
    requires 0 <= k < PatchCount
    ensures 0 <= k % PatchColNum < PatchColNum && 0 <= k / PatchColNum < PatchRowNum
    ensures PatchIndex(k % PatchColNum, k / PatchColNum) == k
  {
  }

  lemma PatchIndexInjective(pi1: int, pj1: int, pi2: int, pj2: int)
    requires 0 <= pi1 < PatchColNum && 0 <= pj1 < PatchRowNum
    requires 0 <= pi2 < PatchColNum && 0 <= pj2 < PatchRowNum
    requires PatchIndex(pi1, pj1) == PatchIndex(pi2, pj2)
    ensures pi1 == pi2 && pj1 == pj2
  {
  }

  /** Row-major order of the double loop: patch (pi, pj) is visited as the
      PatchIndex(pi, pj)-th cell, so the loop visits 0, 1, ..., PatchCount - 1. */
  lemma PatchIndexRowMajor(pi: int, pj: int)
    requires 0 <= pi < PatchColNum && 0 <= pj < PatchRowNum
    ensures pi + 1 < PatchColNum ==> PatchIndex(pi + 1, pj) == PatchIndex(pi, pj) + 1
    ensures pi + 1 == PatchColNum && pj + 1 < PatchRowNum ==> PatchIndex(0, pj + 1) == PatchIndex(pi, pj) + 1
    ensures pi + 1 == PatchColNum && pj + 1 == PatchRowNum ==> PatchIndex(pi, pj) + 1 == PatchCount
  {
  }

  lemma MulMonotone(a: int, b: int, c: nat)
    requires a <= b
    ensures a * c <= b * c
  {
    assert b * c - a * c == (b - a) * c;
  }

  /** The start of cell p along one axis for size s. */
  lemma SpanBounds(p: int, n: int, s: nat, total: nat)
    requires 0 <= p < n && s == total / n
    ensures 0 <= p * s && p * s + s <= n * s <= total
  {
    MulMonotone(0, p, s);
    MulMonotone(p + 1, n, s);
  }

  /** Every cell lies inside the frame. */
  lemma CellInFrame(pi: int, pj: int, rows: nat, cols: nat)
    requires 0 <= pi < PatchColNum && 0 <= pj < PatchRowNum
    ensures Cell(pi, pj, PatchWidth(cols), PatchHeight(rows)).InFrame(rows, cols)
    ensures Cell(pi, pj, PatchWidth(cols), PatchHeight(rows)).Right() <= PatchColNum * PatchWidth(cols)
    ensures Cell(pi, pj, PatchWidth(cols), PatchHeight(rows)).Bottom() <= PatchRowNum * PatchHeight(rows)
  {
    SpanBounds(pi, PatchColNum, PatchWidth(cols), cols);
    SpanBounds(pj, PatchRowNum, PatchHeight(rows), rows);
  }

  /** Two spans [p1*s, p1*s+s) and [p2*s, p2*s+s) that share a point are the same span. */
  lemma SpanDisjoint(p1: int, p2: int, s: nat, v: int)
    requires p1 * s <= v < p1 * s + s && p2 * s <= v < p2 * s + s
    ensures p1 == p2
  {
    if p1 < p2 {
      MulMonotone(p1 + 1, p2, s);
    } else if p2 < p1 {
      MulMonotone(p2 + 1, p1, s);
    }
  }

  /** Cells are pairwise disjoint. */
  lemma CellsDisjoint(pi1: int, pj1: int, pi2: int, pj2: int, pw: nat, ph: nat, x: int, y: int)
    requires Cell(pi1, pj1, pw, ph).Contains(x, y) && Cell(pi2, pj2, pw, ph).Contains(x, y)
    ensures pi1 == pi2 && pj1 == pj2
  {
    SpanDisjoint(pi1, pi2, pw, x);
    SpanDisjoint(pj1, pj2, ph, y);
  }

  /** Along one axis, v lies in the span of v / s exactly when v < n * s. */
  lemma SpanOf(v: int, n: int, s: nat)
    requires 0 <= v < n * s
    ensures 0 <= v / s < n && (v / s) * s <= v < (v / s) * s + s
  {
    assert s > 0;
    if v / s >= n {
      MulMonotone(n, v / s, s);
    }
  }

  /** A pixel of [0, 20 * pw) x [0, 15 * ph) lies in cell (x / pw, y / ph). */
  lemma CellOfPixel(x: int, y: int, pw: nat, ph: nat)
    requires 0 <= x < PatchColNum * pw && 0 <= y < PatchRowNum * ph
    ensures 0 <= x / pw < PatchColNum && 0 <= y / ph < PatchRowNum
    ensures Cell(x / pw, y / ph, pw, ph).Contains(x, y)
  {
    SpanOf(x, PatchColNum, pw);
    SpanOf(y, PatchRowNum, ph);
  }

  /** A pixel inside some cell lies in [0, 20 * pw) x [0, 15 * ph). */
  lemma CellPixelBounds(pi: int, pj: int, pw: nat, ph: nat, x: int, y: int)
    requires 0 <= pi < PatchColNum && 0 <= pj < PatchRowNum
    requires Cell(pi, pj, pw, ph).Contains(x, y)
    ensures 0 <= x < PatchColNum * pw && 0 <= y < PatchRowNum * ph
  {
    MulMonotone(0, pi, pw);
    MulMonotone(0, pj, ph);
    MulMonotone(pi + 1, PatchColNum, pw);
    MulMonotone(pj + 1, PatchRowNum, ph);
  }

  /** The cells cover exactly [0, 20 * pw) x [0, 15 * ph): the remainder pixels at
      the right and bottom edges belong to no cell and are never scanned. */
  lemma CoveredIff(x: int, y: int, pw: nat, ph: nat)
    ensures Covered(x, y, pw, ph) <==> 0 <= x < PatchColNum * pw && 0 <= y < PatchRowNum * ph
  {
    if 0 <= x < PatchColNum * pw && 0 <= y < PatchRowNum * ph {
      CellOfPixel(x, y, pw, ph);
    }
    if Covered(x, y, pw, ph) {
      var pi, pj :| 0 <= pi < PatchColNum && 0 <= pj < PatchRowNum && Cell(pi, pj, pw, ph).Contains(x, y);
      CellPixelBounds(pi, pj, pw, ph, x, y);
    }
  }
}

/**
 * Grid geometry of the picture-authentication widget: how many cells the digit
 * grid has, where each cell sits for a given matrix position, which cells are
 * visible, which cell a pointer lies in, and where a recentred grid is placed.
 * Cell (row, col) has its top-left corner at `pos + (col * cellSize, row * cellSize)`.
 */
module Geometry {
  import opened Types
  import opened Arith

  function Max(a: nat, b: nat): (m: nat)
    ensures a <= m && b <= m && (m == a || m == b)
  {
    if a >= b then a else b
  }

  /** The side length of the digit grid when no canvas element is mounted. */
  const FallbackGridSize: nat := 36

  /** Side length of the digit grid: enough cells to span three times the canvas's longer side. */
  function GridSize(canvas: Option<Canvas>, cellSize: real): (n: nat)
    requires cellSize > 0.0
    ensures canvas.None? ==> n == FallbackGridSize
    ensures canvas.Some? ==> n as real * cellSize >= 3.0 * Max(canvas.value.width, canvas.value.height) as real
    ensures canvas.Some? ==> (n - 1) as real * cellSize < 3.0 * Max(canvas.value.width, canvas.value.height) as real
    ensures canvas.Some? && Max(canvas.value.width, canvas.value.height) > 0 ==> n > 0
  {
    if canvas.None? then FallbackGridSize
    else
      var target := Max(canvas.value.width, canvas.value.height) as real * 3.0;
      CeilDivCovers(target, cellSize);
      DivMonotone(0.0, target, cellSize);
      Ceil(target / cellSize)
  }

  /** A larger cell size never needs more cells. */
  lemma GridSizeNonIncreasingInCellSize(canvas: Option<Canvas>, cs1: real, cs2: real)
    requires 0.0 < cs1 <= cs2
    ensures GridSize(canvas, cs2) <= GridSize(canvas, cs1)
  {
    if canvas.Some? {
      var target := Max(canvas.value.width, canvas.value.height) as real * 3.0;
      DivAntitone(target, cs1, cs2);
      CeilMonotone(target / cs2, target / cs1);
    }
  }

  /** A canvas with a longer longest side never needs fewer cells. */
  lemma GridSizeNonDecreasingInCanvas(c1: Canvas, c2: Canvas, cellSize: real)
    requires cellSize > 0.0
    requires Max(c1.width, c1.height) <= Max(c2.width, c2.height)
    ensures GridSize(Some(c1), cellSize) <= GridSize(Some(c2), cellSize)
  {
    var t1 := Max(c1.width, c1.height) as real * 3.0;
    var t2 := Max(c2.width, c2.height) as real * 3.0;
    DivMonotone(t1, t2, cellSize);
    CeilMonotone(t1 / cellSize, t2 / cellSize);
  }

  /** Canvas-space corner of cell (row, col) when cell (0, 0) is at `pos`. */
  function CellOrigin(pos: Point, row: int, col: int, cellSize: real): Point {
    Point(pos.x + col as real * cellSize, pos.y + row as real * cellSize)
  }

  /** Canvas-space centre of cell (row, col): where its digit is drawn and what alignment measures. */
  function CellCentre(pos: Point, row: int, col: int, cellSize: real): Point {
    var o := CellOrigin(pos, row, col, cellSize);
    Point(o.x + cellSize / 2.0, o.y + cellSize / 2.0)
  }

  /** The cell's box overlaps the canvas viewport, at least partly (open bounds). */
  predicate CellVisible(pos: Point, row: int, col: int, cellSize: real, canvas: Canvas) {
    var o := CellOrigin(pos, row, col, cellSize);
    o.x + cellSize > 0.0 && o.x < canvas.width as real &&
    o.y + cellSize > 0.0 && o.y < canvas.height as real
  }

  /** Midpoint of the overlap of the open intervals (lo1, hi1) and (lo2, hi2), when they overlap. */
  function OverlapMidpoint(lo1: real, hi1: real, lo2: real, hi2: real): (v: real)
    requires lo1 < hi2 && lo2 < hi1 && lo1 < hi1 && lo2 < hi2
    ensures lo1 < v < hi1 && lo2 < v < hi2
  {
    var lo := if lo1 < lo2 then lo2 else lo1;
    var hi := if hi1 < hi2 then hi1 else hi2;
    (lo + hi) / 2.0
  }

  /**
   * The visibility test means what it says: for a positive cell size and a
   * non-empty canvas, a cell is visible exactly when some point lies strictly
   * inside both the cell's box and the canvas.
   */
  lemma CellVisibleIffOverlap(pos: Point, row: int, col: int, cellSize: real, canvas: Canvas)
    requires cellSize > 0.0 && canvas.width > 0 && canvas.height > 0
    ensures CellVisible(pos, row, col, cellSize, canvas) <==>
            exists q: Point :: InsideCell(pos, row, col, cellSize, q) && InsideCanvas(canvas, q)
  {
    var o := CellOrigin(pos, row, col, cellSize);
    if CellVisible(pos, row, col, cellSize, canvas) {
      var q := Point(OverlapMidpoint(o.x, o.x + cellSize, 0.0, canvas.width as real),
                     OverlapMidpoint(o.y, o.y + cellSize, 0.0, canvas.height as real));
      assert InsideCell(pos, row, col, cellSize, q) && InsideCanvas(canvas, q);
    }
  }

  /** The point lies strictly inside the cell's box. */
  predicate InsideCell(pos: Point, row: int, col: int, cellSize: real, q: Point) {
    var o := CellOrigin(pos, row, col, cellSize);
    o.x < q.x < o.x + cellSize && o.y < q.y < o.y + cellSize
  }

  /** The point lies strictly inside the canvas. */
  predicate InsideCanvas(canvas: Canvas, q: Point) {
    0.0 < q.x < canvas.width as real && 0.0 < q.y < canvas.height as real
  }

  /** The point lies in the cell's box, borders included. */
  predicate CellContains(pos: Point, row: int, col: int, cellSize: real, p: Point) {
    var o := CellOrigin(pos, row, col, cellSize);
    o.x <= p.x <= o.x + cellSize && o.y <= p.y <= o.y + cellSize
  }

  /** A pointer-down at `p` can grab cell (row, col): the cell is visible and holds the point. */
  predicate Grabbable(pos: Point, row: int, col: int, cellSize: real, canvas: Canvas, p: Point) {
    CellVisible(pos, row, col, cellSize, canvas) && CellContains(pos, row, col, cellSize, p)
  }

  /** Some cell of an n-by-n grid at `pos` can be grabbed at `p`. */
  ghost predicate GrabsGrid(pos: Point, n: nat, cellSize: real, canvas: Canvas, p: Point) {
    exists row, col :: 0 <= row < n && 0 <= col < n && Grabbable(pos, row, col, cellSize, canvas, p)
  }

  /**
   * `a` is no farther than `tolerance` from `b`. Distances are compared squared;
   * a negative tolerance admits no distance at all, as a square root never is negative.
   */
  predicate WithinTolerance(a: Point, b: Point, tolerance: real) {
    0.0 <= tolerance &&
    (a.x - b.x) * (a.x - b.x) + (a.y - b.y) * (a.y - b.y) <= tolerance * tolerance
  }

  /**
   * The squared test decides the same as comparing the Euclidean distance itself:
   * for `distance`, the non-negative square root of the squared distance, the
   * points are within `tolerance` exactly when `distance <= tolerance`, whatever
   * the sign of `tolerance`.
   */
  lemma WithinToleranceIffDistance(a: Point, b: Point, tolerance: real, distance: real)
    requires distance >= 0.0
    requires distance * distance == (a.x - b.x) * (a.x - b.x) + (a.y - b.y) * (a.y - b.y)
    ensures WithinTolerance(a, b, tolerance) <==> distance <= tolerance
  {
    if tolerance >= 0.0 {
      SquareLeIff(distance, tolerance);
    }
  }

  /** Position of cell (0, 0) that puts the middle of an n-by-n grid on the middle of the canvas. */
  function CentredPosition(canvas: Canvas, n: nat, cellSize: real): (pos: Point)
    ensures pos.x + n as real * cellSize / 2.0 == canvas.width as real / 2.0
    ensures pos.y + n as real * cellSize / 2.0 == canvas.height as real / 2.0
  {
    Point(canvas.width as real / 2.0 - n as real * cellSize / 2.0,
          canvas.height as real / 2.0 - n as real * cellSize / 2.0)
  }

  /**
   * After recentring, the grid overhangs the canvas by at least the canvas's
   * longer side on every edge, so dragging by up to that much exposes no edge.
   */
  lemma CentredGridOverhangsCanvas(canvas: Canvas, cellSize: real)
    requires cellSize > 0.0
    ensures var n := GridSize(Some(canvas), cellSize);
            var pos := CentredPosition(canvas, n, cellSize);
            var m := Max(canvas.width, canvas.height) as real;
            pos.x <= -m && pos.x + n as real * cellSize >= canvas.width as real + m &&
            pos.y <= -m && pos.y + n as real * cellSize >= canvas.height as real + m
  {
  }

  /**
   * One axis of the grab: a coordinate `v` on a canvas side of length `len`, with
   * the grid's n cells starting at `o <= 0` and ending at or beyond `len`, falls in
   * a cell that is visible along that axis.
   */
  lemma AxisCell(o: real, v: real, len: real, n: nat, c: real) returns (k: int)
    requires c > 0.0 && o <= 0.0 && o + n as real * c > len
    requires 0.0 <= v < len
    ensures 0 <= k < n
    ensures o + k as real * c <= v <= o + k as real * c + c
    ensures o + k as real * c + c > 0.0 && o + k as real * c < len
  {
    k := ((v - o) / c).Floor;
    FloorDivBounds(v - o, c);
    CellIndexInRange(v - o, c, n);
  }

  /** A grid that starts left of and above the canvas and reaches past its far edges can be grabbed anywhere on it. */
  lemma GrabCoveringGrid(canvas: Canvas, cellSize: real, n: nat, pos: Point, p: Point)
    requires cellSize > 0.0
    requires pos.x <= 0.0 && pos.x + n as real * cellSize > canvas.width as real
    requires pos.y <= 0.0 && pos.y + n as real * cellSize > canvas.height as real
    requires 0.0 <= p.x < canvas.width as real && 0.0 <= p.y < canvas.height as real
    ensures GrabsGrid(pos, n, cellSize, canvas, p)
  {
    var col := AxisCell(pos.x, p.x, canvas.width as real, n, cellSize);
    var row := AxisCell(pos.y, p.y, canvas.height as real, n, cellSize);
    assert Grabbable(pos, row, col, cellSize, canvas, p);
  }

  /**
   * Right after recentring, a pointer-down anywhere on the canvas lands on a
   * visible cell of the grid, so the user can always start a drag.
   */
  lemma GrabAnywhereAfterRecentre(canvas: Canvas, cellSize: real, p: Point)
    requires cellSize > 0.0
    requires 0.0 <= p.x < canvas.width as real && 0.0 <= p.y < canvas.height as real
    ensures GrabsGrid(CentredPosition(canvas, GridSize(Some(canvas), cellSize), cellSize),
                      GridSize(Some(canvas), cellSize), cellSize, canvas, p)
  {
    var n := GridSize(Some(canvas), cellSize);
    CentredGridOverhangsCanvas(canvas, cellSize);
    GrabCoveringGrid(canvas, cellSize, n, CentredPosition(canvas, n, cellSize), p);
  }

  /** An offset inside the grid's span falls in one of its n cells. */
  lemma CellIndexInRange(d: real, c: real, n: nat)
    requires c > 0.0 && 0.0 <= d < n as real * c
    ensures 0 <= (d / c).Floor < n
  {
    FloorDivBounds(d, c);
  }

  /** A cell that held the pointer at grab time holds it after the grid follows the pointer. */
  lemma GrabbedCellFollowsPointer(pos: Point, row: int, col: int, cellSize: real, grab: Point, p: Point)
    requires CellContains(pos, row, col, cellSize, grab)
    ensures CellContains(p.Minus(grab.Minus(pos)), row, col, cellSize, p)
  {
  }
}

/**
 * Hit-testing for pointer-down: does the pointer land on a visible cell of the
 * grid? The scan runs over the full grid in row-major order and stops at the
 * first cell that is both visible and holds the pointer.
 */
module Tracker {
  import opened Types
  import opened Geometry

  /** Scans the n-by-n grid at `pos` for a visible cell holding `p`. */
  method ScanForGrab(pos: Point, n: nat, cellSize: real, canvas: Canvas, p: Point) returns (hit: bool)
    ensures hit <==> GrabsGrid(pos, n, cellSize, canvas, p)
  {
    hit := false;
    var row := 0;
    while row < n
      invariant 0 <= row <= n
      invariant hit ==> GrabsGrid(pos, n, cellSize, canvas, p)
      invariant !hit ==> forall r, c :: 0 <= r < row && 0 <= c < n ==> !Grabbable(pos, r, c, cellSize, canvas, p)
    {
      var col := 0;
      while col < n
        invariant 0 <= col <= n
        invariant hit ==> GrabsGrid(pos, n, cellSize, canvas, p)
        invariant !hit ==> forall c :: 0 <= c < col ==> !Grabbable(pos, row, c, cellSize, canvas, p)
      {
        if Grabbable(pos, row, col, cellSize, canvas, p) {
          hit := true;
          break;
        }
        col := col + 1;
      }
      if hit {
        break;
      }
      row := row + 1;
    }
  }

  /**
   * A successful grab records the pointer's offset from cell (0, 0); that offset
   * lies within the grid's own extent, because the grabbed cell is one of its cells.
   */
  lemma GrabOffsetWithinGrid(pos: Point, n: nat, cellSize: real, canvas: Canvas, p: Point)
    requires cellSize > 0.0
    requires GrabsGrid(pos, n, cellSize, canvas, p)
    ensures var offset := p.Minus(pos);
            0.0 <= offset.x <= n as real * cellSize && 0.0 <= offset.y <= n as real * cellSize
  {
    var row, col :| 0 <= row < n && 0 <= col < n && Grabbable(pos, row, col, cellSize, canvas, p);
    OffsetInSpan(col, n, cellSize, p.x - pos.x);
    OffsetInSpan(row, n, cellSize, p.y - pos.y);
  }

  /** An offset inside cell k of a row of n cells lies inside the row's span. */
  lemma OffsetInSpan(k: int, n: nat, c: real, v: real)
    requires 0 <= k < n && c > 0.0
    requires k as real * c <= v <= k as real * c + c
    ensures 0.0 <= v <= n as real * c
  {
    Arith.ScaleLe(0.0, k as real, c);
    Arith.ScaleLe((k + 1) as real, n as real, c);
    assert (k + 1) as real * c == k as real * c + c;
  }

  /** A grab is only possible within one cell's width of the canvas. */
  lemma GrabNearCanvas(pos: Point, n: nat, cellSize: real, canvas: Canvas, p: Point)
    requires GrabsGrid(pos, n, cellSize, canvas, p)
    ensures -cellSize < p.x < canvas.width as real + cellSize
    ensures -cellSize < p.y < canvas.height as real + cellSize
  {
    var row, col :| 0 <= row < n && 0 <= col < n && Grabbable(pos, row, col, cellSize, canvas, p);
  }
}

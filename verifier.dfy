/**
 * The alignment check run on pointer-up: the authentication succeeds when some
 * cell holding the chosen digit has its centre within half a cell of the
 * remembered target point. The scan stops only on an in-tolerance match, so
 * every occurrence of the digit is examined before the check fails.
 */
module Verifier {
  import opened Types
  import opened Geometry
  import opened Grid

  /** Acceptance radius: half a cell, whatever the host configured as `tolerance`. */
  function Tolerance(cellSize: real): real {
    cellSize / 2.0
  }

  /** Cell (row, col) exists, holds the chosen digit, and its centre is close enough to the target. */
  predicate AlignedAt(m: seq<seq<int>>, pos: Point, chosen: int, target: Point, cellSize: real, row: int, col: int) {
    0 <= row < |m| && 0 <= col < |m[row]| && m[row][col] == chosen &&
    WithinTolerance(CellCentre(pos, row, col, cellSize), target, Tolerance(cellSize))
  }

  /** Some cell of the n-by-n grid is aligned with the target. */
  ghost predicate Aligned(m: seq<seq<int>>, n: nat, pos: Point, chosen: int, target: Point, cellSize: real) {
    exists row, col :: 0 <= row < n && 0 <= col < n && AlignedAt(m, pos, chosen, target, cellSize, row, col)
  }

  /** Scans the grid in row-major order, stopping at the first aligned occurrence of the digit. */
  method CheckAlignment(m: seq<seq<int>>, n: nat, pos: Point, chosen: int, target: Point, cellSize: real)
    returns (authenticated: bool)
    requires IsSquare(m, n)
    ensures authenticated <==> Aligned(m, n, pos, chosen, target, cellSize)
  {
    authenticated := false;
    var row := 0;
    while row < n
      invariant 0 <= row <= n
      invariant authenticated ==> Aligned(m, n, pos, chosen, target, cellSize)
      invariant !authenticated ==>
                  forall r, c :: 0 <= r < row && 0 <= c < n ==> !AlignedAt(m, pos, chosen, target, cellSize, r, c)
    {
      var col := 0;
      while col < n
        invariant 0 <= col <= n
        invariant authenticated ==> Aligned(m, n, pos, chosen, target, cellSize)
        invariant !authenticated ==> forall c :: 0 <= c < col ==> !AlignedAt(m, pos, chosen, target, cellSize, row, c)
      {
        if m[row][col] == chosen {
          var centre := CellCentre(pos, row, col, cellSize);
          if WithinTolerance(centre, target, Tolerance(cellSize)) {
            assert AlignedAt(m, pos, chosen, target, cellSize, row, col);
            authenticated := true;
            break;
          }
        }
        col := col + 1;
      }
      if authenticated {
        break;
      }
      row := row + 1;
    }
  }

  /** A grid that does not hold the digit never authenticates. */
  lemma AbsentDigitFails(m: seq<seq<int>>, n: nat, pos: Point, chosen: int, target: Point, cellSize: real)
    requires IsSquare(m, n) && !Holds(m, chosen)
    ensures !Aligned(m, n, pos, chosen, target, cellSize)
  {
  }

  /**
   * Any occurrence of the digit within tolerance decides success, whichever
   * occurrence the scan meets first.
   */
  lemma AnyAlignedOccurrenceSucceeds(m: seq<seq<int>>, n: nat, pos: Point, chosen: int, target: Point, cellSize: real,
                                     row: nat, col: nat)
    requires IsSquare(m, n) && row < n && col < n
    requires m[row][col] == chosen
    requires WithinTolerance(CellCentre(pos, row, col, cellSize), target, Tolerance(cellSize))
    ensures Aligned(m, n, pos, chosen, target, cellSize)
  {
    assert AlignedAt(m, pos, chosen, target, cellSize, row, col);
  }

  /** A cell centre coordinate `25 + 50k` is never within 25 of 400, for any whole k. */
  lemma OffGridCentre(k: int, v: real)
    requires v == k as real * 50.0 + 25.0
    ensures (v - 400.0) * (v - 400.0) >= 625.0
  {
    var d := v - 400.0;
    if k <= 7 {
      var e := -d;
      assert e >= 25.0;
      Arith.ScaleLe(25.0, e, e);
      Arith.ScaleLe(25.0, e, 25.0);
      assert d * d == e * e;
    } else {
      assert d >= 25.0;
      Arith.ScaleLe(25.0, d, d);
      Arith.ScaleLe(25.0, d, 25.0);
    }
  }

  /**
   * With cells of 50 at the origin, a digit at row 2, column 3 has its centre at
   * (175, 125), within 25 of the target (180, 128): authentication succeeds.
   */
  lemma NearTargetAuthenticates(m: seq<seq<int>>, n: nat, chosen: int)
    requires IsSquare(m, n) && n > 3 && m[2][3] == chosen
    ensures CellCentre(Point(0.0, 0.0), 2, 3, 50.0) == Point(175.0, 125.0)
    ensures Aligned(m, n, Point(0.0, 0.0), chosen, Point(180.0, 128.0), 50.0)
  {
    assert AlignedAt(m, Point(0.0, 0.0), chosen, Point(180.0, 128.0), 50.0, 2, 3);
  }

  /**
   * With the same geometry, no cell centre at all is within 25 of (400, 400),
   * so that target fails whatever the grid holds.
   */
  lemma FarTargetFails(m: seq<seq<int>>, n: nat, chosen: int)
    requires IsSquare(m, n)
    ensures !Aligned(m, n, Point(0.0, 0.0), chosen, Point(400.0, 400.0), 50.0)
  {
    forall row, col | 0 <= row < n && 0 <= col < n
      ensures !AlignedAt(m, Point(0.0, 0.0), chosen, Point(400.0, 400.0), 50.0, row, col)
    {
      var centre := CellCentre(Point(0.0, 0.0), row, col, 50.0);
      OffGridCentre(col, centre.x);
      OffGridCentre(row, centre.y);
      assert !WithinTolerance(centre, Point(400.0, 400.0), Tolerance(50.0));
    }
  }
}

/**
 * What each frame draws, without the drawing itself: whether the digit grid is
 * drawn, which of its cells, and whether and in which colour the target marker
 * is drawn. The background picture is not part of this model.
 */
module Render {
  import opened Types
  import opened Geometry
  import opened Grid

  /** Radius of the target marker circle, in pixels. */
  const MarkerRadius: real := 25.0

  datatype MarkerColour = Red | Green

  /** The dashed circle drawn around the remembered point. */
  datatype Marker = Marker(colour: MarkerColour, centre: Point, radius: real)

  /** One digit drawn at the centre of cell (row, col). */
  datatype DrawnCell = DrawnCell(row: nat, col: nat, digit: int)

  /** The grid layer of a frame: its opacity and the cells drawn, in drawing order. */
  datatype MatrixLayer = MatrixLayer(alpha: real, cells: seq<DrawnCell>)

  /** Everything a frame draws over the background. */
  datatype Frame = Frame(matrix: Option<MatrixLayer>, marker: Option<Marker>)

  /** The grid is drawn only once the target is placed, outside setup mode, and when there is a grid. */
  predicate DrawsMatrix(m: seq<seq<int>>, setup: Option<UserSetup>, mode: Mode) {
    |m| != 0 && ChosenPosition(setup).Some? && !mode.Setup?
  }

  /** Marker for the remembered point: red while placing it, green while testing, none in plain auth. */
  function TargetMarker(setup: Option<UserSetup>, mode: Mode): (marker: Option<Marker>)
    ensures marker.Some? <==> ChosenPosition(setup).Some? && !mode.Auth?
    ensures marker.Some? ==> marker.value.centre == ChosenPosition(setup).value
    ensures marker.Some? ==> marker.value.radius == MarkerRadius
    ensures marker.Some? ==> (marker.value.colour == Red <==> mode.Setup?)
  {
    var target := ChosenPosition(setup);
    if mode.Setup? && target.Some? then Some(Marker(Red, target.value, MarkerRadius))
    else if !mode.Setup? && mode.AuthTest? && target.Some? then Some(Marker(Green, target.value, MarkerRadius))
    else None
  }

  /** `a` comes before `b` in a row-major scan. */
  predicate ScanBefore(a: DrawnCell, b: DrawnCell) {
    a.row < b.row || (a.row == b.row && a.col < b.col)
  }

  /**
   * The cells a frame draws: every visible cell of the n-by-n grid with its
   * digit, each once, in row-major order; no invisible cell is drawn.
   */
  method VisibleCells(m: seq<seq<int>>, n: nat, pos: Point, cellSize: real, canvas: Canvas)
    returns (cells: seq<DrawnCell>)
    requires IsSquare(m, n)
    ensures forall k :: 0 <= k < |cells| ==>
              cells[k].row < n && cells[k].col < n &&
              CellVisible(pos, cells[k].row, cells[k].col, cellSize, canvas) &&
              cells[k].digit == m[cells[k].row][cells[k].col]
    ensures forall r, c :: 0 <= r < n && 0 <= c < n && CellVisible(pos, r, c, cellSize, canvas) ==>
              DrawnCell(r, c, m[r][c]) in cells
    ensures forall i, j :: 0 <= i < j < |cells| ==> ScanBefore(cells[i], cells[j])
  {
    cells := [];
    var row := 0;
    while row < n
      invariant 0 <= row <= n
      invariant forall k :: 0 <= k < |cells| ==>
                  cells[k].row < row && cells[k].col < n &&
                  CellVisible(pos, cells[k].row, cells[k].col, cellSize, canvas) &&
                  cells[k].digit == m[cells[k].row][cells[k].col]
      invariant forall r, c :: 0 <= r < row && 0 <= c < n && CellVisible(pos, r, c, cellSize, canvas) ==>
                  DrawnCell(r, c, m[r][c]) in cells
      invariant forall i, j :: 0 <= i < j < |cells| ==> ScanBefore(cells[i], cells[j])
    {
      var col := 0;
      while col < n
        invariant 0 <= col <= n
        invariant forall k :: 0 <= k < |cells| ==>
                    (cells[k].row < row || (cells[k].row == row && cells[k].col < col)) && cells[k].col < n &&
                    CellVisible(pos, cells[k].row, cells[k].col, cellSize, canvas) &&
                    cells[k].digit == m[cells[k].row][cells[k].col]
        invariant forall r, c :: 0 <= r < row && 0 <= c < n && CellVisible(pos, r, c, cellSize, canvas) ==>
                    DrawnCell(r, c, m[r][c]) in cells
        invariant forall c :: 0 <= c < col && CellVisible(pos, row, c, cellSize, canvas) ==>
                    DrawnCell(row, c, m[row][c]) in cells
        invariant forall i, j :: 0 <= i < j < |cells| ==> ScanBefore(cells[i], cells[j])
      {
        if CellVisible(pos, row, col, cellSize, canvas) {
          cells := cells + [DrawnCell(row, col, m[row][col])];
        }
        col := col + 1;
      }
      row := row + 1;
    }
  }
}

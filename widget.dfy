/**
 * The picture-authentication widget's interaction state and its event handlers.
 * The host supplies the canvas, the cell size and whether it accepts a newly
 * placed setup; it passes the user's setup and the mode as properties, delivers
 * pointer events in canvas coordinates, drives the fade with frame times, and
 * supplies the random draws when the grid is (re)generated.
 */
module Widget {
  import opened Types
  import opened Geometry
  import opened Grid
  import opened Tracker
  import opened Verifier
  import opened Fade
  import opened Render

  class PictureAuthWidget {
    // Configuration fixed for the widget's lifetime.
    const canvas: Option<Canvas>
    const cellSize: real
    const canPlace: bool

    // Properties passed by the host, replaced on each re-render.
    var setup: Option<UserSetup>
    var mode: Mode

    // Interaction state.
    var numberMatrix: seq<seq<int>>
    var matrixPosition: Point
    var isDragging: bool
    var dragStart: Point
    var matrixOpacity: real

    /** The configuration admits a non-empty grid. */
    ghost predicate Configured() {
      cellSize > 0.0 &&
      (canvas.Some? ==> Max(canvas.value.width, canvas.value.height) > 0)
    }

    /** Side length of the grid for this canvas and cell size. */
    function Size(): (n: nat)
      requires Configured()
      ensures n > 0
    {
      GridSize(canvas, cellSize)
    }

    /**
     * Object invariant: whenever there is a chosen digit, the grid is a full
     * Size()-by-Size() grid that holds that digit.
     */
    ghost predicate Valid()
      reads this
    {
      Configured() &&
      (ChosenNumber(setup).Some? ==>
         IsSquare(numberMatrix, Size()) && Holds(numberMatrix, ChosenNumber(setup).value))
    }

    /** Random draws suitable for generating a grid of this widget's size. */
    predicate DrawsFit(draws: seq<seq<real>>, rowDraw: real, colDraw: real)
      requires Configured()
    {
      ValidDraws(draws, Size()) && 0.0 <= rowDraw < 1.0 && 0.0 <= colDraw < 1.0
    }

    /** The grid regeneration produces for the current chosen digit. */
    function Regenerated(draws: seq<seq<real>>, rowDraw: real, colDraw: real): seq<seq<int>>
      reads this
      requires Configured() && DrawsFit(draws, rowDraw, colDraw)
    {
      var chosen := ChosenNumber(setup);
      if chosen.None? then [] else Generated(chosen.value, Size(), draws, rowDraw, colDraw)
    }

    /** Mounting: the initial state, then the mount effect that generates and centres the grid. */
    constructor (canvas: Option<Canvas>, cellSize: real, canPlace: bool, setup: Option<UserSetup>, mode: Mode,
                 draws: seq<seq<real>>, rowDraw: real, colDraw: real)
      requires cellSize > 0.0
      requires canvas.Some? ==> Max(canvas.value.width, canvas.value.height) > 0
      requires ValidDraws(draws, GridSize(canvas, cellSize)) && 0.0 <= rowDraw < 1.0 && 0.0 <= colDraw < 1.0
      ensures Valid()
      ensures this.canvas == canvas && this.cellSize == cellSize && this.canPlace == canPlace
      ensures this.setup == setup && this.mode == mode
      ensures !isDragging && dragStart == Point(0.0, 0.0) && matrixOpacity == 1.0
      ensures ChosenNumber(setup).Some? ==> numberMatrix == Regenerated(draws, rowDraw, colDraw)
      ensures ChosenNumber(setup).None? ==> numberMatrix == []
      ensures matrixPosition == if ChosenNumber(setup).Some? && canvas.Some?
                                then CentredPosition(canvas.value, Size(), cellSize)
                                else Point(0.0, 0.0)
    {
      this.canvas := canvas;
      this.cellSize := cellSize;
      this.canPlace := canPlace;
      this.setup := setup;
      this.mode := mode;
      numberMatrix := [];
      matrixPosition := Point(0.0, 0.0);
      isDragging := false;
      dragStart := Point(0.0, 0.0);
      matrixOpacity := 1.0;
      new;
      if ChosenNumber(setup).Some? {
        Regenerate(draws, rowDraw, colDraw);
      }
    }

    /**
     * What runs once the fade-out completes (and, guarded by a chosen digit, on
     * mount): a freshly generated grid, recentred on the canvas wherever it was
     * dragged to. Without a chosen digit the grid becomes empty.
     */
    method Regenerate(draws: seq<seq<real>>, rowDraw: real, colDraw: real)
      requires Configured() && DrawsFit(draws, rowDraw, colDraw)
      modifies this
      ensures Valid()
      ensures numberMatrix == old(Regenerated(draws, rowDraw, colDraw))
      ensures matrixPosition == if canvas.Some? then CentredPosition(canvas.value, Size(), cellSize)
                                else old(matrixPosition)
      ensures setup == old(setup) && mode == old(mode)
      ensures isDragging == old(isDragging) && dragStart == old(dragStart) && matrixOpacity == old(matrixOpacity)
    {
      numberMatrix := GenerateNumberMatrix(ChosenNumber(setup), Size(), draws, rowDraw, colDraw);
      if ChosenNumber(setup).Some? {
        GeneratedShape(ChosenNumber(setup).value, Size(), draws, rowDraw, colDraw);
        GeneratedHoldsChosen(ChosenNumber(setup).value, Size(), draws, rowDraw, colDraw);
      }
      if canvas.Some? {
        matrixPosition := CentredPosition(canvas.value, Size(), cellSize);
      }
    }

    /**
     * The host re-renders with new properties. The mount effect runs again
     * exactly when the chosen digit changed to a present one.
     */
    method Rerender(newSetup: Option<UserSetup>, newMode: Mode, draws: seq<seq<real>>, rowDraw: real, colDraw: real)
      requires Valid() && DrawsFit(draws, rowDraw, colDraw)
      modifies this
      ensures Valid()
      ensures setup == newSetup && mode == newMode
      ensures isDragging == old(isDragging) && dragStart == old(dragStart) && matrixOpacity == old(matrixOpacity)
      ensures ChosenNumber(newSetup) != ChosenNumber(old(setup)) && ChosenNumber(newSetup).Some? ==>
                numberMatrix == Regenerated(draws, rowDraw, colDraw) &&
                matrixPosition == if canvas.Some? then CentredPosition(canvas.value, Size(), cellSize)
                                  else old(matrixPosition)
      ensures !(ChosenNumber(newSetup) != ChosenNumber(old(setup)) && ChosenNumber(newSetup).Some?) ==>
                numberMatrix == old(numberMatrix) && matrixPosition == old(matrixPosition)
    {
      var changed := ChosenNumber(newSetup) != ChosenNumber(setup);
      setup := newSetup;
      mode := newMode;
      if changed && ChosenNumber(setup).Some? {
        Regenerate(draws, rowDraw, colDraw);
      }
    }

    /** A pointer-down at `p` would grab a visible cell of the grid where it now is. */
    ghost predicate GrabsAt(p: Point)
      reads this
      requires Configured() && canvas.Some?
    {
      GrabsGrid(matrixPosition, Size(), cellSize, canvas.value, p)
    }

    /**
     * Pointer-down at `p`. In setup mode the point becomes the new target, handed
     * to the host (when it accepts one) and no drag starts. Otherwise, once a
     * target exists, a drag starts when `p` lands on a visible cell, recording
     * the pointer's offset from the grid so that the grid does not jump.
     */
    method MouseDown(p: Point) returns (placed: Option<UserSetup>)
      requires Valid()
      modifies this`isDragging, this`dragStart
      ensures Valid()
      ensures canvas.None? || ChosenNumber(setup).None? || mode.Setup? || ChosenPosition(setup).None? ==>
                isDragging == old(isDragging) && dragStart == old(dragStart)
      ensures placed.Some? <==> canvas.Some? && ChosenNumber(setup).Some? && mode.Setup? && canPlace
      ensures placed.Some? ==> placed.value == UserSetup(setup.value.chosenNumber, Some(p), setup.value.pictureDataUrl)
      ensures canvas.Some? && ChosenNumber(setup).Some? && !mode.Setup? && ChosenPosition(setup).Some? ==>
                isDragging == (old(isDragging) || GrabsAt(p)) &&
                dragStart == if GrabsAt(p) then p.Minus(matrixPosition) else old(dragStart)
    {
      placed := None;
      if canvas.None? || ChosenNumber(setup).None? {
        return;
      }
      if mode.Setup? && canPlace {
        placed := Some(UserSetup(setup.value.chosenNumber, Some(p), setup.value.pictureDataUrl));
        return;
      }
      if ChosenPosition(setup).None? || mode.Setup? {
        return;
      }
      var clickedOnMatrix := ScanForGrab(matrixPosition, Size(), cellSize, canvas.value, p);
      if clickedOnMatrix {
        isDragging := true;
        dragStart := p.Minus(matrixPosition);
      }
    }

    /**
     * Pointer-move to `p`. During a drag the grid follows the pointer so that
     * the point grabbed stays under it; otherwise nothing changes.
     */
    method MouseMove(p: Point)
      requires Valid()
      modifies this`matrixPosition
      ensures Valid()
      ensures isDragging && canvas.Some? ==> matrixPosition.Plus(dragStart) == p
      ensures !(isDragging && canvas.Some?) ==> matrixPosition == old(matrixPosition)
    {
      if !isDragging {
        return;
      }
      if canvas.None? {
        return;
      }
      matrixPosition := p.Minus(dragStart);
    }

    /**
     * Pointer-up. A drag that ends outside setup mode with a target placed is
     * judged: success exactly when some cell holding the chosen digit has its
     * centre within half a cell of the target. The drag ends in every case.
     */
    method MouseUp() returns (outcome: Option<Outcome>)
      requires Valid()
      modifies this`isDragging
      ensures Valid()
      ensures !isDragging
      ensures outcome.Some? <==> old(isDragging) && !mode.Setup? && ChosenPosition(setup).Some?
      ensures outcome.Some? ==>
                (outcome.value == Success <==>
                 Aligned(numberMatrix, Size(), matrixPosition, setup.value.chosenNumber,
                         ChosenPosition(setup).value, cellSize))
    {
      outcome := None;
      if isDragging && !mode.Setup? && ChosenPosition(setup).Some? {
        var authenticationResult := CheckAlignment(numberMatrix, Size(), matrixPosition,
                                                   setup.value.chosenNumber, ChosenPosition(setup).value, cellSize);
        outcome := if authenticationResult then Some(Success) else Some(Failure);
      }
      isDragging := false;
    }

    /**
     * One animation frame of a fade from `startOpacity` to `targetOpacity`,
     * `elapsed` milliseconds after the fade began. Returns whether the fade is
     * complete; on completion the opacity is exactly the target.
     */
    method AnimateStep(startOpacity: real, targetOpacity: real, duration: real, elapsed: real)
      returns (complete: bool)
      requires Valid() && duration > 0.0
      modifies this`matrixOpacity
      ensures Valid()
      ensures matrixOpacity == OpacityAt(startOpacity, targetOpacity, duration, elapsed)
      ensures complete <==> elapsed >= duration
      ensures complete ==> matrixOpacity == targetOpacity
    {
      var progress := Progress(elapsed, duration);
      var easedProgress := Ease(progress);
      matrixOpacity := Interpolate(startOpacity, targetOpacity, easedProgress);
      if progress < 1.0 {
        complete := false;
      } else {
        matrixOpacity := targetOpacity;
        complete := true;
      }
    }

    /** What the current frame draws over the background; nothing without a canvas. */
    method Draw() returns (frame: Option<Frame>)
      requires Valid()
      ensures frame.Some? <==> canvas.Some?
      ensures frame.Some? ==> frame.value.marker == TargetMarker(setup, mode)
      ensures frame.Some? ==> (frame.value.matrix.Some? <==> DrawsMatrix(numberMatrix, setup, mode))
      ensures frame.Some? && frame.value.matrix.Some? ==>
                var layer := frame.value.matrix.value;
                layer.alpha == matrixOpacity &&
                (forall k :: 0 <= k < |layer.cells| ==>
                   var cell := layer.cells[k];
                   cell.row < Size() && cell.col < Size() &&
                   CellVisible(matrixPosition, cell.row, cell.col, cellSize, canvas.value) &&
                   cell.digit == numberMatrix[cell.row][cell.col]) &&
                (forall r, c ::
                   0 <= r < Size() && 0 <= c < Size() && CellVisible(matrixPosition, r, c, cellSize, canvas.value)
                   ==> DrawnCell(r, c, numberMatrix[r][c]) in layer.cells) &&
                (forall i, j :: 0 <= i < j < |layer.cells| ==> ScanBefore(layer.cells[i], layer.cells[j]))
    {
      if canvas.None? {
        return None;
      }
      var matrix: Option<MatrixLayer> := None;
      if DrawsMatrix(numberMatrix, setup, mode) {
        var cells := VisibleCells(numberMatrix, Size(), matrixPosition, cellSize, canvas.value);
        matrix := Some(MatrixLayer(matrixOpacity, cells));
      }
      frame := Some(Frame(matrix, TargetMarker(setup, mode)));
    }
  }
}

# Picture authentication widget: interaction engine

This project models the interaction engine of a picture-based authentication widget. During setup the user picks a digit and a point on a background picture. To authenticate, they drag a large grid of random digits until one copy of their digit sits on the remembered point. The model covers the following, all in canvas coordinates as reals:

- sizing and generating the grid;
- deciding which cells are visible and which cell a pointer-down grabs;
- dragging the grid with the pointer;
- the alignment check run on pointer-up;
- recentring the grid after each attempt;
- one frame of the opacity fade that hides regeneration;
- the conditions under which the grid and the target marker are drawn.

Modules:

- `Types`: the shapes of `src/index.ts`: `Point` (`MatrixPosition`), `UserSetup`, `Mode` (`SetupMode`), and `Canvas` (the canvas element's size, absent before it is mounted).
- `Arith`: real-arithmetic facts the solver needs spelled out (`Math.ceil`, scaling inequalities, floor division).
- `Geometry`: grid size, cell origin, centre, visibility and containment, squared-distance tolerance, and the recentred position.
- `Grid`: grid generation. `Generated` is the specification and `GenerateNumberMatrix` is the nested-loop builder proved equal to it.
- `Tracker`: the row-major hit-test scan of pointer-down.
- `Verifier`: the row-major alignment scan of pointer-up.
- `Fade`: progress, the ease-in-out curve, interpolation, and the opacity of one animation frame.
- `Render`: the draw gates and the scan of visible cells.
- `Widget`: class `PictureAuthWidget`. It holds the component state (`numberMatrix`, `matrixPosition`, `isDragging`, `dragStart`, `matrixOpacity`) and the host's properties (`setup`, `mode`). It has one method per event: mount (the constructor), re-render, pointer-down, pointer-move, pointer-up, animation frame, regeneration and draw. `Valid()` is the object invariant: whenever a digit is chosen, the grid is a full `GridSize`-by-`GridSize` grid that contains that digit.

Modelling choices:

- `Math.random` becomes caller-supplied reals in [0, 1). There is one draw per cell in row-major order, then one for the forced row and one for the forced column. A digit is `floor(10u)` and an index is `floor(u * n)`.
- The alignment check compares squared distance with `(cellSize/2)^2` instead of taking a square root. `WithinTolerance` also requires the tolerance to be non-negative. `Geometry.WithinToleranceIffDistance` proves that this test equals the source's `distance <= tolerance` for every tolerance, with the distance taken as the non-negative square root.
- The acceptance radius is `cellSize / 2` (src/PictureAuth.tsx:303). The optional `tolerance` property declared in src/index.ts:25 is never read by the component, so the model has no such parameter.
- The alignment scan stops only on an in-tolerance match. Every occurrence of the digit is therefore examined before the attempt fails, and `CheckAlignment` is proved to return true exactly when some occurrence is aligned.
- Pointer-down outside every visible cell leaves `isDragging` as it was. The source only ever sets it to true there, and the model keeps that.
- In the source, the marker gate's second branch also tests `!isSetupMode`, which the `auth-test` test already implies. `TargetMarker` keeps both tests.

## Model

| member | source | states |
|---|---|---|
| `Geometry.GridSize` | src/PictureAuth.tsx:37-46 | Without a canvas the grid has 36 cells a side. With one, it has the fewest cells whose total width covers three times the canvas's longer side: `n*cellSize >= 3*max(w,h)` and `(n-1)*cellSize < 3*max(w,h)`. It is positive for a non-empty canvas. |
| `Geometry.GridSizeNonIncreasingInCellSize` | src/PictureAuth.tsx:41-43 | A larger cell size never yields a larger grid. |
| `Geometry.GridSizeNonDecreasingInCanvas` | src/PictureAuth.tsx:41-43 | A canvas with a longer longest side never yields a smaller grid. |
| `Geometry.CentredPosition` | src/PictureAuth.tsx:393-401 | The recentred position puts the grid's midpoint on the canvas midpoint on both axes. |
| `Geometry.CentredGridOverhangsCanvas` | src/PictureAuth.tsx:41-43 | After recentring, the grid reaches past every canvas edge by at least the canvas's longer side. No drag of up to that length exposes an edge. |
| `Geometry.GrabAnywhereAfterRecentre` | src/PictureAuth.tsx:239-260 | After recentring, a pointer-down anywhere on the canvas lands in a visible cell, so a drag can always start. |
| `Geometry.CellVisibleIffOverlap` | src/PictureAuth.tsx:94-99 | The four-comparison visibility test, used both for drawing and for grabbing, holds exactly when some point lies strictly inside both the cell and the canvas. This assumes a positive cell size and a non-empty canvas. |
| `Geometry.WithinToleranceIffDistance` | src/PictureAuth.tsx:303-320 | For any tolerance, of either sign, the squared-distance test holds exactly when `distance <= tolerance`, where `distance` is the non-negative square root of the squared distance, as `Math.sqrt` computes it. |
| `Geometry.GrabbedCellFollowsPointer` | src/PictureAuth.tsx:262-289 | If the grid is moved to `pointer - (grabPoint - oldPosition)`, a cell that held the grab point holds the current pointer. |
| `Grid.Digit` | src/PictureAuth.tsx:57 | A draw in [0, 1) gives a digit in 0..9, namely `floor(10u)`. |
| `Grid.RandomIndex` | src/PictureAuth.tsx:63-64 | A draw in [0, 1) gives a valid row or column index of the grid. |
| `Grid.GenerateNumberMatrix` | src/PictureAuth.tsx:49-68 | Without a chosen digit the result is the empty grid. Otherwise it is exactly `Generated`: each cell holds its drawn digit, except the forced cell, which holds the chosen digit. |
| `Grid.GeneratedShape` | src/PictureAuth.tsx:53-65 | The generated grid has n rows of n entries, and the forced cell holds the chosen digit. |
| `Grid.GeneratedHoldsChosen` | src/PictureAuth.tsx:62-65 | The chosen digit occurs in every generated grid, whatever the draws. |
| `Grid.GeneratedAllDigits` | src/PictureAuth.tsx:54-65 | If the chosen digit is in 0..9, every entry of the generated grid is in 0..9. |
| `Tracker.ScanForGrab` | src/PictureAuth.tsx:238-260 | Returns true exactly when some cell of the grid is visible (`x+cs>0`, `x<width`, `y+cs>0`, `y<height`) and contains the pointer with inclusive bounds. |
| `Tracker.GrabOffsetWithinGrid` | src/PictureAuth.tsx:262-265 | The drag offset recorded by a successful grab lies within the grid's own extent on both axes. |
| `Tracker.GrabNearCanvas` | src/PictureAuth.tsx:245-253 | A grab succeeds only for pointers less than one cell away from the canvas. |
| `Verifier.CheckAlignment` | src/PictureAuth.tsx:301-325 | Returns true exactly when some cell holding the chosen digit has its centre within `cellSize/2` of the target. |
| `Verifier.AbsentDigitFails` | src/PictureAuth.tsx:307-325 | A grid without the chosen digit never authenticates. |
| `Verifier.AnyAlignedOccurrenceSucceeds` | src/PictureAuth.tsx:318-324 | Any in-tolerance occurrence of the digit makes the check succeed, whether or not it is the first occurrence in scan order. |
| `Verifier.NearTargetAuthenticates` | src/PictureAuth.tsx:309-320 | With 50-pixel cells at the origin, the digit at row 2, column 3 is centred at (175, 125), and target (180, 128) is accepted. |
| `Verifier.FarTargetFails` | src/PictureAuth.tsx:309-320 | With 50-pixel cells at the origin, target (400, 400) is rejected whatever the grid holds. |
| `Fade.Progress` | src/PictureAuth.tsx:358-359 | Progress is at most 1 and non-negative for non-negative elapsed time. It equals 1 exactly once the duration has passed, and before that it is elapsed over duration. |
| `Fade.Ease` | src/PictureAuth.tsx:362-365 | The eased value lies in [0, 1] for progress in [0, 1], with ease(0) = 0 and ease(1) = 1. |
| `Fade.EaseSymmetric` | src/PictureAuth.tsx:362-365 | `ease(1-p) = 1 - ease(p)`: the two halves of the curve mirror each other. |
| `Fade.EaseMonotone` | src/PictureAuth.tsx:362-365 | The eased value never decreases as progress grows. |
| `Fade.Interpolate` | src/PictureAuth.tsx:367-368 | For a fraction in [0, 1], the value lies between start and target. It is the start at 0 and the target at 1. |
| `Fade.OpacityAt` | src/PictureAuth.tsx:357-376 | The opacity of a frame stays between start and target for non-negative elapsed time. It is the start at time 0 and exactly the target once the duration has passed. |
| `Fade.DefaultFadeHalfway` | src/PictureAuth.tsx:352-368 | With the default duration of 200 ms, the opacity 100 ms in is exactly midway between start and target. |
| `Fade.CurveEndsOnTarget` | src/PictureAuth.tsx:371-375 | On real numbers the curve itself ends on the target, so the snap at completion agrees with it. |
| `Fade.OpacityApproachesTarget` | src/PictureAuth.tsx:357-376 | A later frame is never farther from the target than an earlier one, so the fade is monotone. |
| `Render.TargetMarker` | src/PictureAuth.tsx:129-165 | A marker is drawn exactly when a target is placed and the mode is setup or auth-test, never in plain auth. It is centred on the target with radius 25, and red exactly in setup mode. |
| `Render.VisibleCells` | src/PictureAuth.tsx:87-123 | Lists every visible cell with its digit, never an invisible one, in row-major order. |
| `Widget.PictureAuthWidget.constructor` | src/PictureAuth.tsx:412-429 | Initial state: not dragging, opacity 1. With a chosen digit the mount effect generates the grid and, when a canvas exists, centres it. The invariant holds. |
| `Widget.PictureAuthWidget.Regenerate` | src/PictureAuth.tsx:385-409 | Replaces the grid with a freshly generated one (empty without a chosen digit). When a canvas exists, it recentres the grid wherever it had been dragged. The invariant holds afterwards, and nothing else changes. |
| `Widget.PictureAuthWidget.Rerender` | src/PictureAuth.tsx:412-429 | Takes the new properties. It regenerates and recentres exactly when the chosen digit changed to a present one, and otherwise keeps the grid and its position. |
| `Widget.PictureAuthWidget.MouseDown` | src/PictureAuth.tsx:216-266 | Without a canvas or a chosen digit, nothing happens. In setup mode it only hands the host a setup whose target is the pointer, and only when the host accepts one. It never starts a drag there. Without a placed target nothing changes. Otherwise dragging starts exactly when a visible cell holds the pointer, and then `dragStart = pointer - matrixPosition`. |
| `Widget.PictureAuthWidget.MouseMove` | src/PictureAuth.tsx:269-291 | Nothing changes unless a drag is active. During a drag, `matrixPosition + dragStart == pointer`. |
| `Widget.PictureAuthWidget.MouseUp` | src/PictureAuth.tsx:294-339 | A verdict is produced exactly when a drag ends outside setup mode with a target placed. The verdict is a single Success or Failure, and Success holds exactly when the grid is aligned. Dragging is off afterwards in every case. |
| `Widget.PictureAuthWidget.AnimateStep` | src/PictureAuth.tsx:348-382 | Sets the opacity to `OpacityAt` for the elapsed time. The step reports completion exactly once the duration has passed, and then the opacity is exactly the target. |
| `Widget.PictureAuthWidget.Draw` | src/PictureAuth.tsx:71-165 | Without a canvas nothing is drawn. The grid layer is present exactly when the grid is non-empty, a target is placed and the mode is not setup. It carries the current opacity and exactly the visible cells with their digits, each once, in row-major order. The marker follows `TargetMarker`. |

## Left out

- Canvas drawing itself: fonts, shadows, text, circles and clearing. The background picture is also left out, including its centre-crop arithmetic (src/PictureAuth.tsx:170-195). Only the decisions of what is drawn are modelled.
- Loading the background picture (src/PictureAuth.tsx:431-444): it is asynchronous I/O.
- Scheduling is left to the caller. This covers `requestAnimationFrame`, `cancelAnimationFrame`, `setTimeout` and `performance.now()`. Each event is one method call, and an animation frame takes its elapsed time as input. The 100 ms delay before regeneration, the 50 ms delay before fading back in, and the re-scheduling of frames while a fade is incomplete belong to the caller.
- Every pointer-up, even one that ended no drag, schedules the fade-out and regeneration (src/PictureAuth.tsx:341-344). That scheduling is the caller's.
- `MouseMove` applies the new position at once. The source defers it to the next animation frame and drops superseded moves, and pointer-up cancels a pending one. The model therefore does not capture a move lost to that cancellation.
- Converting client coordinates to canvas coordinates with `getBoundingClientRect`: pointer positions are taken in canvas coordinates.
- React wiring: state setters, dependency lists, the JSX element and the cursor style (src/PictureAuth.tsx:446-487).
- Canvas size and cell size are fixed for the widget's lifetime. In the source, a later change of canvas size is not followed by regeneration. The grid's stored size then no longer matches the computed grid size, and the source can index past the grid. The model does not cover that state.
- `Grid.GenerateNumberMatrix`: requires a positive grid size. With a zero-size canvas the source computes a grid size of 0 and then fails when writing the forced cell. The model excludes that by requiring a canvas with a positive longer side.
- `Geometry.GridSize`: a positive cell size is assumed, throughout the widget as well as here. The source accepts any `cellSize` property (src/PictureAuth.tsx:10) without checking it. With a cell size of 0 the grid size is infinite and generation never ends. With a negative cell size the grid size is negative, the generation loops do not run, and the write of the chosen digit fails on the empty grid. The model describes neither behaviour.
- Floating-point rounding: all coordinates, opacities and times are exact reals. The snap to the target opacity at completion exists in the source to remove float drift, which reals do not have.
- `Fade.OpacityAt`: its range guarantee assumes non-negative elapsed time. A frame timestamp earlier than the fade's start gives negative progress, which the model admits but does not bound.

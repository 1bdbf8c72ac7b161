/**
 * The value shapes the picture-authentication widget exchanges with its host:
 * positions, the canvas, the interaction mode and the user's setup record.
 */
module Types {

  datatype Option<+T> = None | Some(value: T)

  /** A point in canvas-local coordinates (pixels, origin at the top-left corner). */
  datatype Point = Point(x: real, y: real)
  {
    function Plus(other: Point): Point {
      Point(x + other.x, y + other.y)
    }

    function Minus(other: Point): Point {
      Point(x - other.x, y - other.y)
    }
  }

  /** The canvas element's pixel dimensions; HTML canvas sizes are non-negative integers. */
  datatype Canvas = Canvas(width: nat, height: nat)

  /** `setup` places the target, `auth-test` authenticates with the target shown, `auth` without. */
  datatype Mode = Setup | AuthTest | Auth

  /** What the user memorised: a digit and a point on the picture. */
  datatype UserSetup = UserSetup(chosenNumber: int, chosenPosition: Option<Point>, pictureDataUrl: Option<string>)

  /** Result of one completed drag: which of the host's two callbacks is due. */
  datatype Outcome = Success | Failure

  /** The chosen digit, absent when the host passes no setup at all. */
  function ChosenNumber(setup: Option<UserSetup>): Option<int> {
    if setup.Some? then Some(setup.value.chosenNumber) else None
  }

  /** The remembered target point, absent when there is no setup or it has not been placed yet. */
  function ChosenPosition(setup: Option<UserSetup>): Option<Point> {
    if setup.Some? then setup.value.chosenPosition else None
  }
}

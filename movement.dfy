/** The movement model of a bot: a speed in [1, MaxSpeed] and the vector rules
    that turn the previous move into the next candidate cell. */
module Movement {
  import opened Grid

  const MaxSpeed := 4

  /** calculateMainPoint: the cell reached by repeating the previous move.
      It reads no state, so the speed is untouched. */
  function MainPoint(actual: Position, previousMove: Position): (r: Position)
    ensures r.Minus(actual) == previousMove
    ensures r == actual <==> previousMove == ZeroMove
  {
    actual.Plus(previousMove)
  }

  /** The speed after `accelerate`. */
  function AcceleratedSpeed(speed: int): (r: int)
    ensures r == speed + 1 <==> speed < MaxSpeed
    ensures r == speed <==> speed >= MaxSpeed
    ensures 1 <= speed <= MaxSpeed ==> 1 <= r <= MaxSpeed
  {
    if speed < MaxSpeed then speed + 1 else speed
  }

  /** The cell `accelerate` returns: below top speed the move grows by one
      unit along each axis it already points along. */
  function AcceleratedPoint(speed: int, actual: Position, previousMove: Position): (r: Position)
    ensures speed < MaxSpeed ==> r.Minus(actual) == previousMove.Plus(SignOf(previousMove))
    ensures speed >= MaxSpeed ==> r == MainPoint(actual, previousMove)
    ensures r == actual <==> previousMove == ZeroMove
  {
    var mainPoint := MainPoint(actual, previousMove);
    if speed < MaxSpeed then mainPoint.Plus(SignOf(previousMove)) else mainPoint
  }

  /** The speed after `decelerate`. */
  function DeceleratedSpeed(speed: int): (r: int)
    ensures r == speed - 1 <==> speed > 1
    ensures r == speed <==> speed <= 1
    ensures 1 <= speed <= MaxSpeed ==> 1 <= r <= MaxSpeed
  {
    if speed > 1 then speed - 1 else speed
  }

  /** The cell `decelerate` returns: above the lowest speed the move shrinks by
      one unit along each axis, unless that would leave the bot where it is. */
  function DeceleratedPoint(speed: int, actual: Position, previousMove: Position): (r: Position)
    ensures speed > 1 && previousMove.Minus(SignOf(previousMove)) != ZeroMove ==>
              r.Minus(actual) == previousMove.Minus(SignOf(previousMove))
    ensures speed <= 1 || previousMove.Minus(SignOf(previousMove)) == ZeroMove ==>
              r == MainPoint(actual, previousMove)
    ensures r == actual <==> previousMove == ZeroMove
  {
    var mainPoint := MainPoint(actual, previousMove);
    if speed > 1 then
      var position := mainPoint.Minus(SignOf(previousMove));
      if position != actual then position else mainPoint
    else
      mainPoint
  }

  /** The two speed transitions a caller may request. */
  datatype Control = Speedup | Slowdown

  function SpeedAfterOne(speed: int, c: Control): int {
    match c
    case Speedup => AcceleratedSpeed(speed)
    case Slowdown => DeceleratedSpeed(speed)
  }

  /** The speed after a run of accelerate/decelerate calls, in order. */
  function SpeedAfter(speed: int, controls: seq<Control>): int
    decreases |controls|
  {
    if controls == [] then speed else SpeedAfter(SpeedAfterOne(speed, controls[0]), controls[1..])
  }

  /** Any sequence of accelerate/decelerate calls keeps a speed in [1, MaxSpeed]
      inside that range, and moves it by at most one per call. */
  lemma {:induction false} SpeedAfterStaysInRange(speed: int, controls: seq<Control>)
    requires 1 <= speed <= MaxSpeed
    ensures 1 <= SpeedAfter(speed, controls) <= MaxSpeed
    ensures Abs(SpeedAfter(speed, controls) - speed) <= |controls|
    decreases |controls|
  {
    if controls != [] {
      SpeedAfterStaysInRange(SpeedAfterOne(speed, controls[0]), controls[1..]);
    }
  }

  /** The movement state of one bot. */
  class DefaultMovement {
    var speed: int

    /** The speed is in its documented range. `SetSpeed` can break this. */
    predicate Valid()
      reads this
    {
      1 <= speed <= MaxSpeed
    }

    constructor ()
      ensures speed == 1 && Valid()
    {
      speed := 1;
    }

    method Accelerate(actualPosition: Position, previousMove: Position) returns (r: Position)
      modifies this
      ensures speed == AcceleratedSpeed(old(speed))
      ensures r == AcceleratedPoint(old(speed), actualPosition, previousMove)
      ensures old(Valid()) ==> Valid()
    {
      var mainPoint := MainPoint(actualPosition, previousMove);
      if speed < MaxSpeed {
        speed := speed + 1;
        return mainPoint.Plus(SignOf(previousMove));
      }
      return mainPoint;
    }

    method Decelerate(actualPosition: Position, previousMove: Position) returns (r: Position)
      modifies this
      ensures speed == DeceleratedSpeed(old(speed))
      ensures r == DeceleratedPoint(old(speed), actualPosition, previousMove)
      ensures old(Valid()) ==> Valid()
    {
      var mainPoint := MainPoint(actualPosition, previousMove);
      if speed > 1 {
        speed := speed - 1;
        var position := mainPoint.Minus(SignOf(previousMove));
        if position != actualPosition {
          return position;
        }
      }
      return mainPoint;
    }

    /** Unguarded setter: any int is stored, so the range invariant holds
        afterwards exactly when the new value is in range. */
    method SetSpeed(newSpeed: int)
      modifies this
      ensures speed == newSpeed
      ensures Valid() <==> 1 <= newSpeed <= MaxSpeed
    {
      speed := newSpeed;
    }
  }
}

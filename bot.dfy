/** A racing bot, reduced to the state the race core reads and writes: where
    it is, the move it made last, whether it has crashed out, and its movement
    state. Bot.java is not part of this model; only the members the track
    operations and the race engine call are given here. */
module Bots {
  import opened Grid
  import opened Movement

  class Bot {
    const name: string
    const movement: DefaultMovement
    var currentPosition: Position
    var previousMove: Position
    var eliminated: bool

    /** A bot on its start cell, standing still, at speed 1. */
    constructor (name: string, start: Position)
      ensures this.name == name && currentPosition == start
      ensures previousMove == ZeroMove && !eliminated
      ensures fresh(movement) && movement.speed == 1
    {
      this.name := name;
      movement := new DefaultMovement();
      currentPosition := start;
      previousMove := ZeroMove;
      eliminated := false;
    }

    /** `isEliminated(boolean)`: sets the crash flag and nothing else. */
    method SetEliminated(value: bool)
      modifies this
      ensures eliminated == value
      ensures currentPosition == old(currentPosition) && previousMove == old(previousMove)
    {
      eliminated := value;
    }

    /** `updatePosition`: moves the bot and remembers the move it just made. */
    method UpdatePosition(next: Position)
      modifies this
      ensures currentPosition == next
      ensures previousMove == next.Minus(old(currentPosition))
      ensures eliminated == old(eliminated)
    {
      previousMove := next.Minus(currentPosition);
      currentPosition := next;
    }

    /** `calculateNextMoves`: the bot's own turn. Its driving logic is outside
        this model; what the race engine may rely on is that it changes only
        this bot and its movement state, and that a crash is never undone.
        `steps` is the record of bot turns taken so far; the call returns it
        with this turn appended. */
    method CalculateNextMoves(ghost steps: seq<Bot>) returns (ghost stepsAfter: seq<Bot>)
      modifies this, movement
      ensures old(eliminated) ==> eliminated
      ensures stepsAfter == steps + [this]
    {
      stepsAfter := steps + [this];
      var crashed: bool := *;
      if crashed {
        eliminated := true;
      }
    }
  }
}

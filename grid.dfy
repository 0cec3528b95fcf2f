/** Cells of the race grid and the track they belong to.
    Position and Track are value types in the race core: a cell is an integer
    pair compared by value, and a track is an immutable integer matrix (0 means
    impassable) with its start and finish cells. */
module Grid {

  /** A grid cell, also used as a displacement vector (a "move"). */
  datatype Position = Position(x: int, y: int) {

    function Plus(other: Position): Position {
      Position(x + other.x, y + other.y)
    }

    function Minus(other: Position): Position {
      Position(x - other.x, y - other.y)
    }
  }

  /** The zero displacement: a bot that has not moved yet. */
  const ZeroMove := Position(0, 0)

  /** Rows of `layout` may have different lengths; `layout[x][y]` is the cell (x, y). */
  datatype Track = Track(layout: seq<seq<int>>, startPositions: seq<Position>, endPositions: seq<Position>)

  /** Java's Integer.signum. */
  function Sign(v: int): (r: int)
    ensures r == 1 <==> v > 0
    ensures r == -1 <==> v < 0
    ensures r == 0 <==> v == 0
  {
    if v > 0 then 1 else if v < 0 then -1 else 0
  }

  /** Java's Math.abs on values that do not overflow. */
  function Abs(v: int): (r: nat)
    ensures r == v || r == -v
  {
    if v < 0 then -v else v
  }

  /** The unit vector pointing the way `move` points, axis by axis. */
  function SignOf(move: Position): Position {
    Position(Sign(move.x), Sign(move.y))
  }

  /** `q` is one of the eight cells around `p`: Chebyshev distance exactly 1. */
  predicate Adjacent(p: Position, q: Position) {
    q != p && -1 <= q.x - p.x <= 1 && -1 <= q.y - p.y <= 1
  }

  /** `q` lies in the 3x3 block centred on `p` (Chebyshev distance at most 1). */
  predicate Around(p: Position, q: Position) {
    -1 <= q.x - p.x <= 1 && -1 <= q.y - p.y <= 1
  }

  /** The order in which the neighbour scan visits cells: by x first, then by y. */
  predicate Precedes(a: Position, b: Position) {
    a.x < b.x || (a.x == b.x && a.y < b.y)
  }

  /** Every element comes strictly before every later one (so none repeats). */
  predicate Ascending(s: seq<Position>) {
    forall i, j :: 0 <= i < j < |s| ==> Precedes(s[i], s[j])
  }
}

/** The integer line walk (Bresenham's algorithm, all octants) that the track
    validator uses to rasterise the segment between two cells. The walk is
    given here as a function of its state, so that the loop that runs it can be
    proved against it and its geometry can be proved once. */
module LineWalk {
  import opened Grid

  /** The constants the walk derives from its two endpoints; `Dy` is negative
      or zero, as in the source. */
  datatype Segment = Segment(start: Position, arrive: Position) {
    function Dx(): nat { Abs(arrive.x - start.x) }
    function Ny(): nat { Abs(arrive.y - start.y) }
    function Dy(): int { -(Ny() as int) }
    function Sx(): int { Sign(arrive.x - start.x) }
    function Sy(): int { Sign(arrive.y - start.y) }
  }

  /** The walk's loop variables: the current cell and the error term. */
  datatype Cursor = Cursor(x: int, y: int, err: int) {
    function At(): Position { Position(x, y) }
  }

  function Begin(s: Segment): Cursor {
    Cursor(s.start.x, s.start.y, s.Dx() + s.Dy())
  }

  /** One iteration: step x when `2*err >= dy`, step y when `2*err <= dx`,
      both tests on the error term from before the iteration. */
  function Advance(s: Segment, c: Cursor): Cursor {
    var e2 := 2 * c.err;
    var c1 := if e2 >= s.Dy() then Cursor(c.x + s.Sx(), c.y, c.err + s.Dy()) else c;
    if e2 <= s.Dx() then Cursor(c1.x, c1.y + s.Sy(), c1.err + s.Dx()) else c1
  }

  /** `v` lies between `a` and `b` inclusive, whichever is larger. */
  predicate Between(a: int, v: int, b: int) {
    if a <= b then a <= v <= b else b <= v <= a
  }

  /** The cell is inside the segment's bounding box. */
  predicate InBox(s: Segment, p: Position) {
    Between(s.start.x, p.x, s.arrive.x) && Between(s.start.y, p.y, s.arrive.y)
  }

  /** What holds of the loop variables at the top of every iteration: the cell
      never overshoots the arrival cell on either axis, and the error term
      records how far the walk has gone along each axis. */
  predicate Inv(s: Segment, c: Cursor) {
    && InBox(s, c.At())
    && c.err == s.Dx() * (1 + Abs(c.y - s.start.y)) - s.Ny() * (1 + Abs(c.x - s.start.x))
    && 2 * s.Dy() <= c.err <= 2 * s.Dx()
  }

  /** Manhattan distance still to cover; every iteration shrinks it. */
  function Remaining(s: Segment, c: Cursor): nat {
    Abs(s.arrive.x - c.x) + Abs(s.arrive.y - c.y)
  }

  /** One iteration moves x by 0 or `sx` and y by 0 or `sy`, and moves at least one. */
  predicate Stride(s: Segment, p: Position, q: Position) {
    && (q.x == p.x || q.x == p.x + s.Sx())
    && (q.y == p.y || q.y == p.y + s.Sy())
    && q != p
  }

  /** One axis of an iteration: from a cell between `a` and `b` other than `b`,
      a step of `Sign(b - a)` stays between them and is one step further from `a`. */
  lemma AxisStep(a: int, v: int, b: int)
    requires Between(a, v, b) && v != b
    ensures Between(a, v + Sign(b - a), b)
    ensures Abs(v + Sign(b - a) - a) == Abs(v - a) + 1
    ensures Abs(b - (v + Sign(b - a))) == Abs(b - v) - 1
  {
  }

  lemma AxisDone(a: int, v: int, b: int)
    requires Between(a, v, b)
    ensures Abs(v - a) <= Abs(b - a)
    ensures v == b <==> Abs(v - a) == Abs(b - a)
  {
  }

  /** Which axes one iteration steps, with `dy` written as `-ny`: `i` and `j`
      count the steps taken along x and y so far. An axis that is done is not
      stepped, and some axis always is. */
  lemma {:induction false} StepGuards(dx: int, ny: int, i: int, j: int, err: int)
    requires 0 <= i <= dx && 0 <= j <= ny && (i < dx || j < ny)
    requires err == dx * (1 + j) - ny * (1 + i)
    ensures i == dx ==> 2 * err < -ny
    ensures j == ny ==> 2 * err > dx
    ensures 2 * err >= -ny || 2 * err <= dx
  {
    if i == dx {
      MulMonotone(dx, 1 + j, ny);
      assert ny * (1 + dx) == ny + ny * dx;
    }
    if j == ny {
      MulMonotone(ny, 1 + i, dx);
      assert dx * (1 + ny) == dx + dx * ny;
    }
  }

  /** How the error term follows the step counts through one iteration. */
  lemma {:induction false} StepError(dx: int, ny: int, i: int, j: int, err: int)
    requires 0 <= dx && 0 <= ny
    requires err == dx * (1 + j) - ny * (1 + i)
    requires -2 * ny <= err <= 2 * dx
    ensures var stepX, stepY := 2 * err >= -ny, 2 * err <= dx;
            var i', j' := if stepX then i + 1 else i, if stepY then j + 1 else j;
            var err' := err - (if stepX then ny else 0) + (if stepY then dx else 0);
            err' == dx * (1 + j') - ny * (1 + i') && -2 * ny <= err' <= 2 * dx
  {
    assert dx * (1 + (j + 1)) == dx * (1 + j) + dx;
    assert ny * (1 + (i + 1)) == ny * (1 + i) + ny;
  }

  lemma MulMonotone(a: int, b: int, c: int)
    requires 0 <= a && b <= c
    ensures a * b <= a * c
  {
  }

  lemma BeginInv(s: Segment)
    ensures Inv(s, Begin(s))
  {
  }

  /** Advance written out axis by axis. */
  lemma AdvanceParts(s: Segment, c: Cursor)
    ensures var n, stepX, stepY := Advance(s, c), 2 * c.err >= s.Dy(), 2 * c.err <= s.Dx();
            && n.x == (if stepX then c.x + s.Sx() else c.x)
            && n.y == (if stepY then c.y + s.Sy() else c.y)
            && n.err == c.err - (if stepX then s.Ny() else 0) + (if stepY then s.Dx() else 0)
  {
  }

  /** One axis of one iteration, stepping or not. */
  lemma AxisMove(a: int, v: int, b: int, step: bool)
    requires Between(a, v, b)
    requires step ==> v != b
    ensures var v' := if step then v + Sign(b - a) else v;
            && Between(a, v', b)
            && Abs(v' - a) == Abs(v - a) + (if step then 1 else 0)
            && Abs(b - v') == Abs(b - v) - (if step then 1 else 0)
  {
    if step { AxisStep(a, v, b); }
  }

  /** The cell part of one iteration: a stride towards the arrival cell that
      stays in the box. */
  lemma {:induction false} AdvanceMoves(s: Segment, c: Cursor)
    requires Inv(s, c) && c.At() != s.arrive
    ensures var n, stepX, stepY := Advance(s, c), 2 * c.err >= s.Dy(), 2 * c.err <= s.Dx();
            && InBox(s, n.At())
            && Abs(n.x - s.start.x) == Abs(c.x - s.start.x) + (if stepX then 1 else 0)
            && Abs(n.y - s.start.y) == Abs(c.y - s.start.y) + (if stepY then 1 else 0)
            && Stride(s, c.At(), n.At())
            && Remaining(s, n) < Remaining(s, c)
  {
    var i, j := Abs(c.x - s.start.x), Abs(c.y - s.start.y);
    AxisDone(s.start.x, c.x, s.arrive.x);
    AxisDone(s.start.y, c.y, s.arrive.y);
    StepGuards(s.Dx(), s.Ny(), i, j, c.err);
    AdvanceParts(s, c);
    AxisMove(s.start.x, c.x, s.arrive.x, 2 * c.err >= s.Dy());
    AxisMove(s.start.y, c.y, s.arrive.y, 2 * c.err <= s.Dx());
  }

  /** An iteration that does not stop keeps the invariant, takes a stride and
      gets closer to the arrival cell. */
  lemma {:induction false} AdvanceStep(s: Segment, c: Cursor)
    requires Inv(s, c) && c.At() != s.arrive
    ensures Inv(s, Advance(s, c))
    ensures Stride(s, c.At(), Advance(s, c).At())
    ensures Remaining(s, Advance(s, c)) < Remaining(s, c)
  {
    var n := Advance(s, c);
    var i, j := Abs(c.x - s.start.x), Abs(c.y - s.start.y);
    AdvanceMoves(s, c);
    AdvanceParts(s, c);
    StepError(s.Dx(), s.Ny(), i, j, c.err);
    var i', j' := Abs(n.x - s.start.x), Abs(n.y - s.start.y);
    assert n.err == s.Dx() * (1 + j') - s.Ny() * (1 + i');
  }

  /** The cells the walk visits from `c` on, up to and including the arrival cell. */
  function Trace(s: Segment, c: Cursor): (t: seq<Position>)
    requires Inv(s, c)
    decreases Remaining(s, c)
  {
    if c.At() == s.arrive then [c.At()]
    else
      AdvanceStep(s, c);
      [c.At()] + Trace(s, Advance(s, c))
  }

  /** A walk that has not arrived is its current cell followed by the walk
      from the next cursor. */
  lemma TraceUnfold(s: Segment, c: Cursor)
    requires Inv(s, c) && c.At() != s.arrive
    ensures Inv(s, Advance(s, c))
    ensures Trace(s, c) == [c.At()] + Trace(s, Advance(s, c))
    ensures Remaining(s, Advance(s, c)) < Remaining(s, c)
  {
    AdvanceStep(s, c);
  }

  /** The whole walk from `start` to `arrive`. */
  function Walk(start: Position, arrive: Position): seq<Position> {
    var s := Segment(start, arrive);
    BeginInv(s);
    Trace(s, Begin(s))
  }

  /** The walk always ends on the arrival cell. */
  lemma {:induction false} TraceEndsAtArrive(s: Segment, c: Cursor)
    requires Inv(s, c)
    ensures |Trace(s, c)| >= 1 && Trace(s, c)[0] == c.At()
    ensures Trace(s, c)[|Trace(s, c)| - 1] == s.arrive
    decreases Remaining(s, c)
  {
    if c.At() != s.arrive {
      AdvanceStep(s, c);
      TraceEndsAtArrive(s, Advance(s, c));
    }
  }

  /** Consecutive cells of the walk are strides: no gaps, no standing still,
      never a step against the direction of travel. */
  lemma {:induction false} TraceIsConnected(s: Segment, c: Cursor)
    requires Inv(s, c)
    ensures forall k :: 0 <= k < |Trace(s, c)| - 1 ==> Stride(s, Trace(s, c)[k], Trace(s, c)[k + 1])
    decreases Remaining(s, c)
  {
    if c.At() != s.arrive {
      AdvanceStep(s, c);
      var n := Advance(s, c);
      TraceIsConnected(s, n);
      TraceEndsAtArrive(s, n);
      var t := Trace(s, c);
      assert t == [c.At()] + Trace(s, n);
      forall k | 0 <= k < |t| - 1
        ensures Stride(s, t[k], t[k + 1])
      {
        if k > 0 {
          assert t[k] == Trace(s, n)[k - 1] && t[k + 1] == Trace(s, n)[k];
        }
      }
    }
  }

  /** The walk never overshoots the arrival cell on either axis. */
  lemma {:induction false} TraceStaysInBox(s: Segment, c: Cursor)
    requires Inv(s, c)
    ensures forall q :: q in Trace(s, c) ==> InBox(s, q)
    decreases Remaining(s, c)
  {
    if c.At() != s.arrive {
      AdvanceStep(s, c);
      TraceStaysInBox(s, Advance(s, c));
    }
  }

  /** The walk visits no more cells than the Manhattan distance plus one. */
  lemma {:induction false} TraceLengthBound(s: Segment, c: Cursor)
    requires Inv(s, c)
    ensures |Trace(s, c)| <= Remaining(s, c) + 1
    decreases Remaining(s, c)
  {
    if c.At() != s.arrive {
      AdvanceStep(s, c);
      TraceLengthBound(s, Advance(s, c));
    }
  }

  /** The whole walk from `start` to `arrive`: it begins on `start`, ends on
      `arrive`, moves by strides, stays in the bounding box and has at most
      |dx| + |dy| + 1 cells. */
  lemma WalkShape(start: Position, arrive: Position)
    ensures var w, s := Walk(start, arrive), Segment(start, arrive);
            && |w| >= 1 && w[0] == start && w[|w| - 1] == arrive
            && (forall k :: 0 <= k < |w| - 1 ==> Stride(s, w[k], w[k + 1]))
            && (forall q :: q in w ==> InBox(s, q))
            && |w| <= Abs(arrive.x - start.x) + Abs(arrive.y - start.y) + 1
  {
    var s := Segment(start, arrive);
    BeginInv(s);
    TraceEndsAtArrive(s, Begin(s));
    TraceIsConnected(s, Begin(s));
    TraceStaysInBox(s, Begin(s));
    TraceLengthBound(s, Begin(s));
  }
}

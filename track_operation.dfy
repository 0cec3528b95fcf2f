/** The track validator and move resolver: cell validity on a ragged grid,
    the line-of-sight walk between two cells, the neighbour scan, and the
    per-bot move that either moves a bot to a shared neighbour or eliminates it. */
module TrackOperation {
  import opened Grid
  import opened Movement
  import opened Bots
  import opened LineWalk

  /** The source's 32-bit `int`, for the one intermediate value that could overflow. */
  type Int32 = v: int | -0x8000_0000 <= v < 0x8000_0000

  /** Coordinates small enough that `2 * err` in the line walk fits in 32 bits. */
  const GridScale := 0x1000_0000

  predicate InGridScale(p: Position) {
    -GridScale < p.x < GridScale && -GridScale < p.y < GridScale
  }

  /** The index of the first occurrence of `x` in `s`. */
  function IndexOf(s: seq<Position>, x: Position): (i: nat)
    requires x in s
    ensures i < |s| && s[i] == x && x !in s[..i]
  {
    if s[0] == x then 0
    else
      var k := IndexOf(s[1..], x);
      assert s[..k + 1] == [s[0]] + s[1..][..k];
      k + 1
  }

  /** `s` without its element `k`. */
  function Without(s: seq<Position>, k: nat): seq<Position>
    requires k < |s|
  {
    s[..k] + s[k + 1..]
  }

  /** When the head is not `x`, taking out the first `x` keeps the head and
      takes the first `x` out of the tail. */
  lemma WithoutAfterHead(s: seq<Position>, x: Position)
    requires x in s && s[0] != x
    ensures x in s[1..]
    ensures Without(s, IndexOf(s, x)) == [s[0]] + Without(s[1..], IndexOf(s[1..], x))
  {
    assert x in s[1..];
    var k := IndexOf(s[1..], x);
    assert IndexOf(s, x) == k + 1;
    assert s[k + 2..] == s[1..][k + 1..];
    assert s[..k + 1] == [s[0]] + s[1..][..k];
  }

  /** The first occurrence of `x` taken out of `s`, the rest kept in order
      (ArrayList.remove(Object)); without an occurrence, `s` is unchanged. */
  function RemoveFirst(s: seq<Position>, x: Position): (r: seq<Position>)
    ensures x !in s ==> r == s
    ensures x in s ==> r == Without(s, IndexOf(s, x))
  {
    if s == [] then []
    else if s[0] == x then
      assert s[..0] + s[0 + 1..] == s[1..];
      s[1..]
    else
      var rest := RemoveFirst(s[1..], x);
      assert x in s ==> [s[0]] + rest == Without(s, IndexOf(s, x)) by {
        if x in s {
          WithoutAfterHead(s, x);
        }
      }
      [s[0]] + rest
  }

  /** Taking element `k` out of a list: one shorter, nothing new, every other
      value kept, and a strictly ordered list stays strictly ordered without it. */
  lemma RemovedAt(s: seq<Position>, k: nat)
    requires k < |s|
    ensures var r := Without(s, k);
            && |r| == |s| - 1
            && (forall q :: q in r ==> q in s)
            && (forall q :: q != s[k] ==> (q in r <==> q in s))
            && (Ascending(s) ==> Ascending(r) && s[k] !in r)
  {
    var r := Without(s, k);
    assert forall i :: 0 <= i < |r| ==> r[i] == s[if i < k then i else i + 1];
    forall q | q in s && q != s[k] ensures q in r {
      var i :| 0 <= i < |s| && s[i] == q;
      assert r[if i < k then i else i - 1] == q;
    }
  }

  /** What the neighbour scan needs of `RemoveFirst`. */
  lemma RemoveFirstFacts(s: seq<Position>, x: Position)
    ensures var r := RemoveFirst(s, x);
            && |r| == (if x in s then |s| - 1 else |s|)
            && (forall q :: q in r ==> q in s)
            && (forall q :: q != x ==> (q in r <==> q in s))
            && (Ascending(s) ==> Ascending(r) && x !in r)
  {
    if x in s {
      RemovedAt(s, IndexOf(s, x));
    }
  }

  /** The cells of `candidates`, in order, that are not `current` and that are
      also in `aroundCurrent` (the stream filter of `executeNearbyMove`). */
  function SharedMoves(candidates: seq<Position>, current: Position, aroundCurrent: seq<Position>): (r: seq<Position>)
    ensures forall q :: q in r <==> q in candidates && q != current && q in aroundCurrent
    ensures |r| <= |candidates|
  {
    if candidates == [] then []
    else
      var rest := SharedMoves(candidates[1..], current, aroundCurrent);
      var head := candidates[0];
      assert forall q :: q in candidates <==> q == head || q in candidates[1..];
      if head != current && head in aroundCurrent then [head] + rest else rest
  }

  /** The set of passable cells the grid describes: every (x, y) that lies
      inside row x and holds a nonzero value. */
  function PassableCells(layout: seq<seq<int>>): set<Position> {
    set x, y | 0 <= x < |layout| && 0 <= y < |layout[x]| && layout[x][y] != 0 :: Position(x, y)
  }

  /** A record over one track: the layout is fixed for its lifetime. */
  datatype DefaultTrackOperation = DefaultTrackOperation(track: Track) {

    /** `isValidPosition`: inside the grid, whose rows may differ in length,
        and on a nonzero cell. */
    predicate IsValidPosition(p: Position) {
      var layout := track.layout;
      p.x >= 0 && p.y >= 0 && p.x < |layout| && p.y < |layout[p.x]| && layout[p.x][p.y] != 0
    }

    /** A valid position is exactly a passable cell of the grid. */
    lemma ValidPositionIsPassableCell(p: Position)
      ensures IsValidPosition(p) <==> p in PassableCells(track.layout)
    {
      if p in PassableCells(track.layout) {
        var x, y :| 0 <= x < |track.layout| && 0 <= y < |track.layout[x]| && track.layout[x][y] != 0
                    && Position(x, y) == p;
      }
    }

    predicate AllValid(cells: seq<Position>) {
      forall q :: q in cells ==> IsValidPosition(q)
    }

    /** Every cell of the walk from `start` to `arrive` is valid. */
    predicate Passable(start: Position, arrive: Position) {
      AllValid(Walk(start, arrive))
    }

    /** A `2 * err` within the grid scale fits the source's 32-bit `int`. */
    lemma ErrorFits(seg: Segment, c: Cursor)
      requires Inv(seg, c) && InGridScale(seg.start) && InGridScale(seg.arrive)
      ensures -0x8000_0000 <= 2 * c.err < 0x8000_0000
    {
    }

    /** The walk from `c` is valid only if its first cell is, and once the
        cursor is on the arrival cell that cell is the whole walk. */
    lemma WalkHead(seg: Segment, c: Cursor)
      requires Inv(seg, c)
      ensures AllValid(Trace(seg, c)) ==> IsValidPosition(c.At())
      ensures c.At() == seg.arrive ==> (AllValid(Trace(seg, c)) <==> IsValidPosition(c.At()))
    {
      TraceEndsAtArrive(seg, c);
      assert Trace(seg, c)[0] in Trace(seg, c);
    }

    /** One iteration of the walk, as the validating loop sees it: `2 * err`
        fits, the invariant carries over, the distance left shrinks, and the
        rest of the walk is valid exactly when this cell and the walk from the
        next cursor are. */
    lemma WalkStep(seg: Segment, c: Cursor)
      requires Inv(seg, c) && c.At() != seg.arrive
      requires InGridScale(seg.start) && InGridScale(seg.arrive)
      ensures -0x8000_0000 <= 2 * c.err < 0x8000_0000
      ensures Inv(seg, Advance(seg, c))
      ensures Remaining(seg, Advance(seg, c)) < Remaining(seg, c)
      ensures AllValid(Trace(seg, c)) == (IsValidPosition(c.At()) && AllValid(Trace(seg, Advance(seg, c))))
    {
      ErrorFits(seg, c);
      TraceUnfold(seg, c);
      var rest := Trace(seg, Advance(seg, c));
      assert forall q :: q in Trace(seg, c) <==> q == c.At() || q in rest;
    }

    /** A passable segment has valid endpoints; from an invalid start nothing is
        passable; a segment of one cell is passable exactly when that cell is valid. */
    lemma PassableEndpoints(start: Position, arrive: Position)
      ensures Passable(start, arrive) ==> IsValidPosition(start) && IsValidPosition(arrive)
      ensures !IsValidPosition(start) ==> !Passable(start, arrive)
      ensures Passable(start, start) <==> IsValidPosition(start)
    {
      WalkShape(start, arrive);
      var w := Walk(start, arrive);
      assert w[0] in w && w[|w| - 1] in w;
      var s := Segment(start, start);
      BeginInv(s);
      assert Walk(start, start) == [start];
    }

    /** `checkPassableTrack`: runs the line walk and stops at the first invalid cell. */
    method CheckPassableTrack(start: Position, arrive: Position) returns (ok: bool)
      requires InGridScale(start) && InGridScale(arrive)
      ensures ok == Passable(start, arrive)
    {
      var seg := Segment(start, arrive);
      var dx := Abs(arrive.x - start.x);
      var dy := -(Abs(arrive.y - start.y) as int);
      var sx := Sign(arrive.x - start.x);
      var sy := Sign(arrive.y - start.y);
      var err := dx + dy;
      var x := start.x;
      var y := start.y;
      BeginInv(seg);
      ghost var c := Begin(seg);
      while true
        invariant dx == seg.Dx() && dy == seg.Dy() && sx == seg.Sx() && sy == seg.Sy()
        invariant c == Cursor(x, y, err) && Inv(seg, c)
        invariant Passable(start, arrive) == AllValid(Trace(seg, c))
        decreases Remaining(seg, c)
      {
        WalkHead(seg, c);
        if !IsValidPosition(Position(x, y)) {
          return false;
        }
        if x == arrive.x && y == arrive.y {
          return true;
        }
        WalkStep(seg, c);
        AdvanceParts(seg, c);
        var e2: Int32 := 2 * err;
        if e2 >= dy {
          err := err + dy;
          x := x + sx;
        }
        if e2 <= dx {
          err := err + dx;
          y := y + sy;
        }
        c := Advance(seg, c);
      }
    }

    /** `isValidAndPassable`: the two-leg check. The two validity tests are
        already implied by the first segment being passable. */
    method IsValidAndPassable(mainPoint: Position, mainPoint1: Position, mainPoint2: Position) returns (ok: bool)
      requires InGridScale(mainPoint) && InGridScale(mainPoint1) && InGridScale(mainPoint2)
      ensures ok == (IsValidPosition(mainPoint) && IsValidPosition(mainPoint1)
                     && Passable(mainPoint, mainPoint1) && Passable(mainPoint1, mainPoint2))
      ensures ok == (Passable(mainPoint, mainPoint1) && Passable(mainPoint1, mainPoint2))
    {
      PassableEndpoints(mainPoint, mainPoint1);
      ok := IsValidPosition(mainPoint) && IsValidPosition(mainPoint1);
      if ok {
        ok := CheckPassableTrack(mainPoint, mainPoint1);
      }
      if ok {
        ok := CheckPassableTrack(mainPoint1, mainPoint2);
      }
    }

    /** `q` is one of the up-to-eight valid neighbours of `p`. */
    predicate IsNearbyMove(p: Position, q: Position) {
      Adjacent(p, q) && IsValidPosition(q)
    }

    /** The scan has collected, in scan order, exactly the valid cells of the
        3x3 block around `p` that come before `upTo`. */
    ghost predicate ScannedBefore(p: Position, found: seq<Position>, upTo: Position) {
      && (forall q :: q in found ==> Around(p, q) && IsValidPosition(q) && Precedes(q, upTo))
      && (forall q :: Around(p, q) && IsValidPosition(q) && Precedes(q, upTo) ==> q in found)
      && Ascending(found)
    }

    /** A bound on how many cells the scan has kept before cell (dx, dy): one
        per cell visited, less one once the centre has been passed if it is
        not valid. */
    ghost function ScanBound(p: Position, dx: int, dy: int): int {
      3 * (dx + 1) + (dy + 1) - (if (dx > 0 || (dx == 0 && dy > 0)) && !IsValidPosition(p) then 1 else 0)
    }

    /** One cell of the scan: appending the cell when it is valid moves the
        scanned prefix one cell further along the column, within the bound. */
    lemma ScanCell(p: Position, found: seq<Position>, dx: int, dy: int)
      requires -1 <= dx <= 1 && -1 <= dy <= 1
      requires ScannedBefore(p, found, Position(p.x + dx, p.y + dy))
      requires |found| <= ScanBound(p, dx, dy)
      ensures var cell := Position(p.x + dx, p.y + dy);
              var found' := if IsValidPosition(cell) then found + [cell] else found;
              ScannedBefore(p, found', Position(p.x + dx, p.y + dy + 1)) && |found'| <= ScanBound(p, dx, dy + 1)
    {
      var cell := Position(p.x + dx, p.y + dy);
      var next := Position(p.x + dx, p.y + dy + 1);
      assert forall q :: Precedes(q, next) <==> Precedes(q, cell) || q == cell;
      if IsValidPosition(cell) {
        var found' := found + [cell];
        forall i, j | 0 <= i < j < |found'| ensures Precedes(found'[i], found'[j]) {
          assert found'[i] in found;
          if j == |found| {
            assert found'[j] == cell;
          } else {
            assert found'[i] == found[i] && found'[j] == found[j];
          }
        }
        assert forall q :: q in found' <==> q in found || q == cell;
      }
    }

    /** Past the bottom of column `dx`, the scan has covered the whole column:
        it stands where column `dx + 1` begins. */
    lemma ScanColumn(p: Position, found: seq<Position>, dx: int)
      requires ScannedBefore(p, found, Position(p.x + dx, p.y + 2))
      ensures ScannedBefore(p, found, Position(p.x + dx + 1, p.y - 1))
      ensures ScanBound(p, dx, 2) == ScanBound(p, dx + 1, -1)
    {
      assert forall q :: Around(p, q) ==> (Precedes(q, Position(p.x + dx, p.y + 2)) <==> Precedes(q, Position(p.x + dx + 1, p.y - 1)));
    }

    /** `calculateNearbyMoves`: scans the 3x3 block around `p` by x, then by y,
        keeps the valid cells and removes `p` itself. The result is exactly the
        valid neighbours of `p`, in scan order, without repeats. */
    method CalculateNearbyMoves(p: Position) returns (moves: seq<Position>)
      ensures forall q :: q in moves <==> IsNearbyMove(p, q)
      ensures Ascending(moves)
      ensures p !in moves
      ensures |moves| <= 8
    {
      var found: seq<Position> := [];
      for dx := -1 to 2
        invariant ScannedBefore(p, found, Position(p.x + dx, p.y - 1))
        invariant |found| <= ScanBound(p, dx, -1)
      {
        for dy := -1 to 2
          invariant ScannedBefore(p, found, Position(p.x + dx, p.y + dy))
          invariant |found| <= ScanBound(p, dx, dy)
        {
          ScanCell(p, found, dx, dy);
          var newPoint := Position(p.x + dx, p.y + dy);
          if IsValidPosition(newPoint) {
            found := found + [newPoint];
          }
        }
        ScanColumn(p, found, dx);
      }
      assert forall q :: Around(p, q) ==> Precedes(q, Position(p.x + 2, p.y - 1));
      assert Around(p, p);
      RemoveFirstFacts(found, p);
      moves := RemoveFirst(found, p);
    }

    /** A cell the bot may move to: a valid neighbour of both the main point
        and the current cell, other than the current cell. */
    predicate ValidMove(current: Position, mainPoint: Position, q: Position) {
      q != current && IsNearbyMove(mainPoint, q) && IsNearbyMove(current, q)
    }

    ghost predicate HasValidMove(current: Position, mainPoint: Position) {
      exists q :: ValidMove(current, mainPoint, q)
    }

    /** `executeNearbyMove`: with no shared neighbour the bot is eliminated and
        nothing else changes; otherwise the bot decelerates once and moves to
        one of the shared neighbours, chosen freely (the source picks at random). */
    method ExecuteNearbyMove(bot: Bot)
      modifies bot, bot.movement
      ensures var current := old(bot.currentPosition);
              var mainPoint := MainPoint(current, old(bot.previousMove));
              if HasValidMove(current, mainPoint) then
                && ValidMove(current, mainPoint, bot.currentPosition)
                && Adjacent(current, bot.currentPosition) && IsValidPosition(bot.currentPosition)
                && bot.previousMove == bot.currentPosition.Minus(current)
                && bot.eliminated == old(bot.eliminated)
                && bot.movement.speed == DeceleratedSpeed(old(bot.movement.speed))
              else
                && bot.eliminated
                && bot.currentPosition == current
                && bot.previousMove == old(bot.previousMove)
                && bot.movement.speed == old(bot.movement.speed)
    {
      var currentPosition := bot.currentPosition;
      var mainPoint := MainPoint(currentPosition, bot.previousMove);
      var aroundMain := CalculateNearbyMoves(mainPoint);
      var aroundCurrent := CalculateNearbyMoves(currentPosition);
      var validMoves := SharedMoves(aroundMain, currentPosition, aroundCurrent);
      assert forall q :: q in validMoves <==> ValidMove(currentPosition, mainPoint, q);
      if |validMoves| == 0 {
        bot.SetEliminated(true);
      } else {
        assert ValidMove(currentPosition, mainPoint, validMoves[0]);
        var discarded := bot.movement.Decelerate(mainPoint, bot.previousMove);
        var pick :| 0 <= pick < |validMoves|;
        bot.UpdatePosition(validMoves[pick]);
      }
    }
  }
}

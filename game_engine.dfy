/** The race engine's turn logic: the ordered list of bots still racing, the
    finish cells, the turn counter and the winner. One turn lets every bot
    take its step in list order and then drops the bots that crashed. */
module GameEngine {
  import opened Grid
  import opened Bots

  datatype Option<T> = None | Some(value: T)

  /** The index of the first bot, in list order, that stands on a finish cell
      (the stream `filter(...).findFirst()` of `isRaceOver`). */
  function FirstAtFinish(bs: seq<Bot>, finish: set<Position>): (r: Option<nat>)
    reads bs
    ensures r.Some? <==> exists i :: 0 <= i < |bs| && bs[i].currentPosition in finish
    ensures r.Some? ==> r.value < |bs| && bs[r.value].currentPosition in finish
    ensures r.Some? ==> forall j :: 0 <= j < r.value ==> bs[j].currentPosition !in finish
  {
    if bs == [] then None
    else if bs[0].currentPosition in finish then Some(0)
    else
      match FirstAtFinish(bs[1..], finish)
      case None =>
        assert forall i :: 1 <= i < |bs| ==> bs[i] == bs[1..][i - 1];
        None
      case Some(k) =>
        assert forall j :: 1 <= j < k + 1 ==> bs[j] == bs[1..][j - 1];
        Some(k + 1)
  }

  /** The bots, in order, whose crash flag is clear. */
  function Survivors(bs: seq<Bot>): (r: seq<Bot>)
    reads bs
    ensures forall i :: 0 <= i < |r| ==> r[i] in bs && !r[i].eliminated
    ensures forall i :: 0 <= i < |bs| && !bs[i].eliminated ==> bs[i] in r
    ensures |r| + CountEliminated(bs) == |bs|
  {
    if bs == [] then []
    else
      var rest := Survivors(bs[1..]);
      assert forall i :: 1 <= i < |bs| ==> bs[i] == bs[1..][i - 1];
      if bs[0].eliminated then rest else [bs[0]] + rest
  }

  /** How many entries of `bs` carry the crash flag (a bot listed twice counts twice). */
  function CountEliminated(bs: seq<Bot>): nat
    reads bs
  {
    if bs == [] then 0
    else (if bs[0].eliminated then 1 else 0) + CountEliminated(bs[1..])
  }

  /** `List.removeAll`: every occurrence of every bot in `gone` is dropped,
      the rest keep their order. Bots are compared by identity. */
  function RemoveAll(bs: seq<Bot>, gone: seq<Bot>): (r: seq<Bot>)
    ensures forall i :: 0 <= i < |r| ==> r[i] in bs && r[i] !in gone
    ensures forall i :: 0 <= i < |bs| && bs[i] !in gone ==> bs[i] in r
  {
    if bs == [] then []
    else
      var rest := RemoveAll(bs[1..], gone);
      assert forall i :: 1 <= i < |bs| ==> bs[i] == bs[1..][i - 1];
      if bs[0] in gone then rest else [bs[0]] + rest
  }

  /** `r` is `s` with some entries left out and the rest in their order. */
  predicate SubsequenceOf(r: seq<Bot>, s: seq<Bot>)
    decreases |s|
  {
    if r == [] then true
    else if s == [] then false
    else (r[0] == s[0] && SubsequenceOf(r[1..], s[1..])) || SubsequenceOf(r, s[1..])
  }

  /** Removing exactly the flagged bots leaves exactly the survivors. */
  lemma {:induction false} RemoveAllFlagged(bs: seq<Bot>, gone: seq<Bot>)
    requires forall b :: b in bs ==> (b in gone <==> b.eliminated)
    ensures RemoveAll(bs, gone) == Survivors(bs)
  {
    if bs != [] {
      RemoveAllFlagged(bs[1..], gone);
    }
  }

  /** The survivors keep the relative order they had in the list. */
  lemma {:induction false} SurvivorsKeepOrder(bs: seq<Bot>)
    ensures SubsequenceOf(Survivors(bs), bs)
  {
    if bs != [] {
      SurvivorsKeepOrder(bs[1..]);
      var rest := Survivors(bs[1..]);
      if !bs[0].eliminated {
        assert Survivors(bs) == [bs[0]] + rest;
        assert ([bs[0]] + rest)[1..] == rest;
      }
    }
  }

  class DefaultGameEngine {
    const track: Track
    const finishPositions: set<Position>
    var bots: seq<Bot>
    var turn: int
    var winner: Bot?
    /** Every bot turn taken so far, in the order it was taken, as each
        `CalculateNextMoves` call reports it. */
    ghost var stepLog: seq<Bot>

    /** An engine over a loaded track and its bots, on turn 1 with no winner.
        The finish cells are the track's end positions. */
    constructor (track: Track, bots: seq<Bot>)
      ensures this.track == track && this.bots == bots
      ensures forall p :: p in finishPositions <==> p in track.endPositions
      ensures turn == 1 && winner == null && stepLog == []
    {
      this.track := track;
      this.bots := bots;
      finishPositions := set p | p in track.endPositions;
      turn := 1;
      winner := null;
      stepLog := [];
    }

    /** `isRaceOver`: the race is over when some bot stands on a finish cell;
        the winner is then the first such bot in list order. Otherwise the
        winner is left as it was. */
    method IsRaceOver() returns (over: bool)
      modifies this`winner
      ensures over <==> exists b :: b in bots && b.currentPosition in finishPositions
      ensures over ==> exists k :: 0 <= k < |bots| && winner == bots[k]
                        && bots[k].currentPosition in finishPositions
                        && forall j :: 0 <= j < k ==> bots[j].currentPosition !in finishPositions
      ensures !over ==> winner == old(winner)
    {
      var first := FirstAtFinish(bots, finishPositions);
      if first.Some? {
        winner := bots[first.value];
        return true;
      }
      return false;
    }

    /** `allBotsEliminated`: the race is over when no bot is left. */
    method AllBotsEliminated() returns (r: bool)
      ensures r <==> |bots| == 0
    {
      r := |bots| == 0;
    }

    /** `updateRace`: every bot present at the start takes its step once, in
        list order; then every bot whose crash flag is set is removed. */
    method UpdateRace()
      modifies this`bots, this`stepLog, bots, set b | b in bots :: b.movement
      ensures stepLog == old(stepLog) + old(bots)
      ensures bots == Survivors(old(bots))
      ensures forall i :: 0 <= i < |bots| ==> bots[i] in old(bots) && !bots[i].eliminated
      ensures forall b :: b in old(bots) && !b.eliminated ==> b in bots
      ensures forall b :: b in old(bots) && old(b.eliminated) ==> b.eliminated
      ensures |bots| == |old(bots)| - CountEliminated(old(bots))
    {
      var roster := bots;
      var botEliminated: seq<Bot> := [];
      for i := 0 to |roster|
        invariant bots == roster
        invariant stepLog == old(stepLog) + roster[..i]
        invariant forall b :: b in botEliminated ==> b in roster[..i]
        invariant forall b :: b in roster[..i] ==> (b in botEliminated <==> b.eliminated)
        invariant forall b :: b in roster && old(b.eliminated) ==> b.eliminated
      {
        var bot := roster[i];
        assert roster[..i + 1] == roster[..i] + [bot];
        stepLog := bot.CalculateNextMoves(stepLog);
        if bot.eliminated {
          botEliminated := botEliminated + [bot];
        }
      }
      assert roster[..|roster|] == roster;
      RemoveAllFlagged(roster, botEliminated);
      bots := RemoveAll(roster, botEliminated);
    }

    /** The turn counter advance of `displayStatus`. */
    method DisplayStatus()
      modifies this`turn
      ensures turn == old(turn) + 1
    {
      turn := turn + 1;
    }

    /** `getWinner`: only meaningful once a winner has been recorded. */
    method GetWinner() returns (w: Bot)
      requires winner != null
      ensures w == winner
    {
      w := winner;
    }
  }
}

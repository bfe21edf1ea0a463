/**
 * The move arbiter and wall store of PlayerClient4.py. Incoming messages
 * append each player's reported position to that player's history and add
 * every wall not yet known; each round, every player takes the first of UP,
 * DOWN, RIGHT whose cell is on the grid, not a wall and, for Player1 and
 * Player2 only, not the latest cell of another player, and LEFT otherwise.
 * Cells follow the row/column convention of module Grid.
 */
module Arbiter {
  import opened Grid
  import opened Dedupe

  /** The topic fragment that identifies each player's messages. */
  const Tags: seq<string> := ["Player1", "Player2", "Player3", "Player4"]

  /** `tag in topic`: the tag occurs somewhere in the topic. */
  predicate Contains(topic: string, tag: string)
    decreases |topic|
  {
    tag <= topic || (topic != [] && Contains(topic[1..], tag))
  }

  /** A topic of the form `<before><tag><after>` contains the tag. */
  lemma {:induction false} ContainsInfix(before: string, tag: string, after: string)
    ensures Contains(before + tag + after, tag)
    decreases |before|
  {
    var topic := before + tag + after;
    if before == [] {
      assert topic == tag + after;
      assert topic[..|tag|] == tag;
    } else {
      assert topic[1..] == before[1..] + tag + after;
      ContainsInfix(before[1..], tag, after);
    }
  }

  /** The tag sits at offset `i` of the topic. */
  predicate OccursAt(topic: string, tag: string, i: nat) {
    i + |tag| <= |topic| && topic[i..i + |tag|] == tag
  }

  /** `Contains` holds exactly when the tag occurs at some offset of the topic, as Python's `in` on strings. */
  lemma {:induction false} ContainsIffOccurs(topic: string, tag: string)
    ensures Contains(topic, tag) <==> exists i: nat :: OccursAt(topic, tag, i)
    decreases |topic|
  {
    if exists i: nat :: OccursAt(topic, tag, i) {
      var i: nat :| OccursAt(topic, tag, i);
      assert topic == topic[..i] + tag + topic[i + |tag|..];
      ContainsInfix(topic[..i], tag, topic[i + |tag|..]);
    }
    if Contains(topic, tag) {
      if tag <= topic {
        assert OccursAt(topic, tag, 0);
      } else {
        ContainsIffOccurs(topic[1..], tag);
        var rest := topic[1..];
        var j: nat :| OccursAt(rest, tag, j);
        var here, there := topic[j + 1..j + 1 + |tag|], rest[j..j + |tag|];
        assert forall m :: 0 <= m < |tag| ==> here[m] == there[m];
        assert OccursAt(topic, tag, j + 1);
      }
    }
  }

  /** The fields of a decoded message that this script reads. */
  datatype Observation = Observation(currentPosition: Pos, walls: seq<Pos>)

  /** Whether moving `d` from `own` passes the range, wall and (optionally) occupancy checks. */
  predicate Allowed(own: Pos, d: Dir, walls: seq<Pos>, others: seq<Pos>, checkOccupancy: bool) {
    var c := Neighbour(own, d);
    c !in walls && InRange(c) && (checkOccupancy ==> c !in others)
  }

  /** Position of a move in the order the arbiter tries them. */
  function Rank(d: Dir): nat {
    match d
    case Up => 0
    case Down => 1
    case Right => 2
    case Left => 3
  }

  /**
   * One player's move: the first of UP, DOWN, RIGHT that passes every check,
   * else LEFT without any check.
   */
  function ChooseMove(own: Pos, walls: seq<Pos>, others: seq<Pos>, checkOccupancy: bool): (r: Dir)
    ensures r != Left ==> Allowed(own, r, walls, others, checkOccupancy)
    ensures r == Left <==> forall d :: d != Left ==> !Allowed(own, d, walls, others, checkOccupancy)
    ensures forall d :: Rank(d) < Rank(r) ==> !Allowed(own, d, walls, others, checkOccupancy)
  {
    if Allowed(own, Up, walls, others, checkOccupancy) then Up
    else if Allowed(own, Down, walls, others, checkOccupancy) then Down
    else if Allowed(own, Right, walls, others, checkOccupancy) then Right
    else Left
  }

  /** A non-LEFT move is on the grid and off every wall; with the occupancy check, off every other player too. */
  lemma ChosenCellIsSafe(own: Pos, walls: seq<Pos>, others: seq<Pos>, checkOccupancy: bool)
    ensures var r := ChooseMove(own, walls, others, checkOccupancy);
      r != Left ==> (InRange(Neighbour(own, r)) && Neighbour(own, r) !in walls &&
                     (checkOccupancy ==> forall o :: o in others ==> Neighbour(own, r) != o))
  {
  }

  /** Without the occupancy check the other players' positions play no part. */
  lemma UncheckedIgnoresOthers(own: Pos, walls: seq<Pos>, others1: seq<Pos>, others2: seq<Pos>)
    ensures ChooseMove(own, walls, others1, false) == ChooseMove(own, walls, others2, false)
  {
  }

  /** The latest position of every player except `k`. */
  function Others(ps: seq<Pos>, k: nat): (os: seq<Pos>)
    requires k < |ps|
    ensures |os| == |ps| - 1
    ensures forall j :: 0 <= j < |ps| && j != k ==> ps[j] in os
    ensures forall o :: o in os ==> exists j :: 0 <= j < |ps| && j != k && ps[j] == o
  {
    assert forall j :: k < j < |ps| ==> ps[j] == ps[k + 1..][j - k - 1];
    ps[..k] + ps[k + 1..]
  }

  /** The four moves of a round; only Player1 and Player2 check occupancy. */
  function RoundMoves(ps: seq<Pos>, walls: seq<Pos>): (ms: seq<Dir>)
    requires |ps| == Players
    ensures |ms| == Players
    ensures forall k :: 0 <= k < Players && ms[k] != Left ==> Allowed(ps[k], ms[k], walls, Others(ps, k), k < 2)
    ensures forall k, d :: 0 <= k < Players && Rank(d) < Rank(ms[k]) ==> !Allowed(ps[k], d, walls, Others(ps, k), k < 2)
  {
    [ChooseMove(ps[0], walls, Others(ps, 0), true),
     ChooseMove(ps[1], walls, Others(ps, 1), true),
     ChooseMove(ps[2], walls, Others(ps, 2), false),
     ChooseMove(ps[3], walls, Others(ps, 3), false)]
  }

  /** Player1 and Player2 never pick UP, DOWN or RIGHT into another player's latest cell. */
  lemma CheckedPlayersAvoidOthers(ps: seq<Pos>, walls: seq<Pos>, k: nat, j: nat)
    requires |ps| == Players && k < 2 && j < Players && j != k
    ensures RoundMoves(ps, walls)[k] != Left ==> Neighbour(ps[k], RoundMoves(ps, walls)[k]) != ps[j]
  {
    assert ps[j] in Others(ps, k);
    assert RoundMoves(ps, walls)[k] == ChooseMove(ps[k], walls, Others(ps, k), true);
  }

  /** Player3 and Player4 may step onto another player's cell. */
  lemma UncheckedPlayersMayCollide()
    ensures var ps := [Pos(5, 5), Pos(0, 9), Pos(6, 5), Pos(9, 9)];
      RoundMoves(ps, [])[2] == Up && Neighbour(ps[2], Up) == ps[0]
  {
  }

  /** Walled in on three sides at (0,0): LEFT is published although it leaves the grid. */
  lemma LeftFallbackLeavesGrid()
    ensures ChooseMove(Pos(0, 0), [Pos(1, 0), Pos(0, 1)], [], true) == Left
    ensures !InRange(Neighbour(Pos(0, 0), Left))
  {
  }

  /** The unchecked LEFT can land on the other player's latest cell. */
  lemma LeftFallbackMayCollide()
    ensures var walls := [Pos(2, 4), Pos(4, 4), Pos(3, 5)];
      ChooseMove(Pos(3, 4), walls, [Pos(3, 3)], true) == Left && Neighbour(Pos(3, 4), Left) == Pos(3, 3)
  {
  }

  /** With walls on all four sides the move is LEFT, into a wall. */
  lemma BoxedInGoesLeft(own: Pos, walls: seq<Pos>, others: seq<Pos>, checkOccupancy: bool)
    requires forall d :: Neighbour(own, d) in walls
    ensures ChooseMove(own, walls, others, checkOccupancy) == Left
    ensures Neighbour(own, ChooseMove(own, walls, others, checkOccupancy)) in walls
  {
    assert Neighbour(own, Up) in walls && Neighbour(own, Down) in walls && Neighbour(own, Right) in walls;
  }

  /**
   * Positions are the latest known ones, not the moves being decided: two
   * checked players can both pass every check and target the same free cell
   * in one round.
   */
  lemma SameRoundRace()
    ensures var ps := [Pos(3, 3), Pos(4, 4), Pos(9, 0), Pos(9, 2)];
      var walls := [Pos(2, 3), Pos(4, 3)];
      var ms := RoundMoves(ps, walls);
      ms[0] == Right && ms[1] == Up && Neighbour(ps[0], ms[0]) == Neighbour(ps[1], ms[1])
  {
    var ps := [Pos(3, 3), Pos(4, 4), Pos(9, 0), Pos(9, 2)];
    var walls := [Pos(2, 3), Pos(4, 3)];
    assert Others(ps, 0) == [Pos(4, 4), Pos(9, 0), Pos(9, 2)];
    assert Others(ps, 1) == [Pos(3, 3), Pos(9, 0), Pos(9, 2)];
    assert ChooseMove(ps[0], walls, Others(ps, 0), true) == Right;
    assert ChooseMove(ps[1], walls, Others(ps, 1), true) == Up;
  }

  /** The last entry of every history. */
  function Latest(history: seq<seq<Pos>>): (ps: seq<Pos>)
    requires forall k :: 0 <= k < |history| ==> history[k] != []
    ensures |ps| == |history|
    ensures forall k :: 0 <= k < |history| ==> ps[k] == history[k][|history[k]| - 1]
  {
    if history == [] then [] else [history[0][|history[0]| - 1]] + Latest(history[1..])
  }

  /**
   * The decision of one pass of the main loop. Indexing `[-1]` into an
   * empty history raises in the source: that round yields None.
   */
  function Decide(history: seq<seq<Pos>>, walls: seq<Pos>): (r: Option<seq<Dir>>)
    requires |history| == Players
    ensures r == None <==> exists k :: 0 <= k < Players && history[k] == []
    ensures r.Some? ==> |r.value| == Players && forall k :: 0 <= k < Players && r.value[k] != Left ==>
      Allowed(history[k][|history[k]| - 1], r.value[k], walls, Others(Latest(history), k), k < 2)
    ensures r.Some? ==> forall k, d :: 0 <= k < Players && Rank(d) < Rank(r.value[k]) ==>
      !Allowed(history[k][|history[k]| - 1], d, walls, Others(Latest(history), k), k < 2)
  {
    if exists k :: 0 <= k < Players && history[k] == [] then None
    else Some(RoundMoves(Latest(history), walls))
  }

  /** The wall list and the per-player position histories of PlayerClient4.py. */
  class Tracker {
    var walls: seq<Pos>
    var history: seq<seq<Pos>>

    ghost predicate Valid()
      reads this
    {
      |history| == Players && NoDup(walls)
    }

    constructor ()
      ensures Valid() && walls == []
      ensures forall k :: 0 <= k < Players ==> history[k] == []
    {
      walls := [];
      history := [[], [], [], []];
    }

    /** Append every incoming wall that is not yet known, in message order. */
    method AddWalls(incoming: seq<Pos>)
      requires Valid()
      modifies this
      ensures Valid() && history == old(history)
      ensures walls == AppendAbsent(old(walls), [], incoming)
    {
      for i := 0 to |incoming|
        invariant |history| == Players && history == old(history)
        invariant walls == AppendAbsent(old(walls), [], incoming[..i])
      {
        assert incoming[..i + 1][..i] == incoming[..i];
        var wall := incoming[i];
        if wall !in walls {
          walls := walls + [wall];
        }
      }
      assert incoming[..|incoming|] == incoming;
      AppendAbsentNoDup(old(walls), [], incoming);
    }

    /**
     * on_message: the position is appended to the history of every player
     * whose tag occurs in the topic, then the message's walls are merged in.
     * Walls never disappear and stay free of duplicates.
     */
    method OnMessage(topic: string, obs: Observation)
      requires Valid()
      modifies this
      ensures Valid()
      ensures forall k :: 0 <= k < Players ==>
        history[k] == old(history)[k] + (if Contains(topic, Tags[k]) then [obs.currentPosition] else [])
      ensures walls == AppendAbsent(old(walls), [], obs.walls)
      ensures walls[..|old(walls)|] == old(walls)
      ensures forall w :: w in walls <==> w in old(walls) || w in obs.walls
    {
      for k := 0 to Players
        invariant Valid() && walls == old(walls)
        invariant forall j :: 0 <= j < k ==>
          history[j] == old(history)[j] + (if Contains(topic, Tags[j]) then [obs.currentPosition] else [])
        invariant forall j :: k <= j < Players ==> history[j] == old(history)[j]
      {
        if Contains(topic, Tags[k]) {
          history := history[k := history[k] + [obs.currentPosition]];
        }
      }
      AddWalls(obs.walls);
      forall w
        ensures w in walls <==> w in old(walls) || w in obs.walls
      {
        AppendAbsentMembers(old(walls), [], obs.walls, w);
      }
    }
  }
}

/**
 * The frontier explorer of PlayerClient2.py: one breadth-first search per
 * player, advanced in lockstep. Each round dequeues the oldest cell of every
 * player's frontier, records all four in one explored list shared by the
 * players, and enqueues each player's unseen neighbours. This script uses its
 * own axis convention: UP is (0, +1), RIGHT (+1, 0), DOWN (0, -1), LEFT (-1, 0).
 */
module Explorer {
  import opened Grid
  import opened Dedupe

  /** The move names, in the order the neighbour offsets are listed. */
  const MoveOrder: seq<Dir> := [Up, Right, Down, Left]

  /** The cell one move away in this script's convention. */
  function Shift(p: Pos, d: Dir): Pos {
    match d
    case Up => Pos(p.x, p.y + 1)
    case Right => Pos(p.x + 1, p.y)
    case Down => Pos(p.x, p.y - 1)
    case Left => Pos(p.x - 1, p.y)
  }

  /**
   * The move that takes `prev` to `cur`: four independent tests in which the
   * last one that fires wins; None when no test fires.
   */
  function MoveBetween(prev: Pos, cur: Pos): (r: Option<Dir>)
    ensures r.Some? ==> cur == Shift(prev, r.value)
    ensures forall d :: cur == Shift(prev, d) ==> r == Some(d)
    ensures r == None <==> forall d :: cur != Shift(prev, d)
  {
    if Pos(prev.x - 1, prev.y) == cur then Some(Left)
    else if Pos(prev.x, prev.y - 1) == cur then Some(Down)
    else if Pos(prev.x + 1, prev.y) == cur then Some(Right)
    else if Pos(prev.x, prev.y + 1) == cur then Some(Up)
    else None
  }

  /** A zero displacement matches none of the four moves. */
  lemma NoMoveForZeroDisplacement(p: Pos)
    ensures MoveBetween(p, p) == None
  {
    assert forall d :: Shift(p, d) != p;
  }

  /** This script and the row/column convention never agree on a move's cell. */
  lemma AxisConventionsDisagree(p: Pos, d: Dir)
    ensures Shift(p, d) != Neighbour(p, d)
  {
  }

  /** The four neighbours of a cell, in offset order (0,1), (1,0), (0,-1), (-1,0). */
  function Neighbours(p: Pos): (ns: seq<Pos>)
    ensures |ns| == |MoveOrder| && NoDup(ns)
    ensures forall k :: 0 <= k < |ns| ==> MoveBetween(p, ns[k]) == Some(MoveOrder[k])
  {
    [Pos(p.x, p.y + 1), Pos(p.x + 1, p.y), Pos(p.x, p.y - 1), Pos(p.x - 1, p.y)]
  }

  /** One player's frontier after a round: drop the oldest cell, append its unseen neighbours. */
  function Expand(frontier: seq<Pos>, explored: seq<Pos>): seq<Pos>
    requires frontier != []
  {
    AppendAbsent(frontier[1..], explored, Neighbours(frontier[0]))
  }

  /**
   * The rest of the queue keeps its order at the front; every added cell is
   * a neighbour of the dequeued one that is neither explored nor already
   * queued, and they come in offset order.
   */
  lemma ExpandIsFifo(frontier: seq<Pos>, explored: seq<Pos>)
    requires frontier != []
    ensures var r := Expand(frontier, explored);
      r == frontier[1..] + NewItems(frontier[1..], explored, Neighbours(frontier[0]))
    ensures forall i :: |frontier| - 1 <= i < |Expand(frontier, explored)| ==>
      Expand(frontier, explored)[i] !in explored && Expand(frontier, explored)[i] !in frontier[1..]
  {
    AppendAbsentIsFilter(frontier[1..], explored, Neighbours(frontier[0]));
  }

  /** A frontier without duplicates keeps none after a round. */
  lemma ExpandKeepsNoDup(frontier: seq<Pos>, explored: seq<Pos>)
    requires frontier != [] && NoDup(frontier)
    ensures NoDup(Expand(frontier, explored))
  {
    AppendAbsentNoDup(frontier[1..], explored, Neighbours(frontier[0]));
  }

  /** Once the dequeued cell is explored it is neither kept nor enqueued again. */
  lemma ExpandDropsCurrent(frontier: seq<Pos>, explored: seq<Pos>)
    requires frontier != [] && NoDup(frontier) && frontier[0] in explored
    ensures frontier[0] !in Expand(frontier, explored)
  {
    AppendAbsentMembers(frontier[1..], explored, Neighbours(frontier[0]), frontier[0]);
  }

  /** A neighbour is missing from the new frontier only if it is explored. */
  lemma ExpandCoversNeighbours(frontier: seq<Pos>, explored: seq<Pos>, d: Dir)
    requires frontier != []
    ensures Shift(frontier[0], d) in explored || Shift(frontier[0], d) in Expand(frontier, explored)
  {
    var ns := Neighbours(frontier[0]);
    var k := if d == Up then 0 else if d == Right then 1 else if d == Down then 2 else 3;
    assert MoveBetween(frontier[0], ns[k]) == Some(MoveOrder[k]);
    assert ns[k] == Shift(frontier[0], d);
  }

  /** There is no bounds filter: from the corner the queue receives cells off the grid. */
  lemma ExpandLeavesGrid()
    ensures Expand([Pos(0, 0)], [Pos(0, 0)]) == [Pos(0, 1), Pos(1, 0), Pos(0, -1), Pos(-1, 0)]
    ensures !InRange(Pos(0, -1)) && !InRange(Pos(-1, 0))
  {
    var e := [Pos(0, 0)];
    var a, b, c, d := Pos(0, 1), Pos(1, 0), Pos(0, -1), Pos(-1, 0);
    assert [a][..0] == [];
    assert AppendAbsent([], e, [a]) == [a];
    assert [a, b][..1] == [a];
    assert AppendAbsent([], e, [a, b]) == [a, b];
    assert [a, b, c][..2] == [a, b];
    assert AppendAbsent([], e, [a, b, c]) == [a, b, c];
    assert [a, b, c, d][..3] == [a, b, c];
    assert AppendAbsent([], e, [a, b, c, d]) == [a, b, c, d];
    assert [Pos(0, 0)][1..] == [];
  }

  /**
   * The explored list is shared and only the newly added cells are checked:
   * a cell another player dequeued stays in this player's queue.
   */
  lemma FrontierMayHoldExploredCell()
    ensures var explored := [Pos(0, 0), Pos(5, 5)];
      Pos(5, 5) in Expand([Pos(0, 0), Pos(5, 5)], explored)
  {
    var r := Expand([Pos(0, 0), Pos(5, 5)], [Pos(0, 0), Pos(5, 5)]);
    assert r[..1] == [Pos(5, 5)];
    assert r[0] == Pos(5, 5);
  }

  /** The oldest cell of every frontier. */
  function Heads(fs: seq<seq<Pos>>): (hs: seq<Pos>)
    requires forall k :: 0 <= k < |fs| ==> fs[k] != []
    ensures |hs| == |fs| && forall k :: 0 <= k < |fs| ==> hs[k] == fs[k][0]
  {
    if fs == [] then [] else [fs[0][0]] + Heads(fs[1..])
  }

  /** The state the main loop works on: the four frontiers and the shared explored list. */
  datatype Search = Search(frontiers: seq<seq<Pos>>, explored: seq<Pos>)

  /** The loop guard: every player still has a cell to dequeue. */
  predicate Ready(fs: seq<seq<Pos>>) {
    |fs| == Players && forall k :: 0 <= k < Players ==> fs[k] != []
  }

  /** One pass of the main loop on values: the four heads are explored, then every frontier is expanded. */
  function Round(s: Search): (t: Search)
    requires Ready(s.frontiers)
    ensures |t.frontiers| == Players
  {
    var explored := s.explored + Heads(s.frontiers);
    Search(seq(Players, k requires 0 <= k < Players => Expand(s.frontiers[k], explored)), explored)
  }

  /**
   * Up to `rounds` passes of the main loop, stopping at the first pass whose
   * guard fails: the final state and the number of passes that ran.
   */
  function Run(s: Search, rounds: nat): (r: (Search, nat))
    requires |s.frontiers| == Players
    ensures |r.0.frontiers| == Players && r.1 <= rounds
    ensures r.1 < rounds ==> !Ready(r.0.frontiers)
    decreases rounds
  {
    if rounds == 0 || !Ready(s.frontiers) then (s, 0)
    else
      var r := Run(Round(s), rounds - 1);
      (r.0, r.1 + 1)
  }

  /** Each pass adds four cells to the explored list and never rewrites what it held. */
  lemma {:induction false} RunExploredGrows(s: Search, rounds: nat)
    requires |s.frontiers| == Players
    ensures var r := Run(s, rounds);
      |r.0.explored| == |s.explored| + Players * r.1 && r.0.explored[..|s.explored|] == s.explored
    decreases rounds
  {
    if rounds > 0 && Ready(s.frontiers) {
      var t := Round(s);
      RunExploredGrows(t, rounds - 1);
      var e := Run(t, rounds - 1).0.explored;
      assert e[..|s.explored|] == e[..|t.explored|][..|s.explored|];
    }
  }

  /** A pass is pinned down by the explored list it extends and the frontiers it expands. */
  lemma RoundIs(s: Search, t: Search)
    requires Ready(s.frontiers) && |t.frontiers| == Players
    requires t.explored == s.explored + Heads(s.frontiers)
    requires forall k :: 0 <= k < Players ==> t.frontiers[k] == Expand(s.frontiers[k], t.explored)
    ensures t == Round(s)
  {
    var r := Round(s);
    assert forall k :: 0 <= k < Players ==> r.frontiers[k] == t.frontiers[k];
    assert r.frontiers == t.frontiers;
  }

  /** A run whose guard fails, or that has no passes left, leaves the state alone. */
  lemma RunStops(s: Search, rounds: nat)
    requires |s.frontiers| == Players && (rounds == 0 || !Ready(s.frontiers))
    ensures Run(s, rounds) == (s, 0)
  {
  }

  /** A run that can take a pass is that pass followed by the rest of the run. */
  lemma RunUnfold(s: Search, t: Search, rounds: nat)
    requires Ready(s.frontiers) && rounds > 0 && t == Round(s)
    ensures Run(t, rounds - 1).0 == Run(s, rounds).0
    ensures Run(t, rounds - 1).1 + 1 == Run(s, rounds).1
  {
  }

  /** Frontiers without duplicates keep none, however many passes run. */
  lemma {:induction false} RunKeepsNoDup(s: Search, rounds: nat)
    requires |s.frontiers| == Players && forall k :: 0 <= k < Players ==> NoDup(s.frontiers[k])
    ensures forall k :: 0 <= k < Players ==> NoDup(Run(s, rounds).0.frontiers[k])
    decreases rounds
  {
    if rounds > 0 && Ready(s.frontiers) {
      var t := Round(s);
      forall k | 0 <= k < Players
        ensures NoDup(t.frontiers[k])
      {
        ExpandKeepsNoDup(s.frontiers[k], t.explored);
      }
      RunKeepsNoDup(t, rounds - 1);
    }
  }

  /** The per-player queues and the explored list of PlayerClient2.py. */
  class Explorer {
    var frontiers: seq<seq<Pos>>
    var explored: seq<Pos>

    ghost predicate Valid()
      reads this
    {
      |frontiers| == Players
    }

    constructor ()
      ensures Valid() && explored == []
      ensures forall k :: 0 <= k < Players ==> frontiers[k] == []
    {
      frontiers := [[], [], [], []];
      explored := [];
    }

    /**
     * A game-state message of player `player` (1 .. 4) appends the reported
     * position to that player's frontier, unconditionally; a message of no
     * player (number 0) changes nothing.
     */
    method Seed(player: int, pos: Pos)
      requires Valid()
      modifies this
      ensures Valid() && explored == old(explored)
      ensures 1 <= player <= Players ==>
        frontiers == old(frontiers)[player - 1 := old(frontiers)[player - 1] + [pos]]
      ensures !(1 <= player <= Players) ==> frontiers == old(frontiers)
    {
      if 1 <= player <= Players {
        frontiers := frontiers[player - 1 := frontiers[player - 1] + [pos]];
      }
    }

    /** Append each of `ns`, in order, that is neither explored nor already queued for player `k`. */
    method Enqueue(k: nat, ns: seq<Pos>)
      requires Valid() && k < Players
      modifies this
      ensures Valid() && explored == old(explored)
      ensures frontiers == old(frontiers)[k := AppendAbsent(old(frontiers)[k], explored, ns)]
    {
      for i := 0 to |ns|
        invariant Valid() && explored == old(explored)
        invariant frontiers == old(frontiers)[k := AppendAbsent(old(frontiers)[k], explored, ns[..i])]
      {
        assert ns[..i + 1][..i] == ns[..i];
        var n := ns[i];
        if n !in explored && n !in frontiers[k] {
          frontiers := frontiers[k := frontiers[k] + [n]];
        }
      }
      assert ns[..|ns|] == ns;
    }

    /** `pop(0)` on every frontier: the oldest cell of each player, in player order. */
    method DequeueAll() returns (current: seq<Pos>)
      requires Valid()
      requires forall k :: 0 <= k < Players ==> frontiers[k] != []
      modifies this
      ensures Valid() && explored == old(explored)
      ensures current == Heads(old(frontiers))
      ensures forall k :: 0 <= k < Players ==> frontiers[k] == old(frontiers)[k][1..]
    {
      current := [];
      for k := 0 to Players
        invariant Valid() && explored == old(explored)
        invariant |current| == k
        invariant forall j :: 0 <= j < k ==> current[j] == old(frontiers)[j][0] && frontiers[j] == old(frontiers)[j][1..]
        invariant forall j :: k <= j < Players ==> frontiers[j] == old(frontiers)[j]
      {
        current := current + [frontiers[k][0]];
        frontiers := frontiers[k := frontiers[k][1..]];
      }
    }

    /** Every player, in order, enqueues the unseen neighbours of its dequeued cell. */
    method EnqueueAll(current: seq<Pos>)
      requires Valid() && |current| == Players
      modifies this
      ensures Valid() && explored == old(explored)
      ensures forall k :: 0 <= k < Players ==>
        frontiers[k] == AppendAbsent(old(frontiers)[k], explored, Neighbours(current[k]))
    {
      for k := 0 to Players
        invariant Valid() && explored == old(explored)
        invariant forall j :: 0 <= j < k ==>
          frontiers[j] == AppendAbsent(old(frontiers)[j], explored, Neighbours(current[j]))
        invariant forall j :: k <= j < Players ==> frontiers[j] == old(frontiers)[j]
      {
        Enqueue(k, Neighbours(current[k]));
      }
    }

    /**
     * One pass of the main loop. It runs only while every frontier is
     * non-empty; then every player dequeues its oldest cell, the four cells
     * are appended to the shared explored list, each player enqueues its
     * unseen neighbours, and the move is derived from the displacement
     * between the previous and the current cell, which are the same cell.
     */
    method Step() returns (advanced: bool, moves: seq<Option<Dir>>)
      requires Valid()
      modifies this
      ensures Valid()
      ensures advanced <==> forall k :: 0 <= k < Players ==> old(frontiers)[k] != []
      ensures !advanced ==> frontiers == old(frontiers) && explored == old(explored) && moves == []
      ensures advanced ==> explored == old(explored) + Heads(old(frontiers))
      ensures advanced ==> forall k :: 0 <= k < Players ==> frontiers[k] == Expand(old(frontiers)[k], explored)
      ensures advanced ==> moves == [None, None, None, None]
      ensures advanced ==> Search(frontiers, explored) == Round(Search(old(frontiers), old(explored)))
    {
      advanced := frontiers[0] != [] && frontiers[1] != [] && frontiers[2] != [] && frontiers[3] != [];
      if !advanced {
        moves := [];
        return;
      }
      ghost var start := Search(frontiers, explored);
      var current := DequeueAll();
      var prev := current;
      explored := explored + current;
      EnqueueAll(current);
      moves := [];
      for k := 0 to Players
        invariant |moves| == k && forall j :: 0 <= j < k ==> moves[j] == MoveBetween(prev[j], current[j])
      {
        moves := moves + [MoveBetween(prev[k], current[k])];
      }
      forall j | 0 <= j < Players
        ensures moves[j] == None
      {
        NoMoveForZeroDisplacement(current[j]);
      }
      RoundIs(start, Search(frontiers, explored));
    }

    /**
     * The main loop, bounded by `rounds`: it ends in the state `Run` gives,
     * which stops early exactly when some player's frontier is empty and so
     * halts all four players together.
     */
    method Explore(rounds: nat) returns (done: nat)
      requires Valid()
      modifies this
      ensures Valid()
      ensures (Search(frontiers, explored), done) == Run(Search(old(frontiers), old(explored)), rounds)
      ensures done < rounds ==> exists k :: 0 <= k < Players && frontiers[k] == []
      ensures |explored| == |old(explored)| + Players * done
      ensures explored[..|old(explored)|] == old(explored)
    {
      ghost var goal := Run(Search(frontiers, explored), rounds);
      done := 0;
      var advanced, moves := true, [];
      while advanced && done < rounds
        invariant Valid() && done <= rounds
        invariant Run(Search(frontiers, explored), rounds - done).0 == goal.0
        invariant Run(Search(frontiers, explored), rounds - done).1 + done == goal.1
        invariant !advanced ==> !Ready(frontiers)
        decreases rounds - done, advanced
      {
        ghost var before := Search(frontiers, explored);
        advanced, moves := Step();
        if advanced {
          RunUnfold(before, Search(frontiers, explored), rounds - done);
          done := done + 1;
        }
      }
      RunStops(Search(frontiers, explored), rounds - done);
      RunExploredGrows(Search(old(frontiers), old(explored)), rounds);
    }
  }
}

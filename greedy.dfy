/**
 * The greedy coin policy of mat_test.py: walk one cell toward the nearest
 * visible coin, x axis first, with fixed fallback scans around walls, and
 * encode the step in the row/column convention of module Grid. Distances are
 * squared integer distances; the source takes their square root, which does
 * not change which coin is nearest (see MonotoneMeasureSameCoin).
 */
module Greedy {
  import opened Grid

  /** A decoded game-state message: own position, the three coin lists, the visible walls. */
  datatype GameState = GameState(
    currentPosition: Pos,
    coin1: seq<Pos>,
    coin2: seq<Pos>,
    coin3: seq<Pos>,
    walls: seq<Pos>)

  /** The candidate coins: the three lists concatenated in order. */
  function AllCoins(s: GameState): seq<Pos> {
    s.coin1 + s.coin2 + s.coin3
  }

  /** The square of the Euclidean distance between two cells. */
  function SquaredDistance(p: Pos, q: Pos): (d: nat)
    ensures d == 0 <==> p == q
  {
    var dx, dy := p.x - q.x, p.y - q.y;
    assert dx * dx >= 0 && dy * dy >= 0;
    assert dx != 0 ==> dx * dx > 0;
    assert dy != 0 ==> dy * dy > 0;
    dx * dx + dy * dy
  }

  /** The nearest coin; on a tie the first one in list order. */
  function ClosestIndex(coins: seq<Pos>, p: Pos): (k: nat)
    requires coins != []
    ensures k < |coins|
    ensures forall j :: 0 <= j < |coins| ==> SquaredDistance(coins[k], p) <= SquaredDistance(coins[j], p)
    ensures forall j :: 0 <= j < k ==> SquaredDistance(coins[j], p) > SquaredDistance(coins[k], p)
    decreases |coins|
  {
    if |coins| == 1 then 0
    else
      var k := ClosestIndex(coins[..|coins| - 1], p);
      if SquaredDistance(coins[|coins| - 1], p) < SquaredDistance(coins[k], p) then |coins| - 1 else k
  }

  /**
   * The nearest coin when distances are measured by `g` applied to the
   * squared distance; the source's `euclidean_distance` is the square root,
   * a strictly increasing `g`.
   */
  function ClosestIndexBy(coins: seq<Pos>, p: Pos, g: nat -> real): (k: nat)
    requires coins != []
    ensures k < |coins|
    ensures forall j :: 0 <= j < |coins| ==> g(SquaredDistance(coins[k], p)) <= g(SquaredDistance(coins[j], p))
    ensures forall j :: 0 <= j < k ==> g(SquaredDistance(coins[j], p)) > g(SquaredDistance(coins[k], p))
    decreases |coins|
  {
    if |coins| == 1 then 0
    else
      var k := ClosestIndexBy(coins[..|coins| - 1], p, g);
      if g(SquaredDistance(coins[|coins| - 1], p)) < g(SquaredDistance(coins[k], p)) then |coins| - 1 else k
  }

  /** Any strictly increasing measure, the square root included, picks the same coin as the squared distance. */
  lemma {:induction false} MonotoneMeasureSameCoin(coins: seq<Pos>, p: Pos, g: nat -> real)
    requires coins != []
    requires forall a: nat, b: nat :: a < b ==> g(a) < g(b)
    ensures ClosestIndexBy(coins, p, g) == ClosestIndex(coins, p)
    decreases |coins|
  {
    if |coins| > 1 {
      var front := coins[..|coins| - 1];
      MonotoneMeasureSameCoin(front, p, g);
      var k := ClosestIndex(front, p);
      var dl, dk := SquaredDistance(coins[|coins| - 1], p), SquaredDistance(front[k], p);
      assert g(dl) < g(dk) <==> dl < dk by {
        if dk < dl { assert g(dk) < g(dl); }
      }
    }
  }

  /** Being a first minimum pins the index down. */
  lemma FirstMinimumUnique(coins: seq<Pos>, p: Pos, i: nat, k: nat)
    requires i < |coins| && k < |coins|
    requires forall j :: 0 <= j < |coins| ==> SquaredDistance(coins[i], p) <= SquaredDistance(coins[j], p)
    requires forall j :: 0 <= j < i ==> SquaredDistance(coins[j], p) > SquaredDistance(coins[i], p)
    requires forall j :: 0 <= j < |coins| ==> SquaredDistance(coins[k], p) <= SquaredDistance(coins[j], p)
    requires forall j :: 0 <= j < k ==> SquaredDistance(coins[j], p) > SquaredDistance(coins[k], p)
    ensures i == k
  {
    var di, dk := SquaredDistance(coins[i], p), SquaredDistance(coins[k], p);
    assert di <= dk && dk <= di;
  }

  /**
   * The distance list, its minimum, and the index of the first occurrence of
   * that minimum, as the source computes them.
   */
  method ClosestCoin(coins: seq<Pos>, p: Pos) returns (k: nat)
    requires coins != []
    ensures k < |coins|
    ensures forall j :: 0 <= j < |coins| ==> SquaredDistance(coins[k], p) <= SquaredDistance(coins[j], p)
    ensures forall j :: 0 <= j < k ==> SquaredDistance(coins[j], p) > SquaredDistance(coins[k], p)
    ensures k == ClosestIndex(coins, p)
  {
    var distances: seq<nat> := [];
    for i := 0 to |coins|
      invariant |distances| == i
      invariant forall j :: 0 <= j < i ==> distances[j] == SquaredDistance(coins[j], p)
    {
      distances := distances + [SquaredDistance(coins[i], p)];
    }
    var m := distances[0];
    ghost var at := 0;
    for i := 1 to |distances|
      invariant at < i && distances[at] == m
      invariant forall j :: 0 <= j < i ==> m <= distances[j]
    {
      if distances[i] < m {
        m, at := distances[i], i;
      }
    }
    k := 0;
    while distances[k] != m
      invariant k <= at
      invariant forall j :: 0 <= j < k ==> distances[j] != m
      decreases at - k
    {
      k := k + 1;
    }
    FirstMinimumUnique(coins, p, k, ClosestIndex(coins, p));
  }

  /**
   * The step toward a coin: along x while the x coordinates differ, then
   * along y; a coin on the player's own cell still gives LEFT.
   */
  function TowardDir(pos: Pos, coin: Pos): Dir {
    if coin.x > pos.x then Down
    else if coin.x < pos.x then Up
    else if coin.y > pos.y then Right
    else Left
  }

  /** The step moves along x first and brings any other cell strictly closer. */
  lemma TowardApproaches(pos: Pos, coin: Pos)
    ensures coin.x != pos.x ==> TowardDir(pos, coin) in {Up, Down}
    ensures coin != pos ==> SquaredDistance(Neighbour(pos, TowardDir(pos, coin)), coin) < SquaredDistance(pos, coin)
    ensures coin == pos ==> TowardDir(pos, coin) == Left
  {
    var q := Neighbour(pos, TowardDir(pos, coin));
    var dx, dy := pos.x - coin.x, pos.y - coin.y;
    if coin.x != pos.x {
      var ex := q.x - coin.x;
      assert q.y == pos.y;
      assert ex * ex < dx * dx by {
        if dx > 0 { assert ex == dx - 1; } else { assert ex == dx + 1; }
      }
    } else if coin.y != pos.y {
      var ey := q.y - coin.y;
      assert q.x == pos.x;
      assert ey * ey < dy * dy by {
        if dy > 0 { assert ey == dy - 1; } else { assert ey == dy + 1; }
      }
    }
  }

  /** Scan order with no coin in view: (0,1), (1,0), (0,-1), (-1,0). */
  const DefaultScan: seq<Dir> := [Right, Down, Left, Up]

  /** Scan order when the step toward the coin is a wall: [-1,0], [1,0], [0,-1], [0,1]. */
  const WallScan: seq<Dir> := [Up, Down, Left, Right]

  /** Index of the first direction in `order` whose cell is not a wall; |order| if none. */
  function FirstOpen(pos: Pos, order: seq<Dir>, walls: seq<Pos>): (k: nat)
    ensures k <= |order|
    ensures forall j :: 0 <= j < k ==> Neighbour(pos, order[j]) in walls
    ensures k < |order| ==> Neighbour(pos, order[k]) !in walls
    decreases |order|
  {
    if order == [] then 0
    else if Neighbour(pos, order[0]) !in walls then 0
    else 1 + FirstOpen(pos, order[1..], walls)
  }

  /** The result of a scan: the first open cell, or `fallback` when all are walls. */
  function ScanResult(pos: Pos, order: seq<Dir>, walls: seq<Pos>, fallback: Pos): Pos {
    var k := FirstOpen(pos, order, walls);
    if k < |order| then Neighbour(pos, order[k]) else fallback
  }

  /** A scan loop of the source: try each direction in order and stop at the first non-wall. */
  method Scan(pos: Pos, order: seq<Dir>, walls: seq<Pos>, fallback: Pos) returns (next: Pos)
    ensures next == ScanResult(pos, order, walls, fallback)
  {
    next := fallback;
    var i := 0;
    while i < |order|
      invariant 0 <= i <= |order|
      invariant forall j :: 0 <= j < i ==> Neighbour(pos, order[j]) in walls
      invariant next == fallback
    {
      var temp := Neighbour(pos, order[i]);
      if temp !in walls {
        next := temp;
        break;
      }
      i := i + 1;
    }
  }

  /** The cell the policy heads for (next_position in the source). */
  function NextPosition(pos: Pos, coins: seq<Pos>, walls: seq<Pos>): Pos {
    if coins == [] then ScanResult(pos, DefaultScan, walls, pos)
    else
      var step := Neighbour(pos, TowardDir(pos, coins[ClosestIndex(coins, pos)]));
      if step in walls then ScanResult(pos, WallScan, walls, step) else step
  }

  /**
   * The published move for a change of cell: x grew is DOWN, x shrank is UP,
   * y grew is RIGHT, anything else (no change included) is LEFT.
   */
  function EncodeStep(from: Pos, to: Pos): (d: Dir)
    ensures forall e :: to == Neighbour(from, e) ==> d == e
    ensures to == from ==> d == Left
  {
    if to.x > from.x then Down
    else if to.x < from.x then Up
    else if to.y > from.y then Right
    else Left
  }

  /** The move determine_next_move returns for a game state. */
  function NextMove(s: GameState): Dir {
    EncodeStep(s.currentPosition, NextPosition(s.currentPosition, AllCoins(s), s.walls))
  }

  /** determine_next_move: copies of the position, a distance loop and the scan loops. */
  method DetermineNextMove(s: GameState) returns (move: Dir)
    ensures move == NextMove(s)
  {
    var pos := s.currentPosition;
    var coins := s.coin1 + s.coin2 + s.coin3;
    var next := pos;
    if coins == [] {
      next := Scan(pos, DefaultScan, s.walls, pos);
    } else {
      var k := ClosestCoin(coins, pos);
      next := Neighbour(pos, TowardDir(pos, coins[k]));
      if next in s.walls {
        next := Scan(pos, WallScan, s.walls, next);
      }
    }
    move := EncodeStep(pos, next);
  }

  /** The chosen cell is the own cell or one of its four neighbours; no bounds are checked. */
  lemma NextPositionAdjacent(pos: Pos, coins: seq<Pos>, walls: seq<Pos>)
    ensures var next := NextPosition(pos, coins, walls);
      next == pos || exists d :: next == Neighbour(pos, d)
  {
  }

  /** The player stays put exactly when no coin is visible and all four neighbours are walls. */
  lemma NextPositionStays(pos: Pos, coins: seq<Pos>, walls: seq<Pos>)
    ensures NextPosition(pos, coins, walls) == pos <==>
      coins == [] && forall d :: Neighbour(pos, d) in walls
  {
    var next := NextPosition(pos, coins, walls);
    if coins == [] {
      var k := FirstOpen(pos, DefaultScan, walls);
      if forall d :: Neighbour(pos, d) in walls {
        assert k == 4;
      } else {
        var d :| Neighbour(pos, d) !in walls;
        assert d == DefaultScan[0] || d == DefaultScan[1] || d == DefaultScan[2] || d == DefaultScan[3];
        assert k < 4;
      }
    }
  }

  /**
   * The chosen cell is a wall only when a coin is visible, the step toward
   * it is walled, and so are all four neighbours: the move then goes into
   * the wall.
   */
  lemma NextPositionInWall(pos: Pos, coins: seq<Pos>, walls: seq<Pos>)
    requires pos !in walls
    ensures NextPosition(pos, coins, walls) in walls <==>
      coins != [] && forall d :: Neighbour(pos, d) in walls
  {
    var next := NextPosition(pos, coins, walls);
    if coins == [] {
      NextPositionStays(pos, coins, walls);
    } else {
      var k := FirstOpen(pos, WallScan, walls);
      if forall d :: Neighbour(pos, d) in walls {
        assert k == 4;
      } else {
        var d :| Neighbour(pos, d) !in walls;
        assert d == WallScan[0] || d == WallScan[1] || d == WallScan[2] || d == WallScan[3];
        assert k < 4;
      }
    }
  }

  /** With a coin in view and the step toward the nearest coin open, the player gets closer to it. */
  lemma NextPositionApproaches(pos: Pos, coins: seq<Pos>, walls: seq<Pos>)
    requires coins != []
    requires var c := coins[ClosestIndex(coins, pos)];
      c != pos && Neighbour(pos, TowardDir(pos, c)) !in walls
    ensures var c := coins[ClosestIndex(coins, pos)];
      SquaredDistance(NextPosition(pos, coins, walls), c) < SquaredDistance(pos, c)
  {
    TowardApproaches(pos, coins[ClosestIndex(coins, pos)]);
  }

  /** The published move names the step taken; staying put is published as LEFT. */
  lemma NextMoveNamesStep(s: GameState)
    ensures var pos := s.currentPosition;
      var next := NextPosition(pos, AllCoins(s), s.walls);
      (next == pos ==> NextMove(s) == Left) && (next != pos ==> Neighbour(pos, NextMove(s)) == next)
  {
    NextPositionAdjacent(s.currentPosition, AllCoins(s), s.walls);
  }

  /** Player at (2,5), one coin at (5,5), no walls: the move increases x, which is DOWN. */
  lemma CoinBelowGivesDown()
    ensures NextMove(GameState(Pos(2, 5), [Pos(5, 5)], [], [], [])) == Down
  {
  }

  /** Player at (0,0), wall at (1,0), coin at (0,5): the move increases y, which is RIGHT. */
  lemma CoinToTheRightGivesRight()
    ensures NextMove(GameState(Pos(0, 0), [], [Pos(0, 5)], [], [Pos(1, 0)])) == Right
  {
  }

  /** No coins and all four neighbours walls: the source publishes LEFT, into the wall. */
  lemma BoxedInGivesLeft(pos: Pos, walls: seq<Pos>)
    requires forall d :: Neighbour(pos, d) in walls
    ensures NextMove(GameState(pos, [], [], [], walls)) == Left
    ensures Neighbour(pos, NextMove(GameState(pos, [], [], [], walls))) in walls
  {
    NextPositionStays(pos, [], walls);
  }

  /** The last segment of a '/'-separated string, as `s.split("/")[-1]` gives it. */
  function LastSegment(s: string): string
    decreases |s|
  {
    if s == [] || s[|s| - 1] == '/' then [] else LastSegment(s[..|s| - 1]) + [s[|s| - 1]]
  }

  /**
   * The last segment is the longest suffix free of '/': it has no '/', and
   * the character before it, if any, is a '/'.
   */
  lemma {:induction false} LastSegmentSpec(s: string)
    ensures var r := LastSegment(s);
      '/' !in r && |r| <= |s| && r == s[|s| - |r|..] && (|r| < |s| ==> s[|s| - |r| - 1] == '/')
    decreases |s|
  {
    if s != [] && s[|s| - 1] != '/' {
      var front, c := s[..|s| - 1], s[|s| - 1];
      LastSegmentSpec(front);
      var r := LastSegment(front);
      var out := r + [c];
      assert LastSegment(s) == out;
      assert r == front[|front| - |r|..];
      assert out == s[|s| - |r| - 1..];
      assert '/' !in out by {
        assert forall x :: x in out ==> x in r || x == c;
      }
      assert |out| < |s| ==> s[|s| - |out| - 1] == front[|front| - |r| - 1];
    }
  }

  /** The suffix that marks a game-state topic. */
  const StateSuffix: string := "/game_state"

  predicate IsStateTopic(topic: string) {
    |topic| >= |StateSuffix| && topic[|topic| - |StateSuffix|..] == StateSuffix
  }

  /** `topic.split("/")[-2]` for a topic that ends in "/game_state". */
  function PlayerName(topic: string): string
    requires IsStateTopic(topic)
  {
    LastSegment(topic[..|topic| - |StateSuffix|])
  }

  /** The segment after the last '/' is recovered exactly. */
  lemma {:induction false} LastSegmentAfterSlash(prefix: string, name: string)
    requires '/' !in name
    ensures LastSegment(prefix + "/" + name) == name
    decreases |name|
  {
    var s := prefix + "/" + name;
    if name == [] {
      assert s[|s| - 1] == '/';
    } else {
      var front := name[..|name| - 1];
      assert s[..|s| - 1] == prefix + "/" + front;
      assert '/' !in front by {
        assert forall c :: c in front ==> c in name;
      }
      LastSegmentAfterSlash(prefix, front);
      assert s[|s| - 1] == name[|name| - 1];
      assert front + [name[|name| - 1]] == name;
    }
  }

  /** A topic `<path>/<name>/game_state` names the player `<name>`. */
  lemma PlayerNameOfTopic(path: string, name: string)
    requires '/' !in name
    ensures IsStateTopic(path + "/" + name + StateSuffix)
    ensures PlayerName(path + "/" + name + StateSuffix) == name
  {
    var topic := path + "/" + name + StateSuffix;
    assert topic[..|topic| - |StateSuffix|] == path + "/" + name;
    assert topic[|topic| - |StateSuffix|..] == StateSuffix;
    LastSegmentAfterSlash(path, name);
  }

  /** The dictionary of last-reported player positions kept by on_message. */
  class PositionBook {
    var positions: map<string, Pos>

    constructor ()
      ensures positions == map[]
    {
      positions := map[];
    }

    /**
     * on_message: a game-state topic records the player's position under the
     * name taken from the topic and yields the move for that player; any
     * other topic changes nothing and yields no move.
     */
    method OnMessage(topic: string, s: GameState) returns (move: Option<Dir>)
      modifies this
      ensures IsStateTopic(topic) ==>
        positions == old(positions)[PlayerName(topic) := s.currentPosition] && move == Some(NextMove(s))
      ensures !IsStateTopic(topic) ==> positions == old(positions) && move == None
    {
      if |topic| >= |StateSuffix| && topic[|topic| - |StateSuffix|..] == StateSuffix {
        var name := LastSegment(topic[..|topic| - |StateSuffix|]);
        positions := positions[name := s.currentPosition];
        var m := DetermineNextMove(s);
        move := Some(m);
      } else {
        move := None;
      }
    }
  }
}

/**
 * The playing field shared by the three bots: integer cells on a 10x10 grid,
 * the four move commands and their wire names, and the row/column neighbour
 * convention used by the greedy coin policy and the move arbiter
 * (UP decreases x, DOWN increases x, RIGHT increases y, LEFT decreases y).
 */
module Grid {

  /** A cell; the source keeps it as a two-element list [x, y]. */
  datatype Pos = Pos(x: int, y: int)

  /** A value that may be missing. */
  datatype Option<T> = None | Some(value: T)

  /** The four move commands a bot publishes. */
  datatype Dir = Up | Down | Left | Right

  /** Player1 .. Player4 are indices 0 .. 3. */
  const Players: nat := 4

  /** Cells are numbered 0 .. Size - 1 on both axes. */
  const Size: int := 10

  /** The literal string published on the move topic. */
  function Name(d: Dir): (s: string)
    ensures s in ["UP", "DOWN", "LEFT", "RIGHT"]
  {
    match d
    case Up => "UP"
    case Down => "DOWN"
    case Left => "LEFT"
    case Right => "RIGHT"
  }

  /** Distinct moves are published as distinct strings. */
  lemma NameInjective(d: Dir, e: Dir)
    ensures Name(d) == Name(e) ==> d == e
  {
  }

  /** The cell one move away in the row/column convention. */
  function Neighbour(p: Pos, d: Dir): (q: Pos)
    ensures (q.x - p.x) * (q.x - p.x) + (q.y - p.y) * (q.y - p.y) == 1
  {
    match d
    case Up => Pos(p.x - 1, p.y)
    case Down => Pos(p.x + 1, p.y)
    case Right => Pos(p.x, p.y + 1)
    case Left => Pos(p.x, p.y - 1)
  }

  /** Different moves from one cell reach different cells. */
  lemma NeighbourInjective(p: Pos, d: Dir, e: Dir)
    ensures Neighbour(p, d) == Neighbour(p, e) ==> d == e
  {
  }

  /** Both coordinates lie in 0..9. */
  predicate InRange(p: Pos) {
    0 <= p.x <= Size - 1 && 0 <= p.y <= Size - 1
  }
}

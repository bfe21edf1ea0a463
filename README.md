# Coin-collection bot decision logic, in Dafny

This project models the decision logic of a bot that plays a coin-collection
game on a 10x10 grid. Four players each publish one move per round: `UP`,
`DOWN`, `LEFT` or `RIGHT`. Three scripts each hold one algorithm, and each has
its own module:

- `explorer.dfy`, module `Explorer` (PlayerClient2.py). This is a frontier
  explorer: one breadth-first queue per player and one `explored` list shared
  by all four. Each round, every player dequeues its oldest cell. The four
  cells are appended to `explored`, and each player enqueues the neighbours of
  its cell that are unseen. The class `Explorer` holds the queues as
  `seq<seq<Pos>>` fields. The script writes each pass out as four
  copy-pasted per-player blocks (PlayerClient2.py:165-204). The methods fold
  those blocks into loops over the player index. The per-neighbour loop is
  kept as the script has it. The function `Run` specifies the whole loop on
  values.
- `greedy.dfy`, module `Greedy` (mat_test.py). This is the greedy coin
  policy. It picks the nearest visible coin, taking the first one on a tie.
  It steps toward that coin along the x axis first and falls back to fixed
  scans around walls. The methods `ClosestCoin`, `Scan` and `DetermineNextMove`
  keep the script's loops. The functions `ClosestIndex`, `FirstOpen` and
  `NextPosition` are their specifications. The class `PositionBook` is the
  `player_positions` dictionary that `on_message` updates.
- `arbiter.dfy`, module `Arbiter` (PlayerClient4.py). This is the wall store
  and the move arbiter. The class `Tracker` holds the deduplicated wall list
  and each player's position history. `ChooseMove` is one function standing
  for the four copy-pasted selection blocks. Its inputs are the player's own
  cell, the walls, the other players' latest cells, and a flag that turns
  the occupancy check on.
- `dedupe.dfy`, module `Dedupe`. This holds the "append if absent" loop that
  the frontier and the wall store share, with its no-duplicate lemmas.
- `grid.dfy`, module `Grid`. This holds cells, moves, their wire names, range
  checks, and the row/column neighbour convention. In that convention `UP` is
  x-1, `DOWN` is x+1, `RIGHT` is y+1 and `LEFT` is y-1.

The two axis conventions are kept as the scripts have them. The explorer
takes `UP` as y+1 and `RIGHT` as x+1 (`Explorer.Shift`). The greedy policy
and the arbiter use the row/column convention (`Grid.Neighbour`).
`Explorer.AxisConventionsDisagree` shows that the two conventions never agree
on a move's cell.

In these cases the bots neither stay put nor keep to the grid:

- With no coin in view and all four neighbours walls, the greedy policy
  keeps its position and publishes `LEFT`, into a wall
  (`Greedy.BoxedInGivesLeft`). With a coin in view and all four neighbours
  walls, the scan finds nothing open. The next position stays the walled
  step toward the coin, so the bot moves into that wall
  (`Greedy.NextPositionInWall`).
- When no move passes its checks, the arbiter publishes `LEFT` unchecked
  (`Arbiter.BoxedInGoesLeft`, `Arbiter.LeftFallbackLeavesGrid`).
- The explorer enqueues cells off the grid (`Explorer.ExpandLeavesGrid`).
- The explorer never produces a move (`Explorer.NoMoveForZeroDisplacement`).
- The explorer's `explored` list is shared by all players and checked only
  for newly added cells. So a frontier can keep a cell that another player
  has already explored (`Explorer.FrontierMayHoldExploredCell`).

## Model

| member | source | states |
|---|---|---|
| `Grid.Name` | mat_test.py:142-149 | every move is published as one of the four literal strings |
| `Grid.NameInjective` | PlayerClient4.py:430-470 | distinct moves have distinct wire names |
| `Grid.Neighbour` | PlayerClient4.py:173-187 | UP=(x-1,y), DOWN=(x+1,y), RIGHT=(x,y+1), LEFT=(x,y-1); each is at unit distance |
| `Grid.NeighbourInjective` | PlayerClient4.py:173-241 | the four moves from one cell reach four different cells |
| `Dedupe.AppendAbsent` | PlayerClient2.py:190-192 | the old list stays a prefix; every appended item is a candidate that is not blocked; every unblocked candidate ends up in the list |
| `Dedupe.AppendAbsentNoDup` | PlayerClient4.py:87-92 | appending only absent items keeps a duplicate-free list duplicate-free |
| `Dedupe.AppendAbsentMembers` | PlayerClient4.py:87-92 | the items afterwards are exactly the old items plus the unblocked candidates |
| `Dedupe.NewItems` | PlayerClient2.py:190-204 | the filtered candidates are unblocked, not already present, and taken from the candidates |
| `Dedupe.AppendAbsentIsFilter` | PlayerClient2.py:190-204 | for distinct candidates, the loop appends exactly the filtered candidates after the old list, in candidate order |
| `Explorer.MoveBetween` | PlayerClient2.py:217-224 | a move is assigned exactly when the displacement is one of the four offsets, and it is the move for that offset |
| `Explorer.NoMoveForZeroDisplacement` | PlayerClient2.py:170-173 | the previous cell equals the just-dequeued cell, so no move is assigned |
| `Explorer.AxisConventionsDisagree` | PlayerClient2.py:154-155 | this script's move offsets differ, move by move, from the row/column convention |
| `Explorer.Neighbours` | PlayerClient2.py:183-186 | four distinct neighbours, in offset order (0,1), (1,0), (0,-1), (-1,0), matching UP, RIGHT, DOWN, LEFT |
| `Explorer.ExpandIsFifo` | PlayerClient2.py:165-192 | the rest of the queue keeps its order at the front; the added cells follow in offset order and are neither explored nor already queued |
| `Explorer.ExpandKeepsNoDup` | PlayerClient2.py:190-204 | a round never adds a duplicate to a duplicate-free frontier |
| `Explorer.ExpandDropsCurrent` | PlayerClient2.py:175-192 | the dequeued cell, once explored, is neither kept nor re-enqueued |
| `Explorer.ExpandCoversNeighbours` | PlayerClient2.py:183-192 | each neighbour is either explored or in the new frontier |
| `Explorer.ExpandLeavesGrid` | PlayerClient2.py:191 | with no bounds filter, the corner cell enqueues (0,-1) and (-1,0) |
| `Explorer.FrontierMayHoldExploredCell` | PlayerClient2.py:175-204 | the shared explored list blocks only new additions, so a cell another player explored can stay queued |
| `Explorer.Round` | PlayerClient2.py:165-204 | one pass on values keeps four frontiers; its contents are carried by `Explorer.Heads` (each explored head is `fs[k][0]`) and the `Expand` lemmas (`Explorer.ExpandIsFifo`, `Explorer.ExpandKeepsNoDup`) |
| `Explorer.Run` | PlayerClient2.py:153-204 | at most `rounds` passes; fewer only when some frontier is empty at the guard |
| `Explorer.RunExploredGrows` | PlayerClient2.py:175-178 | every pass adds exactly four cells to the explored list, and what it held stays as a prefix |
| `Explorer.RunKeepsNoDup` | PlayerClient2.py:190-204 | frontiers free of duplicates stay free of them however many passes run |
| `Explorer.Explorer.constructor` | PlayerClient2.py:19-24 | empty frontiers and an empty explored list |
| `Explorer.Explorer.Seed` | PlayerClient2.py:75-92 | a message from player n (1..4) appends its position to frontier n, unchecked; any other number changes nothing |
| `Explorer.Explorer.Enqueue` | PlayerClient2.py:190-192 | the frontier becomes `AppendAbsent(frontier, explored, neighbours)`; explored is unchanged |
| `Explorer.Explorer.EnqueueAll` | PlayerClient2.py:190-204 | each player's frontier becomes `AppendAbsent(frontier, explored, its neighbours)`; explored is unchanged |
| `Explorer.Explorer.DequeueAll` | PlayerClient2.py:165-168 | each frontier loses exactly its oldest cell; those cells are returned in player order |
| `Explorer.Explorer.Step` | PlayerClient2.py:153-251 | the round runs iff all four frontiers are non-empty; explored gains the four heads; each frontier is expanded; the new state is `Round` of the old; no move is produced |
| `Explorer.Explorer.Explore` | PlayerClient2.py:153-204 | the final frontiers, explored list and pass count are those of `Run` on the initial state; it stops early only when some frontier is empty; explored grows by four cells per pass and keeps its old contents as a prefix |
| `Greedy.SquaredDistance` | mat_test.py:83-86 | the distance is zero exactly for the same cell |
| `Greedy.ClosestIndex` | mat_test.py:116-118 | the chosen coin is at minimum distance, and every earlier coin is strictly farther |
| `Greedy.ClosestIndexBy` | mat_test.py:96-118 | under a given distance measure, the chosen coin is at minimum measured distance and every earlier coin is strictly farther |
| `Greedy.MonotoneMeasureSameCoin` | mat_test.py:83-118 | any strictly increasing measure, the Euclidean root included, picks the same coin as the squared distance |
| `Greedy.FirstMinimumUnique` | mat_test.py:116-117 | at most one index is a first minimum |
| `Greedy.ClosestCoin` | mat_test.py:96-118 | the distance loop, `min` and `index` yield the first minimum, which is `ClosestIndex` |
| `Greedy.TowardApproaches` | mat_test.py:121-128 | the step goes along x whenever x differs; it brings the player strictly closer to any coin not on its own cell; a coin on its own cell gives LEFT |
| `Greedy.FirstOpen` | mat_test.py:107-113 | the index is the first direction whose cell is not a wall, or the length of the list when every cell is a wall |
| `Greedy.Scan` | mat_test.py:131-139 | the scan loop with break returns the first open neighbour, else the fallback cell |
| `Greedy.EncodeStep` | mat_test.py:142-149 | each move's neighbour encodes back to that move; no change encodes as LEFT |
| `Greedy.DetermineNextMove` | mat_test.py:89-149 | the returned move is `EncodeStep` of the specified next position |
| `Greedy.NextPositionAdjacent` | mat_test.py:103-139 | the next position is the player's own cell or one of its four neighbours; there is no bounds check |
| `Greedy.NextPositionStays` | mat_test.py:105-113 | the position stays exactly when no coin is visible and all four neighbours are walls |
| `Greedy.NextPositionInWall` | mat_test.py:130-139 | for a player not standing on a wall, the next position is a wall exactly when a coin is visible and all four neighbours are walls |
| `Greedy.NextPositionApproaches` | mat_test.py:118-131 | an open step toward the nearest coin reduces the distance to it |
| `Greedy.NextMoveNamesStep` | mat_test.py:142-149 | the published move is the step taken, and no step is published as LEFT |
| `Greedy.CoinBelowGivesDown` | mat_test.py:121-143 | from (2,5), with a coin at (5,5) and no walls, the move is DOWN |
| `Greedy.CoinToTheRightGivesRight` | mat_test.py:125-147 | from (0,0), with a wall at (1,0) and a coin at (0,5), the move is RIGHT |
| `Greedy.BoxedInGivesLeft` | mat_test.py:105-149 | with no coins and walls all around, the move is LEFT, into a wall |
| `Greedy.LastSegmentSpec` | mat_test.py:67 | the last segment is a suffix with no '/' in it, and the character before it, if any, is '/', as `split("/")[-1]` gives it |
| `Greedy.LastSegmentAfterSlash` | mat_test.py:67 | a segment with no '/' after a '/' is recovered exactly |
| `Greedy.PlayerNameOfTopic` | mat_test.py:66-67 | `<path>/<name>/game_state` is a game-state topic naming `<name>` |
| `Greedy.PositionBook.constructor` | mat_test.py:12 | the dictionary starts empty |
| `Greedy.PositionBook.OnMessage` | mat_test.py:61-78 | a game-state topic updates only that player's key and yields its move; other topics change nothing |
| `Arbiter.ContainsInfix` | PlayerClient4.py:70-80 | a topic containing the player tag passes the substring test |
| `Arbiter.ContainsIffOccurs` | PlayerClient4.py:70-80 | the substring test holds exactly when the tag occurs at some offset of the topic, as Python's `in` |
| `Arbiter.ChooseMove` | PlayerClient4.py:430-470 | a non-LEFT move passes every check; LEFT is chosen iff UP, DOWN and RIGHT all fail; every move earlier in the order fails |
| `Arbiter.ChosenCellIsSafe` | PlayerClient4.py:249-273 | a non-LEFT target is in 0..9 on both axes and is not a wall; with the check on, it is no other player's cell |
| `Arbiter.UncheckedIgnoresOthers` | PlayerClient4.py:452-470 | without the occupancy check, the other players' positions do not affect the move |
| `Arbiter.Others` | PlayerClient4.py:344-392 | the list has one entry fewer than the players; it holds every other player's latest cell and nothing else |
| `Arbiter.RoundMoves` | PlayerClient4.py:430-470 | one move per player; each non-LEFT move passes that player's checks (occupancy only for Player1 and Player2), and every move earlier in the order fails them |
| `Arbiter.CheckedPlayersAvoidOthers` | PlayerClient4.py:344-448 | a non-LEFT move of Player1 or Player2 never targets another player's latest cell |
| `Arbiter.UncheckedPlayersMayCollide` | PlayerClient4.py:396-459 | Player3 can move onto Player1's cell; its collision flags are never read |
| `Arbiter.LeftFallbackLeavesGrid` | PlayerClient4.py:430-437 | the unchecked LEFT can leave the grid |
| `Arbiter.LeftFallbackMayCollide` | PlayerClient4.py:436-448 | the unchecked LEFT can enter another player's cell |
| `Arbiter.BoxedInGoesLeft` | PlayerClient4.py:430-437 | with walls on all four sides, the move is LEFT, into a wall |
| `Arbiter.SameRoundRace` | PlayerClient4.py:166-448 | Player1 (RIGHT) and Player2 (UP) both pass every check and target the same free cell in one round, because checks use last-known positions |
| `Arbiter.Latest` | PlayerClient4.py:166-169 | each player's current position is the last entry of its history |
| `Arbiter.Decide` | PlayerClient4.py:166-470 | there is no decision iff some history is empty; otherwise every non-LEFT move passes that player's checks and every move earlier in the order UP, DOWN, RIGHT, LEFT fails them |
| `Arbiter.Tracker.constructor` | PlayerClient4.py:9-16 | empty wall list and empty histories |
| `Arbiter.Tracker.AddWalls` | PlayerClient4.py:87-92 | walls become `AppendAbsent(walls, [], incoming)` and stay duplicate-free; histories are unchanged |
| `Arbiter.Tracker.OnMessage` | PlayerClient4.py:70-92 | the position is appended to every player whose tag is in the topic; walls never shrink, keep their order, and gain exactly the new walls |

The lemmas `Explorer.RoundIs`, `Explorer.RunStops` and `Explorer.RunUnfold`
have no rows. They restate the definitions of `Round` and `Run` and serve
only as proof steps for `Explorer.Explorer.Step` and
`Explorer.Explorer.Explore`.

## Left out

- Transport: the MQTT client, TLS and credential loading, lobby registration,
  START/STOP messages, `loop_start`/`loop_forever`, the `time.sleep` pacing
  and the print callbacks. Moves are returned as `Dir` values rather than
  published. `Grid.Name` is the table that turns a returned `Dir` into the
  string the scripts publish.
- JSON decoding: messages are already-parsed records of integer pairs
  (`Greedy.GameState`, `Arbiter.Observation`). A message without
  `currentPosition`, whose `.get` yields `None`, is not modelled.
- Floating point: `euclidean_distance` takes a square root. The model uses
  the squared integer distance.
- Greedy.ClosestIndexBy: the square root is not defined. The measure is a
  parameter, and `MonotoneMeasureSameCoin` requires only that it be strictly
  increasing.
- Concurrency: the network thread and the main loop share the global lists.
  Here, ingestion and decision are sequential steps.
- The interactive `input()` loop of mat_test.py.
- Dead code: the commented-out selection block and the unused
  `not_explored` flags of PlayerClient4.py, and its unused local `explored`.
  Also the function-local assignments to `enemyPositions`,
  `teammatePositions` and `curr_position_N`, which change no module state.
- The fixed-offset topic parse `msg.topic[22:23]` of PlayerClient2.py.
  `Explorer.Explorer.Seed` takes the parsed player number instead.
- In PlayerClient2.py, seeded cells are lists and neighbours are tuples, so a
  seeded cell never compares equal to a neighbour and can be re-enqueued. The
  model treats all positions uniformly as pairs.
- Explorer.Explorer.Explore: the source loop has no bound. The model runs at
  most `rounds` passes. The script itself never finishes its first pass:
  `p1_move` is never assigned, so the publish at PlayerClient2.py:258 raises
  a name error. The model goes on from pass to pass as if the publish had
  succeeded.
- Explorer.Explorer.Step: no move is ever assigned, so the script's publish of
  the unassigned `p1_move` raises a name error. The model stops at the
  `None` moves.
- The `while True` loop of PlayerClient4.py is not modelled as a loop.
  `Arbiter.Decide` is one pass of it. A pass with an empty history raises an
  index error in the script; `Decide` yields `None` instead.

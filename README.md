# Poisoned chocolate client — a Dafny model

This project models the core of a two-player network client for "poisoned
chocolate", a variant of Chomp. The board is a `rows × cols` grid of
chocolate squares. A move at `(r, c)` eats every square `(i, j)` with
`i ≥ r` and `j ≥ c`. Whoever eats the poisoned square `(0, 0)` loses.

The model covers:

- **The engine** (`ChompSpec`, `ChompBoard`). The class
  `ChompBoard.PoisonedChocolate` holds a 2-D boolean array (true = uneaten),
  `turn` and `winner`. `MakeMove` eats cells in place with two nested loops,
  then sets the winner or flips the turn. Its ghost `State()` reads the object
  as a `ChompSpec.Game` value. Each method is proved against the functions on
  that value: the constructor against `NewGame`, `ValidMove` against
  `IsValidMove`, and `MakeMove` against `Move`; the foreground loop's
  `DrainQueue` is proved against `GameLoop.Drain`. The game-level
  properties are proved there: exact post-state, the winner/turn rule,
  staircase closure over any sequence of moves, finality of a win, and
  progress.
- **The listener's dispatch** (`Listener`), on messages that are already
  decoded. For each message code it gives the events enqueued, the messages
  sent, and the changes to the boxes shared with the foreground loop (role,
  started flag, game). It also covers the listener loop over a whole inbound
  stream and the board-size acceptance predicate.
- **The foreground event drain** (`GameLoop`). It is a fold over the queued
  events, changing `my_turn`, the game and whether the loop goes on (`Step`,
  `Drain`). It is run on the engine object by `DrainQueue`, which is proved
  equal to the fold. It also covers the local player's move (`TakeTurn`).
- **Listener and loop together** (`Session`), for what happens when the
  connection closes.

Decoded message fields are `Protocol.Value`, an integer or a string. Python's
dynamic typing matters in two places, and both are modelled:

- An opponent move whose fields are not integers raises inside `valid_move`.
  The chained comparison stops at the first false test, so an out-of-range
  integer row with any column is simply refused. The raise ends the foreground
  loop (`GameLoop.Status.Crashed`).
- A message with the wrong number of fields (fewer than three for code 110,
  anything but four for codes 210 and 220), or a board size that is not two
  integers, raises in the listener thread and ends it (`Dispatch` returns
  `None`).

In these places the code's behaviour may be unexpected; the model follows the code:

- The listener thread builds the game object, not the foreground loop. It
  does so on a matched message for role 0 and on a board-size message.
- An opponent-left message enqueues `end` only once a game has started.
  Before that it is ignored.
- A message that cannot be unpacked raises in the listener thread and ends
  it. It is not skipped.
- At end of stream the listener enqueues nothing (see Findings).
- A new engine has `turn = 1`, so player 1 makes the first move. In the 2×2
  scenario player 1 eats `(1, 1)`, then player 0 eats the poison, so
  `winner = 1`.
- After an opponent's move eats the poison, the loop neither reports the
  result nor returns; it keeps running until an `end` event arrives.

## Model

| member | source | states |
|---|---|---|
| ChompSpec.NewGame | pcpm-client-water.py:6-11 | a new game has Span(rows) rows of Span(cols) cells (Python's range), all uneaten, turn 1 and no winner |
| ChompBoard.PoisonedChocolate.constructor | pcpm-client-water.py:6-11 | the constructed object's array has those dimensions, and its state is exactly NewGame(rows, cols) |
| ChompBoard.PoisonedChocolate.ValidMove | pcpm-client-water.py:14-15 | valid_move on the array is IsValidMove of the object's state: 0 ≤ r < rows, 0 ≤ c < cols and the cell uneaten; it reads and changes nothing else |
| ChompSpec.IsValidMove | pcpm-client-water.py:14-15 | a move is valid exactly when (r, c) indexes a cell of the board as built (row within the rows, column within that row) and the cell is uneaten |
| ChompSpec.Eat | pcpm-client-water.py:22-24 | eating from (r, c) keeps the board's shape, eats every cell (i, j) with i ≥ r and j ≥ c, and leaves every other cell as it was |
| ChompSpec.Other | pcpm-client-water.py:28-31 | `0 if turn == 1 else 1` is always 0 or 1, and differs from its argument when that is 0 or 1 |
| ChompBoard.PoisonedChocolate.MakeMove | pcpm-client-water.py:17-32 | returns true exactly when the move is valid and there is no winner; the new state is Move(old state); cell (i,j) is uneaten afterwards iff it was before and not (ok and i ≥ r and j ≥ c) |
| ChompSpec.Move | pcpm-client-water.py:17-32 | a move keeps the board well-formed with the same dimensions |
| ChompSpec.MoveRefused | pcpm-client-water.py:17-19 | an invalid cell, or an existing winner, leaves board, turn and winner unchanged and the move is reported as failed |
| ChompSpec.MoveSucceeded | pcpm-client-water.py:22-31 | after a successful move, (i,j) is eaten iff it was eaten before or i ≥ r and j ≥ c; if (0,0) is now eaten the winner is 0 when turn was 1 and 1 otherwise, with turn unchanged; otherwise the turn flips and winner stays None |
| ChompSpec.Play | pcpm-client-water.py:17-32 | playing a sequence of moves keeps the board well-formed with the same dimensions |
| ChompSpec.NewGameInv | pcpm-client-water.py:6-11 | a new game satisfies the invariant: staircase-closed, turn in {0,1}, a winner exactly when the poison is eaten |
| ChompSpec.EatStaircase | pcpm-client-water.py:22-24 | eating the quadrant above-right of (r,c) keeps a staircase-closed board staircase-closed |
| ChompSpec.MovePreservesInv | pcpm-client-water.py:17-32 | one move, successful or refused, preserves the invariant |
| ChompSpec.PlayPreservesInv | pcpm-client-water.py:17-32 | any sequence of moves preserves the invariant |
| ChompSpec.ReachableInv | pcpm-client-water.py:6-32 | from the all-uneaten board, any sequence of moves leaves the board staircase-closed, turn in {0,1}, the winner in {0,1} and set exactly when (0,0) is eaten |
| ChompSpec.WinnerIsFinal | pcpm-client-water.py:18-19 | once a winner exists, no sequence of moves changes the game |
| ChompSpec.GameOverBoardEmpty | pcpm-client-water.py:26-28 | in a reachable game with a winner, every cell has been eaten |
| ChompSpec.NeverStuck | pcpm-client-water.py:14-19 | a reachable game on a non-empty board with no winner always has a successful move, at (0,0) |
| ChompSpec.CountRowShrinks | pcpm-client-water.py:22-24 | eating cells of a row never increases its uneaten count, and eating an uneaten cell strictly decreases it |
| ChompSpec.UneatenShrinks | pcpm-client-water.py:22-24 | the same for a whole board |
| ChompSpec.MoveShrinks | pcpm-client-water.py:22-24 | every successful move strictly decreases the number of uneaten cells |
| ChompSpec.PlayBounded | pcpm-client-water.py:17-32 | along any sequence of moves, the successful moves plus the cells left uneaten never exceed the uneaten cells at the start |
| ChompSpec.GameLength | pcpm-client-water.py:6-32 | from a new game, any sequence of moves contains at most rows × cols successful ones |
| ChompSpec.TwoByTwoScenario | pcpm-client-water.py:17-32 | on a new 2×2 board, eating (1,1) eats only that cell and passes the turn to 0 with no winner; eating (0,0) next eats everything and player 1 wins |
| Listener.SizeAccepted | pcpm-client-water.py:98 | a typed size is accepted exactly when the board it builds has at least two rows and at least two columns |
| Listener.SizeExamples | pcpm-client-water.py:98-101 | the board-size predicate rows > 1 and cols > 1 rejects 1×5 and accepts 3×4, which gives a 3×4 all-uneaten board |
| Listener.Dispatch | pcpm-client-water.py:86-139 | one message raises exactly when it is empty, too short to unpack, a board size without exactly two integer sizes, or a move without exactly four fields; otherwise it enqueues at most one event: End iff it is an opponent-left after the game started, YourTurn iff it is a board size while the role is 1, WaitTurn iff it is a match with role 0; the started flag never goes back to false; a game it installs is a fresh one |
| Listener.MatchedReaction | pcpm-client-water.py:87-115 | a match records the role; for role 0 it installs NewGame of the typed size, marks the game started, sends [210, "size", rows, cols] and enqueues WaitTurn; for any other role nothing else changes |
| Listener.BoardSizeReaction | pcpm-client-water.py:118-126 | a board-size message installs NewGame(rows, cols), marks the game started, sends nothing, and enqueues YourTurn only when the role is 1 |
| Listener.MoveReaction | pcpm-client-water.py:129-131 | a move message enqueues exactly one opponent move with its fields as received, changing no shared state |
| Listener.Hear | pcpm-client-water.py:70-139 | when the listener loop (which skips blank and undecodable lines and stops when a message raises) reaches end of stream, the events it enqueued end with what it enqueues at end of stream |
| Listener.AsWrittenNoEnd | pcpm-client-water.py:71-74 | as written, a stream without an opponent-left message never puts End on the queue, even when it closes |
| Listener.ListenAsWritten | pcpm-client-water.py:70-74 | the listener as written, which enqueues nothing at end of stream, puts End on the queue only if some message is an opponent-left message |
| Listener.Listen | pcpm-client-water.py:70-74 | the corrected listener enqueues exactly what the listener as written does, plus one final End when the stream is read to its end; so such a stream's events always end with End |
| Listener.HearAtEof | pcpm-client-water.py:70-74 | what the listener enqueues at end of stream is only appended: the events before it, and whether end of stream is reached, do not depend on it |
| GameLoop.MoveFields | pcpm-client-water.py:15-18 | make_move on dynamically typed fields raises iff the row is not an integer, or the row is in range and the column is not an integer; otherwise it is Move on the integers, or a no-op |
| GameLoop.Step | pcpm-client-water.py:159-173 | one event keeps the loop's game well-formed |
| GameLoop.Drain | pcpm-client-water.py:158-173 | a stopped loop processes nothing more; an End anywhere in the queue stops a running loop; a loop still running after the drain saw no End |
| GameLoop.DrainAppend | pcpm-client-water.py:158-159 | draining a+b equals draining a, then b: events are processed in queue order, however they are batched |
| GameLoop.FlagEvents | pcpm-client-water.py:160-163 | your_turn sets my_turn to true, wait_turn sets it to false, end stops the loop, and none of them changes anything else |
| GameLoop.DrainStopsAtEnd | pcpm-client-water.py:172-173 | events queued after End are never processed, and End stops a running loop |
| GameLoop.OpponentMoveStep | pcpm-client-water.py:164-171 | an opponent move calls make_move and ignores its result: my_turn becomes true whenever there is still no winner, even for a refused move, and is left alone once somebody has won |
| GameLoop.OpponentWinKeepsRunning | pcpm-client-water.py:164-173 | an opponent move that eats the poison sets the winner but leaves the loop running and my_turn unchanged |
| GameLoop.OpponentMoveWithoutGame | pcpm-client-water.py:166 | before a game exists, an opponent move changes nothing |
| GameLoop.StepPreservesInv | pcpm-client-water.py:159-173 | one event preserves the engine invariant of the loop's game |
| GameLoop.DrainPreservesInv | pcpm-client-water.py:158-173 | draining any queue preserves the engine invariant of the loop's game |
| GameLoop.DrainQueue | pcpm-client-water.py:158-173 | the drain loop on the engine object ends with my_turn, the object's state and the loop status exactly as Drain computes from the old values and the queue |
| GameLoop.TakeTurn | pcpm-client-water.py:177-189 | a typed move on the local turn is played iff valid; then [220, "move", r, c] is sent and my_turn becomes false, otherwise nothing changes and my_turn stays true; the game is over iff the move was played and set a winner |
| Session.DisconnectHangsAsWritten | pcpm-client-water.py:71-74 | as written, matched as role 1, a 3×4 board announced, then the connection closes: the queue gets only YourTurn, and after the drain the loop is still running with my_turn true, so it next waits for the local player's input |
| Session.AsWrittenNeverEnds | pcpm-client-water.py:70-74 | as written, a stream without an opponent-left message can never bring the loop to Ended |
| Session.NoEndNoEnded | pcpm-client-water.py:158-173 | a queue without End cannot bring a loop to Ended |
| Session.DisconnectEndsLoop | pcpm-client-water.py:71-74 | with End enqueued at end of stream, draining what the listener enqueued for a stream read to its end stops the loop, whoever's turn it was |

## Left out

- Sockets, `send_json`, `makefile`/`readline`, `server_connect` and `main` (lines 56-60, 69-71, 196-221): network I/O. Outbound messages appear only as the `sent` values of `Listener.Dispatch` and `GameLoop.TakeTurn`. The initial join message `[100]` (line 152) is not modelled.
- `json.dumps`/`json.loads` (lines 58, 80): a foreign library. Messages are already-decoded sequences of integers and strings. JSON booleans, floats, null, nested values and non-array messages are not represented. An undecodable line is `Listener.Line.Garbled`.
- Threads and the `Queue` (lines 143, 149): concurrency is not modelled. The queue is an ordered sequence. The game box is taken as fixed during one drain, although the listener may replace `game[0]` at any time. How listener steps interleave with foreground steps is not modelled.
- The `while True` of `game_loop` as a whole: only one drain (`DrainQueue`) and one local move (`TakeTurn`) are modelled, not their repetition.
- `input()` prompting loops and the integer parsing of the typed text (lines 93-103, 178-180, 190-193): interactive I/O. The typed board size enters `Listener.Dispatch` as a parameter that satisfies the size predicate, because the prompt loop only lets such a size through. The typed move enters `GameLoop.TakeTurn` as two integers. `Listener.Hear` uses one typed size for every match message in the stream.
- `print` output and `render` (lines 35-53 and the prints throughout): display only.
- `KeyboardInterrupt` handling and the LEAVE message (lines 205-207): signal handling and best-effort I/O.
- `Listener.Dispatch`: a board-size message with an integer `rows ≤ 0` and a non-integer `cols` builds the game object without raising. The listener raises only afterwards, in `render` (line 38), after `game_ref[0]` and `game_started_flag[0]` have been set (lines 120-121). The model's `None` leaves the shared boxes unchanged instead, because `Game` holds integer dimensions.
- `GameLoop.TakeTurn`: the guard at line 177 (`my_turn`, a game exists, no winner) is taken as its precondition instead of being modelled as a branch.

## Findings

| source | as written | input that shows it | evidently intended | confidence | as-written member | corrected member |
|---|---|---|---|---|---|---|
| pcpm-client-water.py:71-74 | at end of stream the listener prints "Disconnected from server" and stops without enqueuing `end`. So `game_loop` returns only if the local player's own move ends the game; otherwise it waits for input or polls forever | matched as role 1 (`[110, 7, 1]`), then `[210, "size", 3, 4]`, then the server closes the connection: the queue gets only `your_turn`, and after the drain the loop is still running with `my_turn` true, waiting for input | end of stream enqueues `end`, so the foreground loop returns | medium, not executed | Session.DisconnectHangsAsWritten | Session.DisconnectEndsLoop |

/**
 * The foreground loop of the client. Each pass drains the queued events in
 * order, folding them into the `my_turn` flag and the game; then, if it is the
 * local player's turn, one typed move is checked and played. `Step` and
 * `Drain` are that fold on values; `DrainQueue` and `TakeTurn` run it on the
 * engine object and are proved to follow them.
 */
module GameLoop {
  import opened Wrappers
  import opened ChompSpec
  import opened ChompBoard
  import opened Protocol

  /** Running; returned after an `End` event; or stopped by an exception raised in `make_move`. */
  datatype Status = Running | Ended | Crashed

  /** The loop's variables: `my_turn`, the game in `game[0]`, and whether the loop is still going. */
  datatype Loop = Loop(myTurn: bool, game: Option<Game>, status: Status)

  predicate LoopOk(st: Loop) {
    st.game.Some? ==> WellFormed(st.game.value)
  }

  /**
   * `make_move(r, c)` on fields of any type: the bounds test compares `r`
   * first and stops at the first false comparison, so a non-integer `r`, or a
   * non-integer `c` after an in-range `r`, raises (None); otherwise the move
   * is made or refused as usual.
   */
  function MoveFields(g: Game, r: Value, c: Value): (res: Option<Game>)
    requires WellFormed(g)
    ensures res.None? <==> !r.Int? || (0 <= r.i < g.rows && !c.Int?)
    ensures res.Some? && c.Int? ==> res.value == Move(g, r.i, c.i)
    ensures res.Some? && !c.Int? ==> res.value == g
  {
    if !r.Int? then None
    else if !(0 <= r.i < g.rows) then Some(g)
    else if !c.Int? then None
    else Some(Move(g, r.i, c.i))
  }

  /** One queued event. */
  function Step(st: Loop, e: Event): (st': Loop)
    requires LoopOk(st)
    ensures LoopOk(st')
  {
    match e
    case YourTurn => st.(myTurn := true)
    case WaitTurn => st.(myTurn := false)
    case OpponentMove(r, c) =>
      if st.game.None? then st
      else (
        match MoveFields(st.game.value, r, c)
        case None => st.(status := Crashed)
        case Some(g) => st.(game := Some(g), myTurn := if g.winner.None? then true else st.myTurn))
    case End => st.(status := Ended)
  }

  /** The events of the queue, in order, until the loop stops. */
  function Drain(st: Loop, q: seq<Event>): (st': Loop)
    requires LoopOk(st)
    ensures LoopOk(st')
    ensures st.status != Running ==> st' == st
    ensures st.status == Running && End in q ==> st'.status != Running
    ensures st'.status == Running ==> End !in q
    decreases |q|
  {
    if q == [] || st.status != Running then st else Drain(Step(st, q[0]), q[1..])
  }

  /** Draining a queue in two batches is draining it once: events are handled in queue order. */
  lemma {:induction false} DrainAppend(st: Loop, a: seq<Event>, b: seq<Event>)
    requires LoopOk(st)
    ensures Drain(st, a + b) == Drain(Drain(st, a), b)
    decreases |a|
  {
    if a == [] {
      assert a + b == b;
    } else if st.status == Running {
      assert (a + b)[0] == a[0] && (a + b)[1..] == a[1..] + b;
      DrainAppend(Step(st, a[0]), a[1..], b);
    }
  }

  /** `your_turn` sets the flag, `wait_turn` clears it, `end` stops the loop; nothing else changes. */
  lemma FlagEvents(st: Loop)
    requires LoopOk(st)
    ensures Step(st, YourTurn) == st.(myTurn := true)
    ensures Step(st, WaitTurn) == st.(myTurn := false)
    ensures Step(st, End) == st.(status := Ended)
  {
  }

  /** Whatever is queued after `End` is never looked at. */
  lemma DrainStopsAtEnd(st: Loop, a: seq<Event>, b: seq<Event>)
    requires LoopOk(st)
    ensures Drain(st, a + [End] + b) == Drain(st, a + [End])
    ensures st.status == Running ==> Drain(st, a + [End] + b).status != Running
  {
    DrainAppend(st, a + [End], b);
    assert End in a + [End];
  }

  /**
   * An opponent move with integer fields plays `make_move` and ignores its
   * result: `my_turn` becomes true whenever there is still no winner, also
   * when the move was refused, and is left alone once somebody has won.
   */
  lemma OpponentMoveStep(st: Loop, r: int, c: int)
    requires LoopOk(st) && st.game.Some?
    ensures var g' := Move(st.game.value, r, c);
      Step(st, OpponentMove(Int(r), Int(c))) ==
        st.(game := Some(g'), myTurn := st.myTurn || g'.winner.None?)
  {
  }

  /**
   * An opponent move that eats the poison sets the winner but does not stop
   * the loop: only an `End` event or the local player's own winning move
   * returns from it.
   */
  lemma OpponentWinKeepsRunning(st: Loop, r: int, c: int)
    requires LoopOk(st) && st.status == Running && st.game.Some?
    requires Move(st.game.value, r, c).winner.Some?
    ensures var st' := Step(st, OpponentMove(Int(r), Int(c)));
      st'.status == Running && st'.myTurn == st.myTurn && st'.game.value.winner.Some?
  {
  }

  /** Before a game exists, opponent moves are dropped. */
  lemma OpponentMoveWithoutGame(st: Loop, r: Value, c: Value)
    requires st.game.None?
    ensures Step(st, OpponentMove(r, c)) == st
  {
  }

  /** The game kept by the loop stays a reachable-looking game. */
  ghost predicate GameInv(st: Loop) {
    st.game.Some? ==> Inv(st.game.value)
  }

  lemma StepPreservesInv(st: Loop, e: Event)
    requires LoopOk(st) && GameInv(st)
    ensures GameInv(Step(st, e))
  {
    if e.OpponentMove? && st.game.Some? && e.r.Int? && e.c.Int? {
      MovePreservesInv(st.game.value, e.r.i, e.c.i);
    }
  }

  /** Draining any queue keeps the staircase, the turn range and the winner rule. */
  lemma {:induction false} DrainPreservesInv(st: Loop, q: seq<Event>)
    requires LoopOk(st) && GameInv(st)
    ensures GameInv(Drain(st, q))
    decreases |q|
  {
    if q != [] && st.status == Running {
      StepPreservesInv(st, q[0]);
      DrainPreservesInv(Step(st, q[0]), q[1..]);
    }
  }

  /** The engine object, if there is one, as a game value. */
  ghost function Snapshot(game: PoisonedChocolate?): Option<Game>
    reads if game == null then {} else {game, game.board}
  {
    if game == null then None else Some(game.State())
  }

  /**
   * The drain at the top of each pass, on the engine object: handles every
   * queued event in order and returns on `End`.
   */
  method DrainQueue(game: PoisonedChocolate?, myTurn0: bool, queue: seq<Event>) returns (myTurn: bool, status: Status)
    requires game != null ==> game.Valid()
    modifies if game == null then {} else {game, game.board}
    ensures game != null ==> game.Valid()
    ensures Loop(myTurn, Snapshot(game), status) == Drain(Loop(myTurn0, old(Snapshot(game)), Running), queue)
  {
    myTurn, status := myTurn0, Running;
    var k := 0;
    while k < |queue|
      invariant 0 <= k <= |queue|
      invariant game != null ==> game.Valid()
      invariant Drain(Loop(myTurn, Snapshot(game), Running), queue[k..]) ==
        Drain(Loop(myTurn0, old(Snapshot(game)), Running), queue)
    {
      match queue[k] {
        case YourTurn =>
          myTurn := true;
        case WaitTurn =>
          myTurn := false;
        case OpponentMove(r, c) =>
          if game != null {
            if !r.Int? || (0 <= r.i < game.rows && !c.Int?) {
              status := Crashed;
              return;
            }
            if c.Int? {
              var ignored := game.MakeMove(r.i, c.i);
            }
            if game.winner.None? {
              myTurn := true;
            }
          }
        case End =>
          status := Ended;
          return;
      }
      k := k + 1;
    }
  }

  /**
   * The local player's move (r, c), typed while it is their turn and there is
   * no winner: a valid cell is played, sent to the peer as a move message, and
   * hands the turn over; `over` says the game has just ended. An invalid cell
   * changes nothing and the player is asked again.
   */
  method TakeTurn(game: PoisonedChocolate, r: int, c: int) returns (myTurn: bool, over: bool, sent: seq<seq<Value>>)
    requires game.Valid() && game.winner.None?
    modifies game, game.board
    ensures game.Valid()
    ensures game.State() == Move(old(game.State()), r, c)
    ensures myTurn == !IsValidMove(old(game.State()), r, c)
    ensures sent == if myTurn then [] else [[Int(MOVE), Str("move"), Int(r), Int(c)]]
    ensures over <==> !myTurn && game.winner.Some?
  {
    myTurn, over, sent := true, false, [];
    if game.ValidMove(r, c) {
      var ignored := game.MakeMove(r, c);
      sent := [[Int(MOVE), Str("move"), Int(r), Int(c)]];
      myTurn := false;
      over := game.winner.Some?;
    } else {
      assert game.State() == Move(old(game.State()), r, c);
    }
  }
}

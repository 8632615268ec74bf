/**
 * The listener thread, on messages that are already decoded: what one message
 * does to the boxes it shares with the foreground loop (`player_id[0]`,
 * `game_started_flag[0]`, `game_ref[0]`), which events it enqueues and which
 * messages it sends; and the whole inbound stream, up to end of stream.
 */
module Listener {
  import opened Wrappers
  import opened ChompSpec
  import opened Protocol

  /** The board-size check applied to the numbers the user typed: at least 2x2. */
  predicate SizeAccepted(rows: int, cols: int)
    ensures SizeAccepted(rows, cols) <==> |NewGame(rows, cols).board| >= 2 && |NewGame(rows, cols).board[0]| >= 2
  {
    rows > 1 && cols > 1
  }

  /** "1 5" is rejected; "3 4" is accepted and gives a 3x4 all-uneaten board. */
  lemma SizeExamples()
    ensures !SizeAccepted(1, 5)
    ensures SizeAccepted(3, 4)
    ensures var g := NewGame(3, 4);
      |g.board| == 3 && (forall i :: 0 <= i < 3 ==> |g.board[i]| == 4) &&
      forall i, j :: 0 <= i < 3 && 0 <= j < 4 ==> g.board[i][j]
  {
  }

  /** The boxes the listener shares with the foreground loop. */
  datatype Shared = Shared(role: Option<Value>, started: bool, game: Option<Game>)

  /** The listener's state before the first message. */
  function Initial(): Shared {
    Shared(None, false, None)
  }

  /** What one message causes: the new shared boxes, the events enqueued, the messages sent. */
  datatype Reaction = Reaction(shared: Shared, events: seq<Event>, sent: seq<seq<Value>>)

  /** The message makes the listener raise (an index or unpacking error, or range() of a string). */
  predicate Raises(msg: seq<Value>) {
    || |msg| == 0
    || (msg[0] == Int(MATCHED) && |msg| < 3)
    || (msg[0] == Int(BOARD_SIZE) && (|msg| != 4 || !msg[2].Int? || !msg[3].Int?))
    || (msg[0] == Int(MOVE) && |msg| != 4)
  }

  /**
   * One decoded message. `size` is the board size the user of role 0 types
   * when matched; the prompt loop only lets an accepted size through. None
   * means the listener raised, which ends its thread.
   */
  function Dispatch(sh: Shared, msg: seq<Value>, size: (int, int)): (res: Option<Reaction>)
    requires SizeAccepted(size.0, size.1)
    ensures res.None? <==> Raises(msg)
    ensures res.Some? ==> |res.value.events| <= 1
    ensures res.Some? ==> (End in res.value.events <==> msg[0] == Int(OPPONENT_LEFT) && sh.started)
    ensures res.Some? ==> (YourTurn in res.value.events <==> msg[0] == Int(BOARD_SIZE) && sh.role == Some(Int(1)))
    ensures res.Some? ==> (WaitTurn in res.value.events <==> msg[0] == Int(MATCHED) && msg[2] == Int(0))
    ensures res.Some? ==> (sh.started ==> res.value.shared.started)
    ensures res.Some? && res.value.shared.game != sh.game ==>
      res.value.shared.started && res.value.shared.game.Some? && WellFormed(res.value.shared.game.value) &&
      res.value.shared.game.value.turn == 1 && res.value.shared.game.value.winner.None?
  {
    if |msg| == 0 then None
    else if msg[0] == Int(MATCHED) then
      if |msg| < 3 then None
      else
        var role := msg[2];
        if role == Int(0) then
          var (rows, cols) := size;
          Some(Reaction(Shared(Some(role), true, Some(NewGame(rows, cols))),
                        [WaitTurn],
                        [[Int(BOARD_SIZE), Str("size"), Int(rows), Int(cols)]]))
        else
          Some(Reaction(sh.(role := Some(role)), [], []))
    else if msg[0] == Int(BOARD_SIZE) then
      if |msg| != 4 || !msg[2].Int? || !msg[3].Int? then None
      else
        var game := NewGame(msg[2].i, msg[3].i);
        Some(Reaction(sh.(started := true, game := Some(game)),
                      if sh.role == Some(Int(1)) then [YourTurn] else [],
                      []))
    else if msg[0] == Int(MOVE) then
      if |msg| != 4 then None
      else Some(Reaction(sh, [OpponentMove(msg[2], msg[3])], []))
    else if msg[0] == Int(OPPONENT_LEFT) then
      Some(Reaction(sh, if sh.started then [End] else [], []))
    else
      Some(Reaction(sh, [], []))
  }

  /** Role 0 picks the board, announces it, starts the game and waits; other roles are only recorded. */
  lemma MatchedReaction(sh: Shared, room: Value, role: Value, size: (int, int))
    requires SizeAccepted(size.0, size.1)
    ensures var res := Dispatch(sh, [Int(MATCHED), room, role], size);
      && res.Some?
      && res.value.shared.role == Some(role)
      && (role == Int(0) ==>
            && res.value.shared.game == Some(NewGame(size.0, size.1))
            && res.value.shared.started
            && res.value.events == [WaitTurn]
            && res.value.sent == [[Int(BOARD_SIZE), Str("size"), Int(size.0), Int(size.1)]])
      && (role != Int(0) ==> res.value.shared == sh.(role := Some(role)) && res.value.events == [] && res.value.sent == [])
  {
  }

  /** A board-size announcement installs a new game of that size; only role 1 is then told to move. */
  lemma BoardSizeReaction(sh: Shared, tag: Value, rows: int, cols: int, size: (int, int))
    requires SizeAccepted(size.0, size.1)
    ensures var res := Dispatch(sh, [Int(BOARD_SIZE), tag, Int(rows), Int(cols)], size);
      && res.Some?
      && res.value.shared == sh.(started := true, game := Some(NewGame(rows, cols)))
      && res.value.events == (if sh.role == Some(Int(1)) then [YourTurn] else [])
      && res.value.sent == []
  {
  }

  /** An opponent move is passed on as it came, whatever its fields are. */
  lemma MoveReaction(sh: Shared, tag: Value, r: Value, c: Value, size: (int, int))
    requires SizeAccepted(size.0, size.1)
    ensures Dispatch(sh, [Int(MOVE), tag, r, c], size) == Some(Reaction(sh, [OpponentMove(r, c)], []))
  {
  }

  /** A line of the inbound stream: blank, not decodable, or a decoded message. */
  datatype Line = Blank | Garbled | Message(msg: seq<Value>)

  /** All the events the listener enqueues; `eof` is false when the thread died on a message. */
  datatype Heard = Heard(events: seq<Event>, eof: bool)

  /**
   * The listener loop over a stream, reading to its end; blank and undecodable
   * lines are skipped, and `atEof` is what it enqueues on end of stream.
   */
  function Hear(sh: Shared, lines: seq<Line>, size: (int, int), atEof: seq<Event>): (h: Heard)
    requires SizeAccepted(size.0, size.1)
    ensures h.eof ==> |atEof| <= |h.events| && h.events[|h.events| - |atEof|..] == atEof
    decreases |lines|
  {
    if lines == [] then Heard(atEof, true)
    else match lines[0]
      case Blank => Hear(sh, lines[1..], size, atEof)
      case Garbled => Hear(sh, lines[1..], size, atEof)
      case Message(msg) =>
        match Dispatch(sh, msg, size)
        case None => Heard([], false)
        case Some(rx) =>
          var rest := Hear(rx.shared, lines[1..], size, atEof);
          Heard(rx.events + rest.events, rest.eof)
  }

  /**
   * The listener as written: on end of stream it prints and stops, enqueueing
   * nothing, so `End` can only come from an opponent-left message.
   */
  function ListenAsWritten(sh: Shared, lines: seq<Line>, size: (int, int)): (h: Heard)
    requires SizeAccepted(size.0, size.1)
    ensures NoLeaveMessage(lines) ==> End !in h.events
  {
    AsWrittenNoEnd(sh, lines, size);
    Hear(sh, lines, size, [])
  }

  /**
   * The listener as intended: end of stream enqueues `End`. It enqueues what
   * the listener as written does, plus a final `End` when the stream is read
   * to its end.
   */
  function Listen(sh: Shared, lines: seq<Line>, size: (int, int)): (h: Heard)
    requires SizeAccepted(size.0, size.1)
    ensures var w := ListenAsWritten(sh, lines, size);
      h.eof == w.eof && h.events == if w.eof then w.events + [End] else w.events
    ensures h.eof ==> |h.events| > 0 && h.events[|h.events| - 1] == End
  {
    HearAtEof(sh, lines, size, [End]);
    Hear(sh, lines, size, [End])
  }

  /** What is enqueued at end of stream is only appended: everything before it does not depend on it. */
  lemma {:induction false} HearAtEof(sh: Shared, lines: seq<Line>, size: (int, int), atEof: seq<Event>)
    requires SizeAccepted(size.0, size.1)
    ensures var h := Hear(sh, lines, size, []);
      Hear(sh, lines, size, atEof) == Heard(if h.eof then h.events + atEof else h.events, h.eof)
    decreases |lines|
  {
    if lines != [] {
      match lines[0]
      case Blank => HearAtEof(sh, lines[1..], size, atEof);
      case Garbled => HearAtEof(sh, lines[1..], size, atEof);
      case Message(msg) =>
        match Dispatch(sh, msg, size)
        case None =>
        case Some(rx) =>
          HearAtEof(rx.shared, lines[1..], size, atEof);
          var rest := Hear(rx.shared, lines[1..], size, []);
          assert rx.events + (rest.events + atEof) == (rx.events + rest.events) + atEof;
    }
  }

  /** No line of the stream is an opponent-left message. */
  predicate NoLeaveMessage(lines: seq<Line>) {
    forall k :: 0 <= k < |lines| && lines[k].Message? && |lines[k].msg| > 0 ==> lines[k].msg[0] != Int(OPPONENT_LEFT)
  }

  /** As written, a stream without an opponent-left message never yields `End`, even when it closes. */
  lemma {:induction false} AsWrittenNoEnd(sh: Shared, lines: seq<Line>, size: (int, int))
    requires SizeAccepted(size.0, size.1)
    ensures NoLeaveMessage(lines) ==> End !in Hear(sh, lines, size, []).events
    decreases |lines|
  {
    if lines != [] && NoLeaveMessage(lines) {
      assert NoLeaveMessage(lines[1..]) by {
        forall k | 0 <= k < |lines[1..]| && lines[1..][k].Message? && |lines[1..][k].msg| > 0
          ensures lines[1..][k].msg[0] != Int(OPPONENT_LEFT)
        {
          assert lines[1..][k] == lines[k + 1];
        }
      }
      match lines[0]
      case Blank => AsWrittenNoEnd(sh, lines[1..], size);
      case Garbled => AsWrittenNoEnd(sh, lines[1..], size);
      case Message(msg) =>
        match Dispatch(sh, msg, size)
        case None =>
        case Some(rx) =>
          AsWrittenNoEnd(rx.shared, lines[1..], size);
    }
  }
}

/**
 * The listener and the foreground loop together: what the loop does with
 * everything the listener enqueues for a whole inbound stream.
 */
module Session {
  import opened Wrappers
  import opened ChompSpec
  import opened Protocol
  import opened Listener
  import opened GameLoop

  /**
   * As written: this client is matched as role 1, the board size arrives, and
   * then the server closes the connection. The listener enqueues only
   * `YourTurn`, so draining the queue never stops the loop.
   */
  lemma DisconnectHangsAsWritten()
    ensures var lines := [Message([Int(MATCHED), Int(7), Int(1)]), Message([Int(BOARD_SIZE), Str("size"), Int(3), Int(4)])];
      var h := ListenAsWritten(Initial(), lines, (2, 2));
      && h.eof
      && h.events == [YourTurn]
      && Drain(Loop(false, Some(NewGame(3, 4)), Running), h.events) == Loop(true, Some(NewGame(3, 4)), Running)
  {
    var lines := [Message([Int(MATCHED), Int(7), Int(1)]), Message([Int(BOARD_SIZE), Str("size"), Int(3), Int(4)])];
    var sh1 := Initial().(role := Some(Int(1)));
    var sh2 := sh1.(started := true, game := Some(NewGame(3, 4)));
    assert Dispatch(Initial(), lines[0].msg, (2, 2)) == Some(Reaction(sh1, [], []));
    assert Dispatch(sh1, lines[1].msg, (2, 2)) == Some(Reaction(sh2, [YourTurn], []));
    assert lines[1..][1..] == [];
    assert Hear(sh2, [], (2, 2), []) == Heard([], true);
    assert Hear(sh1, lines[1..], (2, 2), []) == Heard([YourTurn], true);
    assert Hear(Initial(), lines, (2, 2), []) == Heard([YourTurn], true);
  }

  /** As written, a stream without an opponent-left message can never end the loop through `End`. */
  lemma AsWrittenNeverEnds(st: Loop, sh: Shared, lines: seq<Line>, size: (int, int))
    requires LoopOk(st) && SizeAccepted(size.0, size.1) && NoLeaveMessage(lines)
    ensures Drain(st, ListenAsWritten(sh, lines, size).events).status != Ended ||
      st.status == Ended
  {
    NoEndNoEnded(st, ListenAsWritten(sh, lines, size).events);
  }

  /** Without an `End` in the queue, the loop can only reach `Ended` if it was there already. */
  lemma {:induction false} NoEndNoEnded(st: Loop, q: seq<Event>)
    requires LoopOk(st) && End !in q
    ensures Drain(st, q).status == Ended ==> st.status == Ended
    decreases |q|
  {
    if q != [] && st.status == Running {
      assert q[0] != End && End !in q[1..];
      NoEndNoEnded(Step(st, q[0]), q[1..]);
    }
  }

  /**
   * As intended: whenever the listener reads its stream to the end, draining
   * what it enqueued stops the loop, whoever's turn it was.
   */
  lemma DisconnectEndsLoop(st: Loop, sh: Shared, lines: seq<Line>, size: (int, int))
    requires LoopOk(st) && st.status == Running && SizeAccepted(size.0, size.1)
    requires Listen(sh, lines, size).eof
    ensures Drain(st, Listen(sh, lines, size).events).status != Running
  {
    var h := Listen(sh, lines, size);
    assert End in h.events;
  }
}

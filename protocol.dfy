/**
 * What the listener and the foreground loop exchange: decoded message fields
 * and the events put on the queue between them.
 */
module Protocol {
  /** A field of a decoded message: an integer or a string. */
  datatype Value = Int(i: int) | Str(s: string)

  /** Message codes. */
  const MATCHED := 110
  const OPPONENT_LEFT := 111
  const BOARD_SIZE := 210
  const MOVE := 220

  /** The queue items: ("your_turn",), ("wait_turn",), ("opponent_move", r, c), ("end",). */
  datatype Event = YourTurn | WaitTurn | OpponentMove(r: Value, c: Value) | End
}

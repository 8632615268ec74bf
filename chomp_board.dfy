/**
 * The engine object of the client: a rows x cols array of booleans (true =
 * uneaten) that `MakeMove` eats in place with two nested loops, and the fields
 * `turn` and `winner` it updates. `State()` reads the object as a ChompSpec
 * game, and every operation is specified against the functions there.
 */
module ChompBoard {
  import opened Wrappers
  import opened ChompSpec

  class PoisonedChocolate {
    const rows: int
    const cols: int
    const board: array2<bool>
    var turn: int
    var winner: Option<int>

    /** The array has one row per element of range(rows) and one column per element of range(cols). */
    ghost predicate Valid()
      reads this
    {
      board.Length0 == Span(rows) && board.Length1 == Span(cols)
    }

    /** The array as a list of rows. */
    ghost function Grid(): seq<seq<bool>>
      reads board
    {
      seq(board.Length0, i requires 0 <= i < board.Length0 reads board =>
        seq(board.Length1, j requires 0 <= j < board.Length1 reads board => board[i, j]))
    }

    /** The object as a game value. */
    ghost function State(): Game
      reads this, board
    {
      Game(rows, cols, Grid(), turn, winner)
    }

    /** A new game: every cell uneaten, player 1 to move, no winner. */
    constructor (rows: int, cols: int)
      ensures Valid() && fresh(board)
      ensures State() == NewGame(rows, cols)
    {
      this.rows := rows;
      this.cols := cols;
      board := new bool[Span(rows), Span(cols)]((i, j) => true);
      turn := 1;
      winner := None;
      new;
      assert Grid() == NewGame(rows, cols).board by {
        forall i | 0 <= i < Span(rows)
          ensures Grid()[i] == NewGame(rows, cols).board[i]
        {
        }
      }
    }

    /** `valid_move`: (r, c) is on the board and uneaten; it only reads the object. */
    predicate ValidMove(r: int, c: int)
      requires Valid()
      reads this, board
      ensures ValidMove(r, c) == IsValidMove(State(), r, c)
    {
      0 <= r < rows && 0 <= c < cols && board[r, c]
    }

    /**
     * `make_move`: refused (false, nothing changes) on an invalid cell or once
     * there is a winner; otherwise eats every cell (i, j) with i >= r and
     * j >= c, then sets the winner or flips the turn, and returns true.
     */
    method MakeMove(r: int, c: int) returns (ok: bool)
      requires Valid()
      modifies this, board
      ensures Valid()
      ensures ok == MoveSucceeds(old(State()), r, c)
      ensures State() == Move(old(State()), r, c)
      ensures forall i, j :: 0 <= i < board.Length0 && 0 <= j < board.Length1 ==>
        board[i, j] == (old(board[i, j]) && !(ok && i >= r && j >= c))
    {
      if !ValidMove(r, c) || winner.Some? {
        return false;
      }
      ghost var before := State();
      assert MoveSucceeds(before, r, c);
      var i := r;
      while i < rows
        modifies board
        invariant r <= i <= rows
        invariant forall a, b :: 0 <= a < board.Length0 && 0 <= b < board.Length1 ==>
          board[a, b] == (old(board[a, b]) && !(r <= a < i && c <= b))
      {
        var j := c;
        while j < cols
          modifies board
          invariant c <= j <= cols
          invariant forall a, b :: 0 <= a < board.Length0 && 0 <= b < board.Length1 ==>
            board[a, b] == (old(board[a, b]) && !((r <= a < i && c <= b) || (a == i && c <= b < j)))
        {
          board[i, j] := false;
          j := j + 1;
        }
        i := i + 1;
      }
      assert Grid() == Eat(before.board, r, c) by {
        forall a | 0 <= a < board.Length0
          ensures Grid()[a] == Eat(before.board, r, c)[a]
        {
        }
      }
      ghost var eaten := Grid();
      assert board[0, 0] == eaten[0][0];
      if !board[0, 0] {
        winner := Some(if turn == 1 then 0 else 1);
      } else {
        turn := if turn == 1 then 0 else 1;
      }
      assert Grid() == eaten;
      return true;
    }
  }
}

/**
 * The "poisoned chocolate" (Chomp) engine as a value: the board, whose turn it
 * is, and the winner. The class in ChompBoard mutates an array in place and is
 * proved to follow the functions defined here; the game-level properties
 * (staircase closure, the winner rule, finality, progress) are proved here.
 */
module ChompSpec {
  import opened Wrappers

  /** The number of elements of Python's `range(n)`. */
  function Span(n: int): (k: nat)
    ensures n >= 0 ==> k == n
    ensures n < 0 ==> k == 0
  {
    if n < 0 then 0 else n
  }

  /**
   * A game: `board[i][j]` is true while cell (i, j) is uneaten; (0, 0) is the
   * poisoned cell. `turn` is the player to move, `winner` is None until the
   * poison has been eaten.
   */
  datatype Game = Game(rows: int, cols: int, board: seq<seq<bool>>, turn: int, winner: Option<int>)

  /** The board has Span(rows) rows of Span(cols) cells each. */
  predicate WellFormed(g: Game) {
    |g.board| == Span(g.rows) &&
    forall i :: 0 <= i < |g.board| ==> |g.board[i]| == Span(g.cols)
  }

  /** The other player, as the source computes it: 0 after 1, and 1 after anything else. */
  function Other(p: int): (q: int)
    ensures q == 0 || q == 1
    ensures p == 0 || p == 1 ==> q != p
  {
    if p == 1 then 0 else 1
  }

  /** A fresh game: every cell uneaten, player 1 to move, no winner. */
  function NewGame(rows: int, cols: int): (g: Game)
    ensures WellFormed(g) && g.rows == rows && g.cols == cols
    ensures forall i, j :: 0 <= i < Span(rows) && 0 <= j < Span(cols) ==> g.board[i][j]
    ensures g.turn == 1 && g.winner == None
  {
    Game(rows, cols, seq(Span(rows), _ => seq(Span(cols), _ => true)), 1, None)
  }

  /** Cell (r, c) lies on the board and is still uneaten. */
  predicate IsValidMove(g: Game, r: int, c: int)
    requires WellFormed(g)
    ensures IsValidMove(g, r, c) <==> 0 <= r < |g.board| && 0 <= c < |g.board[r]| && g.board[r][c]
  {
    0 <= r < g.rows && 0 <= c < g.cols && g.board[r][c]
  }

  /** A move at (r, c) is carried out: it is valid and nobody has won yet. */
  predicate MoveSucceeds(g: Game, r: int, c: int)
    requires WellFormed(g)
  {
    IsValidMove(g, r, c) && g.winner.None?
  }

  /** The board after every cell (i, j) with i >= r and j >= c has been eaten. */
  function Eat(b: seq<seq<bool>>, r: int, c: int): (e: seq<seq<bool>>)
    ensures |e| == |b| && forall i :: 0 <= i < |b| ==> |e[i]| == |b[i]|
    ensures forall i, j :: 0 <= i < |b| && 0 <= j < |b[i]| && i >= r && j >= c ==> !e[i][j]
    ensures forall i, j :: 0 <= i < |b| && 0 <= j < |b[i]| && !(i >= r && j >= c) ==> e[i][j] == b[i][j]
  {
    seq(|b|, i requires 0 <= i < |b| =>
      seq(|b[i]|, j requires 0 <= j < |b[i]| => b[i][j] && !(i >= r && j >= c)))
  }

  /**
   * The game after `make_move(r, c)`: unchanged when the move is refused;
   * otherwise the eaten region grows, and either the poison is gone and the
   * mover's opponent wins, or the turn passes to the other player.
   */
  function Move(g: Game, r: int, c: int): (g': Game)
    requires WellFormed(g)
    ensures WellFormed(g') && g'.rows == g.rows && g'.cols == g.cols
  {
    if !MoveSucceeds(g, r, c) then g
    else
      var b := Eat(g.board, r, c);
      if !b[0][0] then g.(board := b, winner := Some(Other(g.turn)))
      else g.(board := b, turn := Other(g.turn))
  }

  /** The game after the moves of `moves`, in order. */
  function Play(g: Game, moves: seq<(int, int)>): (g': Game)
    requires WellFormed(g)
    ensures WellFormed(g') && g'.rows == g.rows && g'.cols == g.cols
    decreases |moves|
  {
    if moves == [] then g else Play(Move(g, moves[0].0, moves[0].1), moves[1..])
  }

  /** A refused move leaves board, turn and winner as they were. */
  lemma MoveRefused(g: Game, r: int, c: int)
    requires WellFormed(g)
    requires !IsValidMove(g, r, c) || g.winner.Some?
    ensures !MoveSucceeds(g, r, c) && Move(g, r, c) == g
  {
  }

  /**
   * A successful move eats exactly the cells at or above-right of (r, c), and
   * then applies the winner/turn rule.
   */
  lemma MoveSucceeded(g: Game, r: int, c: int)
    requires WellFormed(g) && MoveSucceeds(g, r, c)
    ensures var g' := Move(g, r, c);
      && (forall i, j :: 0 <= i < |g.board| && 0 <= j < |g.board[i]| ==>
            (!g'.board[i][j] <==> !g.board[i][j] || (i >= r && j >= c)))
      && !g'.board[r][c]
      && (!g'.board[0][0] ==> g'.winner == Some(if g.turn == 1 then 0 else 1) && g'.turn == g.turn)
      && (g'.board[0][0] ==> g'.winner == None && g'.turn == (if g.turn == 1 then 0 else 1))
  {
  }

  /** The eaten region is closed upwards and to the right. */
  ghost predicate Staircase(b: seq<seq<bool>>) {
    forall i, j, i', j' ::
      0 <= i <= i' < |b| && 0 <= j <= j' && j < |b[i]| && j' < |b[i']| && !b[i][j] ==> !b[i'][j']
  }

  /** What holds of every game reachable from a new one. */
  ghost predicate Inv(g: Game) {
    && WellFormed(g)
    && Staircase(g.board)
    && (g.turn == 0 || g.turn == 1)
    && (g.winner.Some? ==> g.winner.value == 0 || g.winner.value == 1)
    && (g.winner.Some? <==> g.rows > 0 && g.cols > 0 && !g.board[0][0])
  }

  lemma NewGameInv(rows: int, cols: int)
    ensures Inv(NewGame(rows, cols))
  {
  }

  lemma {:induction false} EatStaircase(b: seq<seq<bool>>, r: int, c: int)
    requires Staircase(b)
    ensures Staircase(Eat(b, r, c))
  {
    var e := Eat(b, r, c);
    forall i, j, i', j' |
      0 <= i <= i' < |e| && 0 <= j <= j' && j < |e[i]| && j' < |e[i']| && !e[i][j]
      ensures !e[i'][j']
    {
      if !b[i][j] {
        assert !b[i'][j'];
      }
    }
  }

  /** One move, successful or not, keeps the invariant. */
  lemma MovePreservesInv(g: Game, r: int, c: int)
    requires Inv(g)
    ensures Inv(Move(g, r, c))
  {
    if MoveSucceeds(g, r, c) {
      EatStaircase(g.board, r, c);
    }
  }

  /** Any sequence of moves keeps the invariant. */
  lemma {:induction false} PlayPreservesInv(g: Game, moves: seq<(int, int)>)
    requires Inv(g)
    ensures Inv(Play(g, moves))
    decreases |moves|
  {
    if moves != [] {
      MovePreservesInv(g, moves[0].0, moves[0].1);
      PlayPreservesInv(Move(g, moves[0].0, moves[0].1), moves[1..]);
    }
  }

  /**
   * From the all-uneaten board, any sequence of moves leaves a staircase-closed
   * board, a turn in {0, 1}, and a winner exactly when the poison is eaten.
   */
  lemma ReachableInv(rows: int, cols: int, moves: seq<(int, int)>)
    ensures Inv(Play(NewGame(rows, cols), moves))
  {
    NewGameInv(rows, cols);
    PlayPreservesInv(NewGame(rows, cols), moves);
  }

  /** Once there is a winner, no move changes anything. */
  lemma {:induction false} WinnerIsFinal(g: Game, moves: seq<(int, int)>)
    requires WellFormed(g) && g.winner.Some?
    ensures Play(g, moves) == g
    decreases |moves|
  {
    if moves != [] {
      WinnerIsFinal(Move(g, moves[0].0, moves[0].1), moves[1..]);
    }
  }

  /** In a reachable game, a winner means the whole board has been eaten. */
  lemma GameOverBoardEmpty(g: Game)
    requires Inv(g) && g.winner.Some?
    ensures forall i, j :: 0 <= i < |g.board| && 0 <= j < |g.board[i]| ==> !g.board[i][j]
  {
    forall i, j | 0 <= i < |g.board| && 0 <= j < |g.board[i]|
      ensures !g.board[i][j]
    {
      assert !g.board[0][0];
    }
  }

  /** A reachable game without a winner on a non-empty board always has a legal move. */
  lemma NeverStuck(g: Game)
    requires Inv(g) && g.winner.None? && g.rows > 0 && g.cols > 0
    ensures MoveSucceeds(g, 0, 0)
  {
  }

  /** The number of uneaten cells in a row. */
  function CountRow(row: seq<bool>): nat {
    if row == [] then 0 else (if row[0] then 1 else 0) + CountRow(row[1..])
  }

  /** The number of uneaten cells on a board. */
  function Uneaten(b: seq<seq<bool>>): nat {
    if b == [] then 0 else CountRow(b[0]) + Uneaten(b[1..])
  }

  /** Eating cells of a row never adds uneaten cells, and eating one strictly removes one. */
  lemma {:induction false} CountRowShrinks(a: seq<bool>, b: seq<bool>)
    requires |a| == |b| && forall k :: 0 <= k < |a| && a[k] ==> b[k]
    ensures CountRow(a) <= CountRow(b)
    ensures (exists k :: 0 <= k < |a| && !a[k] && b[k]) ==> CountRow(a) < CountRow(b)
  {
    if a != [] {
      CountRowShrinks(a[1..], b[1..]);
      if exists k :: 0 <= k < |a| && !a[k] && b[k] {
        var k :| 0 <= k < |a| && !a[k] && b[k];
        if k > 0 {
          assert !a[1..][k - 1] && b[1..][k - 1];
        }
      }
    }
  }

  lemma {:induction false} UneatenShrinks(a: seq<seq<bool>>, b: seq<seq<bool>>)
    requires |a| == |b|
    requires forall i :: 0 <= i < |a| ==> |a[i]| == |b[i]|
    requires forall i, j :: 0 <= i < |a| && 0 <= j < |a[i]| && a[i][j] ==> b[i][j]
    ensures Uneaten(a) <= Uneaten(b)
    ensures (exists i, j :: 0 <= i < |a| && 0 <= j < |a[i]| && !a[i][j] && b[i][j]) ==> Uneaten(a) < Uneaten(b)
  {
    if a != [] {
      CountRowShrinks(a[0], b[0]);
      UneatenShrinks(a[1..], b[1..]);
      if exists i, j :: 0 <= i < |a| && 0 <= j < |a[i]| && !a[i][j] && b[i][j] {
        var i, j :| 0 <= i < |a| && 0 <= j < |a[i]| && !a[i][j] && b[i][j];
        if i > 0 {
          assert !a[1..][i - 1][j] && b[1..][i - 1][j];
        }
      }
    }
  }

  /** Every successful move eats at least one cell, so a game lasts at most rows * cols moves. */
  lemma MoveShrinks(g: Game, r: int, c: int)
    requires WellFormed(g) && MoveSucceeds(g, r, c)
    ensures Uneaten(Move(g, r, c).board) < Uneaten(g.board)
  {
    var g' := Move(g, r, c);
    MoveSucceeded(g, r, c);
    UneatenShrinks(g'.board, g.board);
  }

  /** The number of moves of `moves` that succeed when played in order from `g`. */
  function Successes(g: Game, moves: seq<(int, int)>): nat
    requires WellFormed(g)
    decreases |moves|
  {
    if moves == [] then 0
    else
      var counted := if MoveSucceeds(g, moves[0].0, moves[0].1) then 1 else 0;
      counted + Successes(Move(g, moves[0].0, moves[0].1), moves[1..])
  }

  /** Each successful move uses up at least one uneaten cell. */
  lemma {:induction false} PlayBounded(g: Game, moves: seq<(int, int)>)
    requires WellFormed(g)
    ensures Successes(g, moves) + Uneaten(Play(g, moves).board) <= Uneaten(g.board)
    decreases |moves|
  {
    if moves != [] {
      var (r, c) := moves[0];
      if MoveSucceeds(g, r, c) {
        MoveShrinks(g, r, c);
      }
      PlayBounded(Move(g, r, c), moves[1..]);
    }
  }

  lemma {:induction false} CountRowFull(n: nat)
    ensures CountRow(seq(n, _ => true)) == n
  {
    if n > 0 {
      assert seq(n, _ => true)[1..] == seq(n - 1, _ => true);
      CountRowFull(n - 1);
    }
  }

  lemma {:induction false} UneatenFull(m: nat, n: nat)
    ensures Uneaten(seq(m, _ => seq(n, _ => true))) == m * n
  {
    if m > 0 {
      assert seq(m, _ => seq(n, _ => true))[1..] == seq(m - 1, _ => seq(n, _ => true));
      CountRowFull(n);
      UneatenFull(m - 1, n);
    }
  }

  /** A game lasts at most rows * cols successful moves, whatever is played. */
  lemma GameLength(rows: int, cols: int, moves: seq<(int, int)>)
    ensures Successes(NewGame(rows, cols), moves) <= Span(rows) * Span(cols)
  {
    UneatenFull(Span(rows), Span(cols));
    PlayBounded(NewGame(rows, cols), moves);
  }

  /**
   * Two moves on a 2x2 board: player 1 eats (1, 1), leaving the other three
   * cells and passing the turn to player 0, who then eats the poison and loses.
   */
  lemma TwoByTwoScenario()
    ensures var g1 := Move(NewGame(2, 2), 1, 1);
      && g1.board == [[true, true], [true, false]]
      && g1.turn == 0 && g1.winner == None
      && var g2 := Move(g1, 0, 0);
      && g2.board == [[false, false], [false, false]]
      && g2.winner == Some(1)
  {
    var g0 := NewGame(2, 2);
    assert g0.board[0] == [true, true] && g0.board[1] == [true, true];
    assert MoveSucceeds(g0, 1, 1);
    var g1 := Move(g0, 1, 1);
    assert g1.board[0] == [true, true] && g1.board[1] == [true, false];
    assert MoveSucceeds(g1, 0, 0);
    var g2 := Move(g1, 0, 0);
    assert g2.board[0] == [false, false] && g2.board[1] == [false, false];
  }
}

/** The game itself (script.js:1-60, 252-283): the shared board and the gameOver flag,
    the human's click, the computer's reply, and the restart button. Rendering and the
    status line are left out; the 500 ms timer between the human's move and the
    computer's is represented by HandleCellClick reporting that the reply is due. */
module Game {
  import opened Board
  import opened Lines
  import opened Outcome
  import opened MoveGen
  import opened Evaluate
  import opened Search

  /** The depth of the computer's search (script.js:45). */
  const AI_DEPTH := 2

  class Game {
    /** The program's `board`: never replaced, only written cell by cell. */
    const board: array2<Cell>
    var gameOver: bool

    /** The board has the fixed size, and while the game runs nobody has five in a row
        and some cell is still empty: every move that ends the game sets gameOver. */
    ghost predicate Valid()
      reads this, board
    {
      IsBoard(board) && (!gameOver ==> Winner(Snap(board)) == None && !Full(Snap(board)))
    }

    /** The page loads with an empty board and the game running (script.js:2-4). */
    constructor ()
      ensures Valid() && fresh(board)
      ensures Snap(board) == EmptyGrid() && !gameOver
    {
      board := new Cell[SIZE, SIZE]((i, j) => Empty);
      gameOver := false;
      new;
      SnapIs(board, EmptyGrid());
      EmptyHasNoWinner();
      assert EmptyGrid()[0][0] == Empty;
    }

    /** checkWin (script.js:252-272): checkWinCustom on the game's board. */
    method CheckWin(row: int, col: int, player: Cell) returns (won: bool)
      requires IsBoard(board)
      ensures won == WinsAt(Snap(board), row, col, player)
    {
      won := CheckWinCustom(board, row, col, player);
    }

    /** isBoardFull (script.js:274-276): isBoardFullCustom on the game's board. */
    predicate IsBoardFull()
      reads this, board
      requires IsBoard(board)
      ensures IsBoardFull() == Full(Snap(board))
    {
      IsBoardFullCustom(board)
    }

    /** evaluateMove (script.js:218-248), which nothing calls: evaluateMoveCustom read on
        the game's board. */
    method EvaluateMove(row: int, col: int, player: Cell) returns (score: nat)
      requires IsBoard(board)
      ensures score == CellScore(Snap(board), row, col, player)
    {
      score := EvaluateMoveCustom(board, row, col, player);
    }

    /** handleCellClick (script.js:24-41). A click while the game is over or on an
        occupied cell does nothing. Otherwise the human's X goes on the cell; the game
        ends if that X completes five or fills the board, and the computer's reply is
        due (aiTurn) exactly when it does not. */
    method HandleCellClick(row: int, col: int) returns (aiTurn: bool)
      requires Valid() && InBounds(row, col)
      modifies board, this`gameOver
      ensures Valid()
      ensures old(gameOver) || old(board[row, col]) != Empty ==>
        Snap(board) == old(Snap(board)) && gameOver == old(gameOver) && !aiTurn
      ensures !old(gameOver) && old(board[row, col]) == Empty ==>
        Snap(board) == Place(old(Snap(board)), row, col, X) &&
        gameOver == (WinsAt(Snap(board), row, col, X) || Full(Snap(board))) &&
        aiTurn == !gameOver
    {
      if gameOver || board[row, col] != Empty {
        return false;
      }
      ghost var g := Snap(board);
      SetCell(board, row, col, X);
      WinOnlyThroughLastMove(g, row, col, X);
      var won := CheckWin(row, col, X);
      if won {
        gameOver := true;
        return false;
      }
      if IsBoardFull() {
        gameOver := true;
        return false;
      }
      aiTurn := true;
    }

    /** findRandomMove (script.js:62-70), with Math.random() given as roll in [0, 1):
        an empty cell picked by roll from the empty cells in row-major order, or (0, 0)
        when there is none. */
    method FindRandomMove(roll: real) returns (m: Move)
      requires IsBoard(board) && 0.0 <= roll < 1.0
      ensures InBounds(m.row, m.col)
      ensures !Full(Snap(board)) ==> Free(Snap(board), m)
      ensures Full(Snap(board)) ==> m == Move(0, 0)
    {
      var emptyCells := EmptyCandidates(board);
      EmptyCellsSpec(Snap(board));
      var n := |emptyCells|;
      if n == 0 {
        m := Move(0, 0);
      } else {
        m := emptyCells[RandomIndex(roll, n)];
        assert m in emptyCells;
      }
    }

    /** aiMove (script.js:43-58), with Math.random() given as roll. The computer searches
        to depth 2 with the full window, plays the move found or else a random empty
        cell, and ends the game if its O completes five or fills the board. While the
        game runs, the search always finds a move, so the random fallback is never
        used: the cell played is the first best candidate (Search.RootMove). */
    method AiMove(roll: real) returns (m: Move)
      requires Valid() && 0.0 <= roll < 1.0
      modifies board, this`gameOver
      ensures Valid()
      ensures InBounds(m.row, m.col)
      ensures Snap(board) == Place(old(Snap(board)), m.row, m.col, O)
      ensures gameOver == (old(gameOver) || WinsAt(Snap(board), m.row, m.col, O) || Full(Snap(board)))
      ensures !Full(old(Snap(board))) ==> Free(old(Snap(board)), m)
      ensures !old(gameOver) ==>
        AlphaBeta(old(Snap(board)), AI_DEPTH, true, -INF, INF).move == Some(m) &&
        OnBoard(Candidates(old(Snap(board)))) &&
        PicksFirstBest(old(Snap(board)), AI_DEPTH, Candidates(old(Snap(board))),
                       AlphaBeta(old(Snap(board)), AI_DEPTH, true, -INF, INF))
    {
      ghost var g := Snap(board);
      var best := Minimax(board, AI_DEPTH, true, -INF, INF);
      AlphaBetaMove(g, AI_DEPTH, true, -INF, INF);
      if !gameOver {
        RootMove(g, AI_DEPTH);
      }
      if best.move.Some? {
        m := best.move.value;
      } else {
        m := FindRandomMove(roll);
      }
      SetCell(board, m.row, m.col, O);
      if !gameOver {
        WinOnlyThroughLastMove(g, m.row, m.col, O);
      }
      var won := CheckWin(m.row, m.col, O);
      if won {
        gameOver := true;
        return;
      }
      if IsBoardFull() {
        gameOver := true;
      }
    }

    /** The restart button (script.js:279-283): every cell cleared, the game running. */
    method Restart()
      requires Valid()
      modifies board, this`gameOver
      ensures Valid()
      ensures Snap(board) == EmptyGrid() && !gameOver
    {
      for i := 0 to SIZE
        invariant forall a, b | 0 <= a < i && 0 <= b < SIZE :: board[a, b] == Empty
      {
        for j := 0 to SIZE
          invariant forall a, b | 0 <= a < i && 0 <= b < SIZE :: board[a, b] == Empty
          invariant forall b | 0 <= b < j :: board[i, b] == Empty
        {
          board[i, j] := Empty;
        }
      }
      gameOver := false;
      SnapIs(board, EmptyGrid());
      EmptyHasNoWinner();
      assert EmptyGrid()[0][0] == Empty;
    }
  }

  /** Math.floor(Math.random() * n), for a roll in [0, 1): an index into a list of n
      elements. */
  function RandomIndex(roll: real, n: nat): (k: nat)
    requires 0.0 <= roll < 1.0 && n > 0
    ensures k < n
  {
    assert 0.0 <= roll * n as real < n as real by {
      assert (1.0 - roll) * n as real > 0.0;
    }
    (roll * n as real).Floor
  }
}

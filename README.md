# Gomoku engine in Dafny

A verified model of the engine behind a browser game of five-in-a-row (Gomoku) on a
15x15 board. The human plays X and the computer plays O. A stone completes the game
when it lies on a line of five or more of its owner's stones, horizontally,
vertically or diagonally. The game is a draw when the board fills up first. The
computer answers each human move with a depth-2 minimax search with alpha-beta
pruning. The search looks only at empty cells next to a stone, and scores leaf
positions with a pattern table (open fours, blocked threes, and so on).

The model follows the program's own structure:

- `board.dfy` (module `Board`) holds the cells, moves and the board. The board is
  both a value (`Grid`, 15 rows of 15 cells) and the `array2<Cell>` that the program
  writes in place. `Snap` gives the array's current value.
- `lines.dfy` (module `Lines`) holds the line scans and the win check
  `checkWinCustom`.
- `symmetry.dfy` (module `Symmetry`) shows that the win check is the same on the
  board reflected across either middle line or either diagonal.
- `outcome.dfy` (module `Outcome`) holds `getWinner`, the whole-board scan for a
  winner.
- `movegen.dfy` (module `MoveGen`) holds `getCandidateMoves`, including the fallback
  to every empty cell.
- `evaluate.dfy` (module `Evaluate`) holds `evaluateMoveCustom`, the pattern table,
  and `evaluateBoard`.
- `search.dfy` (module `Search`) holds `minimax` in three forms:
  - `AlphaBeta`, a function on board values.
  - `FullSearch`, the same search without pruning, used as the reference.
  - `Minimax`, the method that places stones on the shared array, searches, and
    clears them again.
- `game.dfy` (module `Game`) holds the page state: the shared board, the
  `gameOver` flag, the human's click, the computer's reply, and restart.

Every scanning routine of the program is a method with its loops over the array. Each
one is proved equal to a function on the board's value. The properties of the
engine are then proved about those functions.

## Model

| member | source | states |
|---|---|---|
| `Board.IsBoardFullCustom` | script.js:213-215 | The board counts as full exactly when no cell is empty. |
| `Board.SetCell` | script.js:84 | Writing one cell changes that cell and no other. |
| `Board.PlaceUndo` | script.js:84-86 | Putting a stone on an empty cell and clearing the cell again restores the board exactly. |
| `Lines.Run` | script.js:198-207 | One side of the win check counts the player's stones from step d on, stopping at the edge or at any other cell. It never counts more than the steps left before the cap, so at most four; `RunCells` and `RunIsCappedReach` say which cells it counts. |
| `Lines.WinsAt` | script.js:192-211 | The win check on a board value: some direction's count of the origin plus both sides reaches five. `WinsAtIffFive` and `CapDoesNotMatter` below say what this means, and `Symmetry.WinsAtReflect` that it is the same on every reflected board. |
| `Lines.Side` | script.js:159-165 | One side of the evaluator's scan counts at most the steps left before the cap, records at most one block, and a blocked side stopped before the cap; `SideBlock` says when a side is blocked, and `SideCountIsRun` what it counts. |
| `Lines.ScanRun` | script.js:198-202 | One side of the win check counts the player's stones that directly follow the origin, for up to four steps, stopping at the edge or at any other cell. |
| `Lines.CheckWinCustom` | script.js:192-211 | The in-place win check reports a win exactly when some direction counts the origin plus both sides at five or more. |
| `Lines.RunIsCappedReach` | script.js:198-207 | The four-step cap on a side equals the minimum of the side's maximal run and four. |
| `Lines.CapDoesNotMatter` | script.js:192-211 | The win check holds exactly when some direction's maximal run through the cell, with no cap, is five or longer. |
| `Lines.WinsAtIffFive` | script.js:192-211 | For the owner of the cell, the win check holds exactly when five of that player's stones lie in a row that passes through the cell. |
| `Lines.ScanSide` | script.js:159-165 | One side of the evaluator's scan counts the player's stones without gaps. The edge or an opponent's stone blocks that side, and an empty cell leaves it open. |
| `Lines.SideBlock` | script.js:159-165 | For a player's stone, a side is blocked exactly when its scan stops before the cap at a cell that is not empty: the board edge (script.js:161) or the other player's stone (script.js:163). Stopping at an empty cell or at the cap leaves it open. |
| `Lines.SideCountIsRun` | script.js:159-165 | The evaluator's count on a side equals the win check's run on that side. |
| `Symmetry.LookReflect` | script.js:196-207 | Looking d steps from the reflected cell along the reflected step sees what looking from the cell along the step saw, the edge included. |
| `Symmetry.RunReflect` | script.js:198-207 | A side of the win check counts the same on the reflected board, from the reflected cell, along the reflected step. |
| `Symmetry.LineRunReflect` | script.js:196-210 | The count of a direction through a cell equals the count of the reflected direction through the reflected cell of the reflected board. The two sides may swap. |
| `Symmetry.WinsAtReflect` | script.js:192-211 | Win symmetry: for each reflection across a middle line or a diagonal, the win check holds at a cell exactly when it holds at the reflected cell of the reflected board. |
| `Outcome.Winner` | script.js:183-190 | getWinner on a board value: the owner of the first occupied cell in row-major order that passes the win check, or null. `WinnerSpec` and `WinnerIsPlayer` below state what it returns. |
| `Outcome.GetWinner` | script.js:183-190 | The in-place scan returns what `Winner` returns on the board's value. |
| `Outcome.WinnerSpec` | script.js:183-190 | The result is null exactly when no occupied cell passes the win check. A returned player is never empty, and owns the first winning cell in row-major order. |
| `Outcome.WinnerIsPlayer` | script.js:183-190 | getWinner returns null, O or X, never the empty cell. |
| `Outcome.EmptyHasNoWinner` | script.js:2 | The initial empty board has no winner. |
| `Outcome.WinOnlyThroughLastMove` | script.js:29 | Take a board with no winner and add one stone. The new board has a winner exactly when the new stone wins at its own cell. So checking only the cell just played misses nothing. |
| `MoveGen.Candidates` | script.js:113-137 | getCandidateMoves on a board value: the empty neighbours of stones in the program's insertion order, or every empty cell when there are none. `CandidatesSpec` and the lemmas after it state what it returns. |
| `MoveGen.CandidatesSpec` | script.js:113-137 | The candidates are distinct empty cells. If some empty cell touches a stone, the candidates are exactly those cells. Otherwise they are exactly all empty cells. |
| `MoveGen.NoCandidatesIffFull` | script.js:129-135 | The candidate list is empty exactly when the board is full. |
| `MoveGen.SomeCandidate` | script.js:113-137 | Any empty cell guarantees at least one candidate. |
| `MoveGen.EmptyBoardCandidates` | script.js:129-135 | On the empty board, every cell is a candidate. |
| `MoveGen.SingleStoneCandidates` | script.js:117-125 | With a single stone on the board, the candidates are exactly its on-board neighbours. |
| `MoveGen.NearLoneStone` | script.js:115-128 | On a board with a single stone, the empty cells next to a stone are exactly that stone's on-board neighbours, and there is at least one. |
| `MoveGen.EmptyCellsSpec` | script.js:63-68 | The list of empty cells holds exactly the empty cells, and it is empty exactly when the board is full. |
| `MoveGen.InsertSpec` | script.js:122 | Adding a move to the Set adds exactly that move and keeps the collection free of duplicates. |
| `MoveGen.ConsiderSpec` | script.js:120-123 | A neighbour is added exactly when it is on the board and empty. |
| `MoveGen.NeighbourRowsSpec` | script.js:118-125 | The neighbour loops of one stone add exactly the empty on-board cells within one step of it, and add no duplicates. |
| `MoveGen.NearRowsSpec` | script.js:115-128 | The first pass collects exactly the empty cells next to some stone, with no duplicates. |
| `MoveGen.EmptyRowsSpec` | script.js:130-134 | The fallback pass collects exactly the empty cells, with no duplicates. |
| `MoveGen.AddNeighbours` | script.js:118-125 | The in-place neighbour loops of one stone extend the list as `NeighbourRows` does on the board's value. |
| `MoveGen.NearInRowScan` | script.js:116-127 | The in-place j loop of the first pass over row i adds to the list exactly what `NearCols` adds for that row of the board's value. |
| `MoveGen.NearCandidates` | script.js:115-128 | The in-place first pass returns `NearRows` of the board's value. |
| `MoveGen.EmptyInRowScan` | script.js:131-133 | The in-place j loop of the fallback over row i adds to the list exactly what `EmptyCols` adds for that row of the board's value. |
| `MoveGen.EmptyCandidates` | script.js:130-134 | The in-place fallback scan returns `EmptyRows` of the board's value: the empty cells in row-major order. |
| `MoveGen.GetCandidateMoves` | script.js:113-137 | The in-place generator returns `Candidates` of the board's value, in the order of the program's Set. |
| `Evaluate.LineScore` | script.js:173-178 | The pattern table: 10000 exactly for five or more. For fewer than five, at most 1000. With both ends blocked, 0 below five. A single stone scores 0. |
| `Evaluate.LineScoreMonotone` | script.js:173-178 | A blocked end never raises a line's score, and a longer line never lowers it. |
| `Evaluate.DirScan` | script.js:156-172 | A direction counts between 1 and 9 stones and at most two blocked ends. |
| `Evaluate.ScanLine` | script.js:157-172 | The in-place scan of both sides gives `DirScan` of the board's value. |
| `Evaluate.CellScore` | script.js:151-181 | A stone's score is between 0 and 40000. |
| `Evaluate.EvaluateMoveCustom` | script.js:151-181 | The in-place evaluator returns `CellScore` of the board's value. |
| `Evaluate.DirScoreWins` | script.js:173 | A direction earns the 10000 prize exactly when the win check counts five in it. Otherwise it earns at most 1000. |
| `Evaluate.CellScoreWins` | script.js:151-181 | A stone scores at least 10000 exactly when the win check holds at it. Otherwise it scores at most 4000. |
| `Evaluate.BoardScore` | script.js:140-149 | A board's evaluation lies between -9000000 and 9000000. |
| `Evaluate.CellTerm` | script.js:144-145 | A stone's share of evaluateBoard: its evaluateMoveCustom score for O, that score negated for X, and 0 for an empty cell; `CellTermSign` states its sign and bound. |
| `Evaluate.CellTermSign` | script.js:144-145 | A cell's share of the evaluation (`Evaluate.CellTerm`) is 0 for an empty cell, non-negative for O and non-positive for X, and lies within 40000 of zero. |
| `Evaluate.EvaluateRow` | script.js:143-146 | One row adds its O scores and subtracts its X scores. |
| `Evaluate.EvaluateBoard` | script.js:140-149 | The in-place evaluation returns `BoardScore` of the board's value. |
| `Evaluate.EmptyBoardScore` | script.js:140-149 | The empty board evaluates to 0. |
| `Evaluate.CellScoreSwap` | script.js:151-181 | Swapping every X and O leaves each stone's score unchanged for its new owner. |
| `Evaluate.BoardScoreSwap` | script.js:140-149 | Swapping every X and O negates the evaluation. |
| `Search.AlphaBeta` | script.js:73-110 | minimax on a board value, with the program's arguments; `AlphaBetaFailSoft`, `FullWindowExact`, `AlphaBetaMove` and `TerminalRules` below state what it returns. |
| `Search.AlphaBetaNode` | script.js:73-110 | One call of minimax: the terminal rules in the program's order, then the loop of the side to move over its candidates with the window it was given. |
| `Search.MaxLoop` | script.js:81-94 | The computer's loop over its candidates: each child is searched with O placed, the first strictly larger value becomes the best, alpha rises to Math.max(alpha, eval), and the loop stops once beta <= alpha. |
| `Search.MinLoop` | script.js:95-108 | The human's loop: X placed, the first strictly smaller value becomes the best, beta falls to Math.min(beta, eval), and the same cutoff. |
| `Search.Minimax` | script.js:73-110 | The in-place search returns what `AlphaBeta` computes on the board it was given, and leaves the board exactly as it found it. |
| `Search.MaxSearch` | script.js:81-94 | The computer's loop places O on each candidate, searches, and clears the cell. It ends with the original board and the result of `MaxLoop`, including the cutoff once beta <= alpha. |
| `Search.MinSearch` | script.js:95-108 | The human's loop mirrors the computer's loop with X, Math.min and the same cutoff. |
| `Search.TerminalRules` | script.js:74-79 | The terminal rules apply in the program's order. If only O has five, the score is 10000 - depth. If only X has five, the score is -10000 + depth. With no five on a full board or at depth 0, the score is the evaluation. None of these positions returns a move. |
| `Search.AlphaBetaFailSoft` | script.js:73-110 | For any window inside (-INF, INF), pruning returns the exact minimax value when that value is strictly inside the window. Otherwise it returns a bound on the correct side. |
| `Search.ValueBound` | script.js:74-78 | Every minimax value lies within 9000000 + depth of zero, far from the infinities. |
| `Search.FullWindowExact` | script.js:45 | With the full window that the computer's move uses, alpha-beta returns exactly the unpruned result, score and move. |
| `Search.AlphaBetaMove` | script.js:80-108 | A move is returned only from a position with no winner, an empty cell and depth left. The move is a candidate and an empty cell. |
| `Search.MaxLoopMove` | script.js:83-93 | The move from the computer's loop is one of its moves, or the best move it was handed. |
| `Search.FullMaxFirstBest` | script.js:83-94 | The unpruned computer's loop keeps the first move with the largest child value. |
| `Search.MinLoopMove` | script.js:97-107 | The move from the human's loop is one of its moves, or the best move it was handed. |
| `Search.FullMinFirstBest` | script.js:97-108 | The unpruned human's loop keeps the first move with the smallest child value: the strict `<` at script.js:101 never replaces an earlier move by a later one of equal value. |
| `Search.RootMove` | script.js:45 | On a board with no winner and an empty cell, the depth-2 full-window search returns a move. The move is a candidate whose exact value is the largest among the candidates. It is also the first candidate in generation order with that value. |
| `Game.Game.constructor` | script.js:2-4 | The game starts with an empty board and is not over. |
| `Game.Game.CheckWin` | script.js:252-272 | The win check on the page's board agrees with `checkWinCustom` on that board. |
| `Game.Game.IsBoardFull` | script.js:274-276 | The page's board counts as full exactly when no cell is empty. |
| `Game.Game.EvaluateMove` | script.js:218-249 | The unused `evaluateMove` computes `evaluateMoveCustom` on the page's board. |
| `Game.Game.HandleCellClick` | script.js:25-41 | A click is ignored when the game is over or the cell is taken. Otherwise X goes on the cell, and the game ends exactly when that X wins or fills the board. The computer's turn is due exactly when the game did not end. The invariant "no winner and an empty cell while the game runs" is kept. |
| `Game.Game.FindRandomMove` | script.js:62-70 | The fallback returns an empty cell chosen by the roll, or (0, 0) on a full board. |
| `Game.Game.AiMove` | script.js:43-58 | O goes on the chosen cell, and the game ends exactly when that O wins or fills the board. While the game runs, the search always finds a move, so the random fallback is never used. The cell played is the first best candidate. |
| `Game.Game.Restart` | script.js:278-287 | Restart empties every cell and sets the game running again. |
| `Game.RandomIndex` | script.js:69 | `Math.floor(Math.random() * n)` is a valid index into a list of length n. |

## Left out

- Rendering, the status line, and the DOM are not modelled: `renderBoard`, `statusDiv` and the cell click handlers.
- The 500 ms `setTimeout` that schedules the computer's reply is not modelled. `HandleCellClick` returns whether the reply is due, and `AiMove` is a separate method. A second click before the reply is not modelled as an interleaving. Each operation keeps the game invariant on its own, so any order of calls keeps it.
- `Math.random()` is the parameter `roll`, a real number in [0, 1).
- `currentPlayer` is never read or reassigned, so it is not modelled.
- The program's Set of `"i,j"` strings is modelled as a duplicate-free sequence of moves in insertion order. This matches the iteration order of a JavaScript Set.
- `Infinity` is the constant `INF`, 10^9. `ValueBound` shows that every score stays within 9000000 + depth of zero. So for depth up to 991000000, comparisons against `INF` behave as they do against Infinity. The results about the full window require that depth bound.
- `Search.AlphaBetaFailSoft`: stated against the unpruned search for windows inside [-INF, INF]. It does not describe which moves a pruned subtree returns, since only the root's move is used.
- `Game.Game.AiMove`: does not refuse to run when the game is over, as the program does not check `gameOver` there. It then still places an O.
- The program's `aiMove` lacks its closing brace at line 59. `findRandomMove`, `minimax` and the other helpers up to line 249 are therefore declared inside `aiMove`. Function declarations are hoisted, so the behaviour is as if they were top-level, and they are modelled that way.

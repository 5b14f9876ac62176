/** The position evaluator: evaluateMoveCustom (script.js:151-181) scores the lines
    through one stone, evaluateBoard (script.js:140-149) sums those scores over the
    board, positive for the computer (O) and negative for the human (X). */
module Evaluate {
  import opened Board
  import opened Lines

  /** The pattern table of script.js:173-178: five or more, open four, four with one
      end blocked, open three, three with one end blocked, open two; anything else 0. */
  function LineScore(count: nat, block: nat): (s: nat)
    ensures s <= 10000
    ensures s == 10000 <==> count >= 5
    ensures count < 5 ==> s <= 1000
    ensures count < 5 && block >= 2 ==> s == 0
    ensures count <= 1 ==> s == 0
  {
    if count >= 5 then 10000
    else if count == 4 && block == 0 then 1000
    else if count == 4 && block == 1 then 200
    else if count == 3 && block == 0 then 100
    else if count == 3 && block == 1 then 30
    else if count == 2 && block == 0 then 10
    else 0
  }

  /** A blocked end never raises the score of a line, and a longer line never lowers it. */
  lemma LineScoreMonotone(count: nat, block: nat)
    ensures LineScore(count, block + 1) <= LineScore(count, block)
    ensures LineScore(count + 1, block) >= LineScore(count, block)
  {
  }

  /** The line through (r, c) in direction k as evaluateMoveCustom counts it: the
      origin plus the player's stones on both sides, and how many ends are blocked. */
  function DirScan(g: Grid, r: int, c: int, k: int, p: Cell): (s: Scan)
    requires 0 <= k < |Dirs|
    ensures 1 <= s.count <= 2 * STEPS + 1
    ensures s.block <= 2
  {
    var ahead := Side(g, r, c, Dirs[k].0, Dirs[k].1, p, 1);
    var behind := Side(g, r, c, Opposite[k].0, Opposite[k].1, p, 1);
    Scan(1 + ahead.count + behind.count, ahead.block + behind.block)
  }

  function DirScore(g: Grid, r: int, c: int, k: int, p: Cell): nat
    requires 0 <= k < |Dirs|
  {
    LineScore(DirScan(g, r, c, k, p).count, DirScan(g, r, c, k, p).block)
  }

  /** The loop over directions of evaluateMoveCustom, resumed at direction k. */
  function ScoreFrom(g: Grid, r: int, c: int, p: Cell, k: nat): (s: nat)
    requires k <= |Dirs|
    decreases |Dirs| - k
    ensures s <= 10000 * (|Dirs| - k)
  {
    if k == |Dirs| then 0 else DirScore(g, r, c, k, p) + ScoreFrom(g, r, c, p, k + 1)
  }

  /** evaluateMoveCustom (script.js:151-181). */
  function CellScore(g: Grid, r: int, c: int, p: Cell): (s: nat)
    ensures s <= 40000
  {
    ScoreFrom(g, r, c, p, 0)
  }

  /** A direction scores the five-or-more prize exactly when checkWinCustom counts
      five in it. */
  lemma DirScoreWins(g: Grid, r: int, c: int, k: int, p: Cell)
    requires 0 <= k < |Dirs|
    ensures DirScore(g, r, c, k, p) == 10000 <==> LineRun(g, r, c, k, p) >= 5
    ensures DirScore(g, r, c, k, p) != 10000 ==> DirScore(g, r, c, k, p) <= 1000
  {
    SideCountIsRun(g, r, c, Dirs[k].0, Dirs[k].1, p, 1);
    SideCountIsRun(g, r, c, Opposite[k].0, Opposite[k].1, p, 1);
  }

  lemma {:induction false} ScoreFromWins(g: Grid, r: int, c: int, p: Cell, k: nat)
    requires k <= |Dirs|
    decreases |Dirs| - k
    ensures (exists k' | k <= k' < |Dirs| :: LineRun(g, r, c, k', p) >= 5) ==> ScoreFrom(g, r, c, p, k) >= 10000
    ensures (forall k' | k <= k' < |Dirs| :: LineRun(g, r, c, k', p) < 5) ==> ScoreFrom(g, r, c, p, k) <= 1000 * (|Dirs| - k)
  {
    if k < |Dirs| {
      DirScoreWins(g, r, c, k, p);
      ScoreFromWins(g, r, c, p, k + 1);
      assert ScoreFrom(g, r, c, p, k) == DirScore(g, r, c, k, p) + ScoreFrom(g, r, c, p, k + 1);
      if k2 :| k < k2 < |Dirs| && LineRun(g, r, c, k2, p) >= 5 {
        assert exists k' | k + 1 <= k' < |Dirs| :: LineRun(g, r, c, k', p) >= 5;
      }
    }
  }

  /** The evaluator and the win check agree: a stone scores at least 10000 exactly
      when checkWinCustom reports five through it; otherwise it scores at most 4000. */
  lemma CellScoreWins(g: Grid, r: int, c: int, p: Cell)
    ensures CellScore(g, r, c, p) >= 10000 <==> WinsAt(g, r, c, p)
    ensures !WinsAt(g, r, c, p) ==> CellScore(g, r, c, p) <= 4000
  {
    ScoreFromWins(g, r, c, p, 0);
  }

  /** One direction of evaluateMoveCustom (script.js:157-172): both sides of the line
      through (row, col), scanned in place. */
  method ScanLine(bd: array2<Cell>, row: int, col: int, k: int, player: Cell)
    returns (count: nat, block: nat)
    requires IsBoard(bd) && 0 <= k < |Dirs|
    ensures Scan(count, block) == DirScan(Snap(bd), row, col, k, player)
  {
    var (dx, dy) := Dirs[k];
    var (ox, oy) := Opposite[k];
    count, block := 1, 0;
    var c1, b1 := ScanSide(bd, row, col, dx, dy, player);
    count, block := count + c1, block + b1;
    var c2, b2 := ScanSide(bd, row, col, ox, oy, player);
    count, block := count + c2, block + b2;
  }

  /** evaluateMoveCustom (script.js:151-181), scanning the board in place. */
  method EvaluateMoveCustom(bd: array2<Cell>, row: int, col: int, player: Cell) returns (score: nat)
    requires IsBoard(bd)
    ensures score == CellScore(Snap(bd), row, col, player)
  {
    ghost var g := Snap(bd);
    score := 0;
    for k := 0 to |Dirs|
      invariant score + ScoreFrom(g, row, col, player, k) == CellScore(g, row, col, player)
    {
      var count, block := ScanLine(bd, row, col, k, player);
      score := score + LineScore(count, block);
    }
  }

  /** A stone's share of evaluateBoard: its evaluateMoveCustom score, counted for the
      computer (O) and against it for the human (X); an empty cell adds nothing. */
  function CellTerm(g: Grid, i: int, j: int): int
    requires InBounds(i, j)
  {
    match g[i][j]
    case Empty => 0
    case O => CellScore(g, i, j, O)
    case X => -(CellScore(g, i, j, X) as int)
  }

  /** A cell's share has the sign of its owner, for O and against X, and is bounded
      by the largest score of a stone. */
  lemma CellTermSign(g: Grid, i: int, j: int)
    requires InBounds(i, j)
    ensures -40000 <= CellTerm(g, i, j) <= 40000
    ensures g[i][j] == Empty ==> CellTerm(g, i, j) == 0
    ensures g[i][j] == O ==> CellTerm(g, i, j) >= 0
    ensures g[i][j] == X ==> CellTerm(g, i, j) <= 0
  {
  }

  /** The inner loop of evaluateBoard (script.js:143-146) over row i, from column j. */
  function RowFrom(g: Grid, i: int, j: nat): (s: int)
    requires 0 <= i < SIZE && j <= SIZE
    decreases SIZE - j
    ensures -40000 * (SIZE - j) <= s <= 40000 * (SIZE - j)
  {
    if j == SIZE then 0 else CellTerm(g, i, j) + RowFrom(g, i, j + 1)
  }

  /** The outer loop of evaluateBoard (script.js:142-147), from row i. */
  function RowsFrom(g: Grid, i: nat): (s: int)
    requires i <= SIZE
    decreases SIZE - i
    ensures -600000 * (SIZE - i) <= s <= 600000 * (SIZE - i)
  {
    if i == SIZE then 0 else RowFrom(g, i, 0) + RowsFrom(g, i + 1)
  }

  /** evaluateBoard (script.js:140-149); no board scores beyond 225 cells at 40000. */
  function BoardScore(g: Grid): (s: int)
    ensures -9_000_000 <= s <= 9_000_000
  {
    RowsFrom(g, 0)
  }

  /** The inner loop of evaluateBoard (script.js:143-146): adds the terms of row i
      to the running score. */
  method EvaluateRow(bd: array2<Cell>, i: int, score0: int) returns (score: int)
    requires IsBoard(bd) && 0 <= i < SIZE
    ensures score == score0 + RowFrom(Snap(bd), i, 0)
  {
    ghost var g := Snap(bd);
    score := score0;
    for j := 0 to SIZE
      invariant score + RowFrom(g, i, j) == score0 + RowFrom(g, i, 0)
    {
      assert RowFrom(g, i, j) == CellTerm(g, i, j) + RowFrom(g, i, j + 1);
      if bd[i, j] == Empty {
        continue;
      }
      var s := EvaluateMoveCustom(bd, i, j, bd[i, j]);
      score := if bd[i, j] == O then score + s else score - s;
    }
  }

  lemma RowsFromStep(g: Grid, i: nat)
    requires i < SIZE
    ensures RowsFrom(g, i) == RowFrom(g, i, 0) + RowsFrom(g, i + 1)
  {
  }

  /** evaluateBoard (script.js:140-149), scanning the board in place. */
  method EvaluateBoard(bd: array2<Cell>) returns (score: int)
    requires IsBoard(bd)
    ensures score == BoardScore(Snap(bd))
  {
    ghost var g := Snap(bd);
    score := 0;
    for i := 0 to SIZE
      invariant score + RowsFrom(g, i) == RowsFrom(g, 0)
    {
      RowsFromStep(g, i);
      score := EvaluateRow(bd, i, score);
    }
  }

  lemma {:induction false} RowFromEmpty(g: Grid, i: int, j: nat)
    requires 0 <= i < SIZE && j <= SIZE
    requires forall b | 0 <= b < SIZE :: g[i][b] == Empty
    decreases SIZE - j
    ensures RowFrom(g, i, j) == 0
  {
    if j < SIZE {
      RowFromEmpty(g, i, j + 1);
    }
  }

  lemma {:induction false} RowsFromEmpty(g: Grid, i: nat)
    requires i <= SIZE
    requires forall a, b | InBounds(a, b) :: g[a][b] == Empty
    decreases SIZE - i
    ensures RowsFrom(g, i) == 0
  {
    if i < SIZE {
      RowFromEmpty(g, i, 0);
      RowsFromEmpty(g, i + 1);
    }
  }

  /** The empty board evaluates to 0. */
  lemma EmptyBoardScore()
    ensures BoardScore(EmptyGrid()) == 0
  {
    RowsFromEmpty(EmptyGrid(), 0);
  }

  /** Boards that hold the same cells with the colours swapped. */
  ghost predicate Swapped(g: Grid, h: Grid)
  {
    forall i, j | InBounds(i, j) :: h[i][j] == Other(g[i][j])
  }

  /** Swapping the colours of every stone swaps what a side scan sees. */
  lemma {:induction false} SideSwap(g: Grid, h: Grid, r: int, c: int, dr: int, dc: int, p: Cell, d: nat)
    requires Swapped(g, h) && p != Empty
    decreases STEPS + 1 - d
    ensures Side(h, r, c, dr, dc, Other(p), d) == Side(g, r, c, dr, dc, p, d)
  {
    if d <= STEPS {
      SideSwap(g, h, r, c, dr, dc, p, d + 1);
      var a, b := r + dr * d, c + dc * d;
      if InBounds(a, b) {
        assert h[a][b] == Other(g[a][b]);
      }
    }
  }

  /** A stone's score is the same after swapping colours, for the swapped owner. */
  lemma CellScoreSwap(g: Grid, r: int, c: int, p: Cell)
    requires p != Empty
    ensures CellScore(Swap(g), r, c, Other(p)) == CellScore(g, r, c, p)
  {
    forall k | 0 <= k < |Dirs|
      ensures DirScan(Swap(g), r, c, k, Other(p)) == DirScan(g, r, c, k, p)
    {
      SideSwap(g, Swap(g), r, c, Dirs[k].0, Dirs[k].1, p, 1);
      SideSwap(g, Swap(g), r, c, Opposite[k].0, Opposite[k].1, p, 1);
    }
    assert ScoreFrom(Swap(g), r, c, Other(p), 0) == ScoreFrom(g, r, c, p, 0);
  }

  lemma {:induction false} RowFromSwap(g: Grid, i: int, j: nat)
    requires 0 <= i < SIZE && j <= SIZE
    decreases SIZE - j
    ensures RowFrom(Swap(g), i, j) == -RowFrom(g, i, j)
  {
    if j < SIZE {
      if g[i][j] != Empty {
        CellScoreSwap(g, i, j, g[i][j]);
      }
      RowFromSwap(g, i, j + 1);
    }
  }

  lemma {:induction false} RowsFromSwap(g: Grid, i: nat)
    requires i <= SIZE
    decreases SIZE - i
    ensures RowsFrom(Swap(g), i) == -RowsFrom(g, i)
  {
    if i < SIZE {
      RowFromSwap(g, i, 0);
      RowsFromSwap(g, i + 1);
      assert RowsFrom(Swap(g), i) == RowFrom(Swap(g), i, 0) + RowsFrom(Swap(g), i + 1);
      assert RowsFrom(g, i) == RowFrom(g, i, 0) + RowsFrom(g, i + 1);
    }
  }

  /** evaluateBoard is symmetric between the players: swapping every X and O
      negates the score. */
  lemma BoardScoreSwap(g: Grid)
    ensures BoardScore(Swap(g)) == -BoardScore(g)
  {
    RowsFromSwap(g, 0);
  }
}

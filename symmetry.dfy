/** The win check of checkWinCustom (script.js:192-211) treats the four scan axes
    alike: reflecting the board across either middle line or either diagonal, and
    the cell with it, does not change whether a stone wins there. */
module Symmetry {
  import opened Board
  import opened Lines

  /** The four reflections of the square board: rows reversed, columns reversed,
      across the main diagonal, and across the other diagonal. */
  datatype Reflection = FlipRows | FlipCols | Transpose | AntiTranspose

  /** Where the reflection sends the cell (r, c): its row, then its column. */
  function ReflectRow(t: Reflection, r: int, c: int): int
  {
    match t
    case FlipRows => SIZE - 1 - r
    case FlipCols => r
    case Transpose => c
    case AntiTranspose => SIZE - 1 - c
  }

  function ReflectCol(t: Reflection, r: int, c: int): int
  {
    match t
    case FlipRows => c
    case FlipCols => SIZE - 1 - c
    case Transpose => r
    case AntiTranspose => SIZE - 1 - r
  }

  /** Where the reflection sends a step (dr, dc) along a line. */
  function ReflectStep(t: Reflection, dr: int, dc: int): (int, int)
  {
    match t
    case FlipRows => (-dr, dc)
    case FlipCols => (dr, -dc)
    case Transpose => (dc, dr)
    case AntiTranspose => (-dc, -dr)
  }

  /** Which scan direction the reflection sends direction k to: the reflections
      across a middle line swap the two diagonals, those across a diagonal swap
      the horizontal and the vertical. */
  function ReflectDir(t: Reflection, k: int): (k': int)
    requires 0 <= k < |Dirs|
    ensures 0 <= k' < |Dirs|
  {
    match t
    case FlipRows => if k == 2 then 3 else if k == 3 then 2 else k
    case FlipCols => if k == 2 then 3 else if k == 3 then 2 else k
    case Transpose => if k == 0 then 1 else if k == 1 then 0 else k
    case AntiTranspose => if k == 0 then 1 else if k == 1 then 0 else k
  }

  /** Reflecting twice gives back the direction. */
  lemma ReflectDirTwice(t: Reflection, k: int)
    requires 0 <= k < |Dirs|
    ensures ReflectDir(t, ReflectDir(t, k)) == k
  {
  }

  /** h is g reflected by t: every cell of h holds what the cell it comes from held. */
  ghost predicate Reflected(g: Grid, h: Grid, t: Reflection)
  {
    forall i, j | InBounds(i, j) :: h[i][j] == g[ReflectRow(t, i, j)][ReflectCol(t, i, j)]
  }

  /** The board reflected by t. */
  function Reflect(g: Grid, t: Reflection): (h: Grid)
    ensures Reflected(g, h, t)
  {
    seq(SIZE, i requires 0 <= i < SIZE =>
      seq(SIZE, j requires 0 <= j < SIZE => g[ReflectRow(t, i, j)][ReflectCol(t, i, j)]))
  }

  /** Looking d steps from the reflected cell along the reflected step sees what
      looking from the cell along the step saw. */
  lemma LookReflect(g: Grid, h: Grid, t: Reflection, r: int, c: int, dr: int, dc: int, d: int)
    requires Reflected(g, h, t)
    ensures Look(h, ReflectRow(t, r, c), ReflectCol(t, r, c), ReflectStep(t, dr, dc).0, ReflectStep(t, dr, dc).1, d)
         == Look(g, r, c, dr, dc, d)
  {
    var a, b := r + dr * d, c + dc * d;
    var s := ReflectStep(t, dr, dc);
    var x, y := ReflectRow(t, r, c) + s.0 * d, ReflectCol(t, r, c) + s.1 * d;
    assert x == ReflectRow(t, a, b) && y == ReflectCol(t, a, b) by {
      match t
      case FlipRows => assert (-dr) * d == -(dr * d);
      case FlipCols => assert (-dc) * d == -(dc * d);
      case Transpose =>
      case AntiTranspose => assert (-dc) * d == -(dc * d); assert (-dr) * d == -(dr * d);
    }
    assert InBounds(x, y) <==> InBounds(a, b);
    if InBounds(a, b) {
      assert ReflectRow(t, x, y) == a && ReflectCol(t, x, y) == b;
      assert h[x][y] == g[a][b];
    }
  }

  /** The capped side scan of the win check is the same on the reflected board. */
  lemma {:induction false} RunReflect(g: Grid, h: Grid, t: Reflection, r: int, c: int, dr: int, dc: int, p: Cell, d: nat)
    requires Reflected(g, h, t)
    decreases STEPS + 1 - d
    ensures Run(h, ReflectRow(t, r, c), ReflectCol(t, r, c), ReflectStep(t, dr, dc).0, ReflectStep(t, dr, dc).1, p, d)
         == Run(g, r, c, dr, dc, p, d)
  {
    if d <= STEPS {
      LookReflect(g, h, t, r, c, dr, dc, d);
      RunReflect(g, h, t, r, c, dr, dc, p, d + 1);
    }
  }

  /** A direction and its opposite are sent to a direction of the reflected board and
      its opposite, in one order or the other. */
  lemma StepsReflect(t: Reflection, k: int)
    requires 0 <= k < |Dirs|
    ensures var k' := ReflectDir(t, k);
      (ReflectStep(t, Dirs[k].0, Dirs[k].1) == Dirs[k'] &&
       ReflectStep(t, Opposite[k].0, Opposite[k].1) == Opposite[k']) ||
      (ReflectStep(t, Dirs[k].0, Dirs[k].1) == Opposite[k'] &&
       ReflectStep(t, Opposite[k].0, Opposite[k].1) == Dirs[k'])
  {
  }

  /** The line the win check counts in direction k through (r, c) has the same length
      as the line in the reflected direction through the reflected cell. */
  lemma LineRunReflect(g: Grid, h: Grid, t: Reflection, r: int, c: int, k: int, p: Cell)
    requires Reflected(g, h, t) && 0 <= k < |Dirs|
    ensures LineRun(h, ReflectRow(t, r, c), ReflectCol(t, r, c), ReflectDir(t, k), p) == LineRun(g, r, c, k, p)
  {
    StepsReflect(t, k);
    RunReflect(g, h, t, r, c, Dirs[k].0, Dirs[k].1, p, 1);
    RunReflect(g, h, t, r, c, Opposite[k].0, Opposite[k].1, p, 1);
  }

  /** Win symmetry: checkWinCustom reports a win at (r, c) exactly when it reports one
      at the reflected cell of the reflected board, for each of the four reflections. */
  lemma WinsAtReflect(g: Grid, t: Reflection, r: int, c: int, p: Cell)
    ensures WinsAt(Reflect(g, t), ReflectRow(t, r, c), ReflectCol(t, r, c), p) == WinsAt(g, r, c, p)
  {
    var h := Reflect(g, t);
    var x, y := ReflectRow(t, r, c), ReflectCol(t, r, c);
    if WinsAt(g, r, c, p) {
      var k :| 0 <= k < |Dirs| && LineRun(g, r, c, k, p) >= 5;
      LineRunReflect(g, h, t, r, c, k, p);
      assert LineRun(h, x, y, ReflectDir(t, k), p) >= 5;
    }
    if WinsAt(h, x, y, p) {
      var k' :| 0 <= k' < |Dirs| && LineRun(h, x, y, k', p) >= 5;
      ReflectDirTwice(t, k');
      LineRunReflect(g, h, t, r, c, ReflectDir(t, k'), p);
      assert LineRun(g, r, c, ReflectDir(t, k'), p) >= 5;
    }
  }
}

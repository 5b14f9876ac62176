/** The line scanner shared by the win check and the evaluator, and the strict
    win check `checkWinCustom` (script.js:192-211). */
module Lines {
  import opened Board

  /** The four scan directions, in the program's order: horizontal, vertical,
      down-right diagonal, down-left diagonal. */
  const Dirs: seq<(int, int)> := [(0, 1), (1, 0), (1, 1), (1, -1)]

  /** The same directions reversed: the program's second loop steps `row - dx * d`,
      which is a step along the opposite direction. */
  const Opposite: seq<(int, int)> := [(0, -1), (-1, 0), (-1, -1), (-1, 1)]

  /** Both scans look at most STEPS cells away from the origin (`d < 5`). */
  const STEPS := 4

  /** What lies d steps from (r, c) along (dr, dc); None when that is off the board. */
  function Look(g: Grid, r: int, c: int, dr: int, dc: int, d: int): Option<Cell>
  {
    if InBounds(r + dr * d, c + dc * d) then Some(g[r + dr * d][c + dc * d]) else None
  }

  /** Strict scan of checkWinCustom: how many cells equal to p follow one another
      from step d on, stopping at the board edge, at any other cell, or after step STEPS. */
  function Run(g: Grid, r: int, c: int, dr: int, dc: int, p: Cell, d: nat): (n: nat)
    decreases STEPS + 1 - d
    ensures d <= STEPS + 1 ==> n <= STEPS + 1 - d
  {
    if d > STEPS then 0
    else if Look(g, r, c, dr, dc, d) == Some(p) then 1 + Run(g, r, c, dr, dc, p, d + 1)
    else 0
  }

  /** The same scan with no step limit but the board itself: the maximal run of p on
      one side of the origin. */
  function Reach(g: Grid, r: int, c: int, dr: int, dc: int, p: Cell, d: nat): (n: nat)
    decreases SIZE - d
  {
    if d >= SIZE then 0
    else if Look(g, r, c, dr, dc, d) == Some(p) then 1 + Reach(g, r, c, dr, dc, p, d + 1)
    else 0
  }

  /** Length of the line checkWinCustom counts through (r, c) in direction k:
      the origin plus both capped sides. */
  function LineRun(g: Grid, r: int, c: int, k: int, p: Cell): nat
    requires 0 <= k < |Dirs|
  {
    1 + Run(g, r, c, Dirs[k].0, Dirs[k].1, p, 1) + Run(g, r, c, Opposite[k].0, Opposite[k].1, p, 1)
  }

  /** checkWinCustom (script.js:192-211): some direction counts five or more. */
  predicate WinsAt(g: Grid, r: int, c: int, p: Cell)
  {
    exists k | 0 <= k < |Dirs| :: LineRun(g, r, c, k, p) >= 5
  }

  /** Cell t steps (t may be negative) from (r, c) along direction k holds p. */
  predicate HoldsAt(g: Grid, r: int, c: int, k: int, t: int, p: Cell)
    requires 0 <= k < |Dirs|
  {
    Look(g, r, c, Dirs[k].0, Dirs[k].1, t) == Some(p)
  }

  /** The five cells at offsets -s .. 4-s along direction k all hold p. */
  ghost predicate Window(g: Grid, r: int, c: int, k: int, s: int, p: Cell)
    requires 0 <= k < |Dirs|
  {
    forall t | -s <= t <= 4 - s :: HoldsAt(g, r, c, k, t, p)
  }

  /** Reference definition of a win: five cells of p in a row, in one of the four
      directions, one of which is (r, c). */
  ghost predicate FiveInLine(g: Grid, r: int, c: int, p: Cell)
  {
    exists k, s | 0 <= k < |Dirs| && 0 <= s <= 4 :: Window(g, r, c, k, s, p)
  }

  /** Looking along the opposite direction is looking at negative offsets. */
  lemma LookBack(g: Grid, r: int, c: int, k: int, d: int)
    requires 0 <= k < |Dirs|
    ensures Look(g, r, c, Opposite[k].0, Opposite[k].1, d) == Look(g, r, c, Dirs[k].0, Dirs[k].1, -d)
  {
  }

  /** Every cell counted by Run holds p, and the first one not counted does not,
      unless the step limit ended the scan. */
  lemma {:induction false} RunCells(g: Grid, r: int, c: int, dr: int, dc: int, p: Cell, d: nat)
    requires d >= 1
    ensures forall t | d <= t < d + Run(g, r, c, dr, dc, p, d) :: Look(g, r, c, dr, dc, t) == Some(p)
    ensures d + Run(g, r, c, dr, dc, p, d) <= STEPS ==>
              Look(g, r, c, dr, dc, d + Run(g, r, c, dr, dc, p, d)) != Some(p)
    decreases STEPS + 1 - d
  {
    if d <= STEPS && Look(g, r, c, dr, dc, d) == Some(p) {
      RunCells(g, r, c, dr, dc, p, d + 1);
    }
  }

  /** If the cells at steps d .. d+m-1 hold p, Run counts at least m of them. */
  lemma {:induction false} RunAtLeast(g: Grid, r: int, c: int, dr: int, dc: int, p: Cell, d: nat, m: nat)
    requires d + m <= STEPS + 1
    requires forall t | d <= t < d + m :: Look(g, r, c, dr, dc, t) == Some(p)
    ensures Run(g, r, c, dr, dc, p, d) >= m
    decreases m
  {
    if m > 0 {
      assert Look(g, r, c, dr, dc, d) == Some(p);
      RunAtLeast(g, r, c, dr, dc, p, d + 1, m - 1);
    }
  }

  /** Capping a side at the step limit is taking the minimum with the maximal run. */
  lemma {:induction false} RunIsCappedReach(g: Grid, r: int, c: int, dr: int, dc: int, p: Cell, d: nat)
    requires 1 <= d <= STEPS + 1
    ensures Run(g, r, c, dr, dc, p, d) == Min(Reach(g, r, c, dr, dc, p, d), STEPS + 1 - d)
    decreases STEPS + 1 - d
  {
    if d <= STEPS && Look(g, r, c, dr, dc, d) == Some(p) {
      RunIsCappedReach(g, r, c, dr, dc, p, d + 1);
    }
  }

  /** checkWinCustom caps each side at four steps; the cap never changes its answer:
      it reports a win exactly when, in some direction, the maximal run of p through
      (r, c) (both sides plus the origin) is five or longer. */
  lemma CapDoesNotMatter(g: Grid, r: int, c: int, p: Cell)
    ensures WinsAt(g, r, c, p) <==>
      exists k | 0 <= k < |Dirs| ::
        1 + Reach(g, r, c, Dirs[k].0, Dirs[k].1, p, 1) + Reach(g, r, c, Opposite[k].0, Opposite[k].1, p, 1) >= 5
  {
    forall k | 0 <= k < |Dirs|
      ensures LineRun(g, r, c, k, p) >= 5 <==>
        1 + Reach(g, r, c, Dirs[k].0, Dirs[k].1, p, 1) + Reach(g, r, c, Opposite[k].0, Opposite[k].1, p, 1) >= 5
    {
      RunIsCappedReach(g, r, c, Dirs[k].0, Dirs[k].1, p, 1);
      RunIsCappedReach(g, r, c, Opposite[k].0, Opposite[k].1, p, 1);
    }
  }

  /** The win check agrees with the reference definition: for an occupied origin,
      checkWinCustom holds exactly when five of p lie in a row through (r, c). */
  lemma WinsAtIffFive(g: Grid, r: int, c: int, p: Cell)
    requires InBounds(r, c)
    ensures FiveInLine(g, r, c, p) <==> g[r][c] == p && WinsAt(g, r, c, p)
  {
    if g[r][c] == p && WinsAt(g, r, c, p) {
      var k :| 0 <= k < |Dirs| && LineRun(g, r, c, k, p) >= 5;
      WindowFromRun(g, r, c, k, p);
    }
    if FiveInLine(g, r, c, p) {
      var k, s :| 0 <= k < |Dirs| && 0 <= s <= 4 && Window(g, r, c, k, s, p);
      RunFromWindow(g, r, c, k, s, p);
    }
  }

  lemma WindowFromRun(g: Grid, r: int, c: int, k: int, p: Cell)
    requires InBounds(r, c) && g[r][c] == p
    requires 0 <= k < |Dirs| && LineRun(g, r, c, k, p) >= 5
    ensures FiveInLine(g, r, c, p)
  {
    var dr, dc := Dirs[k].0, Dirs[k].1;
    var br, bc := Opposite[k].0, Opposite[k].1;
    var a := Run(g, r, c, dr, dc, p, 1);
    var b := Run(g, r, c, br, bc, p, 1);
    RunCells(g, r, c, dr, dc, p, 1);
    RunCells(g, r, c, br, bc, p, 1);
    var s: int := if b >= 4 then 4 else b;
    forall t: int | -s <= t <= 4 - s
      ensures HoldsAt(g, r, c, k, t, p)
    {
      if t == 0 {
        assert Look(g, r, c, dr, dc, 0) == Some(g[r][c]);
      } else if t > 0 {
        assert 1 <= t < 1 + a;
      } else {
        assert 1 <= -t < 1 + b;
        LookBack(g, r, c, k, -t);
      }
    }
    assert Window(g, r, c, k, s, p);
  }

  lemma RunFromWindow(g: Grid, r: int, c: int, k: int, s: int, p: Cell)
    requires InBounds(r, c)
    requires 0 <= k < |Dirs| && 0 <= s <= 4 && Window(g, r, c, k, s, p)
    ensures g[r][c] == p && LineRun(g, r, c, k, p) >= 5
  {
    var dr, dc := Dirs[k].0, Dirs[k].1;
    var br, bc := Opposite[k].0, Opposite[k].1;
    assert HoldsAt(g, r, c, k, 0, p);
    assert Look(g, r, c, dr, dc, 0) == Some(g[r][c]);
    forall t | 1 <= t < 1 + s
      ensures Look(g, r, c, br, bc, t) == Some(p)
    {
      assert HoldsAt(g, r, c, k, -t, p);
      LookBack(g, r, c, k, t);
    }
    forall t | 1 <= t < 1 + (4 - s)
      ensures Look(g, r, c, dr, dc, t) == Some(p)
    {
      assert HoldsAt(g, r, c, k, t, p);
    }
    RunAtLeast(g, r, c, br, bc, p, 1, s);
    RunAtLeast(g, r, c, dr, dc, p, 1, 4 - s);
  }

  /** What one side of a line yields in evaluateMoveCustom: the stones of the
      player that follow the origin, and whether the side ended blocked. */
  datatype Scan = Scan(count: nat, block: nat)

  /** Gap-free scan of evaluateMoveCustom (script.js:159-165) from step d on: a cell of
      p is counted and the scan goes on; the board edge or an opponent stone blocks
      and stops it; an empty cell stops it unblocked; after step STEPS it stops. */
  function Side(g: Grid, r: int, c: int, dr: int, dc: int, p: Cell, d: nat): (s: Scan)
    decreases STEPS + 1 - d
    ensures d <= STEPS + 1 ==> s.count <= STEPS + 1 - d
    ensures s.block <= 1
    ensures s.block == 1 ==> d + s.count <= STEPS
  {
    if d > STEPS then Scan(0, 0)
    else match Look(g, r, c, dr, dc, d)
      case None => Scan(0, 1)
      case Some(x) =>
        if x == p then
          var rest := Side(g, r, c, dr, dc, p, d + 1);
          Scan(rest.count + 1, rest.block)
        else if x != Empty then Scan(0, 1)
        else Scan(0, 0)
  }

  /** The evaluator and the win check walk the same cells: the evaluator's count on
      a side is exactly the win check's run on that side. */
  lemma {:induction false} SideCountIsRun(g: Grid, r: int, c: int, dr: int, dc: int, p: Cell, d: nat)
    ensures Side(g, r, c, dr, dc, p, d).count == Run(g, r, c, dr, dc, p, d)
    decreases STEPS + 1 - d
  {
    if d <= STEPS && Look(g, r, c, dr, dc, d) == Some(p) {
      SideCountIsRun(g, r, c, dr, dc, p, d + 1);
    }
  }

  /** When a side is blocked (script.js:161 and 163): exactly when the scan stops
      before the cap at a cell that is not empty, that is at the board edge or at a
      stone of the other player. */
  lemma {:induction false} SideBlock(g: Grid, r: int, c: int, dr: int, dc: int, p: Cell, d: nat)
    requires p != Empty && 1 <= d
    decreases STEPS + 1 - d
    ensures var s := Side(g, r, c, dr, dc, p, d);
      s.block == 1 <==> (d + s.count <= STEPS && Look(g, r, c, dr, dc, d + s.count) != Some(Empty))
  {
    if d <= STEPS && Look(g, r, c, dr, dc, d) == Some(p) {
      SideBlock(g, r, c, dr, dc, p, d + 1);
    }
  }

  /** One side of a line in evaluateMoveCustom (script.js:159-165, and 166-172 along
      the opposite direction), scanning the board in place. */
  method ScanSide(bd: array2<Cell>, row: int, col: int, dx: int, dy: int, player: Cell)
    returns (count: nat, block: nat)
    requires IsBoard(bd)
    ensures Scan(count, block) == Side(Snap(bd), row, col, dx, dy, player, 1)
  {
    ghost var g := Snap(bd);
    count, block := 0, 0;
    for d := 1 to STEPS + 1
      invariant count == d - 1 && block == 0
      invariant Side(g, row, col, dx, dy, player, 1)
        == Scan(count + Side(g, row, col, dx, dy, player, d).count, Side(g, row, col, dx, dy, player, d).block)
    {
      var r, c := row + dx * d, col + dy * d;
      if r < 0 || r >= SIZE || c < 0 || c >= SIZE {
        block := block + 1;
        break;
      }
      assert Look(g, row, col, dx, dy, d) == Some(bd[r, c]);
      if bd[r, c] == player {
        count := count + 1;
      } else if bd[r, c] != Empty {
        block := block + 1;
        break;
      } else {
        break;
      }
    }
  }

  /** One side of a line in checkWinCustom (script.js:198-202, and 203-207 with the
      direction negated): steps d = 1 .. 4 away from (row, col), stopping at the edge
      or at the first cell that is not the player's. */
  method ScanRun(bd: array2<Cell>, row: int, col: int, dx: int, dy: int, player: Cell) returns (n: nat)
    requires IsBoard(bd)
    ensures n == Run(Snap(bd), row, col, dx, dy, player, 1)
  {
    ghost var g := Snap(bd);
    n := 0;
    for d := 1 to STEPS + 1
      invariant n == d - 1
      invariant Run(g, row, col, dx, dy, player, 1) == n + Run(g, row, col, dx, dy, player, d)
    {
      var r, c := row + dx * d, col + dy * d;
      if r < 0 || r >= SIZE || c < 0 || c >= SIZE || bd[r, c] != player {
        break;
      }
      n := n + 1;
    }
  }

  /** checkWinCustom (script.js:192-211), scanning the board in place: a direction
      wins when the origin plus both sides count five or more. */
  method CheckWinCustom(bd: array2<Cell>, row: int, col: int, player: Cell) returns (won: bool)
    requires IsBoard(bd)
    ensures won == WinsAt(Snap(bd), row, col, player)
  {
    for k := 0 to |Dirs|
      invariant forall k' | 0 <= k' < k :: LineRun(Snap(bd), row, col, k', player) < 5
    {
      var (dx, dy) := Dirs[k];
      var (ox, oy) := Opposite[k];
      var count := 1;
      var ahead := ScanRun(bd, row, col, dx, dy, player);
      count := count + ahead;
      var behind := ScanRun(bd, row, col, ox, oy, player);
      count := count + behind;
      assert count == LineRun(Snap(bd), row, col, k, player);
      if count >= 5 {
        return true;
      }
    }
    return false;
  }
}

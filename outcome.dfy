/** The full-board winner scan `getWinner` (script.js:183-190), and why the game may
    look only at the last move when it checks for a win. */
module Outcome {
  import opened Board
  import opened Lines

  /** An occupied cell from which checkWinCustom reports a win for its owner. */
  predicate WinningCell(g: Grid, i: int, j: int)
    requires InBounds(i, j)
  {
    g[i][j] != Empty && WinsAt(g, i, j, g[i][j])
  }

  /** (a, b) comes at or after (i, j) in row-major order. */
  predicate AtOrAfter(i: int, j: int, a: int, b: int)
  {
    a > i || (a == i && b >= j)
  }

  /** getWinner resumed at (i, j): the owner of the first winning cell from there on,
      in row-major order. */
  function WinnerFrom(g: Grid, i: nat, j: nat): Option<Cell>
    requires i <= SIZE && j <= SIZE
    decreases SIZE - i, SIZE - j
  {
    if i == SIZE then None
    else if j == SIZE then WinnerFrom(g, i + 1, 0)
    else if WinningCell(g, i, j) then Some(g[i][j])
    else WinnerFrom(g, i, j + 1)
  }

  /** getWinner (script.js:183-190); None stands for the program's null. */
  function Winner(g: Grid): Option<Cell>
  {
    WinnerFrom(g, 0, 0)
  }

  lemma {:induction false} WinnerFromSpec(g: Grid, i: nat, j: nat)
    requires i <= SIZE && j <= SIZE
    ensures WinnerFrom(g, i, j).None? <==>
      forall a, b | InBounds(a, b) && AtOrAfter(i, j, a, b) :: !WinningCell(g, a, b)
    ensures WinnerFrom(g, i, j).Some? ==>
      exists a, b | InBounds(a, b) && AtOrAfter(i, j, a, b) ::
        WinningCell(g, a, b) && g[a][b] == WinnerFrom(g, i, j).value &&
        forall a', b' | InBounds(a', b') && AtOrAfter(i, j, a', b') && !AtOrAfter(a, b, a', b') ::
          !WinningCell(g, a', b')
    decreases SIZE - i, SIZE - j
  {
    if i == SIZE {
    } else if j == SIZE {
      WinnerFromSpec(g, i + 1, 0);
    } else if WinningCell(g, i, j) {
    } else {
      WinnerFromSpec(g, i, j + 1);
    }
  }

  /** getWinner returns null exactly when no occupied cell passes checkWinCustom; a
      player it returns owns the first such cell in row-major order. */
  lemma WinnerSpec(g: Grid)
    ensures Winner(g).None? <==> forall a, b | InBounds(a, b) :: !WinningCell(g, a, b)
    ensures Winner(g).Some? ==>
      Winner(g).value != Empty &&
      exists a, b | InBounds(a, b) ::
        WinningCell(g, a, b) && g[a][b] == Winner(g).value &&
        forall a', b' | InBounds(a', b') && !AtOrAfter(a, b, a', b') :: !WinningCell(g, a', b')
  {
    WinnerFromSpec(g, 0, 0);
  }

  /** getWinner returns null or one of the two players. */
  lemma WinnerIsPlayer(g: Grid)
    ensures Winner(g) == None || Winner(g) == Some(O) || Winner(g) == Some(X)
  {
    WinnerSpec(g);
  }

  /** getWinner (script.js:183-190), scanning the board in place. */
  method GetWinner(bd: array2<Cell>) returns (w: Option<Cell>)
    requires IsBoard(bd)
    ensures w == Winner(Snap(bd))
  {
    for i := 0 to SIZE
      invariant WinnerFrom(Snap(bd), i, 0) == Winner(Snap(bd))
    {
      for j := 0 to SIZE
        invariant WinnerFrom(Snap(bd), i, j) == Winner(Snap(bd))
      {
        if bd[i, j] != Empty {
          var won := CheckWinCustom(bd, i, j, bd[i, j]);
          if won {
            return Some(bd[i, j]);
          }
        }
      }
    }
    return None;
  }

  /** The empty board has no winner. */
  lemma EmptyHasNoWinner()
    ensures Winner(EmptyGrid()) == None
  {
    WinnerSpec(EmptyGrid());
  }

  /** Five in a row on a board that differs from another only at (r, c), and that
      does not use (r, c), is five in a row on the other board too. */
  lemma WindowKept(g: Grid, h: Grid, r: int, c: int, a: int, b: int, k: int, s: int, q: Cell)
    requires InBounds(r, c)
    requires forall i, j | InBounds(i, j) && (i != r || j != c) :: h[i][j] == g[i][j]
    requires 0 <= k < |Dirs| && Window(h, a, b, k, s, q)
    requires forall t | -s <= t <= 4 - s ::
      (a + Dirs[k].0 * t != r || b + Dirs[k].1 * t != c)
    ensures Window(g, a, b, k, s, q)
  {
    forall t | -s <= t <= 4 - s
      ensures HoldsAt(g, a, b, k, t, q)
    {
      assert HoldsAt(h, a, b, k, t, q);
    }
  }

  /** Five in a row through (a, b) that uses (r, c) is five in a row through (r, c). */
  lemma WindowMoved(h: Grid, a: int, b: int, k: int, s: int, t0: int, q: Cell, r: int, c: int)
    requires 0 <= k < |Dirs| && 0 <= s <= 4 && Window(h, a, b, k, s, q)
    requires -s <= t0 <= 4 - s
    requires a + Dirs[k].0 * t0 == r && b + Dirs[k].1 * t0 == c
    ensures Window(h, r, c, k, s + t0, q)
  {
    var dr, dc := Dirs[k].0, Dirs[k].1;
    forall u | -(s + t0) <= u <= 4 - (s + t0)
      ensures HoldsAt(h, r, c, k, u, q)
    {
      assert HoldsAt(h, a, b, k, t0 + u, q);
      assert r + dr * u == a + dr * (t0 + u) && c + dc * u == b + dc * (t0 + u) by {
        assert k == 0 || k == 1 || k == 2 || k == 3;
      }
    }
  }

  /** The game checks only the cell just played (checkWin at script.js:29 and 49); on
      a board with no winner this misses nothing: after one stone, getWinner finds a
      winner exactly when the new stone itself completes five. */
  lemma WinOnlyThroughLastMove(g: Grid, r: int, c: int, p: Cell)
    requires InBounds(r, c) && g[r][c] == Empty && p != Empty
    requires Winner(g) == None
    ensures Winner(Place(g, r, c, p)) != None <==> WinsAt(Place(g, r, c, p), r, c, p)
  {
    var h := Place(g, r, c, p);
    WinnerSpec(g);
    WinnerSpec(h);
    if WinsAt(h, r, c, p) {
      assert WinningCell(h, r, c);
    }
    if Winner(h) != None {
      var a, b :| InBounds(a, b) && WinningCell(h, a, b);
      var q := h[a][b];
      WinsAtIffFive(h, a, b, q);
      var k, s :| 0 <= k < |Dirs| && 0 <= s <= 4 && Window(h, a, b, k, s, q);
      assert !WinningCell(g, a, b);
      if t0 :| -s <= t0 <= 4 - s && a + Dirs[k].0 * t0 == r && b + Dirs[k].1 * t0 == c {
        WindowMoved(h, a, b, k, s, t0, q, r, c);
        WinsAtIffFive(h, r, c, q);
        assert q == p;
      } else {
        WindowKept(g, h, r, c, a, b, k, s, q);
        WinsAtIffFive(g, a, b, q);
        assert false;
      }
    }
  }
}

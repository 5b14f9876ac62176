/** getCandidateMoves (script.js:113-137): the cells the search tries, namely the
    empty cells next to a stone, or every empty cell when there is none. */
module MoveGen {
  import opened Board

  /** No move occurs twice (the program collects moves in a Set). */
  predicate Distinct(s: seq<Move>)
  {
    forall p, q | 0 <= p < q < |s| :: s[p] != s[q]
  }

  /** Set.prototype.add on an insertion-ordered set: a new move goes at the end, a
      move already present leaves the set as it is. */
  function Insert(acc: seq<Move>, m: Move): seq<Move>
  {
    if m in acc then acc else acc + [m]
  }

  /** Adding to the set adds exactly that element and keeps it duplicate-free. */
  lemma InsertSpec(acc: seq<Move>, m: Move)
    ensures forall x :: x in Insert(acc, m) <==> x in acc || x == m
    ensures Distinct(acc) ==> Distinct(Insert(acc, m))
  {
  }

  /** The test of script.js:121: add (ni, nj) when it is on the board and empty. */
  function Consider(g: Grid, ni: int, nj: int, acc: seq<Move>): seq<Move>
  {
    if InBounds(ni, nj) && g[ni][nj] == Empty then Insert(acc, Move(ni, nj)) else acc
  }

  lemma ConsiderSpec(g: Grid, ni: int, nj: int, acc: seq<Move>)
    ensures forall x :: x in Consider(g, ni, nj, acc) <==> x in acc || (x == Move(ni, nj) && Free(g, x))
    ensures Distinct(acc) ==> Distinct(Consider(g, ni, nj, acc))
  {
    InsertSpec(acc, Move(ni, nj));
  }

  /** The dy loop (script.js:119-124) for one dx, resumed at dy. */
  function NeighbourCols(g: Grid, i: int, j: int, dx: int, dy: int, acc: seq<Move>): seq<Move>
    decreases 2 - dy
  {
    if dy > 1 then acc else NeighbourCols(g, i, j, dx, dy + 1, Consider(g, i + dx, j + dy, acc))
  }

  /** The dx loop (script.js:118-125) around the stone at (i, j), resumed at dx. */
  function NeighbourRows(g: Grid, i: int, j: int, dx: int, acc: seq<Move>): seq<Move>
    decreases 2 - dx
  {
    if dx > 1 then acc else NeighbourRows(g, i, j, dx + 1, NeighbourCols(g, i, j, dx, -1, acc))
  }

  /** The j loop (script.js:116-127) over row i, resumed at column j. */
  function NearCols(g: Grid, i: int, j: nat, acc: seq<Move>): seq<Move>
    requires 0 <= i < SIZE && j <= SIZE
    decreases SIZE - j
  {
    if j == SIZE then acc
    else NearCols(g, i, j + 1, if g[i][j] != Empty then NeighbourRows(g, i, j, -1, acc) else acc)
  }

  /** The i loop (script.js:115-128), resumed at row i. */
  function NearRows(g: Grid, i: nat, acc: seq<Move>): seq<Move>
    requires i <= SIZE
    decreases SIZE - i
  {
    if i == SIZE then acc else NearRows(g, i + 1, NearCols(g, i, 0, acc))
  }

  /** The fallback's j loop (script.js:131-133) over row i, resumed at column j. */
  function EmptyCols(g: Grid, i: int, j: nat, acc: seq<Move>): seq<Move>
    requires 0 <= i < SIZE && j <= SIZE
    decreases SIZE - j
  {
    if j == SIZE then acc else EmptyCols(g, i, j + 1, Consider(g, i, j, acc))
  }

  /** The fallback's i loop (script.js:130-134), resumed at row i. */
  function EmptyRows(g: Grid, i: nat, acc: seq<Move>): seq<Move>
    requires i <= SIZE
    decreases SIZE - i
  {
    if i == SIZE then acc else EmptyRows(g, i + 1, EmptyCols(g, i, 0, acc))
  }

  /** Chebyshev distance at most 1 between a move and the cell (a, b). */
  predicate Adjacent(m: Move, a: int, b: int)
  {
    -1 <= m.row - a <= 1 && -1 <= m.col - b <= 1
  }

  /** Some stone in row i at column j or later is next to m. */
  ghost predicate NearInRow(g: Grid, i: int, j: int, m: Move)
    requires 0 <= i < SIZE
  {
    exists b | j <= b < SIZE && 0 <= b && g[i][b] != Empty :: Adjacent(m, i, b)
  }

  /** Some stone in row i or later is next to m. */
  ghost predicate NearFrom(g: Grid, i: int, m: Move)
  {
    exists a, b | i <= a < SIZE && 0 <= a && 0 <= b < SIZE && g[a][b] != Empty :: Adjacent(m, a, b)
  }

  lemma {:induction false} NeighbourColsSpec(g: Grid, i: int, j: int, dx: int, dy: int, acc: seq<Move>)
    decreases 2 - dy
    ensures forall x :: x in NeighbourCols(g, i, j, dx, dy, acc) <==>
      (x in acc || (Free(g, x) && x.row == i + dx && j + dy <= x.col <= j + 1))
    ensures Distinct(acc) ==> Distinct(NeighbourCols(g, i, j, dx, dy, acc))
  {
    if dy <= 1 {
      ConsiderSpec(g, i + dx, j + dy, acc);
      NeighbourColsSpec(g, i, j, dx, dy + 1, Consider(g, i + dx, j + dy, acc));
    }
  }

  lemma {:induction false} NeighbourRowsSpec(g: Grid, i: int, j: int, dx: int, acc: seq<Move>)
    decreases 2 - dx
    ensures forall x :: x in NeighbourRows(g, i, j, dx, acc) <==>
      (x in acc || (Free(g, x) && i + dx <= x.row <= i + 1 && j - 1 <= x.col <= j + 1))
    ensures Distinct(acc) ==> Distinct(NeighbourRows(g, i, j, dx, acc))
  {
    if dx <= 1 {
      NeighbourColsSpec(g, i, j, dx, -1, acc);
      NeighbourRowsSpec(g, i, j, dx + 1, NeighbourCols(g, i, j, dx, -1, acc));
    }
  }

  lemma {:induction false} NearColsSpec(g: Grid, i: int, j: nat, acc: seq<Move>)
    requires 0 <= i < SIZE && j <= SIZE
    decreases SIZE - j
    ensures forall x :: x in NearCols(g, i, j, acc) <==> (x in acc || (Free(g, x) && NearInRow(g, i, j, x)))
    ensures Distinct(acc) ==> Distinct(NearCols(g, i, j, acc))
  {
    if j < SIZE {
      var next := if g[i][j] != Empty then NeighbourRows(g, i, j, -1, acc) else acc;
      NeighbourRowsSpec(g, i, j, -1, acc);
      NearColsSpec(g, i, j + 1, next);
      forall x ensures NearInRow(g, i, j, x) <==> (g[i][j] != Empty && Adjacent(x, i, j)) || NearInRow(g, i, j + 1, x) {
        if NearInRow(g, i, j, x) {
          var b :| j <= b < SIZE && 0 <= b && g[i][b] != Empty && Adjacent(x, i, b);
          if b > j {
            assert NearInRow(g, i, j + 1, x);
          }
        }
      }
    }
  }

  lemma {:induction false} NearRowsSpec(g: Grid, i: nat, acc: seq<Move>)
    requires i <= SIZE
    decreases SIZE - i
    ensures forall x :: x in NearRows(g, i, acc) <==> (x in acc || (Free(g, x) && NearFrom(g, i, x)))
    ensures Distinct(acc) ==> Distinct(NearRows(g, i, acc))
  {
    if i < SIZE {
      NearColsSpec(g, i, 0, acc);
      NearRowsSpec(g, i + 1, NearCols(g, i, 0, acc));
      forall x ensures NearFrom(g, i, x) <==> NearInRow(g, i, 0, x) || NearFrom(g, i + 1, x) {
        if NearFrom(g, i, x) {
          var a, b :| i <= a < SIZE && 0 <= a && 0 <= b < SIZE && g[a][b] != Empty && Adjacent(x, a, b);
          if a > i {
            assert NearFrom(g, i + 1, x);
          } else {
            assert NearInRow(g, i, 0, x);
          }
        }
        if NearInRow(g, i, 0, x) {
          var b :| 0 <= b < SIZE && g[i][b] != Empty && Adjacent(x, i, b);
          assert NearFrom(g, i, x);
        }
      }
    }
  }

  lemma {:induction false} EmptyColsSpec(g: Grid, i: int, j: nat, acc: seq<Move>)
    requires 0 <= i < SIZE && j <= SIZE
    decreases SIZE - j
    ensures forall x :: x in EmptyCols(g, i, j, acc) <==> (x in acc || (Free(g, x) && x.row == i && x.col >= j))
    ensures Distinct(acc) ==> Distinct(EmptyCols(g, i, j, acc))
  {
    if j < SIZE {
      ConsiderSpec(g, i, j, acc);
      EmptyColsSpec(g, i, j + 1, Consider(g, i, j, acc));
    }
  }

  lemma {:induction false} EmptyRowsSpec(g: Grid, i: nat, acc: seq<Move>)
    requires i <= SIZE
    decreases SIZE - i
    ensures forall x :: x in EmptyRows(g, i, acc) <==> (x in acc || (Free(g, x) && x.row >= i))
    ensures Distinct(acc) ==> Distinct(EmptyRows(g, i, acc))
  {
    if i < SIZE {
      EmptyColsSpec(g, i, 0, acc);
      EmptyRowsSpec(g, i + 1, EmptyCols(g, i, 0, acc));
    }
  }

  /** An empty cell next to some stone. */
  ghost predicate NearStone(g: Grid, m: Move)
  {
    Free(g, m) && NearFrom(g, 0, m)
  }

  /** getCandidateMoves (script.js:113-137), in the order the program's Set yields them. */
  function Candidates(g: Grid): seq<Move>
  {
    var near := NearRows(g, 0, []);
    if |near| == 0 then EmptyRows(g, 0, []) else near
  }

  /** Some empty cell is next to a stone. */
  ghost predicate HasNear(g: Grid)
  {
    exists m :: NearStone(g, m)
  }

  /** The candidates are exactly the empty cells next to a stone; when there is no
      such cell they are exactly the empty cells. */
  lemma CandidatesSpec(g: Grid)
    ensures Distinct(Candidates(g))
    ensures forall m | m in Candidates(g) :: Free(g, m)
    ensures HasNear(g) ==> forall m :: m in Candidates(g) <==> NearStone(g, m)
    ensures !HasNear(g) ==> forall m :: m in Candidates(g) <==> Free(g, m)
  {
    NearRowsSpec(g, 0, []);
    EmptyRowsSpec(g, 0, []);
    var near := NearRows(g, 0, []);
    if |near| == 0 {
      forall m ensures !NearStone(g, m) {
        assert m !in near;
      }
    } else {
      assert NearStone(g, near[0]) by {
        assert near[0] in near;
      }
    }
  }

  /** An empty cell on the board leaves the search at least one candidate. */
  lemma SomeCandidate(g: Grid, e: Move)
    requires Free(g, e)
    ensures |Candidates(g)| != 0
  {
    if |NearRows(g, 0, [])| == 0 {
      EmptyRowsSpec(g, 0, []);
      assert e in EmptyRows(g, 0, []);
    }
  }

  /** The search runs out of moves exactly on a full board. */
  lemma NoCandidatesIffFull(g: Grid)
    ensures |Candidates(g)| == 0 <==> Full(g)
  {
    if !Full(g) {
      var i, j :| 0 <= i < SIZE && 0 <= j < SIZE && g[i][j] == Empty;
      SomeCandidate(g, Move(i, j));
    }
    var cs := Candidates(g);
    if |cs| != 0 {
      assert Free(g, cs[0]) by {
        CandidatesSpec(g);
        assert cs[0] in cs;
      }
    }
  }

  /** A list holding exactly the empty cells is empty exactly on a full board. */
  lemma FreeListEmptyIffFull(g: Grid, cells: seq<Move>)
    requires forall m :: m in cells <==> Free(g, m)
    ensures |cells| == 0 <==> Full(g)
  {
    if !Full(g) {
      var i, j :| 0 <= i < SIZE && 0 <= j < SIZE && g[i][j] == Empty;
      assert Free(g, Move(i, j));
    }
    if |cells| != 0 {
      assert cells[0] in cells;
    }
  }

  /** The fallback list holds exactly the empty cells, so it is empty exactly on a
      full board. */
  lemma EmptyCellsSpec(g: Grid)
    ensures forall m :: m in EmptyRows(g, 0, []) <==> Free(g, m)
    ensures |EmptyRows(g, 0, [])| == 0 <==> Full(g)
  {
    EmptyRowsSpec(g, 0, []);
    FreeListEmptyIffFull(g, EmptyRows(g, 0, []));
  }

  /** Without stones no cell is next to one. */
  lemma NoStoneNoNear(g: Grid)
    requires forall a, b | InBounds(a, b) :: g[a][b] == Empty
    ensures !HasNear(g)
  {
  }

  /** On the empty board every one of the SIZE * SIZE cells is a candidate. */
  lemma EmptyBoardCandidates()
    ensures forall m :: m in Candidates(EmptyGrid()) <==> InBounds(m.row, m.col)
  {
    var g := EmptyGrid();
    NoStoneNoNear(g);
    CandidatesSpec(g);
  }

  /** On a board whose only stone is at (r, c), the cells next to a stone are the
      on-board neighbours of (r, c). */
  lemma NearLoneStone(g: Grid, r: int, c: int)
    requires InBounds(r, c)
    requires forall a, b | InBounds(a, b) :: g[a][b] != Empty <==> a == r && b == c
    ensures forall m :: NearStone(g, m) <==> InBounds(m.row, m.col) && Adjacent(m, r, c) && m != Move(r, c)
    ensures HasNear(g)
  {
    forall m ensures NearStone(g, m) <==> InBounds(m.row, m.col) && Adjacent(m, r, c) && m != Move(r, c) {
      if NearStone(g, m) {
        var a, b :| 0 <= a < SIZE && 0 <= b < SIZE && g[a][b] != Empty && Adjacent(m, a, b);
        assert a == r && b == c;
      }
      if InBounds(m.row, m.col) && Adjacent(m, r, c) && m != Move(r, c) {
        assert g[r][c] != Empty;
        assert NearFrom(g, 0, m);
      }
    }
    var n := if r > 0 then Move(r - 1, c) else Move(r + 1, c);
    assert NearStone(g, n);
  }

  /** With a single stone on the board the candidates are exactly its on-board
      neighbours. */
  lemma SingleStoneCandidates(r: int, c: int, p: Cell)
    requires InBounds(r, c) && p != Empty
    ensures forall m :: m in Candidates(Place(EmptyGrid(), r, c, p)) <==>
      InBounds(m.row, m.col) && Adjacent(m, r, c) && m != Move(r, c)
  {
    var g := Place(EmptyGrid(), r, c, p);
    NearLoneStone(g, r, c);
    CandidatesSpec(g);
  }

  /** The dx/dy loops of script.js:118-125: add the empty neighbours of (i, j). */
  method AddNeighbours(bd: array2<Cell>, i: int, j: int, moves: seq<Move>) returns (r: seq<Move>)
    requires IsBoard(bd)
    ensures r == NeighbourRows(Snap(bd), i, j, -1, moves)
  {
    r := moves;
    for dx := -1 to 2
      invariant NeighbourRows(Snap(bd), i, j, -1, moves) == NeighbourRows(Snap(bd), i, j, dx, r)
    {
      for dy := -1 to 2
        invariant NeighbourRows(Snap(bd), i, j, -1, moves) ==
          NeighbourRows(Snap(bd), i, j, dx + 1, NeighbourCols(Snap(bd), i, j, dx, dy, r))
      {
        var ni, nj := i + dx, j + dy;
        if 0 <= ni < SIZE && 0 <= nj < SIZE && bd[ni, nj] == Empty {
          r := Insert(r, Move(ni, nj));
        }
      }
    }
  }

  /** One row of the first pass (script.js:116-127). */
  method NearInRowScan(bd: array2<Cell>, i: int, moves: seq<Move>) returns (r: seq<Move>)
    requires IsBoard(bd) && 0 <= i < SIZE
    ensures r == NearCols(Snap(bd), i, 0, moves)
  {
    r := moves;
    for j := 0 to SIZE
      invariant NearCols(Snap(bd), i, 0, moves) == NearCols(Snap(bd), i, j, r)
    {
      if bd[i, j] != Empty {
        r := AddNeighbours(bd, i, j, r);
      }
    }
  }

  /** The first pass of getCandidateMoves (script.js:115-128): the empty
      neighbours of every stone. */
  method NearCandidates(bd: array2<Cell>) returns (moves: seq<Move>)
    requires IsBoard(bd)
    ensures moves == NearRows(Snap(bd), 0, [])
  {
    moves := [];
    for i := 0 to SIZE
      invariant NearRows(Snap(bd), 0, []) == NearRows(Snap(bd), i, moves)
    {
      moves := NearInRowScan(bd, i, moves);
    }
  }

  /** One row of the fallback (script.js:131-133). */
  method EmptyInRowScan(bd: array2<Cell>, i: int, moves: seq<Move>) returns (r: seq<Move>)
    requires IsBoard(bd) && 0 <= i < SIZE
    ensures r == EmptyCols(Snap(bd), i, 0, moves)
  {
    r := moves;
    for j := 0 to SIZE
      invariant EmptyCols(Snap(bd), i, 0, moves) == EmptyCols(Snap(bd), i, j, r)
    {
      if bd[i, j] == Empty {
        r := Insert(r, Move(i, j));
      }
    }
  }

  /** The fallback of getCandidateMoves (script.js:129-135): every empty cell. */
  method EmptyCandidates(bd: array2<Cell>) returns (moves: seq<Move>)
    requires IsBoard(bd)
    ensures moves == EmptyRows(Snap(bd), 0, [])
  {
    moves := [];
    for i := 0 to SIZE
      invariant EmptyRows(Snap(bd), 0, []) == EmptyRows(Snap(bd), i, moves)
    {
      moves := EmptyInRowScan(bd, i, moves);
    }
  }

  /** getCandidateMoves (script.js:113-137) on the in-place board. */
  method GetCandidateMoves(bd: array2<Cell>) returns (moves: seq<Move>)
    requires IsBoard(bd)
    ensures moves == Candidates(Snap(bd))
  {
    moves := NearCandidates(bd);
    if |moves| == 0 {
      moves := EmptyCandidates(bd);
    }
  }
}

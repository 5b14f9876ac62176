/** The 15x15 board of the five-in-a-row engine: cells, coordinates, the board as
    a value (`Grid`) and the in-place board (`array2<Cell>`) the program mutates. */
module Board {

  /** Side length of the board (script.js:1). */
  const SIZE := 15

  datatype Option<T> = None | Some(value: T)

  /** The three states of a cell: the program's '', 'X' (the human) and 'O' (the computer). */
  datatype Cell = Empty | X | O

  /** A (row, column) pair, the program's `[i, j]`. */
  datatype Move = Move(row: int, col: int)

  predicate InBounds(r: int, c: int)
  {
    0 <= r < SIZE && 0 <= c < SIZE
  }

  /** Math.max and Math.min. */
  function Max(a: int, b: int): int
  {
    if a >= b then a else b
  }

  function Min(a: int, b: int): int
  {
    if a <= b then a else b
  }

  /** The board as a value: SIZE rows of SIZE cells. */
  type Grid = g: seq<seq<Cell>> | |g| == SIZE && forall i | 0 <= i < SIZE :: |g[i]| == SIZE
    witness seq(SIZE, _ => seq(SIZE, _ => Empty))

  /** An on-board empty cell: a place a stone may go. */
  predicate Free(g: Grid, m: Move)
  {
    InBounds(m.row, m.col) && g[m.row][m.col] == Empty
  }

  function EmptyGrid(): (g: Grid)
    ensures forall i, j | InBounds(i, j) :: g[i][j] == Empty
  {
    seq(SIZE, _ => seq(SIZE, _ => Empty))
  }

  /** The board with cell (r, c) set to x, every other cell unchanged. */
  function Place(g: Grid, r: int, c: int, x: Cell): (h: Grid)
    requires InBounds(r, c)
    ensures h[r][c] == x
    ensures forall i, j | InBounds(i, j) && (i != r || j != c) :: h[i][j] == g[i][j]
  {
    g[r := g[r][c := x]]
  }

  /** No empty cell is left (isBoardFullCustom, script.js:213-215). */
  predicate Full(g: Grid)
  {
    forall i, j | 0 <= i < SIZE && 0 <= j < SIZE :: g[i][j] != Empty
  }

  /** The opponent's stone; empty stays empty. */
  function Other(x: Cell): Cell
  {
    match x
    case Empty => Empty
    case X => O
    case O => X
  }

  /** The board with every X turned into O and every O into X. */
  function Swap(g: Grid): (h: Grid)
    ensures forall i, j | InBounds(i, j) :: h[i][j] == Other(g[i][j])
  {
    seq(SIZE, i requires 0 <= i < SIZE => seq(SIZE, j requires 0 <= j < SIZE => Other(g[i][j])))
  }

  /** Two boards that agree on every cell are the same board. */
  lemma GridExt(g: Grid, h: Grid)
    requires forall i, j | InBounds(i, j) :: g[i][j] == h[i][j]
    ensures g == h
  {
    forall i | 0 <= i < SIZE
      ensures g[i] == h[i]
    {
      assert forall j | 0 <= j < SIZE :: g[i][j] == h[i][j];
    }
  }

  /** The in-place board has the fixed size. */
  predicate IsBoard(bd: array2<Cell>)
  {
    bd.Length0 == SIZE && bd.Length1 == SIZE
  }

  /** The first n rows of the in-place board. */
  ghost function BoardRows(bd: array2<Cell>, n: nat): (rows: seq<seq<Cell>>)
    reads bd
    requires IsBoard(bd) && n <= SIZE
    decreases n
    ensures |rows| == n
    ensures forall i | 0 <= i < n :: |rows[i]| == SIZE
    ensures forall i, j | 0 <= i < n && 0 <= j < SIZE :: rows[i][j] == bd[i, j]
  {
    if n == 0 then []
    else BoardRows(bd, n - 1) + [seq(SIZE, j requires 0 <= j < SIZE reads bd => bd[n - 1, j])]
  }

  /** The value of the in-place board: the grid that agrees with it on every cell. */
  ghost function Snap(bd: array2<Cell>): (g: Grid)
    reads bd
    requires IsBoard(bd)
    ensures forall i, j | InBounds(i, j) :: g[i][j] == bd[i, j]
  {
    BoardRows(bd, SIZE)
  }

  /** An in-place board whose cells are those of g has value g. */
  lemma SnapIs(bd: array2<Cell>, g: Grid)
    requires IsBoard(bd)
    requires forall i, j | InBounds(i, j) :: bd[i, j] == g[i][j]
    ensures Snap(bd) == g
  {
    GridExt(Snap(bd), g);
  }

  /** Writing a cell of the in-place board: the program's `bd[i][j] = x`. */
  method SetCell(bd: array2<Cell>, r: int, c: int, x: Cell)
    requires IsBoard(bd) && InBounds(r, c)
    modifies bd
    ensures Snap(bd) == Place(old(Snap(bd)), r, c, x)
  {
    ghost var g := Snap(bd);
    bd[r, c] := x;
    SnapIs(bd, Place(g, r, c, x));
  }

  /** Clearing a cell that was empty before a stone went on it gives back the board. */
  lemma PlaceUndo(g: Grid, r: int, c: int, x: Cell)
    requires InBounds(r, c) && g[r][c] == Empty
    ensures Place(Place(g, r, c, x), r, c, Empty) == g
  {
    GridExt(Place(Place(g, r, c, x), r, c, Empty), g);
  }

  /** isBoardFullCustom (script.js:213-215): every cell is occupied. */
  predicate IsBoardFullCustom(bd: array2<Cell>)
    reads bd
    requires IsBoard(bd)
    ensures IsBoardFullCustom(bd) == Full(Snap(bd))
  {
    forall i, j | 0 <= i < SIZE && 0 <= j < SIZE :: bd[i, j] != Empty
  }
}

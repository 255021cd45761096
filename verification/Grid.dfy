/**
  The 6x7 Connect Four grid (the `tileSpaces` array that both `c4Board` and
  `Node` carry): cell codes, the column legality test, the gravity drop,
  cell counting and the gravity-packing invariant.
 */
module Grid {
  import opened Wrappers

  /** Cell codes of the source: -1 is an empty cell, 1 a Red token, 2 a Yellow token. */
  const EMPTY: int := -1
  const RED: int := 1
  const YELLOW: int := 2

  const ROWS: int := 6
  const COLS: int := 7

  type Cell = v: int | v == EMPTY || v == RED || v == YELLOW witness EMPTY
  type Player = v: int | v == RED || v == YELLOW witness RED

  /** Row 0 is the top row and row 5 the bottom row. */
  type Row = r: int | 0 <= r < ROWS
  type Column = c: int | 0 <= c < COLS

  /** A grid indexed `[row][column]`. */
  type Cells = g: seq<seq<Cell>> | |g| == ROWS && forall r | 0 <= r < |g| :: |g[r]| == COLS
    witness seq(ROWS, _ => seq(COLS, _ => EMPTY))

  /** The all-empty grid every game starts from. */
  const EmptyGrid: Cells := seq(ROWS, _ => seq(COLS, _ => EMPTY))

  /** Every cell is empty: the comparison with an all-empty board in makeMove. */
  predicate AllEmpty(g: Cells)
  {
    forall r: Row, c: Column :: g[r][c] == EMPTY
  }

  /** The all-empty test holds of exactly one grid. */
  lemma AllEmptyIsEmptyGrid(g: Cells)
    ensures AllEmpty(g) <==> g == EmptyGrid
  {
    if AllEmpty(g) {
      forall r | 0 <= r < ROWS ensures g[r] == EmptyGrid[r] {
      }
    }
  }

  /** `g` with the single cell (r, c) overwritten by `v`. */
  function Set(g: Cells, r: Row, c: Column, v: Cell): (h: Cells)
    ensures h[r][c] == v
    ensures forall i: Row, j: Column :: (i != r || j != c) ==> h[i][j] == g[i][j]
  {
    var row: seq<Cell> := g[r][c := v];
    g[r := row]
  }

  predicate HasEmpty(g: Cells)
  {
    exists r: Row, c: Column :: g[r][c] == EMPTY
  }

  // ---------------------------------------------------------------------------
  // Column legality (Node::isPossible)
  // ---------------------------------------------------------------------------

  /** Node::isPossible: the column is scanned from the top row down and the
      answer is true as soon as an empty cell is met. */
  function IsPossible(g: Cells, c: Column): (b: bool)
    ensures b <==> exists r: Row :: g[r][c] == EMPTY
  {
    EmptyFrom(g, c, 0)
  }

  function EmptyFrom(g: Cells, c: Column, r: nat): (b: bool)
    requires r <= ROWS
    decreases ROWS - r
    ensures b <==> exists i: Row :: r <= i && g[i][c] == EMPTY
  {
    if r == ROWS then false
    else if g[r][c] == EMPTY then true
    else EmptyFrom(g, c, r + 1)
  }

  // ---------------------------------------------------------------------------
  // Gravity drop (c4Board::dropToken and Node::getChildNode)
  // ---------------------------------------------------------------------------

  /** Row `r` is the lowest empty cell of column `c`: it is empty and every
      cell below it holds a token. */
  predicate IsLowestEmpty(g: Cells, r: Row, c: Column)
  {
    g[r][c] == EMPTY && forall i: Row :: r < i ==> g[i][c] != EMPTY
  }

  /** The search loop of the drop: from the bottom row upward, the first empty cell. */
  function LowestEmpty(g: Cells, c: Column): (r: Option<Row>)
    ensures r.Some? ==> IsLowestEmpty(g, r.value, c)
    ensures r.None? <==> !IsPossible(g, c)
  {
    EmptyUpFrom(g, c, ROWS - 1)
  }

  function EmptyUpFrom(g: Cells, c: Column, r: int): (o: Option<Row>)
    requires -1 <= r < ROWS
    decreases r + 1
    ensures o.Some? ==> o.value <= r && g[o.value][c] == EMPTY
    ensures o.Some? ==> forall i: Row :: o.value < i <= r ==> g[i][c] != EMPTY
    ensures o.None? <==> forall i: Row :: i <= r ==> g[i][c] != EMPTY
  {
    if r < 0 then None
    else if g[r][c] == EMPTY then Some(r)
    else EmptyUpFrom(g, c, r - 1)
  }

  /** Where a dropped token lands, and the grid it leaves behind. */
  datatype Landing = Landing(row: Row, grid: Cells)

  /** The gravity drop shared by both classes: token `p` lands on the lowest
      empty cell of column `c`, nothing else changes, and one empty cell is
      used up; there is no landing when the column is full. */
  function Drop(g: Cells, c: Column, p: Player): (l: Option<Landing>)
    ensures l.None? <==> !IsPossible(g, c)
    ensures l.Some? ==> IsLowestEmpty(g, l.value.row, c)
    ensures l.Some? ==> l.value.grid[l.value.row][c] == p
    ensures l.Some? ==> forall i: Row, j: Column ::
              (i != l.value.row || j != c) ==> l.value.grid[i][j] == g[i][j]
    ensures l.Some? ==> EmptyCount(l.value.grid) == EmptyCount(g) - 1
    ensures l.Some? && Packed(g) ==> Packed(l.value.grid)
  {
    match LowestEmpty(g, c)
    case None => None
    case Some(r) =>
      CountSet(g, r, c, p, EMPTY);
      Some(Landing(r, Set(g, r, c, p)))
  }

  /** The lowest empty cell of a column is unique, so the landing row is determined. */
  lemma LowestEmptyUnique(g: Cells, r: Row, r': Row, c: Column)
    requires IsLowestEmpty(g, r, c) && IsLowestEmpty(g, r', c)
    ensures r == r'
  {
  }

  // ---------------------------------------------------------------------------
  // Gravity packing
  // ---------------------------------------------------------------------------

  /** No column has an empty cell below a token. */
  predicate Packed(g: Cells)
  {
    forall r: Row, i: Row, c: Column :: r < i && g[r][c] != EMPTY ==> g[i][c] != EMPTY
  }

  /** On a packed grid the column test reduces to looking at the top cell. */
  lemma PackedPossibleIffTopEmpty(g: Cells, c: Column)
    requires Packed(g)
    ensures IsPossible(g, c) <==> g[0][c] == EMPTY
  {
  }

  // ---------------------------------------------------------------------------
  // Counting cells
  // ---------------------------------------------------------------------------

  function CountIn(s: seq<Cell>, v: Cell): nat
  {
    if |s| == 0 then 0 else (if s[0] == v then 1 else 0) + CountIn(s[1..], v)
  }

  function Count(g: seq<seq<Cell>>, v: Cell): nat
  {
    if |g| == 0 then 0 else CountIn(g[0], v) + Count(g[1..], v)
  }

  /** The number of empty cells: the termination measure of any sequence of drops. */
  function EmptyCount(g: Cells): nat
  {
    Count(g, EMPTY)
  }

  lemma {:induction false} CountInUpdate(s: seq<Cell>, j: nat, x: Cell, v: Cell)
    requires j < |s|
    ensures CountIn(s[j := x], v)
            == CountIn(s, v) - (if s[j] == v then 1 else 0) + (if x == v then 1 else 0)
  {
    if j == 0 {
      assert s[j := x][1..] == s[1..];
    } else {
      CountInUpdate(s[1..], j - 1, x, v);
      assert s[j := x][1..] == s[1..][j - 1 := x];
    }
  }

  lemma {:induction false} CountUpdate(g: seq<seq<Cell>>, i: nat, row: seq<Cell>, v: Cell)
    requires i < |g|
    ensures Count(g[i := row], v) == Count(g, v) - CountIn(g[i], v) + CountIn(row, v)
  {
    if i == 0 {
      assert g[i := row][1..] == g[1..];
    } else {
      CountUpdate(g[1..], i - 1, row, v);
      assert g[i := row][1..] == g[1..][i - 1 := row];
    }
  }

  /** Overwriting one cell moves exactly that cell between the counts. */
  lemma CountSet(g: Cells, r: Row, c: Column, x: Cell, v: Cell)
    ensures Count(Set(g, r, c, x), v)
            == Count(g, v) - (if g[r][c] == v then 1 else 0) + (if x == v then 1 else 0)
  {
    CountInUpdate(g[r], c, x, v);
    CountUpdate(g, r, g[r][c := x], v);
  }

  lemma {:induction false} CountInPositive(s: seq<Cell>, v: Cell)
    ensures CountIn(s, v) > 0 <==> exists j :: 0 <= j < |s| && s[j] == v
  {
    if |s| > 0 {
      CountInPositive(s[1..], v);
      if s[0] != v && CountIn(s, v) == 0 {
        forall j | 0 <= j < |s| ensures s[j] != v {
          if j > 0 { assert s[j] == s[1..][j - 1]; }
        }
      }
      if exists j :: 1 <= j < |s| && s[j] == v {
        var j :| 1 <= j < |s| && s[j] == v;
        assert s[1..][j - 1] == v;
      }
    }
  }

  lemma {:induction false} CountPositive(g: seq<seq<Cell>>, v: Cell)
    ensures Count(g, v) > 0 <==> exists i, j :: 0 <= i < |g| && 0 <= j < |g[i]| && g[i][j] == v
  {
    if |g| > 0 {
      CountInPositive(g[0], v);
      CountPositive(g[1..], v);
      if exists i, j :: 1 <= i < |g| && 0 <= j < |g[i]| && g[i][j] == v {
        var i, j :| 1 <= i < |g| && 0 <= j < |g[i]| && g[i][j] == v;
        assert g[1..][i - 1][j] == v;
      }
      if Count(g, v) == 0 {
        forall i, j | 0 <= i < |g| && 0 <= j < |g[i]| ensures g[i][j] != v {
          if i > 0 { assert g[i][j] == g[1..][i - 1][j]; }
        }
      }
    }
  }

  /** A grid has an empty cell exactly when its empty count is positive. */
  lemma EmptyCountPositive(g: Cells)
    ensures EmptyCount(g) > 0 <==> HasEmpty(g)
  {
    CountPositive(g, EMPTY);
    if EmptyCount(g) > 0 {
      var i, j :| 0 <= i < |g| && 0 <= j < |g[i]| && g[i][j] == EMPTY;
      var r: Row, c: Column := i, j;
      assert g[r][c] == EMPTY;
    }
  }

  lemma {:induction false} CountInUniform(s: seq<Cell>, x: Cell, v: Cell)
    requires forall j | 0 <= j < |s| :: s[j] == x
    ensures CountIn(s, v) == if x == v then |s| else 0
  {
    if |s| > 0 {
      CountInUniform(s[1..], x, v);
    }
  }

  lemma {:induction false} CountRepeated(g: seq<seq<Cell>>, row: seq<Cell>, v: Cell)
    requires forall i | 0 <= i < |g| :: g[i] == row
    ensures Count(g, v) == |g| * CountIn(row, v)
  {
    if |g| > 0 {
      CountRepeated(g[1..], row, v);
    }
  }

  /** Every cell is empty, red or yellow, so the three counts of a row add up to its length. */
  lemma {:induction false} CountInPartition(s: seq<Cell>)
    ensures CountIn(s, RED) + CountIn(s, YELLOW) + CountIn(s, EMPTY) == |s|
  {
    if |s| > 0 {
      CountInPartition(s[1..]);
    }
  }

  lemma {:induction false} CountPartition(g: seq<seq<Cell>>)
    requires forall i | 0 <= i < |g| :: |g[i]| == COLS
    ensures Count(g, RED) + Count(g, YELLOW) + Count(g, EMPTY) == |g| * COLS
  {
    if |g| > 0 {
      CountInPartition(g[0]);
      CountPartition(g[1..]);
    }
  }

  /** Red tokens, yellow tokens and empty cells together fill the 42 cells. */
  lemma CellsPartition(g: Cells)
    ensures Count(g, RED) + Count(g, YELLOW) + EmptyCount(g) == ROWS * COLS
  {
    CountPartition(g);
  }

  /** The empty grid holds 42 empty cells and no token of either colour. */
  lemma EmptyGridCounts()
    ensures EmptyCount(EmptyGrid) == ROWS * COLS
    ensures Count(EmptyGrid, RED) == 0 && Count(EmptyGrid, YELLOW) == 0
    ensures Packed(EmptyGrid)
  {
    var row := EmptyGrid[0];
    CountInUniform(row, EMPTY, EMPTY);
    CountInUniform(row, EMPTY, RED);
    CountInUniform(row, EMPTY, YELLOW);
    CountRepeated(EmptyGrid, row, EMPTY);
    CountRepeated(EmptyGrid, row, RED);
    CountRepeated(EmptyGrid, row, YELLOW);
  }

  // ---------------------------------------------------------------------------
  // Space left in one column
  // ---------------------------------------------------------------------------

  /** The number of empty cells in column `c`. */
  function ColumnSpace(g: Cells, c: Column): (n: nat)
    ensures n <= ROWS
    ensures n > 0 <==> IsPossible(g, c)
  {
    SpaceFromPositive(g, c, 0);
    SpaceFrom(g, c, 0)
  }

  /** The empty cells of column `c` in rows `r` and below. */
  function SpaceFrom(g: Cells, c: Column, r: nat): (n: nat)
    requires r <= ROWS
    decreases ROWS - r
    ensures n <= ROWS - r
  {
    if r == ROWS then 0 else (if g[r][c] == EMPTY then 1 else 0) + SpaceFrom(g, c, r + 1)
  }

  lemma {:induction false} SpaceFromPositive(g: Cells, c: Column, r: nat)
    requires r <= ROWS
    decreases ROWS - r
    ensures SpaceFrom(g, c, r) > 0 <==> exists i: Row :: r <= i && g[i][c] == EMPTY
  {
    if r < ROWS {
      SpaceFromPositive(g, c, r + 1);
    }
  }

  /** Changing only row `row` of column `c` moves at most that one cell between
      empty and occupied. */
  lemma {:induction false} SpaceFromUpdate(g: Cells, h: Cells, c: Column, row: Row, r: nat)
    requires r <= ROWS
    requires forall i: Row :: i != row ==> h[i][c] == g[i][c]
    decreases ROWS - r
    ensures SpaceFrom(h, c, r)
            == SpaceFrom(g, c, r) - (if r <= row && g[row][c] == EMPTY then 1 else 0)
                                  + (if r <= row && h[row][c] == EMPTY then 1 else 0)
  {
    if r < ROWS {
      SpaceFromUpdate(g, h, c, row, r + 1);
    }
  }

  /** A column whose cells are all empty has room for six tokens. */
  lemma {:induction false} SpaceFromEmptyColumn(g: Cells, c: Column, r: nat)
    requires r <= ROWS
    requires forall i: Row :: g[i][c] == EMPTY
    decreases ROWS - r
    ensures SpaceFrom(g, c, r) == ROWS - r
  {
    if r < ROWS {
      SpaceFromEmptyColumn(g, c, r + 1);
    }
  }

  /** Every column of the empty grid has room for six tokens. */
  lemma EmptyGridColumnSpace(c: Column)
    ensures ColumnSpace(EmptyGrid, c) == ROWS
  {
    SpaceFromEmptyColumn(EmptyGrid, c, 0);
  }

  /** A drop into column `c` uses up one cell of that column and none of any other. */
  lemma DropColumnSpace(g: Cells, c: Column, p: Player, d: Column)
    requires IsPossible(g, c)
    ensures ColumnSpace(Drop(g, c, p).value.grid, d) == ColumnSpace(g, d) - (if d == c then 1 else 0)
  {
    var l := Drop(g, c, p).value;
    SpaceFromUpdate(g, l.grid, d, l.row, 0);
  }
}

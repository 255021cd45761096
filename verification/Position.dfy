/**
  A game position as both classes hold it: the grid and `playerJustMoved`
  (-1 before the first move).  c4Board::dropToken and Node::getChildNode are
  the two moves on a position; both go through the one gravity drop of Grid.
 */
module Position {
  import opened Wrappers
  import opened Grid

  datatype Board = Board(tiles: Cells, playerJustMoved: Cell)

  /** The position of c4Board's default constructor: every cell empty, nobody has moved. */
  const Initial: Board := Board(EmptyGrid, EMPTY)

  function Opponent(p: Player): (q: Player)
    ensures q != p
  {
    3 - p
  }

  /** The player to move: Red opens the game, afterwards the player who did
      not just move. */
  function SideToMove(playerJustMoved: Cell): (p: Player)
    ensures playerJustMoved == EMPTY ==> p == RED
    ensures playerJustMoved != EMPTY ==> p != playerJustMoved
  {
    if playerJustMoved == EMPTY then RED else Opponent(playerJustMoved)
  }

  /** Red has placed as many tokens as Yellow, or one more when Red moved last. */
  predicate Alternates(b: Board)
  {
    var red := Count(b.tiles, RED);
    var yellow := Count(b.tiles, YELLOW);
    if b.playerJustMoved == RED then red == yellow + 1 else red == yellow
  }

  /** c4Board::dropToken: the side to move drops a token into column `c` and
      becomes `playerJustMoved`; a full column gives back the board unchanged.
      A successful drop uses up one empty cell. */
  function DropToken(b: Board, c: Column): (r: Board)
    ensures !IsPossible(b.tiles, c) ==> r == b
    ensures IsPossible(b.tiles, c) ==> r.playerJustMoved == SideToMove(b.playerJustMoved)
    ensures IsPossible(b.tiles, c) ==> EmptyCount(r.tiles) == EmptyCount(b.tiles) - 1
  {
    var p := SideToMove(b.playerJustMoved);
    match Drop(b.tiles, c, p)
    case None => b
    case Some(l) => Board(l.grid, p)
  }

  /** A drop keeps the grid packed and the token counts alternating. */
  lemma DropTokenKeepsInvariants(b: Board, c: Column)
    ensures Packed(b.tiles) ==> Packed(DropToken(b, c).tiles)
    ensures Alternates(b) ==> Alternates(DropToken(b, c))
  {
    var p := SideToMove(b.playerJustMoved);
    match Drop(b.tiles, c, p)
    case None =>
    case Some(l) =>
      CountSet(b.tiles, l.row, c, p, RED);
      CountSet(b.tiles, l.row, c, p, YELLOW);
      assert l.grid == Set(b.tiles, l.row, c, p);
  }

  /** Node::getChildNode: the same drop, except that the child records the side
      to move as `playerJustMoved` even when the column is full and the grid
      stays as it was. */
  function ChildNode(b: Board, c: Column): (r: Board)
    ensures r.playerJustMoved == SideToMove(b.playerJustMoved)
    ensures IsPossible(b.tiles, c) ==> r == DropToken(b, c)
    ensures !IsPossible(b.tiles, c) ==> r.tiles == b.tiles
  {
    var p := SideToMove(b.playerJustMoved);
    match Drop(b.tiles, c, p)
    case None => Board(b.tiles, p)
    case Some(l) => Board(l.grid, p)
  }

  /** Dropping into a column with an empty cell sets exactly the lowest empty
      cell of that column to the side to move; every other cell is unchanged. */
  lemma DropTokenSetsLowestEmpty(b: Board, c: Column, row: Row)
    requires IsLowestEmpty(b.tiles, row, c)
    ensures DropToken(b, c).tiles[row][c] == SideToMove(b.playerJustMoved)
    ensures forall i: Row, j: Column :: (i != row || j != c) ==>
              DropToken(b, c).tiles[i][j] == b.tiles[i][j]
  {
    var l := Drop(b.tiles, c, SideToMove(b.playerJustMoved)).value;
    LowestEmptyUnique(b.tiles, row, l.row, c);
  }

  // ---------------------------------------------------------------------------
  // Sequences of moves
  // ---------------------------------------------------------------------------

  /** Every column of `cols` is legal at the moment it is played. */
  predicate LegalMoves(b: Board, cols: seq<Column>)
    decreases |cols|
  {
    |cols| == 0 || (IsPossible(b.tiles, cols[0]) && LegalMoves(DropToken(b, cols[0]), cols[1..]))
  }

  /** The position after dropping the columns of `cols` one after another. */
  function Play(b: Board, cols: seq<Column>): Board
    decreases |cols|
  {
    if |cols| == 0 then b else Play(DropToken(b, cols[0]), cols[1..])
  }

  /** Successive legal drops use up one empty cell each, so no game lasts
      longer than the empty-cell count, and keep the grid packed and the token
      counts balanced. */
  lemma {:induction false} PlayKeepsInvariants(b: Board, cols: seq<Column>)
    requires LegalMoves(b, cols)
    requires Packed(b.tiles) && Alternates(b)
    decreases |cols|
    ensures EmptyCount(Play(b, cols).tiles) + |cols| == EmptyCount(b.tiles)
    ensures Packed(Play(b, cols).tiles) && Alternates(Play(b, cols))
  {
    if |cols| > 0 {
      DropTokenKeepsInvariants(b, cols[0]);
      PlayKeepsInvariants(DropToken(b, cols[0]), cols[1..]);
    }
  }

  /** A legal drop hands the move to the opponent. */
  lemma DropTokenPassesTurn(b: Board, c: Column)
    requires IsPossible(b.tiles, c)
    ensures SideToMove(DropToken(b, c).playerJustMoved) == Opponent(SideToMove(b.playerJustMoved))
  {
  }

  /** The side to move after n alternating turns, the first taken by `p`. */
  function Turn(p: Player, n: nat): Player
    decreases n
  {
    if n == 0 then p else Turn(Opponent(p), n - 1)
  }

  lemma TurnStep(p: Player, n: nat)
    requires n > 0
    ensures Turn(p, n) == Turn(Opponent(p), n - 1)
  {
  }

  /** Turns alternate: after an even number of them `p` is to move again. */
  lemma {:induction false} TurnParity(p: Player, n: nat)
    decreases n
    ensures Turn(p, n) == if n % 2 == 0 then p else Opponent(p)
  {
    if n > 0 {
      TurnParity(Opponent(p), n - 1);
      assert Opponent(Opponent(p)) == p;
    }
  }

  /** Successive legal drops alternate the side to move. */
  lemma {:induction false} PlayAlternates(b: Board, cols: seq<Column>)
    requires LegalMoves(b, cols)
    decreases |cols|
    ensures SideToMove(Play(b, cols).playerJustMoved) == Turn(SideToMove(b.playerJustMoved), |cols|)
  {
    if |cols| > 0 {
      var b', rest := DropToken(b, cols[0]), cols[1..];
      PlayAlternates(b', rest);
      DropTokenPassesTurn(b, cols[0]);
      assert |rest| == |cols| - 1;
      TurnStep(SideToMove(b.playerJustMoved), |cols|);
      assert Play(b, cols) == Play(b', rest);
    }
  }

  /** From the initial position, after n legal drops Red has moved last when n
      is odd and Yellow when n is even, Red holds n/2 rounded up tokens and
      Yellow n/2 rounded down, and 42 - n cells are still empty; so no game
      lasts more than 42 drops. */
  lemma GameFromStart(cols: seq<Column>)
    requires LegalMoves(Initial, cols)
    ensures |cols| <= ROWS * COLS
    ensures var e := Play(Initial, cols);
            && EmptyCount(e.tiles) == ROWS * COLS - |cols|
            && Count(e.tiles, RED) == (|cols| + 1) / 2
            && Count(e.tiles, YELLOW) == |cols| / 2
            && (|cols| > 0 ==> e.playerJustMoved == if |cols| % 2 == 1 then RED else YELLOW)
  {
    EmptyGridCounts();
    PlayKeepsInvariants(Initial, cols);
    PlayAlternates(Initial, cols);
    TurnParity(RED, |cols|);
    CellsPartition(Play(Initial, cols).tiles);
    if |cols| > 0 {
      PlayMoved(Initial, cols);
    }
  }

  /** After at least one legal drop somebody has moved. */
  lemma {:induction false} PlayMoved(b: Board, cols: seq<Column>)
    requires LegalMoves(b, cols) && |cols| > 0
    ensures Play(b, cols).playerJustMoved != EMPTY
    decreases |cols|
  {
    if |cols| > 1 {
      PlayMoved(DropToken(b, cols[0]), cols[1..]);
    }
  }

  /** `k` drops into the same column. */
  function Repeat(c: Column, k: nat): (cols: seq<Column>)
    ensures |cols| == k && forall i | 0 <= i < k :: cols[i] == c
  {
    seq(k, _ => c)
  }

  /** A column accepts exactly as many drops as it has empty cells: the
      drops are legal up to that number and not beyond, each one uses up one
      cell of the column, and the column stays legal until the last of them. */
  lemma {:induction false} ColumnFills(b: Board, c: Column, k: nat)
    decreases k
    ensures LegalMoves(b, Repeat(c, k)) <==> k <= ColumnSpace(b.tiles, c)
    ensures k <= ColumnSpace(b.tiles, c) ==>
              ColumnSpace(Play(b, Repeat(c, k)).tiles, c) == ColumnSpace(b.tiles, c) - k
    ensures k <= ColumnSpace(b.tiles, c) ==>
              (IsPossible(Play(b, Repeat(c, k)).tiles, c) <==> k < ColumnSpace(b.tiles, c))
  {
    var cols := Repeat(c, k);
    if k == 0 {
      assert Play(b, cols) == b;
    } else {
      assert cols[0] == c && cols[1..] == Repeat(c, k - 1);
      if IsPossible(b.tiles, c) {
        var b' := DropToken(b, c);
        assert b'.tiles == Drop(b.tiles, c, SideToMove(b.playerJustMoved)).value.grid;
        DropColumnSpace(b.tiles, c, SideToMove(b.playerJustMoved), c);
        ColumnFills(b', c, k - 1);
        assert Play(b, cols) == Play(b', Repeat(c, k - 1));
      }
    }
  }

  /** From the initial position every column takes exactly six drops: it is
      legal after fewer, full after the sixth, and a seventh is illegal. */
  lemma InitialColumnFills(c: Column, k: nat)
    ensures LegalMoves(Initial, Repeat(c, k)) <==> k <= ROWS
    ensures k <= ROWS ==> (IsPossible(Play(Initial, Repeat(c, k)).tiles, c) <==> k < ROWS)
  {
    EmptyGridColumnSpace(c);
    ColumnFills(Initial, c, k);
  }
}

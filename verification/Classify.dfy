/**
  Terminal-state classification shared by Node::getGameState and
  c4Board::continuePlaying: a scan for four equal tokens vertically,
  horizontally and along both diagonals, and otherwise a game in progress
  (some cell empty) or a draw (grid full).
 */
module Classify {
  import opened Wrappers
  import opened Grid

  /** Game-state codes of Node::getGameState; a win is reported as the winner's cell code. */
  const IN_PROGRESS: int := -1
  const DRAW: int := 3

  /** The four scan directions; each walks downward or rightward from the first cell. */
  datatype Dir = Vertical | Horizontal | DownRight | DownLeft

  /** Four consecutive cells starting at (row, col) and running in direction `dir`. */
  datatype Line = Line(row: int, col: int, dir: Dir)

  function RowAt(l: Line, k: int): int
  {
    match l.dir
    case Horizontal => l.row
    case _ => l.row + k
  }

  function ColAt(l: Line, k: int): int
  {
    match l.dir
    case Vertical => l.col
    case DownLeft => l.col - k
    case _ => l.col + k
  }

  /** All four cells of the line lie on the grid. */
  predicate InBounds(l: Line)
  {
    && 0 <= RowAt(l, 0) && RowAt(l, 3) < ROWS
    && 0 <= ColAt(l, 0) < COLS && 0 <= ColAt(l, 3) < COLS
  }

  /** The k-th cell of line `l` (k = 0 is the cell the scan starts from). */
  function At(g: Cells, l: Line, k: int): Cell
    requires InBounds(l) && 0 <= k < 4
  {
    g[RowAt(l, k)][ColAt(l, k)]
  }

  /** Player `p` owns all four cells of `l`: a four-in-a-row. */
  predicate Connects(g: Cells, l: Line, p: Player)
  {
    InBounds(l) && At(g, l, 0) == p && At(g, l, 1) == p && At(g, l, 2) == p && At(g, l, 3) == p
  }

  ghost predicate HasFour(g: Cells, p: Player)
  {
    exists l: Line :: Connects(g, l, p)
  }

  ghost predicate AnyFour(g: Cells)
  {
    HasFour(g, RED) || HasFour(g, YELLOW)
  }

  /** The test the scan applies to each candidate line: the first cell holds a
      token and the other three equal it. */
  predicate Winning(g: Cells, l: Line)
  {
    InBounds(l) && At(g, l, 0) != EMPTY
    && At(g, l, 0) == At(g, l, 1) && At(g, l, 0) == At(g, l, 2) && At(g, l, 0) == At(g, l, 3)
  }

  /** The candidate lines in the order the source scans them: vertical (rows
      0..2, columns 0..6), horizontal (rows 0..5, columns 0..3), down-right
      diagonal (rows 0..2, columns 0..3), down-left diagonal (rows 0..2,
      columns 6 down to 3), each row-major. */
  function Scan(): seq<Line>
  {
    seq(21, k => Line(k / 7, k % 7, Vertical))
    + seq(24, k => Line(k / 4, k % 4, Horizontal))
    + seq(12, k => Line(k / 4, k % 4, DownRight))
    + seq(12, k => Line(k / 4, 6 - k % 4, DownLeft))
  }

  /** Every line that fits on the grid is scanned. */
  lemma ScanComplete(l: Line)
    requires InBounds(l)
    ensures exists k :: 0 <= k < |Scan()| && Scan()[k] == l
  {
    match l.dir
    case Vertical =>
      var k := l.row * 7 + l.col;
      assert Scan()[k] == Line(k / 7, k % 7, Vertical);
    case Horizontal =>
      var k := l.row * 4 + l.col;
      assert Scan()[21 + k] == Line(k / 4, k % 4, Horizontal);
    case DownRight =>
      var k := l.row * 4 + l.col;
      assert Scan()[45 + k] == Line(k / 4, k % 4, DownRight);
    case DownLeft =>
      var k := l.row * 4 + (6 - l.col);
      assert Scan()[57 + k] == Line(k / 4, 6 - k % 4, DownLeft);
  }

  /** A four-in-a-row is exactly a line that passes the scan's test. */
  lemma ConnectsIffWinning(g: Cells, l: Line)
    ensures Winning(g, l) ==> Connects(g, l, At(g, l, 0))
    ensures forall p: Player :: Connects(g, l, p) ==> Winning(g, l)
  {
  }

  /** When the scan finds no line, there is no four-in-a-row anywhere. */
  lemma NoHitMeansNoFour(g: Cells)
    requires forall k | 0 <= k < |Scan()| :: !Winning(g, Scan()[k])
    ensures !AnyFour(g)
  {
    forall p: Player, l: Line | InBounds(l) ensures !Connects(g, l, p) {
      ScanComplete(l);
    }
  }

  /** The scan from position k: the owner of the first line at or after k that
      passes the test. */
  function FirstFour(g: Cells, k: nat): (o: Option<Player>)
    requires k <= |Scan()|
    decreases |Scan()| - k
    ensures o.None? <==> forall j | k <= j < |Scan()| :: !Winning(g, Scan()[j])
    ensures o.Some? ==> exists j :: k <= j < |Scan()| && Winning(g, Scan()[j])
                                 && At(g, Scan()[j], 0) == o.value
                                 && forall i | k <= i < j :: !Winning(g, Scan()[i])
  {
    if k == |Scan()| then None
    else if Winning(g, Scan()[k]) then Some(At(g, Scan()[k], 0))
    else FirstFour(g, k + 1)
  }

  /** Node::getGameState: -1 while the game is in progress, the winner's code
      (1 or 2) on a four-in-a-row, 3 on a full grid without one. */
  function GameState(g: Cells): (s: int)
    ensures s == IN_PROGRESS <==> !AnyFour(g) && HasEmpty(g)
    ensures s == DRAW <==> !AnyFour(g) && !HasEmpty(g)
    ensures s == RED || s == YELLOW <==> AnyFour(g)
    ensures s == RED ==> HasFour(g, RED)
    ensures s == YELLOW ==> HasFour(g, YELLOW)
  {
    match FirstFour(g, 0)
    case Some(p) =>
      FirstFourConnects(g);
      p
    case None =>
      NoHitMeansNoFour(g);
      if HasEmpty(g) then IN_PROGRESS else DRAW
  }

  /** The owner the scan reports does have a four-in-a-row. */
  lemma FirstFourConnects(g: Cells)
    requires FirstFour(g, 0).Some?
    ensures HasFour(g, FirstFour(g, 0).value)
  {
    var j :| 0 <= j < |Scan()| && Winning(g, Scan()[j]) && At(g, Scan()[j], 0) == FirstFour(g, 0).value;
    ConnectsIffWinning(g, Scan()[j]);
  }

  /** The result of c4Board::continuePlaying: whether play goes on, and the
      board's `winningPlayer` field after the call. */
  datatype Verdict = Verdict(keepPlaying: bool, winningPlayer: int)

  /** c4Board::continuePlaying: the same scan as getGameState; on a line it
      stops play and records the line's owner as `winningPlayer`, otherwise it
      keeps playing while a cell is empty and leaves `winningPlayer` alone. */
  function ContinuePlaying(g: Cells, winningPlayer: int): (v: Verdict)
    ensures v.keepPlaying <==> GameState(g) == IN_PROGRESS
    ensures AnyFour(g) ==> v.winningPlayer == GameState(g)
    ensures !AnyFour(g) ==> v.winningPlayer == winningPlayer
  {
    match FirstFour(g, 0)
    case Some(p) => Verdict(false, p)
    case None => Verdict(HasEmpty(g), winningPlayer)
  }

  /** A grid with no empty cell is terminal, so the empty-cell count bounds every game. */
  lemma FullGridIsTerminal(g: Cells)
    requires EmptyCount(g) == 0
    ensures GameState(g) != IN_PROGRESS
  {
    EmptyCountPositive(g);
  }

  /** On a grid without a four-in-a-row, any four-in-a-row that appears once
      the single cell (r, c) is set to `p` belongs to `p`: a new line must run
      through the new token. */
  lemma NewFourBelongsToMover(g: Cells, h: Cells, r: Row, c: Column, p: Player)
    requires !AnyFour(g)
    requires h[r][c] == p
    requires forall i: Row, j: Column :: (i != r || j != c) ==> h[i][j] == g[i][j]
    ensures forall q: Player :: HasFour(h, q) ==> q == p
  {
    forall q: Player | HasFour(h, q) ensures q == p {
      var l :| Connects(h, l, q);
      if q != p {
        forall k | 0 <= k < 4 ensures At(g, l, k) == q {
          assert At(h, l, k) == q;
        }
        assert Connects(g, l, q);
      }
    }
  }

  /** After one token of `p` is added to a position still in progress, a win
      can only be a win of `p`. */
  lemma WinnerIsMover(g: Cells, h: Cells, r: Row, c: Column, p: Player)
    requires GameState(g) == IN_PROGRESS
    requires h[r][c] == p
    requires forall i: Row, j: Column :: (i != r || j != c) ==> h[i][j] == g[i][j]
    ensures GameState(h) == RED || GameState(h) == YELLOW ==> GameState(h) == p
  {
    NewFourBelongsToMover(g, h, r, c, p);
  }
}

/**
  The flat Monte Carlo move selection of the Node class: random playouts to a
  terminal position (sampleNodePath) and the choice of the column whose child
  collected the most wins (makeMove).  The pseudo-random column generator is
  replaced by an oracle: every playout receives the sequence of columns the
  generator would have produced.
 */
module Search {
  import opened Wrappers
  import opened Grid
  import opened Classify
  import opened Position
  import opened Tally

  /** makeMove samples every child with sampleNodePath(50); that loop runs for
      i = 0 .. 50, so each child receives SEARCHES + 1 playouts. */
  const SEARCHES: nat := 50

  /** A search node: a position together with its accumulators. */
  datatype Node = Node(pos: Board, tally: Tally)

  // ---------------------------------------------------------------------------
  // Playouts
  // ---------------------------------------------------------------------------

  /** One random playout (the inner loop of sampleNodePath) driven by the
      column choices `choices`: a full column is skipped, as the source then
      draws again, and a legal one is played with getChildNode.  The playout
      stops on the first terminal position; None when the choices run out
      before one is reached. */
  function Playout(b: Board, choices: seq<Column>): (r: Option<Board>)
    decreases |choices|
    ensures r.Some? ==> GameState(r.value.tiles) != IN_PROGRESS
    ensures GameState(b.tiles) != IN_PROGRESS ==> r == Some(b)
  {
    if GameState(b.tiles) != IN_PROGRESS then Some(b)
    else if |choices| == 0 then None
    else if IsPossible(b.tiles, choices[0]) then Playout(ChildNode(b, choices[0]), choices[1..])
    else Playout(b, choices[1..])
  }

  /** The columns a playout actually plays: the legal choices it consumes. */
  function PlayedColumns(b: Board, choices: seq<Column>): seq<Column>
    decreases |choices|
  {
    if GameState(b.tiles) != IN_PROGRESS || |choices| == 0 then []
    else if IsPossible(b.tiles, choices[0])
    then [choices[0]] + PlayedColumns(ChildNode(b, choices[0]), choices[1..])
    else PlayedColumns(b, choices[1..])
  }

  /** A finished playout is an ordinary continuation of the game: a sequence of
      legal drops that alternate the players.  So it uses up one empty cell per
      move, never more moves than there are empty cells, and it keeps the grid
      packed and the token counts balanced. */
  lemma {:induction false} PlayoutIsLegalGame(b: Board, choices: seq<Column>)
    requires Playout(b, choices).Some?
    decreases |choices|
    ensures LegalMoves(b, PlayedColumns(b, choices))
    ensures Play(b, PlayedColumns(b, choices)) == Playout(b, choices).value
  {
    if GameState(b.tiles) != IN_PROGRESS || |choices| == 0 {
    } else if IsPossible(b.tiles, choices[0]) {
      var b' := ChildNode(b, choices[0]);
      PlayoutIsLegalGame(b', choices[1..]);
      var cols := PlayedColumns(b, choices);
      assert cols[0] == choices[0] && cols[1..] == PlayedColumns(b', choices[1..]);
    } else {
      PlayoutIsLegalGame(b, choices[1..]);
    }
  }

  /** The invariants a playout keeps, and the empty-cell count as its measure. */
  lemma PlayoutKeepsInvariants(b: Board, choices: seq<Column>)
    requires Playout(b, choices).Some?
    requires Packed(b.tiles) && Alternates(b)
    ensures var e := Playout(b, choices).value;
            && Packed(e.tiles) && Alternates(e)
            && |PlayedColumns(b, choices)| + EmptyCount(e.tiles) == EmptyCount(b.tiles)
  {
    PlayoutIsLegalGame(b, choices);
    PlayKeepsInvariants(b, PlayedColumns(b, choices));
  }

  /** A playout started on a position still in progress that ends in a
      four-in-a-row ends with the winner as `playerJustMoved`: the line that
      ended the game runs through the token that was dropped last. */
  lemma {:induction false} PlayoutWinnerMovedLast(b: Board, choices: seq<Column>)
    requires GameState(b.tiles) == IN_PROGRESS
    requires Playout(b, choices).Some?
    requires var s := GameState(Playout(b, choices).value.tiles); s == RED || s == YELLOW
    decreases |choices|
    ensures GameState(Playout(b, choices).value.tiles) == Playout(b, choices).value.playerJustMoved
  {
    var c := choices[0];
    if IsPossible(b.tiles, c) {
      var b' := ChildNode(b, c);
      var row := LowestEmpty(b.tiles, c).value;
      DropTokenSetsLowestEmpty(b, c, row);
      if GameState(b'.tiles) == IN_PROGRESS {
        PlayoutWinnerMovedLast(b', choices[1..]);
      } else {
        WinnerIsMover(b.tiles, b'.tiles, row, c, b'.playerJustMoved);
      }
    } else {
      PlayoutWinnerMovedLast(b, choices[1..]);
    }
  }

  // ---------------------------------------------------------------------------
  // Sampling (Node::sampleNodePath)
  // ---------------------------------------------------------------------------

  /** Every playout of `runs` from `start` reaches a terminal position. */
  predicate Finishes(start: Board, runs: seq<seq<Column>>)
    decreases |runs|
  {
    |runs| == 0 || (Playout(start, runs[0]).Some? && Finishes(start, runs[1..]))
  }

  /** The terminal game states the playouts of `runs` reach, in order. */
  function Outcomes(start: Board, runs: seq<seq<Column>>): (s: seq<int>)
    requires Finishes(start, runs)
    decreases |runs|
    ensures |s| == |runs|
  {
    if |runs| == 0 then []
    else [GameState(Playout(start, runs[0]).value.tiles)] + Outcomes(start, runs[1..])
  }

  /** How often `v` occurs in `s`. */
  function Occurrences(s: seq<int>, v: int): (n: nat)
    ensures n <= |s|
  {
    if |s| == 0 then 0 else (if s[0] == v then 1 else 0) + Occurrences(s[1..], v)
  }

  /** The outer loop of sampleNodePath: one playout from `start` per entry of
      `runs`, each recorded for `me`.  None when some playout cannot finish. */
  function SampleRuns(t: Tally, me: Cell, start: Board, runs: seq<seq<Column>>): (r: Option<Tally>)
    decreases |runs|
    ensures r.Some? ==> r.value.ni == t.ni + |runs|
    ensures r.Some? ==> r.value.wi >= t.wi && r.value.di >= t.di
    ensures r.Some? ==> r.value.wi + r.value.di <= t.wi + t.di + |runs|
    ensures r.Some? && Consistent(t) ==> Consistent(r.value)
    ensures r.Some? <==> Finishes(start, runs)
  {
    if |runs| == 0 then Some(t)
    else
      match Playout(start, runs[0])
      case None => None
      case Some(e) => SampleRuns(Record(t, me, GameState(e.tiles)), me, start, runs[1..])
  }

  /** The corrected win test counts exactly the playouts `me` won. */
  lemma {:induction false} SampleRunsCountsWins(t: Tally, me: Player, start: Board, runs: seq<seq<Column>>)
    requires Finishes(start, runs)
    decreases |runs|
    ensures SampleRuns(t, me, start, runs).value.wi == t.wi + Occurrences(Outcomes(start, runs), me)
  {
    if |runs| > 0 {
      var e := Playout(start, runs[0]).value;
      var o := Outcomes(start, runs);
      assert o[0] == GameState(e.tiles) && o[1..] == Outcomes(start, runs[1..]);
      SampleRunsCountsWins(Record(t, me, GameState(e.tiles)), me, start, runs[1..]);
    }
  }

  /** The draw test counts exactly the playouts that filled the grid. */
  lemma {:induction false} SampleRunsCountsDraws(t: Tally, me: Player, start: Board, runs: seq<seq<Column>>)
    requires Finishes(start, runs)
    decreases |runs|
    ensures SampleRuns(t, me, start, runs).value.di == t.di + Occurrences(Outcomes(start, runs), DRAW)
  {
    if |runs| > 0 {
      var e := Playout(start, runs[0]).value;
      var o := Outcomes(start, runs);
      assert o[0] == GameState(e.tiles) && o[1..] == Outcomes(start, runs[1..]);
      SampleRunsCountsDraws(Record(t, me, GameState(e.tiles)), me, start, runs[1..]);
    }
  }

  /** Node::sampleNodePath(numSearches): numSearches + 1 playouts from the
      node's position, each supplied by the oracle, recorded for the player
      who just moved into the node.  The position is untouched, `ni` grows by
      exactly numSearches + 1, `wi` and `di` together by at most that, and
      `wi + di <= ni` is preserved. */
  function SampleNodePath(node: Node, numSearches: nat, runs: seq<seq<Column>>): (r: Option<Node>)
    requires |runs| == numSearches + 1
    ensures r.Some? ==> r.value.pos == node.pos
    ensures r.Some? ==> r.value.tally.ni == node.tally.ni + numSearches + 1
    ensures r.Some? ==> r.value.tally.wi + r.value.tally.di
                        <= node.tally.wi + node.tally.di + numSearches + 1
    ensures r.Some? && Consistent(node.tally) ==> Consistent(r.value.tally)
    ensures r.Some? <==> Finishes(node.pos, runs)
  {
    match SampleRuns(node.tally, node.pos.playerJustMoved, node.pos, runs)
    case None => None
    case Some(t) => Some(Node(node.pos, t))
  }

  // ---------------------------------------------------------------------------
  // Move selection (Node::makeMove)
  // ---------------------------------------------------------------------------

  /** The accumulators of the child for column `c`: a placeholder with zero
      accumulators when the column is full, otherwise the child position built
      by getChildNode and sampled with its oracle runs. */
  function ChildTally(pos: Board, c: Column, runs: seq<seq<Column>>): (r: Option<Tally>)
    requires |runs| == SEARCHES + 1
    ensures !IsPossible(pos.tiles, c) ==> r == Some(Zero)
    ensures IsPossible(pos.tiles, c) && r.Some? ==> r.value.ni == SEARCHES + 1 && Consistent(r.value)
    ensures IsPossible(pos.tiles, c) ==> (r.Some? <==> Finishes(ChildNode(pos, c), runs))
  {
    if !IsPossible(pos.tiles, c) then Some(Zero)
    else
      match SampleNodePath(Node(ChildNode(pos, c), Zero), SEARCHES, runs)
      case None => None
      case Some(n) => Some(n.tally)
  }

  /** Column `c` is the last legal column. */
  predicate IsLastPossible(g: Cells, c: Column)
  {
    IsPossible(g, c) && forall j: Column :: c < j ==> !IsPossible(g, j)
  }

  /** The first selection loop of makeMove: every legal column overwrites the
      candidate, so the last legal column at or after `i` remains. */
  function LastPossibleFrom(g: Cells, i: nat, cand: Column): (r: Column)
    requires i <= COLS
    decreases COLS - i
    ensures (exists j: Column :: i <= j && IsPossible(g, j)) ==> IsLastPossible(g, r)
    ensures (forall j: Column :: i <= j ==> !IsPossible(g, j)) ==> r == cand
  {
    if i == COLS then cand
    else LastPossibleFrom(g, i + 1, if IsPossible(g, i) then i else cand)
  }

  function LastPossible(g: Cells): (r: Column)
    requires exists c: Column :: IsPossible(g, c)
    ensures IsLastPossible(g, r)
  {
    LastPossibleFrom(g, 0, 0)
  }

  /** The second selection loop of makeMove: an ascending scan from column `i`
      that replaces the candidate only on a strictly larger win count.  The
      result has the largest count from `i` on; it is the old candidate, or
      else the first column that beats it with that count. */
  function Rescan(wins: seq<nat>, i: nat, best: Column): (r: Column)
    requires |wins| == COLS && i <= COLS
    decreases COLS - i
    ensures wins[r] >= wins[best]
    ensures forall j | i <= j < COLS :: wins[j] <= wins[r]
    ensures r == best || (i <= r && wins[r] > wins[best] && forall j | i <= j < r :: wins[j] < wins[r])
  {
    if i == COLS then best
    else if wins[i] > wins[best] then Rescan(wins, i + 1, i)
    else Rescan(wins, i + 1, best)
  }

  /** The column makeMove is meant to pick from the children's win counts
      `wins`: a legal column with the most wins among the legal ones; the
      last legal column when it has that many, otherwise the lowest column
      with that many. */
  predicate BestColumn(g: Cells, wins: seq<nat>, r: Column)
  {
    && |wins| == COLS
    && (exists c: Column :: IsPossible(g, c))
    && IsPossible(g, r)
    && (forall c: Column :: IsPossible(g, c) ==> wins[c] <= wins[r])
    && (wins[LastPossible(g)] == wins[r] ==> r == LastPossible(g))
    && (r != LastPossible(g) ==> forall c: Column :: c < r ==> wins[c] < wins[r])
  }

  /** The tie-break leaves no choice: at most one column is the best column. */
  lemma BestColumnUnique(g: Cells, wins: seq<nat>, r: Column, r': Column)
    requires BestColumn(g, wins, r) && BestColumn(g, wins, r')
    ensures r == r'
  {
  }

  /** The two selection loops of makeMove over the children's win counts.
      Full columns carry zero wins, as the placeholders do. */
  function Select(g: Cells, wins: seq<nat>): (r: Column)
    requires |wins| == COLS
    requires exists c: Column :: IsPossible(g, c)
    requires forall c: Column :: !IsPossible(g, c) ==> wins[c] == 0
    ensures BestColumn(g, wins, r)
  {
    Rescan(wins, 0, LastPossible(g))
  }

  /** The first legal column at or after `i`. */
  function FirstPossibleFrom(g: Cells, i: Column): (r: Column)
    requires exists j: Column :: i <= j && IsPossible(g, j)
    decreases COLS - i
    ensures i <= r && IsPossible(g, r)
    ensures forall j: Column :: i <= j < r ==> !IsPossible(g, j)
  {
    if IsPossible(g, i) then i else FirstPossibleFrom(g, i + 1)
  }

  /** The selection the comment on makeMove's first loop describes: start
      from the first legal column, then rescan as before.  The choice is the
      legal column with the most wins, and the lowest of them on a tie. */
  function SelectFirst(g: Cells, wins: seq<nat>): (r: Column)
    requires |wins| == COLS
    requires exists c: Column :: IsPossible(g, c)
    requires forall c: Column :: !IsPossible(g, c) ==> wins[c] == 0
    ensures IsPossible(g, r)
    ensures forall c: Column :: IsPossible(g, c) ==> wins[c] <= wins[r]
    ensures forall c: Column :: c < r && IsPossible(g, c) ==> wins[c] < wins[r]
  {
    Rescan(wins, 0, FirstPossibleFrom(g, 0))
  }

  /** Where the last legal column ties an earlier one for the most wins, the
      code keeps the last one and the described selection the first: with
      columns 0 and 6 legal and one win each, Select picks 6, SelectFirst 0. */
  lemma SelectKeepsLastOnTie(g: Cells, wins: seq<nat>)
    requires IsPossible(g, 0) && IsPossible(g, 6)
    requires wins == [1, 0, 0, 0, 0, 0, 1]
    ensures Select(g, wins) == 6
    ensures SelectFirst(g, wins) == 0
  {
    assert LastPossible(g) == 6;
    var r := Select(g, wins);
    assert wins[r] == 1;
  }

  /** The children makeMove builds and samples, one per column: the
      placeholder's zero accumulators for a full column, consistent
      accumulators for every child sampled to the end. */
  function Samples(pos: Board, oracle: seq<seq<seq<Column>>>): (r: seq<Option<Tally>>)
    requires |oracle| == COLS && forall c | 0 <= c < COLS :: |oracle[c]| == SEARCHES + 1
    ensures |r| == COLS
    ensures forall c: Column :: r[c] == ChildTally(pos, c, oracle[c])
    ensures forall c: Column :: !IsPossible(pos.tiles, c) ==> r[c] == Some(Zero)
    ensures forall c: Column :: r[c].Some? ==> Consistent(r[c].value)
  {
    seq(COLS, c requires 0 <= c < COLS => ChildTally(pos, c, oracle[c]))
  }

  /** All the values of `opts`, or None when one of them is missing. */
  function Collect<T>(opts: seq<Option<T>>): (r: Option<seq<T>>)
    ensures r.None? <==> exists k :: 0 <= k < |opts| && opts[k].None?
    ensures r.Some? ==> |r.value| == |opts| && forall k | 0 <= k < |opts| :: opts[k] == Some(r.value[k])
  {
    if |opts| == 0 then Some([])
    else
      match (opts[0], Collect(opts[1..]))
      case (Some(x), Some(xs)) =>
        assert forall k | 1 <= k < |opts| :: opts[k] == opts[1..][k - 1];
        Some([x] + xs)
      case _ =>
        assert forall k | 1 <= k < |opts| :: opts[k] == opts[1..][k - 1];
        None
  }

  /** The win counts of a sequence of accumulators. */
  function Wins(ts: seq<Tally>): (w: seq<nat>)
    ensures |w| == |ts| && forall k | 0 <= k < |ts| :: w[k] == ts[k].wi
  {
    seq(|ts|, k requires 0 <= k < |ts| => ts[k].wi)
  }

  /** What makeMove produces: the column to play, the root with its updated
      accumulators, and the accumulators of the seven children (zero for full
      columns; empty on the opening shortcut, which builds no children). */
  datatype Choice = Choice(column: Column, root: Node, children: seq<Tally>)

  /** Node::makeMove.  On the empty grid: column 3, nothing sampled.  Otherwise
      one child per legal column, sampled with SEARCHES + 1 playouts from the
      oracle `oracle[c]`, the children's accumulators added into the root, and
      the column chosen by Select on the children's win counts.  None when
      some playout cannot finish on its oracle. */
  function MakeMove(root: Node, oracle: seq<seq<seq<Column>>>): (r: Option<Choice>)
    requires |oracle| == COLS && forall c | 0 <= c < COLS :: |oracle[c]| == SEARCHES + 1
    requires exists c: Column :: IsPossible(root.pos.tiles, c)
    ensures AllEmpty(root.pos.tiles) ==> r == Some(Choice(3, root, []))
    ensures r.Some? ==> IsPossible(root.pos.tiles, r.value.column)
    ensures !AllEmpty(root.pos.tiles) ==>
              (r.None? <==> exists c: Column :: Samples(root.pos, oracle)[c].None?)
    ensures r.Some? && !AllEmpty(root.pos.tiles) ==>
              && |r.value.children| == COLS
              && forall c: Column :: Samples(root.pos, oracle)[c] == Some(r.value.children[c])
    ensures r.Some? && !AllEmpty(root.pos.tiles) ==>
              BestColumn(root.pos.tiles, Wins(r.value.children), r.value.column)
    ensures r.Some? ==> r.value.root.pos == root.pos
    ensures r.Some? && !AllEmpty(root.pos.tiles) ==>
              r.value.root.tally == Add(root.tally, Total(r.value.children))
    ensures r.Some? && Consistent(root.tally) ==> Consistent(r.value.root.tally)
  {
    if AllEmpty(root.pos.tiles) then
      Some(Choice(3, root, []))
    else
      var opts := Samples(root.pos, oracle);
      match Collect(opts)
      case None => None
      case Some(kids) =>
        assert forall k | 0 <= k < |kids| :: Consistent(kids[k]);
        var best := Select(root.pos.tiles, Wins(kids));
        Some(Choice(best, Node(root.pos, Add(root.tally, Total(kids))), kids))
  }

  // ---------------------------------------------------------------------------
  // The win test of sampleNodePath
  // ---------------------------------------------------------------------------

  /** With the win test as written, every decisive playout from a position
      in progress is counted as a win, whoever made the four-in-a-row: the
      winner is always the terminal position's `playerJustMoved`. */
  lemma AsWrittenCountsEveryWin(t: Tally, start: Board, choices: seq<Column>)
    requires GameState(start.tiles) == IN_PROGRESS
    requires Playout(start, choices).Some?
    requires var s := GameState(Playout(start, choices).value.tiles); s == RED || s == YELLOW
    ensures var e := Playout(start, choices).value;
            RecordAsWritten(t, GameState(e.tiles), e.playerJustMoved).wi == t.wi + 1
  {
    PlayoutWinnerMovedLast(start, choices);
  }

  /** A playout whose first choice is legal and ends the game stops there. */
  lemma FinishingMove(b: Board, c: Column)
    requires GameState(b.tiles) == IN_PROGRESS && IsPossible(b.tiles, c)
    requires GameState(ChildNode(b, c).tiles) != IN_PROGRESS
    ensures Playout(b, [c]) == Some(ChildNode(b, c))
  {
    assert [c][1..] == [];
  }

  /** A drop that completes a line for the side to move, from a position in
      progress, wins the game for that side. */
  lemma CompletingMove(b: Board, c: Column, row: Row, l: Line)
    requires GameState(b.tiles) == IN_PROGRESS
    requires IsLowestEmpty(b.tiles, row, c)
    requires Connects(ChildNode(b, c).tiles, l, SideToMove(b.playerJustMoved))
    ensures GameState(ChildNode(b, c).tiles) == SideToMove(b.playerJustMoved)
  {
    DropTokenSetsLowestEmpty(b, c, row);
    WinnerIsMover(b.tiles, ChildNode(b, c).tiles, row, c, SideToMove(b.playerJustMoved));
  }

  /** When the opponent of the player who moved into a node can win at once,
      the playout that plays that win is counted as a win of the node by the
      win test as written, and not by the corrected record. */
  lemma AsWrittenCountsOpponentWin(t: Tally, b: Board, c: Column, row: Row, l: Line)
    requires b.playerJustMoved != EMPTY
    requires GameState(b.tiles) == IN_PROGRESS
    requires IsLowestEmpty(b.tiles, row, c)
    requires Connects(ChildNode(b, c).tiles, l, SideToMove(b.playerJustMoved))
    ensures Playout(b, [c]) == Some(ChildNode(b, c))
    ensures GameState(ChildNode(b, c).tiles) == Opponent(b.playerJustMoved)
    ensures RecordAsWritten(t, GameState(ChildNode(b, c).tiles), ChildNode(b, c).playerJustMoved).wi == t.wi + 1
    ensures Record(t, b.playerJustMoved, GameState(ChildNode(b, c).tiles)).wi == t.wi
  {
    CompletingMove(b, c, row, l);
    FinishingMove(b, c);
  }

  /** Yellow has just moved; Red holds rows 3 to 5 of column 0 and Yellow
      rows 3 to 5 of column 1. */
  function Threat(): (g: Cells)
    ensures forall r: Row, c: Column :: g[r][c] == if 3 <= r && c == 0 then RED
                                                  else if 3 <= r && c == 1 then YELLOW
                                                  else EMPTY
  {
    seq(ROWS, r requires 0 <= r < ROWS =>
      seq(COLS, c requires 0 <= c < COLS =>
        if 3 <= r && c == 0 then RED else if 3 <= r && c == 1 then YELLOW else EMPTY))
  }

  /** The position of Threat is in progress: nobody has four in a line and
      the top row is empty. */
  lemma ThreatInProgress()
    ensures GameState(Threat()) == IN_PROGRESS
  {
    var g := Threat();
    forall p: Player, l: Line ensures !Connects(g, l, p) {
    }
    assert g[0][0] == EMPTY;
  }

  /** Yellow to have just moved into Threat meets the conditions of
      AsWrittenCountsOpponentWin: Red's answer in column 0 lands on row 2 and
      completes rows 2 to 5 of that column. */
  lemma ThreatIsCounterexample(b: Board)
    requires b.tiles == Threat() && b.playerJustMoved == YELLOW
    ensures GameState(b.tiles) == IN_PROGRESS
    ensures IsLowestEmpty(b.tiles, 2, 0)
    ensures Connects(ChildNode(b, 0).tiles, Line(2, 0, Vertical), SideToMove(b.playerJustMoved))
  {
    ThreatInProgress();
    assert IsLowestEmpty(b.tiles, 2, 0);
    DropTokenSetsLowestEmpty(b, 0, 2);
    var h, l := ChildNode(b, 0).tiles, Line(2, 0, Vertical);
    assert h[2][0] == RED && h[3][0] == RED && h[4][0] == RED && h[5][0] == RED;
    assert InBounds(l);
    assert At(h, l, 0) == h[2][0] && At(h, l, 1) == h[3][0] && At(h, l, 2) == h[4][0] && At(h, l, 3) == h[5][0];
  }
}

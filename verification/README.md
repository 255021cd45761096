# Connect Four rules and Monte Carlo move selection

A Dafny model of the game core of `ConnectFour.cpp`:

- the 6×7 grid, the gravity drop of `c4Board::dropToken` and `Node::getChildNode`, and the column test `Node::isPossible`;
- the turn order: Red (1) moves first, after that `3 - playerJustMoved` moves;
- the terminal-state scan shared by `Node::getGameState` and `c4Board::continuePlaying`;
- the playout tally of `Node::sampleNodePath`;
- the column choice of `Node::makeMove`.

Both classes hold a copy of the grid logic. Here it is defined once, over immutable values.

| module | file | contents |
|---|---|---|
| `Wrappers` | `Wrappers.dfy` | `Option` |
| `Grid` | `Grid.dfy` | cell codes (-1 empty, 1 Red, 2 Yellow), `IsPossible`, the gravity `Drop`, cell counts, the packing invariant |
| `Classify` | `Classify.dfy` | the four-direction line scan, `GameState` (-1 / 1 / 2 / 3) and `ContinuePlaying` |
| `Position` | `Position.dfy` | a position (grid plus `playerJustMoved`); `DropToken`, `ChildNode`, sequences of moves, alternation |
| `Tally` | `Tally.dfy` | the `ni` / `wi` / `di` accumulators and how one finished playout is recorded |
| `Search` | `Search.dfy` | playouts, `SampleNodePath`, the selection loops and `MakeMove` |

The pseudo-random column generator is replaced by an oracle. Each playout receives the column choices the generator would have produced, as a `seq<Column>`:

- a full column is skipped, as the source draws again;
- a playout whose choices run out before the game ends yields `None`;
- `MakeMove` then yields `None` too.

`MakeMove` takes one oracle per column, holding 51 such sequences, because `sampleNodePath(50)` runs its loop for `i = 0 .. 50`.

Every operation has a partner it is proved against:

- `GameState` against the logical predicates `HasFour` and `AnyFour`. Any line of four on the grid is proved to be one the scan visits.
- `Drop` against `IsLowestEmpty`, the packing invariant and the empty-cell count.
- Playouts against `Play`, the plain sequence of legal drops.
- The selection loops against the declarative `BestColumn`, which is proved to admit at most one column.
- The tally against `Occurrences`, which counts the playouts' outcomes.

## Model

| member | source | states |
|---|---|---|
| Grid.IsPossible | ConnectFour.cpp:444-455 | a column is legal exactly when some row of it holds an empty cell |
| Grid.PackedPossibleIffTopEmpty | ConnectFour.cpp:444-455 | on a gravity-packed grid, a column is legal exactly when its top cell is empty |
| Grid.LowestEmpty | ConnectFour.cpp:178-185 | the upward search finds the lowest empty cell of the column (everything below it is a token), and finds none exactly when the column is full |
| Grid.LowestEmptyUnique | ConnectFour.cpp:178-185 | a column has at most one lowest empty cell, so the landing row is determined |
| Grid.Drop | ConnectFour.cpp:175-189 | the token lands on the lowest empty cell of the column and only that cell changes; there is no landing iff the column is full; one empty cell is used up; packing is kept |
| Grid.CellsPartition | ConnectFour.cpp:274 | every cell of the grid is empty, Red or Yellow, so the three counts add up to 42 |
| Grid.ColumnSpace | ConnectFour.cpp:444-455 | the number of empty cells in one column, at most six, and positive exactly when the column is legal |
| Grid.DropColumnSpace | ConnectFour.cpp:178-185 | a drop uses up exactly one empty cell of its own column and leaves every other column's count unchanged |
| Grid.EmptyGridColumnSpace | ConnectFour.cpp:285-291 | every column of the all-empty grid has six empty cells |
| Grid.EmptyCountPositive | ConnectFour.cpp:503-510 | the empty-cell count is positive exactly when some cell is empty |
| Grid.AllEmptyIsEmptyGrid | ConnectFour.cpp:600-608 | the cell-by-cell emptiness test holds of exactly one grid, the all-empty one |
| Grid.EmptyGridCounts | ConnectFour.cpp:285-291 | the all-empty grid has 42 empty cells, no token of either colour, and is packed |
| Classify.ScanComplete | ConnectFour.cpp:468-501 | every line of four that fits on the grid, in any of the four directions, is among the lines the scan visits |
| Classify.ConnectsIffWinning | ConnectFour.cpp:470 | the scan's per-line test (non-empty first cell, three equal followers) holds exactly for a line owned by one player |
| Classify.NoHitMeansNoFour | ConnectFour.cpp:468-501 | when no scanned line passes the test, neither player has four in a row anywhere |
| Classify.FirstFour | ConnectFour.cpp:468-501 | the scan reports the owner of the first passing line in scan order, and reports nothing iff no line passes |
| Classify.GameState | ConnectFour.cpp:458-514 | 1 or 2 only when that player has four in a row; -1 iff there is no line and some cell is empty; 3 iff there is no line and the grid is full |
| Classify.ContinuePlaying | ConnectFour.cpp:194-255 | play continues exactly when GameState is -1; on a line `winningPlayer` becomes the GameState winner, otherwise it is left unchanged |
| Classify.FullGridIsTerminal | ConnectFour.cpp:503-513 | a grid without empty cells is never in progress |
| Classify.NewFourBelongsToMover | ConnectFour.cpp:432-438 | on a grid without a line, a line that appears after one cell is set to `p` belongs to `p` |
| Classify.WinnerIsMover | ConnectFour.cpp:432-438 | one token added to a position in progress can only produce a win for the player who placed it |
| Position.SideToMove | ConnectFour.cpp:166-173 | Red moves first; afterwards the mover differs from `playerJustMoved` |
| Position.DropToken | ConnectFour.cpp:161-192 | a full column gives the board back unchanged; a legal drop records the side to move as `playerJustMoved` and uses up one empty cell |
| Position.DropTokenKeepsInvariants | ConnectFour.cpp:175-185 | a drop keeps the grid packed and keeps Red's token count equal to Yellow's, or one more when Red moved last |
| Position.DropTokenSetsLowestEmpty | ConnectFour.cpp:175-185 | a drop sets exactly the lowest empty cell of the column to the side to move; every other cell is unchanged |
| Position.ChildNode | ConnectFour.cpp:407-441 | the child always records the side to move as `playerJustMoved`; on a legal column it equals the dropToken board, on a full one the grid stays as it was |
| Position.DropTokenPassesTurn | ConnectFour.cpp:166-173 | after a legal drop the opponent of the previous side to move is to move |
| Position.TurnParity | ConnectFour.cpp:166-173 | after an even number of alternating turns the first player is to move again, after an odd number the opponent is |
| Position.PlayKeepsInvariants | ConnectFour.cpp:175-185 | each legal drop in a sequence uses up one empty cell, and packing and the token balance are kept throughout |
| Position.PlayAlternates | ConnectFour.cpp:166-173 | successive legal drops alternate the side to move |
| Position.PlayMoved | ConnectFour.cpp:114 | after at least one legal drop somebody has moved |
| Position.ColumnFills | ConnectFour.cpp:175-189 | repeated drops into one column are all legal exactly when there are no more of them than empty cells in it; each uses up one of those cells, and the column stays legal until the last |
| Position.InitialColumnFills | ConnectFour.cpp:175-189 | from the initial position a column takes exactly six drops: legal after fewer, full after the sixth, a seventh illegal |
| Position.GameFromStart | ConnectFour.cpp:92-104 | from the initial position a game lasts at most 42 drops; after n drops 42 - n cells are empty, Red holds n/2 rounded up tokens and Yellow n/2 rounded down, and Red moved last iff n is odd |
| Tally.Add | ConnectFour.cpp:629-631 | adding a child's accumulators into the root keeps wins plus draws within the samples |
| Tally.Record | ConnectFour.cpp:572-582 | one playout adds one sample; it adds a win iff the evaluated player made the line, and a draw iff the grid filled up; never both |
| Tally.RecordAsWritten | ConnectFour.cpp:573-579 | the win test as written adds one sample, and adds a win iff the terminal state is a win for the terminal position's own last mover; wins and draws never fall and grow by at most one together |
| Tally.Total | ConnectFour.cpp:618-632 | the sum of consistent accumulators is consistent |
| Search.Playout | ConnectFour.cpp:563-569 | a finished playout ends on a terminal position; a playout from a terminal position stops at once |
| Search.PlayoutIsLegalGame | ConnectFour.cpp:563-569 | the columns a finished playout plays are a sequence of legal drops, and playing them gives the playout's end position |
| Search.PlayoutKeepsInvariants | ConnectFour.cpp:563-569 | a playout keeps packing and the token balance, and plays exactly as many moves as empty cells it uses up |
| Search.PlayoutWinnerMovedLast | ConnectFour.cpp:563-569 | a playout from a position in progress that ends in a win ends with the winner as `playerJustMoved` |
| Search.SampleRuns | ConnectFour.cpp:561-583 | the loop adds one sample per playout; wins and draws only grow, by at most one in total per playout; consistency is kept; there is a result iff every playout finishes |
| Search.SampleRunsCountsWins | ConnectFour.cpp:573-579 | the wins added are exactly the number of playouts that ended in a win of the evaluated player |
| Search.SampleRunsCountsDraws | ConnectFour.cpp:580-582 | the draws added are exactly the number of playouts that ended with a full grid |
| Search.SampleNodePath | ConnectFour.cpp:535-589 | `ni` grows by exactly numSearches + 1; wins plus draws grow by at most that; `wi + di <= ni` is preserved; the position is untouched |
| Search.ChildTally | ConnectFour.cpp:618-635 | a full column gets the placeholder's zero accumulators; a legal one gets 51 samples with consistent counts, present exactly when all of its playouts finish |
| Search.LastPossibleFrom | ConnectFour.cpp:643-649 | the first selection loop ends on the last legal column, or keeps its start value when no later column is legal |
| Search.LastPossible | ConnectFour.cpp:643-649 | the initial candidate is the last legal column |
| Search.Rescan | ConnectFour.cpp:652-657 | the ascending rescan ends on a column with the largest count from its start on; that is the old candidate unless some column beats it strictly, and then it is the first column with the largest count |
| Search.BestColumnUnique | ConnectFour.cpp:643-657 | the tie-break leaves no choice: at most one column satisfies the selection rule |
| Search.Select | ConnectFour.cpp:643-657 | when full columns carry zero wins, the choice is a legal column with the most wins among legal columns; on a tie it is the last legal column if that one ties, otherwise the lowest tied column |
| Search.FirstPossibleFrom | ConnectFour.cpp:642 | the first legal column at or after the start, as the comment on the first selection loop describes |
| Search.SelectFirst | ConnectFour.cpp:642-657 | the selection starting from the first legal column: a legal column with the most wins among legal columns, and the lowest of them on a tie |
| Search.SelectKeepsLastOnTie | ConnectFour.cpp:642-649 | with columns 0 and 6 legal and one win each, the code's selection picks column 6 where the described one picks column 0 |
| Search.Samples | ConnectFour.cpp:618-636 | one entry per column; full columns get zero accumulators, sampled children consistent ones |
| Search.MakeMove | ConnectFour.cpp:592-663 | column 3 on the all-empty grid with nothing sampled; otherwise a legal column chosen by the selection rule from the children's wins; the root's accumulators grow by the sum of the children's; consistency is kept |
| Search.AsWrittenCountsEveryWin | ConnectFour.cpp:573-579 | with the win test as written, every playout from a position in progress that ends in a win is counted as a win, whoever won |
| Search.FinishingMove | ConnectFour.cpp:563-569 | a playout whose first choice is legal and ends the game stops after that move |
| Search.CompletingMove | ConnectFour.cpp:563-567 | a drop that completes a line for the side to move wins the game for that side |
| Search.AsWrittenCountsOpponentWin | ConnectFour.cpp:573-579 | when the opponent of the node's last mover can win at once, that playout counts as a win for the node under the win test as written, and not under the corrected one |
| Search.ThreatIsCounterexample | ConnectFour.cpp:573-579 | a concrete position meets the conditions of AsWrittenCountsOpponentWin: Yellow has just moved, and Red's answer in column 0 completes a vertical line |

## Left out

- Console output: both `operator<<` overloads, the game loop in `main`, the play-again prompt, `dropToken`'s message that the column is full, and `makeMove`'s printed estimated number of wins and win-probability (a floating-point division). These are I/O.
- The unused `nodes.txt` file and the doctest case. They play no part in the game logic.
- The pointer links `previousMove`/`nextMove` and `previousBoard`/`nextMove1..3`. Positions are plain values here. The links `getChildNode` stores point at a local and dangle.
- `winningPlayer` of `Node`: it is copied between nodes but never read by the game logic. `ContinuePlaying` returns the `c4Board` field's new value.
- The `c4Board` fields `winningPlayer` and `endOfGame` are not part of `Position.Board`. `dropToken` sets `winningPlayer` to -1 only on its local board. Both of its returns go through the copy constructor, which does not copy `winningPlayer`, so the -1 survives only if that copy is elided, and the returned `winningPlayer` is otherwise indeterminate on either path. Only `main` reads `winningPlayer`, to announce the result, and only the doctest case reads `endOfGame`.
- The time-seeded random generator. It is replaced by the per-playout column oracle described above. The source's retry loop never ends if the generator never hits a legal column; in the model a playout whose choices run out yields `None`.
- Search.SampleNodePath: does not model that `results` is set once and never reset. In the source:
  - only the first of the 51 iterations plays a game, and the other 50 record the same outcome again, tested against the node's own `playerJustMoved`;
  - because `results` starts from a fresh default node, the first iteration always plays at least one move, even from a terminal child (and never stops from a full one).

  The model plays an independent playout from the node in every iteration. A playout from a terminal position stops at once.
- Search.SampleNodePath: records wins with the corrected test of `Tally.Record`, not the test as written (see Findings).
- The right-to-left diagonal scans start one column past the grid (`j = 7`), an out-of-bounds read. The model scans columns 6 down to 3.
- The `c4Board` default constructor's row loop runs to index 7 and writes out of bounds. The initial position is modelled as the all-empty grid.
- `movesLeft` is never called, and its inner loop tests the row index instead of the column index. `Grid.EmptyCount` counts empty cells instead.
- Search.MakeMove: requires some column to be legal. The source leaves `bestMove` uninitialised otherwise.
- Column numbers outside 0..6 are excluded by the `Column` type. The source reads out of bounds on them.
- C++ `int` overflow of the accumulators is not modelled, because at most 357 samples are added per call.
- The first selection loop's test `childrenNodes[i] != placeholder` compares addresses, so it is always true. The model therefore takes the last legal column as the initial candidate.
- Search.Select and Search.MakeMove: follow the code's tie-break, not the documented intent that the lowest tied column keeps priority. The two differ when the last legal column has the most wins together with an earlier one: the code then keeps the last legal column (see Findings; `Search.SelectFirst` is the described selection).

## Findings

| source | as written | input that shows it | evidently intended | confidence | as-written member | corrected member |
|---|---|---|---|---|---|---|
| ConnectFour.cpp:573-579 | a playout counts as a win when the terminal state equals the terminal position's own `playerJustMoved` | Yellow has just moved into a node where Red holds rows 3-5 of column 0 and Yellow rows 3-5 of column 1; Red's playout move into column 0 wins, and this is counted as a win for Yellow's node | count a win only when the player who moved into the node made the line | not executed | Tally.RecordAsWritten, Search.AsWrittenCountsEveryWin, Search.AsWrittenCountsOpponentWin, Search.ThreatIsCounterexample | Tally.Record, Search.SampleRunsCountsWins |
| ConnectFour.cpp:642-649 | the first selection loop has no `break`, so every legal column overwrites the candidate and the last legal column remains, while its comment says the first possible move is taken | columns 0 and 6 legal, each child with one win, all others with none: the code picks column 6 | start from the first legal column, so the lowest tied column keeps priority | not executed | Search.Select, Search.SelectKeepsLastOnTie | Search.SelectFirst |

The winner of a playout from a position in progress is always the last mover (`Search.PlayoutWinnerMovedLast`). So the test as written counts every decisive playout as a win, for either side. `Search.SampleNodePath` and `Search.MakeMove` use the corrected record. `Search.MakeMove` keeps the code's selection, since the tie-break decides which column is played.

/**
  The playout accumulators of a search Node: `ni` (finished playouts), `wi`
  (playouts counted as wins) and `di` (playouts ending in a draw), and how one
  finished playout is recorded into them.
 */
module Tally {
  import opened Grid
  import opened Classify

  datatype Tally = Tally(ni: nat, wi: nat, di: nat)

  /** The accumulators every Node constructor starts from. */
  const Zero: Tally := Tally(0, 0, 0)

  /** Wins and draws are disjoint kinds of finished playout. */
  predicate Consistent(t: Tally)
  {
    t.wi + t.di <= t.ni
  }

  /** Field-wise sum, as makeMove adds a child's accumulators into the root. */
  function Add(t: Tally, u: Tally): (r: Tally)
    ensures Consistent(t) && Consistent(u) ==> Consistent(r)
  {
    Tally(t.ni + u.ni, t.wi + u.wi, t.di + u.di)
  }

  /** One finished playout whose terminal game state is `state`, counted for
      the player `me` whose move is being evaluated: always one more sample;
      one more win exactly when `me` made the four-in-a-row; one more draw
      exactly when the grid filled up; never both. */
  function Record(t: Tally, me: Cell, state: int): (r: Tally)
    ensures r.ni == t.ni + 1
    ensures r.wi > t.wi <==> me != EMPTY && state == me
    ensures r.di > t.di <==> state == DRAW
    ensures r.wi >= t.wi && r.di >= t.di && r.wi + r.di <= t.wi + t.di + 1
    ensures Consistent(t) ==> Consistent(r)
  {
    if me != EMPTY && state == me then Tally(t.ni + 1, t.wi + 1, t.di)
    else if state == DRAW then Tally(t.ni + 1, t.wi, t.di + 1)
    else Tally(t.ni + 1, t.wi, t.di)
  }

  /** The same record with the win test as the source writes it: the terminal
      state is compared with the terminal position's own `playerJustMoved`,
      not with the player whose move is being evaluated. */
  function RecordAsWritten(t: Tally, state: int, lastMover: Cell): (r: Tally)
    ensures r.ni == t.ni + 1
    ensures r.wi > t.wi <==> (state == RED || state == YELLOW) && state == lastMover
    ensures r.di > t.di <==> state == DRAW
    ensures r.wi >= t.wi && r.di >= t.di && r.wi + r.di <= t.wi + t.di + 1
    ensures Consistent(t) ==> Consistent(r)
  {
    if state == RED && lastMover == RED then Tally(t.ni + 1, t.wi + 1, t.di)
    else if state == YELLOW && lastMover == YELLOW then Tally(t.ni + 1, t.wi + 1, t.di)
    else if state == DRAW then Tally(t.ni + 1, t.wi, t.di + 1)
    else Tally(t.ni + 1, t.wi, t.di)
  }

  /** The sum of a sequence of accumulators. */
  function Total(ts: seq<Tally>): (r: Tally)
    ensures (forall k | 0 <= k < |ts| :: Consistent(ts[k])) ==> Consistent(r)
  {
    if |ts| == 0 then Zero
    else
      assert forall k | 0 <= k < |ts| - 1 :: ts[1..][k] == ts[k + 1];
      Add(ts[0], Total(ts[1..]))
  }
}

/**
  The clue list of a board: the check behind `check_invariants`, the guard of
  `set`, the cells `reset` restores, and the clue list a loaded puzzle gets.
 */
module Clues {
  import opened Wrappers
  import opened Grid

  /** The clue invariant (the `invariant` field): every clue names a cell, and that cell holds the clue's value. */
  ghost predicate Respects(cells: seq<u8>, clues: seq<Clue>)
    ensures Respects(cells, clues) ==>
      forall i, j | 0 <= i < j < |clues| && clues[i].pos == clues[j].pos :: clues[i].val == clues[j].val
  {
    forall i | 0 <= i < |clues| :: clues[i].pos as nat < |cells| && cells[clues[i].pos] == clues[i].val
  }

  /**
    `check_invariants` walks the clues in order and stops at the first one that
    fails; it panics only if it reaches a clue whose position is not a cell.
   */
  predicate LookupsInRange(cells: seq<u8>, clues: seq<Clue>)
    ensures Respects(cells, clues) ==> LookupsInRange(cells, clues)
    decreases |clues|
  {
    assert Respects(cells, clues) && clues != [] ==> Respects(cells, clues[1..]);
    clues == [] ||
    (clues[0].pos as nat < |cells| &&
     (cells[clues[0].pos] == clues[0].val ==> LookupsInRange(cells, clues[1..])))
  }

  /** Every clue position is one of the 81 cells (true of every board the parser builds). */
  predicate PositionsInRange(clues: seq<Clue>)
  {
    forall i | 0 <= i < |clues| :: clues[i].pos as nat < BOARD_SIZE
  }

  lemma {:induction false} InRangeLookups(cells: seq<u8>, clues: seq<Clue>)
    requires |cells| == BOARD_SIZE && PositionsInRange(clues)
    ensures LookupsInRange(cells, clues)
    decreases |clues|
  {
    if clues != [] {
      assert PositionsInRange(clues[1..]) by {
        forall i | 0 <= i < |clues| - 1 ensures clues[1..][i].pos as nat < BOARD_SIZE {
          assert clues[1..][i] == clues[i + 1];
        }
      }
      InRangeLookups(cells, clues[1..]);
    }
  }

  /** The short-circuiting `iter().all` of `check_invariants`: true exactly when the clue invariant holds. */
  function CluesHold(cells: seq<u8>, clues: seq<Clue>): (ok: bool)
    requires LookupsInRange(cells, clues)
    ensures ok <==> Respects(cells, clues)
    decreases |clues|
  {
    if clues == [] then true
    else if cells[clues[0].pos] != clues[0].val then false
    else
      var ok := CluesHold(cells, clues[1..]);
      assert forall i | 0 <= i < |clues| - 1 :: clues[1..][i] == clues[i + 1];
      ok
  }

  /** The `any` of `set`: some clue sits at position p. */
  predicate IsCluePos(clues: seq<Clue>, p: nat)
  {
    exists i | 0 <= i < |clues| :: clues[i].pos as nat == p
  }

  /**
    The guard of `set` lets a write of val at p through unless p is a clue
    position whose current value differs from val; when the clue invariant held before, such a
    write keeps it.
   */
  lemma WriteKeepsClues(cells: seq<u8>, clues: seq<Clue>, p: nat, val: u8)
    requires p < |cells| && Respects(cells, clues)
    requires !(IsCluePos(clues, p) && cells[p] != val)
    ensures Respects(cells[p := val], clues)
  {
  }

  /**
    The value the last clue listed at position p gives that cell, if any: `reset`
    applies the clues in order, so a later clue at the same position wins.
   */
  function LastValue(clues: seq<Clue>, p: nat): (v: Option<u8>)
    ensures v.None? <==> !IsCluePos(clues, p)
    ensures v.Some? ==>
      exists i | 0 <= i < |clues| ::
        clues[i].pos as nat == p && clues[i].val == v.value &&
        forall j | i < j < |clues| :: clues[j].pos as nat != p
    decreases |clues|
  {
    if clues == [] then None
    else
      var n := |clues| - 1;
      if clues[n].pos as nat == p then Some(clues[n].val)
      else
        var v := LastValue(clues[..n], p);
        assert forall i | 0 <= i < n :: clues[..n][i] == clues[i];
        v
  }

  /** The cell contents after `reset`: 0 off the clue positions, the last-listed clue value on them. */
  function ResetImage(clues: seq<Clue>): (cells: seq<u8>)
    ensures |cells| == BOARD_SIZE
    ensures forall p | 0 <= p < BOARD_SIZE && !IsCluePos(clues, p) :: cells[p] == 0
    ensures forall p | 0 <= p < BOARD_SIZE && IsCluePos(clues, p) :: Some(cells[p]) == LastValue(clues, p)
  {
    seq(BOARD_SIZE, p requires 0 <= p < BOARD_SIZE =>
      match LastValue(clues, p)
      case Some(v) => v
      case None => 0)
  }

  /** Applying one more clue on top of a reset image gives the reset image of the longer list. */
  lemma ResetImageSnoc(clues: seq<Clue>, k: nat)
    requires k < |clues| && PositionsInRange(clues)
    ensures ResetImage(clues[..k + 1]) == ResetImage(clues[..k])[clues[k].pos := clues[k].val]
  {
  }

  /** Clue positions that are pairwise distinct. */
  predicate DistinctPositions(clues: seq<Clue>)
  {
    forall i, j | 0 <= i < j < |clues| :: clues[i].pos != clues[j].pos
  }

  /** With distinct clue positions, the board `reset` leaves passes `check_invariants`. */
  lemma ResetRespects(clues: seq<Clue>)
    requires PositionsInRange(clues) && DistinctPositions(clues)
    ensures Respects(ResetImage(clues), clues)
  {
  }

  /**
    Two clues at one position with different values: whichever `reset` writes
    last, the other one fails, so `check_invariants` fails after `reset`.
   */
  lemma ResetDuplicatePositions(clues: seq<Clue>, i: nat, j: nat)
    requires i < j < |clues| && clues[i].pos == clues[j].pos && clues[i].val != clues[j].val
    ensures !Respects(ResetImage(clues), clues)
  {
  }

  /**
    The clue list the parser builds from a grid: `(k, cells[k])` for every
    non-zero cell, in increasing k, and nothing else.
   */
  function Givens(cells: seq<u8>): (g: seq<Clue>)
    requires |cells| <= 256
    ensures forall i | 0 <= i < |g| :: g[i].pos as nat < |cells| && g[i].val != 0 && cells[g[i].pos] == g[i].val
    ensures forall i, j | 0 <= i < j < |g| :: g[i].pos < g[j].pos
    ensures forall p | 0 <= p < |cells| && cells[p] != 0 :: Clue(p as u8, cells[p]) in g
    decreases |cells|
  {
    if cells == [] then []
    else
      var n := |cells| - 1;
      var g := Givens(cells[..n]);
      assert forall p | 0 <= p < n :: cells[..n][p] == cells[p];
      if cells[n] != 0 then g + [Clue(n as u8, cells[n])] else g
  }

  /** A loaded puzzle's clue list passes `check_invariants`. */
  lemma GivensRespected(cells: seq<u8>)
    requires |cells| == BOARD_SIZE
    ensures PositionsInRange(Givens(cells)) && DistinctPositions(Givens(cells))
    ensures Respects(cells, Givens(cells))
  {
  }
}

/**
  The Sudoku `Board`: 81 cells stored row-major in a fixed-size array and a
  list of fixed clues, with clue-guarded access, reset, the two rule checks,
  and loading from / writing to the plain-text format.
 */
module SudokuBoard {
  import opened Wrappers
  import opened Grid
  import opened Clues
  import opened Rules
  import opened TextFormat

  /** The error `set` returns when a write would change a clue cell. */
  datatype SetError = ClueChange

  class Board {
    /** The cells, row-major; 0 is an empty cell. */
    var board: array<u8>
    /** The fixed `(pos, val)` pairs (the source's `invariant` field). */
    var clues: seq<Clue>

    ghost predicate Valid()
      reads this
    {
      board.Length == BOARD_SIZE
    }

    /** `Board::empty`: all cells 0, no clues. */
    constructor Empty()
      ensures Valid() && fresh(board)
      ensures board[..] == seq(BOARD_SIZE, p => 0) && clues == []
      ensures Respects(board[..], clues)
    {
      board := new u8[BOARD_SIZE](p => 0);
      clues := [];
    }

    /** `Board::new`: the given cells and clue list, taken as they are. */
    constructor New(cells: seq<u8>, clues: seq<Clue>)
      requires |cells| == BOARD_SIZE
      ensures Valid() && fresh(board)
      ensures board[..] == cells && this.clues == clues
    {
      board := new u8[BOARD_SIZE](p requires 0 <= p < BOARD_SIZE => cells[p]);
      this.clues := clues;
    }

    /** `check_invariants`: every clue's cell holds the clue's value. */
    function CheckInvariants(): (ok: bool)
      reads this, board
      requires Valid() && LookupsInRange(board[..], clues)
      ensures ok <==> Respects(board[..], clues)
    {
      CluesHold(board[..], clues)
    }

    /** `get`: the cell at row-major index 9r + c, so `(r, 9)` reads the first cell of row r + 1. */
    function Get(r: u8, c: u8): (v: u8)
      reads this, board
      requires Valid() && InGrid(r, c)
      ensures v == board[9 * r as int + c as int]
    {
      board[Linearize(r, c)]
    }

    /**
      `set`: refused, changing nothing, exactly when some clue sits at the target
      and the target's current value differs from val; otherwise only that cell
      changes. The clue list never changes, and a board satisfying its clues
      still does afterwards.
     */
    method Set(r: u8, c: u8, val: u8) returns (res: Result<(), SetError>)
      requires Valid() && InGrid(r, c)
      modifies board
      ensures clues == old(clues)
      ensures res.Err? <==> IsCluePos(clues, Linearize(r, c) as nat) && old(board[Linearize(r, c)]) != val
      ensures board[..] == if res.Err? then old(board[..]) else old(board[..])[Linearize(r, c) as nat := val]
      ensures Respects(old(board[..]), clues) ==> Respects(board[..], clues)
    {
      var coor := Linearize(r, c);
      var constPos := exists i | 0 <= i < |clues| :: clues[i].pos == coor;
      if constPos && board[coor] != val {
        return Err(ClueChange);
      }
      board[coor] := val;
      res := Ok(());
      if Respects(old(board[..]), clues) {
        WriteKeepsClues(old(board[..]), clues, coor as nat, val);
      }
    }

    /**
      `reset`: every cell becomes 0 and then each clue, in list order, writes its
      value, so the board depends only on the clue list (and a second reset
      changes nothing). With distinct clue positions the clues then hold.
     */
    method Reset()
      requires Valid() && PositionsInRange(clues)
      modifies board
      ensures clues == old(clues)
      ensures board[..] == ResetImage(clues)
      ensures DistinctPositions(clues) ==> Respects(board[..], clues)
    {
      forall p | 0 <= p < board.Length {
        board[p] := 0;
      }
      assert board[..] == ResetImage(clues[..0]);
      for i := 0 to |clues|
        invariant board[..] == ResetImage(clues[..i])
      {
        board[clues[i].pos] := clues[i].val;
        ResetImageSnoc(clues, i);
      }
      assert clues[..|clues|] == clues;
      if DistinctPositions(clues) {
        ResetRespects(clues);
      }
    }

    /**
      `verify`: true exactly when the clues hold, no cell is empty, and no row,
      column or box holds a value twice. Values are not range-checked.
     */
    method Verify() returns (ok: bool)
      requires Valid() && LookupsInRange(board[..], clues)
      ensures ok <==> Respects(board[..], clues) && Solved(board[..])
    {
      if !CheckInvariants() {
        return false;
      }
      ghost var cells := board[..];
      // sets[u] holds the values met so far in unit u (rows 0-8, columns 9-17, boxes 18-26)
      var sets: seq<set<u8>> := seq(UNIT_COUNT, u => {});
      ScanStarts(cells);
      for r := 0 to 9
        invariant forall q | 0 <= q < 9 * r :: cells[q] != 0
        invariant DistinctSoFar(cells, sets, r, 0)
      {
        for c := 0 to 9
          invariant forall q | 0 <= q < 9 * r + c :: cells[q] != 0
          invariant DistinctSoFar(cells, sets, r, c)
        {
          var num := Get(r as u8, c as u8);
          if num == 0 {
            return false;
          }
          var g := BoxOf(r, c) + 18;
          if num in sets[r] || num in sets[c + 9] || num in sets[g] {
            ghost var u := if num in sets[r] then r else if num in sets[c + 9] then c + 9 else g;
            RepeatBreaksUnit(cells, u, r, c);
            return false;
          }
          DistinctStep(cells, sets, r, c);
          sets := AddToUnits(sets, r, c, num);
        }
        ScanWraps(cells, sets, [], r);
      }
      ScanEnds(cells, sets, []);
      return true;
    }

    /**
      `verbose_verify`: the entries for the units whose distinct non-zero values
      plus empty cells fall short of 9, in ascending unit order, and whether
      there are none.
     */
    method VerboseVerify() returns (ok: bool, v: seq<BoardInvalid>)
      requires Valid()
      ensures v == Violations(board[..])
      ensures ok <==> v == []
    {
      ghost var cells := board[..];
      // per unit: the distinct non-zero values met so far and the number of empty cells
      var sets: seq<set<u8>> := seq(UNIT_COUNT, u => {});
      var zeros: seq<nat> := seq(UNIT_COUNT, u => 0);
      ScanStarts(cells);
      for r := 0 to 9
        invariant TalliedSoFar(cells, sets, zeros, r, 0)
      {
        for c := 0 to 9
          invariant TalliedSoFar(cells, sets, zeros, r, c)
        {
          var num := Get(r as u8, c as u8);
          if num == 0 {
            TallyZeroStep(cells, sets, zeros, r, c);
            zeros := CountInUnits(zeros, r, c);
          } else {
            TallyValueStep(cells, sets, zeros, r, c);
            sets := AddToUnits(sets, r, c, num);
          }
        }
        ScanWraps(cells, sets, zeros, r);
      }
      ScanEnds(cells, sets, zeros);
      v := [];
      for i := 0 to UNIT_COUNT
        invariant v == ViolationsBelow(cells, i)
      {
        if |sets[i]| + zeros[i] < 9 {
          v := v + [Label(i)];
        }
      }
      ok := v == [];
    }

    /** The text `to_file` writes: nine lines, each value followed by a space, each line by a newline. */
    method ToText() returns (text: string)
      requires Valid()
      ensures text == Text(board[..])
    {
      text := "";
      for r := 0 to 9
        invariant text == GridText(board[..], r)
      {
        var line := RowToText(r);
        text := text + line + "\n";
      }
    }

    /** One line of `to_file`'s text without its newline: the values of row `r`, each followed by a space. */
    method RowToText(r: nat) returns (line: string)
      requires Valid() && r < 9
      ensures line == RowText(board[..], r, 9)
    {
      line := "";
      for c := 0 to 9
        invariant line == RowText(board[..], r, c)
      {
        var num := Get(r as u8, c as u8);
        RowStep(board[..], r, c);
        line := line + (Show(num as nat) + " ");
      }
    }

    /**
      One accepted token of `from_file`: a non-zero value is pushed as a clue and
      written to its cell, so the board and the clues become those of one more token.
     */
    method Accept(ghost toks: seq<string>, pos: u8, num: u8)
      requires Valid() && pos as nat < BOARD_SIZE && pos as nat < |toks| && num == TokenValue(toks[pos])
      requires board[..] == Partial(toks, pos as nat) && clues == Givens(board[..pos])
      modifies this, board
      ensures Valid() && board == old(board)
      ensures board[..] == Partial(toks, pos as nat + 1) && clues == Givens(board[..pos as nat + 1])
    {
      LoadStep(board[..], clues, toks, pos as nat);
      if num != 0 {
        clues := clues + [Clue(pos, num)];
        board[pos] := num;
      }
    }

    /**
      The token loop of `from_file` over the file's text: the outcome Load
      describes, and on success a fresh board holding the parsed cells and clues.
     */
    static method FromFile(contents: string) returns (res: Result<Board, LoadError>)
      ensures res.Err? ==> Load(contents) == Err(res.error)
      ensures res.Ok? ==>
        fresh(res.value) && fresh(res.value.board) && res.value.Valid() &&
        Load(contents) == Ok(Puzzle(res.value.board[..], res.value.clues))
    {
      res := FromTokens(Words(contents));
    }

    /** The loop over the tokens of the file, in order. */
    static method FromTokens(toks: seq<string>) returns (res: Result<Board, LoadError>)
      ensures res.Err? ==> Parse(toks) == Err(res.error)
      ensures res.Ok? ==>
        fresh(res.value) && fresh(res.value.board) && res.value.Valid() &&
        Parse(toks) == Ok(Puzzle(res.value.board[..], res.value.clues))
    {
      var b := new Board.Empty();
      var currPos: u8 := 0;
      for i := 0 to |toks|
        invariant currPos as int == i <= BOARD_SIZE
        invariant CellsUpTo(toks, i)
        invariant fresh(b) && fresh(b.board) && b.Valid()
        invariant b.board[..] == Partial(toks, i)
        invariant b.clues == Givens(b.board[..i])
      {
        if currPos == 81 {
          TooManyAt(toks);
          return Err(TooManyNumbers);
        }
        var num: u8;
        match ParseU8(toks[i]) {
          case None =>
              StopAt(toks, i);
            return Err(NotANumber);
          case Some(n) =>
            if n < 10 {
              num := n;
            } else {
                  StopAt(toks, i);
              return Err(OutOfRange);
            }
        }
        b.Accept(toks, currPos, num);
        currPos := currPos + 1;
      }
      EndAt(toks);
      if currPos != 81 {
        return Err(TooFewNumbers);
      }
      assert b.board[..BOARD_SIZE] == b.board[..];
      return Ok(b);
    }
  }

  // Proof steps of the loops above, one loop iteration each.

  lemma RowStep(cells: seq<u8>, r: nat, c: nat)
    requires |cells| == BOARD_SIZE && r < 9 && c < 9
    ensures RowText(cells, r, c + 1) == RowText(cells, r, c) + (Show(cells[9 * r + c] as nat) + " ")
  {
  }

  /** The three units of (r, c) after `insert(num)`: its row r, its column c + 9 and its box. */
  function AddToUnits(sets: seq<set<u8>>, r: nat, c: nat, v: u8): seq<set<u8>>
    requires |sets| == UNIT_COUNT && r < 9 && c < 9
  {
    var s1 := sets[r := sets[r] + {v}];
    var s2 := s1[c + 9 := s1[c + 9] + {v}];
    s2[BoxOf(r, c) + 18 := s2[BoxOf(r, c) + 18] + {v}]
  }

  /** The three units of (r, c) after one more empty cell. */
  function CountInUnits(zeros: seq<nat>, r: nat, c: nat): seq<nat>
    requires |zeros| == UNIT_COUNT && r < 9 && c < 9
  {
    var z1 := zeros[r := zeros[r] + 1];
    var z2 := z1[c + 9 := z1[c + 9] + 1];
    z2[BoxOf(r, c) + 18 := z2[BoxOf(r, c) + 18] + 1]
  }

  ghost predicate DistinctSoFar(cells: seq<u8>, sets: seq<set<u8>>, r: nat, c: nat)
    requires |cells| == BOARD_SIZE && ((r < 9 && c <= 9) || (r == 9 && c == 0))
  {
    |sets| == UNIT_COUNT &&
    forall u | 0 <= u < UNIT_COUNT :: sets[u] == Elems(Scanned(cells, u, r, c)) && Distinct(Scanned(cells, u, r, c))
  }

  ghost predicate TalliedSoFar(cells: seq<u8>, sets: seq<set<u8>>, zeros: seq<nat>, r: nat, c: nat)
    requires |cells| == BOARD_SIZE && ((r < 9 && c <= 9) || (r == 9 && c == 0))
  {
    |sets| == UNIT_COUNT && |zeros| == UNIT_COUNT &&
    forall u | 0 <= u < UNIT_COUNT ::
      sets[u] == NonZeroValues(Scanned(cells, u, r, c)) && zeros[u] == ZeroCount(Scanned(cells, u, r, c))
  }

  lemma ScanStarts(cells: seq<u8>)
    requires |cells| == BOARD_SIZE
    ensures DistinctSoFar(cells, seq(UNIT_COUNT, u => {}), 0, 0)
    ensures TalliedSoFar(cells, seq(UNIT_COUNT, u => {}), seq(UNIT_COUNT, u => 0), 0, 0)
  {
  }

  lemma ScanWraps(cells: seq<u8>, sets: seq<set<u8>>, zeros: seq<nat>, r: nat)
    requires |cells| == BOARD_SIZE && r < 9
    ensures DistinctSoFar(cells, sets, r, 9) ==> DistinctSoFar(cells, sets, r + 1, 0)
    ensures TalliedSoFar(cells, sets, zeros, r, 9) ==> TalliedSoFar(cells, sets, zeros, r + 1, 0)
  {
    forall u | 0 <= u < UNIT_COUNT ensures Scanned(cells, u, r, 9) == Scanned(cells, u, r + 1, 0) {
      SeenWrap(u, r);
    }
  }

  lemma ScanEnds(cells: seq<u8>, sets: seq<set<u8>>, zeros: seq<nat>)
    requires |cells| == BOARD_SIZE
    ensures DistinctSoFar(cells, sets, 9, 0) ==>
      forall u | 0 <= u < UNIT_COUNT :: Distinct(UnitValues(cells, u))
    ensures TalliedSoFar(cells, sets, zeros, 9, 0) ==>
      forall u | 0 <= u < UNIT_COUNT :: (|sets[u]| + zeros[u] < 9 <==> Flagged(cells, u))
  {
    forall u | 0 <= u < UNIT_COUNT ensures Scanned(cells, u, 9, 0) == UnitValues(cells, u) {
      SeenEnd(u);
    }
  }

  lemma AddToUnitsAt(sets: seq<set<u8>>, r: nat, c: nat, v: u8, u: nat)
    requires |sets| == UNIT_COUNT && r < 9 && c < 9 && u < UNIT_COUNT
    ensures AddToUnits(sets, r, c, v)[u] == if InUnit(u, r, c) then sets[u] + {v} else sets[u]
  {
  }

  lemma CountInUnitsAt(zeros: seq<nat>, r: nat, c: nat, u: nat)
    requires |zeros| == UNIT_COUNT && r < 9 && c < 9 && u < UNIT_COUNT
    ensures CountInUnits(zeros, r, c)[u] == if InUnit(u, r, c) then zeros[u] + 1 else zeros[u]
  {
  }

  /** One cell of the scan of `verify`, seen from unit u. */
  lemma DistinctUnitStep(cells: seq<u8>, s: set<u8>, u: nat, r: nat, c: nat)
    requires |cells| == BOARD_SIZE && u < UNIT_COUNT && r < 9 && c < 9
    requires s == Elems(Scanned(cells, u, r, c)) && Distinct(Scanned(cells, u, r, c))
    requires InUnit(u, r, c) ==> cells[9 * r + c] !in s
    ensures var s' := if InUnit(u, r, c) then s + {cells[9 * r + c]} else s;
      s' == Elems(Scanned(cells, u, r, c + 1)) && Distinct(Scanned(cells, u, r, c + 1))
  {
    ScanStep(cells, u, r, c);
    DistinctSnoc(Scanned(cells, u, r, c), cells[9 * r + c]);
  }

  lemma DistinctStep(cells: seq<u8>, sets: seq<set<u8>>, r: nat, c: nat)
    requires |cells| == BOARD_SIZE && r < 9 && c < 9 && DistinctSoFar(cells, sets, r, c)
    requires cells[9 * r + c] !in sets[r] && cells[9 * r + c] !in sets[c + 9] && cells[9 * r + c] !in sets[BoxOf(r, c) + 18]
    ensures DistinctSoFar(cells, AddToUnits(sets, r, c, cells[9 * r + c]), r, c + 1)
  {
    var sets' := AddToUnits(sets, r, c, cells[9 * r + c]);
    forall u | 0 <= u < UNIT_COUNT
      ensures sets'[u] == Elems(Scanned(cells, u, r, c + 1)) && Distinct(Scanned(cells, u, r, c + 1))
    {
      AddToUnitsAt(sets, r, c, cells[9 * r + c], u);
      DistinctUnitStep(cells, sets[u], u, r, c);
    }
  }

  /** One cell of the scan of `verbose_verify`, seen from unit u. */
  lemma TallyUnitStep(cells: seq<u8>, s: set<u8>, z: nat, u: nat, r: nat, c: nat)
    requires |cells| == BOARD_SIZE && u < UNIT_COUNT && r < 9 && c < 9
    requires s == NonZeroValues(Scanned(cells, u, r, c)) && z == ZeroCount(Scanned(cells, u, r, c))
    ensures var v := cells[9 * r + c];
      (if InUnit(u, r, c) && v != 0 then s + {v} else s) == NonZeroValues(Scanned(cells, u, r, c + 1)) &&
      (if InUnit(u, r, c) && v == 0 then z + 1 else z) == ZeroCount(Scanned(cells, u, r, c + 1))
  {
    ScanStep(cells, u, r, c);
    TallySnoc(Scanned(cells, u, r, c), cells[9 * r + c]);
  }

  lemma TallyZeroStep(cells: seq<u8>, sets: seq<set<u8>>, zeros: seq<nat>, r: nat, c: nat)
    requires |cells| == BOARD_SIZE && r < 9 && c < 9 && TalliedSoFar(cells, sets, zeros, r, c)
    requires cells[9 * r + c] == 0
    ensures TalliedSoFar(cells, sets, CountInUnits(zeros, r, c), r, c + 1)
  {
    var zeros' := CountInUnits(zeros, r, c);
    forall u | 0 <= u < UNIT_COUNT
      ensures sets[u] == NonZeroValues(Scanned(cells, u, r, c + 1))
      ensures zeros'[u] == ZeroCount(Scanned(cells, u, r, c + 1))
    {
      CountInUnitsAt(zeros, r, c, u);
      TallyUnitStep(cells, sets[u], zeros[u], u, r, c);
    }
  }

  lemma TallyValueStep(cells: seq<u8>, sets: seq<set<u8>>, zeros: seq<nat>, r: nat, c: nat)
    requires |cells| == BOARD_SIZE && r < 9 && c < 9 && TalliedSoFar(cells, sets, zeros, r, c)
    requires cells[9 * r + c] != 0
    ensures TalliedSoFar(cells, AddToUnits(sets, r, c, cells[9 * r + c]), zeros, r, c + 1)
  {
    var sets' := AddToUnits(sets, r, c, cells[9 * r + c]);
    forall u | 0 <= u < UNIT_COUNT
      ensures sets'[u] == NonZeroValues(Scanned(cells, u, r, c + 1))
      ensures zeros[u] == ZeroCount(Scanned(cells, u, r, c + 1))
    {
      AddToUnitsAt(sets, r, c, cells[9 * r + c], u);
      TallyUnitStep(cells, sets[u], zeros[u], u, r, c);
    }
  }

  /** Token i is the first bad one: the loop stops there with its error. */
  lemma StopAt(toks: seq<string>, i: nat)
    requires i < ScanLimit(toks) && !IsCellToken(toks[i])
    requires CellsUpTo(toks, i)
    ensures Parse(toks) == Err(if ParseU8(toks[i]).None? then NotANumber else OutOfRange)
  {
    CellsUpToAll(toks, i);
  }

  /** 81 good tokens and more to come: the loop stops with TooManyNumbers. */
  lemma TooManyAt(toks: seq<string>)
    requires |toks| > BOARD_SIZE
    requires CellsUpTo(toks, BOARD_SIZE)
    ensures Parse(toks) == Err(TooManyNumbers)
  {
    CellsUpToAll(toks, BOARD_SIZE);
  }

  /** All tokens read and good: too few of them, or the puzzle the loop has built. */
  lemma EndAt(toks: seq<string>)
    requires |toks| <= BOARD_SIZE
    requires CellsUpTo(toks, |toks|)
    ensures |toks| < BOARD_SIZE ==> Parse(toks) == Err(TooFewNumbers)
    ensures |toks| == BOARD_SIZE ==>
      Parse(toks) == Ok(Puzzle(Partial(toks, BOARD_SIZE), Givens(Partial(toks, BOARD_SIZE))))
  {
    CellsUpToAll(toks, |toks|);
    FirstBadAt(toks, |toks|);
    if |toks| == BOARD_SIZE {
      var cells := Parse(toks).value.cells;
      assert forall j | 0 <= j < BOARD_SIZE :: cells[j] == Partial(toks, BOARD_SIZE)[j];
      assert cells == Partial(toks, BOARD_SIZE);
      assert Parse(toks) == Ok(Puzzle(cells, Givens(cells)));
    }
  }

  /** The first i tokens are all cells, one token at a time. */
  predicate CellsUpTo(toks: seq<string>, i: nat)
    requires i <= |toks|
  {
    i == 0 || (CellsUpTo(toks, i - 1) && IsCellToken(toks[i - 1]))
  }

  lemma {:induction false} CellsUpToAll(toks: seq<string>, i: nat)
    requires i <= |toks|
    ensures CellsUpTo(toks, i) <==> forall j | 0 <= j < i :: IsCellToken(toks[j])
  {
    if i > 0 {
      CellsUpToAll(toks, i - 1);
    }
  }

  /** The board the token loop has built after i tokens. */
  function Partial(toks: seq<string>, i: nat): seq<u8>
  {
    seq(BOARD_SIZE, k requires 0 <= k < BOARD_SIZE => if k < i && k < |toks| then TokenValue(toks[k]) else 0)
  }

  lemma LoadStep(cells: seq<u8>, clues: seq<Clue>, toks: seq<string>, i: nat)
    requires i < BOARD_SIZE && i < |toks| && cells == Partial(toks, i) && clues == Givens(cells[..i])
    ensures var num := TokenValue(toks[i]);
      var cells' := if num != 0 then cells[i := num] else cells;
      var clues' := if num != 0 then clues + [Clue(i as u8, num)] else clues;
      cells' == Partial(toks, i + 1) && clues' == Givens(cells'[..i + 1])
  {
    var num := TokenValue(toks[i]);
    var cells' := if num != 0 then cells[i := num] else cells;
    assert cells'[..i + 1] == cells[..i] + [num];
    assert (cells[..i] + [num])[..i] == cells[..i];
  }
}

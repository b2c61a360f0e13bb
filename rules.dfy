/**
  The Sudoku rules the board checks: `verify` (a complete, duplicate-free grid)
  and `verbose_verify` (per-unit duplicate detection that tolerates empty cells).
 */
module Rules {
  import opened Grid

  /** The nine values of unit u, in row-major order. */
  function UnitValues(cells: seq<u8>, u: nat): (s: seq<u8>)
    requires |cells| == BOARD_SIZE && u < UNIT_COUNT
    ensures |s| == 9
  {
    seq(9, i requires 0 <= i < 9 => cells[9 * UnitCell(u, i).0 + UnitCell(u, i).1])
  }

  /** The values of unit u that a row-major scan has met before reaching (r, c). */
  function Scanned(cells: seq<u8>, u: nat, r: nat, c: nat): seq<u8>
    requires |cells| == BOARD_SIZE && u < UNIT_COUNT && ((r < 9 && c <= 9) || (r == 9 && c == 0))
  {
    UnitValues(cells, u)[..Seen(u, r, c)]
  }

  /** Passing (r, c) appends its value to the units it lies in and to no other unit. */
  lemma ScanStep(cells: seq<u8>, u: nat, r: nat, c: nat)
    requires |cells| == BOARD_SIZE && u < UNIT_COUNT && r < 9 && c < 9
    ensures Scanned(cells, u, r, c + 1) ==
            Scanned(cells, u, r, c) + if InUnit(u, r, c) then [cells[9 * r + c]] else []
  {
    SeenStep(u, r, c);
  }

  predicate Distinct(s: seq<u8>)
  {
    forall i, j | 0 <= i < j < |s| :: s[i] != s[j]
  }

  function Elems(s: seq<u8>): set<u8>
  {
    set x | x in s
  }

  lemma DistinctSnoc(s: seq<u8>, v: u8)
    ensures Distinct(s + [v]) <==> Distinct(s) && v !in s
    ensures Elems(s + [v]) == Elems(s) + {v}
  {
    if Distinct(s + [v]) {
      assert forall i, j | 0 <= i < j < |s| :: s[i] == (s + [v])[i] && s[j] == (s + [v])[j];
      assert forall i | 0 <= i < |s| :: s[i] == (s + [v])[i] && v == (s + [v])[|s|];
    }
  }

  /** A unit whose prefix repeats a value repeats it too. */
  lemma DistinctPrefix(s: seq<u8>, k: nat)
    requires k <= |s| && Distinct(s)
    ensures Distinct(s[..k])
  {
  }

  /** No cell is empty. */
  predicate Filled(cells: seq<u8>)
  {
    forall p | 0 <= p < |cells| :: cells[p] != 0
  }

  /** The Sudoku part of `verify`: every cell filled and no value twice in any row, column or box. */
  predicate Solved(cells: seq<u8>)
    requires |cells| == BOARD_SIZE
  {
    Filled(cells) && forall u | 0 <= u < UNIT_COUNT :: Distinct(UnitValues(cells, u))
  }

  function NonZeroValues(s: seq<u8>): set<u8>
  {
    set x | x in s && x != 0
  }

  function ZeroCount(s: seq<u8>): nat
  {
    multiset(s)[0]
  }

  /** Some non-zero value occurs twice. */
  predicate RepeatsNonZero(s: seq<u8>)
  {
    exists i, j | 0 <= i < j < |s| :: s[i] != 0 && s[i] == s[j]
  }

  /**
    The test of `verbose_verify`: distinct non-zero values plus empty cells never
    exceed the length, and reach it exactly when no non-zero value repeats.
   */
  lemma {:induction false} Tally(s: seq<u8>)
    ensures |NonZeroValues(s)| + ZeroCount(s) <= |s|
    ensures |NonZeroValues(s)| + ZeroCount(s) == |s| <==> !RepeatsNonZero(s)
    decreases |s|
  {
    if s != [] {
      var t, v := s[..|s| - 1], s[|s| - 1];
      assert s == t + [v];
      Tally(t);
      TallySnoc(t, v);
      RepeatsSnoc(t, v);
    }
  }

  /** A value appended to s repeats a non-zero value when s already did or it is a non-zero value of s. */
  lemma RepeatsSnoc(t: seq<u8>, v: u8)
    ensures RepeatsNonZero(t + [v]) <==> RepeatsNonZero(t) || v in NonZeroValues(t)
  {
    var s := t + [v];
    assert forall i | 0 <= i < |t| :: t[i] == s[i];
    if RepeatsNonZero(t) {
      var i, j :| 0 <= i < j < |t| && t[i] != 0 && t[i] == t[j];
      assert s[i] != 0 && s[i] == s[j];
    }
    if v in NonZeroValues(t) {
      var i :| 0 <= i < |t| && t[i] == v;
      assert s[i] != 0 && s[i] == s[|t|];
    }
    if RepeatsNonZero(s) && !RepeatsNonZero(t) {
      var i, j :| 0 <= i < j < |s| && s[i] != 0 && s[i] == s[j];
      assert j == |t|;
      assert t[i] in NonZeroValues(t);
    }
  }

  /** Unit u is reported by `verbose_verify`: distinct non-zero values plus empty cells fall short of 9. */
  predicate Flagged(cells: seq<u8>, u: nat)
    requires |cells| == BOARD_SIZE && u < UNIT_COUNT
  {
    |NonZeroValues(UnitValues(cells, u))| + ZeroCount(UnitValues(cells, u)) < 9
  }

  /** A unit is flagged exactly when one of its non-zero values repeats; empty cells alone never flag it. */
  lemma FlaggedIffRepeat(cells: seq<u8>, u: nat)
    requires |cells| == BOARD_SIZE && u < UNIT_COUNT
    ensures Flagged(cells, u) <==> RepeatsNonZero(UnitValues(cells, u))
  {
    Tally(UnitValues(cells, u));
  }

  /** `BoardInvalid`: the kind and index (0-8) of a unit with a duplicate. */
  datatype BoardInvalid = Square(n: u8) | Row(n: u8) | Col(n: u8)

  /** The entry `verbose_verify` pushes for unit i. */
  function Label(i: nat): (b: BoardInvalid)
    requires i < UNIT_COUNT
    ensures UnitOf(b) == i
  {
    if i < 9 then Row(i as u8)
    else if i < 18 then Col((i - 9) as u8)
    else Square((i - 18) as u8)
  }

  /** The unit an entry names: rows first, then columns, then boxes. */
  function UnitOf(b: BoardInvalid): (u: nat)
    ensures b.n < 9 ==> u < UNIT_COUNT
    ensures b.n < 9 ==> (b.Row? <==> u < 9) && (b.Col? <==> 9 <= u < 18) && (b.Square? <==> 18 <= u)
  {
    match b
    case Row(n) => n as nat
    case Col(n) => n as nat + 9
    case Square(n) => n as nat + 18
  }

  /** Every entry with an index below 9 is the one pushed for the unit it names. */
  lemma LabelUnitOf(b: BoardInvalid)
    requires b.n < 9
    ensures Label(UnitOf(b)) == b
  {
  }

  /**
    The entries for the flagged units among 0..k-1: each names a flagged unit
    below k, they come in strictly ascending unit order, and every flagged unit
    below k has one.
   */
  function ViolationsBelow(cells: seq<u8>, k: nat): (v: seq<BoardInvalid>)
    requires |cells| == BOARD_SIZE && k <= UNIT_COUNT
    ensures |v| <= k
    ensures forall i | 0 <= i < |v| :: UnitOf(v[i]) < k && Flagged(cells, UnitOf(v[i])) && v[i] == Label(UnitOf(v[i]))
    ensures forall i, j | 0 <= i < j < |v| :: UnitOf(v[i]) < UnitOf(v[j])
    ensures forall u | 0 <= u < k && Flagged(cells, u) :: Label(u) in v
    decreases k
  {
    if k == 0 then []
    else
      var v := ViolationsBelow(cells, k - 1);
      if Flagged(cells, k - 1) then v + [Label(k - 1)] else v
  }

  /**
    The list `verbose_verify` returns: one entry per flagged unit, rows before
    columns before boxes, each in increasing index.
   */
  function Violations(cells: seq<u8>): (v: seq<BoardInvalid>)
    requires |cells| == BOARD_SIZE
    ensures |v| <= UNIT_COUNT
    ensures forall i | 0 <= i < |v| :: UnitOf(v[i]) < UNIT_COUNT && Flagged(cells, UnitOf(v[i])) && v[i] == Label(UnitOf(v[i]))
    ensures forall i, j | 0 <= i < j < |v| :: UnitOf(v[i]) < UnitOf(v[j])
    ensures forall u | 0 <= u < UNIT_COUNT && Flagged(cells, u) :: Label(u) in v
  {
    ViolationsBelow(cells, UNIT_COUNT)
  }

  /** An entry for a unit is present exactly when that unit repeats a non-zero value. */
  lemma ViolationsExactly(cells: seq<u8>, u: nat)
    requires |cells| == BOARD_SIZE && u < UNIT_COUNT
    ensures Label(u) in Violations(cells) <==> RepeatsNonZero(UnitValues(cells, u))
  {
    FlaggedIffRepeat(cells, u);
    var v := Violations(cells);
    if Label(u) in v {
      var i :| 0 <= i < |v| && v[i] == Label(u);
      assert UnitOf(v[i]) == u;
    }
  }

  /** The empty board has no violations. */
  lemma EmptyBoardClean()
    ensures Violations(seq(BOARD_SIZE, p => 0)) == []
  {
    var cells: seq<u8> := seq(BOARD_SIZE, p => 0);
    var v := Violations(cells);
    if v != [] {
      var u := UnitOf(v[0]);
      FlaggedIffRepeat(cells, u);
      assert false;
    }
  }

  /**
    On a filled grid the two checks agree on the rules: `verbose_verify` reports
    nothing exactly when no row, column or box holds a value twice.
   */
  lemma VerboseAgreesWhenFilled(cells: seq<u8>)
    requires |cells| == BOARD_SIZE && Filled(cells)
    ensures Violations(cells) == [] <==> forall u | 0 <= u < UNIT_COUNT :: Distinct(UnitValues(cells, u))
  {
    var v := Violations(cells);
    forall u | 0 <= u < UNIT_COUNT
      ensures Label(u) in v <==> !Distinct(UnitValues(cells, u))
    {
      ViolationsExactly(cells, u);
      var s := UnitValues(cells, u);
      forall i | 0 <= i < 9 ensures s[i] != 0 {
        var rc := UnitCell(u, i);
        assert s[i] == cells[9 * rc.0 + rc.1];
      }
    }
    if v != [] {
      assert Label(UnitOf(v[0])) in v;
    }
  }

  /** One more value in a unit: how the distinct non-zero values and the empty-cell count change. */
  lemma TallySnoc(s: seq<u8>, v: u8)
    ensures NonZeroValues(s + [v]) == NonZeroValues(s) + if v != 0 then {v} else {}
    ensures ZeroCount(s + [v]) == ZeroCount(s) + if v == 0 then 1 else 0
  {
  }

  /**
    If a unit that (r, c) lies in already met the value of (r, c) earlier in the
    scan, that unit holds the value twice.
   */
  lemma RepeatBreaksUnit(cells: seq<u8>, u: nat, r: nat, c: nat)
    requires |cells| == BOARD_SIZE && u < UNIT_COUNT && r < 9 && c < 9
    requires InUnit(u, r, c) && cells[9 * r + c] in Elems(Scanned(cells, u, r, c))
    ensures !Distinct(UnitValues(cells, u))
  {
    ScanStep(cells, u, r, c);
    DistinctSnoc(Scanned(cells, u, r, c), cells[9 * r + c]);
    if Distinct(UnitValues(cells, u)) {
      DistinctPrefix(UnitValues(cells, u), Seen(u, r, c + 1));
    }
  }
}

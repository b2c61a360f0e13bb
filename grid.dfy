/**
  The 9x9 grid: cell values, the row-major layout behind `linearize`, and the
  27 units (9 rows, 9 columns, 9 boxes) that the rule checks scan.
 */
module Grid {

  /** Rust's `u8`: every cell value, position and coordinate of the board has this type. */
  newtype u8 = x: int | 0 <= x < 256

  /** `BOARD_SIZE`: the number of cells. */
  const BOARD_SIZE: nat := 81
  /** `WIDTH_SIZE`: the largest coordinate `linearize` lets through. */
  const WIDTH_SIZE: u8 := 9
  /** Rows are units 0-8, columns 9-17 and boxes 18-26. */
  const UNIT_COUNT: nat := 27

  /** A fixed clue: the pair `(pos, val)` of the board's clue list. */
  datatype Clue = Clue(pos: u8, val: u8)

  /**
    `linearize`: defined when neither coordinate exceeds WIDTH_SIZE (the source
    panics otherwise). The u8 arithmetic never wraps: the result is the exact
    row-major index, which may still be 81 or more.
   */
  function Linearize(r: u8, c: u8): (p: u8)
    requires r <= WIDTH_SIZE && c <= WIDTH_SIZE
    ensures p as int == 9 * r as int + c as int
  {
    r * 9 + c
  }

  /** The coordinates at which `get` and `set` do not panic: linearize accepts them and the index is below 81. */
  predicate InGrid(r: u8, c: u8)
  {
    r <= WIDTH_SIZE && c <= WIDTH_SIZE && (Linearize(r, c) as nat) < BOARD_SIZE
  }

  /** The accepted coordinates are the 81 proper ones plus the eight aliases `(r, 9)` with `r < 8`. */
  lemma InGridExactly(r: u8, c: u8)
    ensures InGrid(r, c) <==> (r < 9 && c < 9) || (r < 8 && c == 9)
  {
  }

  /** On proper coordinates linearize is the row-major bijection onto 0..80. */
  lemma LinearizeRowMajor(r: u8, c: u8)
    requires r < 9 && c < 9
    ensures InGrid(r, c)
    ensures Linearize(r, c) as int / 9 == r as int && Linearize(r, c) as int % 9 == c as int
  {
  }

  /** Column 9 is not rejected: `(r, 9)` names the same cell as `(r + 1, 0)`. */
  lemma LinearizeAlias(r: u8)
    requires r < 8
    ensures InGrid(r, 9) && InGrid(r + 1, 0)
    ensures Linearize(r, 9) == Linearize(r + 1, 0)
  {
  }

  /** The box index of the source, `(r / 3) * 3 + c / 3`. */
  function BoxOf(r: nat, c: nat): (b: nat)
    ensures r < 9 && c < 9 ==> b < 9
  {
    (r / 3) * 3 + c / 3
  }

  /** Cell (r, c) belongs to unit u: its row r, its column 9 + c or its box 18 + BoxOf(r, c). */
  predicate InUnit(u: nat, r: nat, c: nat)
  {
    u == r || u == 9 + c || u == 18 + BoxOf(r, c)
  }

  /** The i-th cell of unit u, in row-major order. */
  function UnitCell(u: nat, i: nat): (rc: (nat, nat))
    requires u < UNIT_COUNT && i < 9
    ensures rc.0 < 9 && rc.1 < 9 && InUnit(u, rc.0, rc.1)
  {
    if u < 9 then (u, i)
    else if u < 18 then (i, u - 9)
    else
      var b := u - 18;
      (b / 3 * 3 + i / 3, b % 3 * 3 + i % 3)
  }

  /**
    How many cells of unit u a row-major scan has passed before reaching (r, c);
    (r, 9) is the end of row r and (9, 0) the end of the grid.
   */
  function Seen(u: nat, r: nat, c: nat): (n: nat)
    requires u < UNIT_COUNT && ((r < 9 && c <= 9) || (r == 9 && c == 0))
    ensures n <= 9
  {
    if u < 9 then
      if u < r then 9 else if u == r then c else 0
    else if u < 18 then
      r + if c > u - 9 then 1 else 0
    else
      var b := u - 18;
      var top, left := b / 3 * 3, b % 3 * 3;
      if r < top then 0
      else if r >= top + 3 then 9
      else (r - top) * 3 + if c < left then 0 else if c < left + 3 then c - left else 3
  }

  lemma SeenEnd(u: nat)
    requires u < UNIT_COUNT
    ensures Seen(u, 9, 0) == 9
  {
  }

  /** The end of row r is the start of row r + 1. */
  lemma SeenWrap(u: nat, r: nat)
    requires u < UNIT_COUNT && r < 9
    ensures Seen(u, r, 9) == Seen(u, r + 1, 0)
  {
  }

  /**
    One scan step: passing (r, c) adds one cell to unit u exactly when (r, c)
    lies in u, and that cell is the unit's Seen(u, r, c)-th, so each unit is met
    in the order of UnitCell.
   */
  lemma SeenStep(u: nat, r: nat, c: nat)
    requires u < UNIT_COUNT && r < 9 && c < 9
    ensures Seen(u, r, c + 1) == Seen(u, r, c) + if InUnit(u, r, c) then 1 else 0
    ensures InUnit(u, r, c) ==> Seen(u, r, c) < 9 && UnitCell(u, Seen(u, r, c)) == (r, c)
  {
    if u >= 18 {
      SeenStepBox(u, r, c);
    }
  }

  /** Box b = u - 18 spans the rows and the columns from b / 3 * 3 and b % 3 * 3 on, three of each. */
  lemma BoxSpan(u: nat, r: nat, c: nat)
    requires 18 <= u < UNIT_COUNT && r < 9 && c < 9
    ensures var b := u - 18;
      InUnit(u, r, c) <==> b / 3 * 3 <= r < b / 3 * 3 + 3 && b % 3 * 3 <= c < b % 3 * 3 + 3
  {
  }

  lemma SeenStepBox(u: nat, r: nat, c: nat)
    requires 18 <= u < UNIT_COUNT && r < 9 && c < 9
    ensures Seen(u, r, c + 1) == Seen(u, r, c) + if InUnit(u, r, c) then 1 else 0
    ensures InUnit(u, r, c) ==> Seen(u, r, c) < 9 && UnitCell(u, Seen(u, r, c)) == (r, c)
  {
    Thirds(u - 18);
    BoxSpan(u, r, c);
    if InUnit(u, r, c) {
      BoxCell(u, r, c);
    }
  }

  /** Inside its box, (r, c) is the box's ((r - top) * 3 + (c - left))-th cell. */
  lemma BoxCell(u: nat, r: nat, c: nat)
    requires 18 <= u < UNIT_COUNT && r < 9 && c < 9
    requires var b := u - 18; b / 3 * 3 <= r < b / 3 * 3 + 3 && b % 3 * 3 <= c < b % 3 * 3 + 3
    ensures UnitCell(u, (r - (u - 18) / 3 * 3) * 3 + (c - (u - 18) % 3 * 3)) == (r, c)
  {
    var b := u - 18;
    var top, left := b / 3 * 3, b % 3 * 3;
    var i := (r - top) * 3 + (c - left);
    Thirds(i);
    assert i / 3 == r - top && i % 3 == c - left;
  }

  /** Division by 3 below 9, spelled out. */
  lemma Thirds(x: nat)
    requires x < 9
    ensures x / 3 == (if x < 3 then 0 else if x < 6 then 1 else 2)
    ensures x % 3 == x - 3 * (x / 3)
  {
  }

  /** Each unit holds exactly the cells UnitCell lists, each once. */
  lemma {:induction false} UnitCellsExactly(u: nat, r: nat, c: nat)
    requires u < UNIT_COUNT && r < 9 && c < 9
    ensures InUnit(u, r, c) <==> exists i | 0 <= i < 9 :: UnitCell(u, i) == (r, c)
    ensures forall i, j | 0 <= i < j < 9 :: UnitCell(u, i) != UnitCell(u, j)
  {
    if InUnit(u, r, c) {
      SeenStep(u, r, c);
    }
    forall i, j | 0 <= i < j < 9
      ensures UnitCell(u, i) != UnitCell(u, j)
    {
      if u >= 18 {
        var b := u - 18;
        assert i / 3 < j / 3 || (i / 3 == j / 3 && i % 3 < j % 3);
      }
    }
  }
}

# rudoku `Board` in Dafny

A model of the Sudoku board of rudoku (`src/board.rs`). The model covers the following parts of the board:

- **Grid.** The 81-cell grid is stored row-major in a fixed-size array.
- **Clues.** The board keeps a list of fixed clue pairs `(pos, val)`.
- **Clue-guarded access:** `get`, `set`, `reset` and `check_invariants`.
- **Two rule checks.**
  - `verify`: a complete grid with no repeated value in any row, column or box.
  - `verbose_verify`: a per-unit duplicate report that tolerates empty cells.
- **Plain-text format.** The token loop of `from_file` and the string building of `to_file`.

The 27 units are the rows (units 0-8), the columns (units 9-17) and the boxes (units 18-26). The box index is `(r / 3) * 3 + c / 3`.

Modules:

- `Grid` (`grid.dfy`): the `u8` type and the constants.
  - `linearize`, including its column-9 alias.
  - The unit geometry.
  - How far a row-major scan has advanced in each unit.
- `Clues` (`clues.dfy`):
  - the clue invariant and the short-circuit check behind `check_invariants`;
  - the guard of `set`;
  - the cells `reset` restores;
  - the clue list a parsed grid gets.
- `Rules` (`rules.dfy`): what `verify` and `verbose_verify` compute, stated over the unit contents.
- `TextFormat` (`textformat.dfy`):
  - the whitespace tokenizer;
  - `u8` parsing and decimal printing;
  - the outcome of the token loop as a function of the tokens;
  - the text `to_file` writes;
  - the round trip between the two.
- `SudokuBoard` (`board.dfy`): the class `Board`, with an `array<u8>` of 81 cells and a clue sequence. Its methods are the source's loops, each proved against the functions above.
- `Wrappers` (`wrappers.dfy`): `Option` and `Result`.

Panics in the source become preconditions. This covers `linearize` with a coordinate above 9, an array index of 81 or more, and a clue position outside the board. The Rust field `invariant` is called `clues` here, because `invariant` is a Dafny keyword.

## Model

| member | source | states |
|---|---|---|
| Grid.Linearize | src/board.rs:220-225 | Defined exactly when neither coordinate exceeds 9. The u8 result is the exact index 9r + c, with no wrap-around. |
| Grid.InGridExactly | src/board.rs:180-182 | `get`/`set` accept exactly the 81 proper coordinates plus the eight aliases (r, 9) with r < 8. |
| Grid.LinearizeRowMajor | src/board.rs:220-225 | On r, c < 9 the index is accepted, and dividing it by 9 gives back r with remainder c. |
| Grid.LinearizeAlias | src/board.rs:220-225 | Column 9 is not rejected: (r, 9) and (r + 1, 0) name the same cell. |
| Grid.BoxOf | src/board.rs:110 | The box index of cell (r, c) is one of the nine boxes. |
| Grid.UnitCell | src/board.rs:103-122 | The i-th cell of unit u is on the board and belongs to unit u. |
| Grid.Seen | src/board.rs:103-104 | The number of unit u's cells that the row-major scan has passed before (r, c), at most 9. |
| Grid.SeenStep | src/board.rs:103-122 | Passing (r, c) advances unit u's count by one exactly when (r, c) is in u, and (r, c) is then that unit's next cell. So every unit is met in its own cell order. |
| Grid.UnitCellsExactly | src/board.rs:110-112 | A cell lies in unit u (same row, same column or same box) iff it is one of the unit's nine listed cells, and those nine are distinct. |
| Clues.Respects | src/board.rs:19-22 | The clue invariant: every clue names a cell holding the clue's value. A board meeting it has no two clues at one position with different values. |
| Clues.LookupsInRange | src/board.rs:172-176 | `check_invariants` reaches only in-range clue positions before it stops. This holds whenever the clue invariant holds. |
| Clues.CluesHold | src/board.rs:172-176 | The short-circuit `all` over the clue list is true iff every clue's cell holds the clue's value. |
| Clues.InRangeLookups | src/board.rs:172-176 | With every clue position on the board, `check_invariants` never panics. |
| Clues.WriteKeepsClues | src/board.rs:187-197 | A write that `set`'s guard lets through keeps every clue satisfied. |
| Clues.LastValue | src/board.rs:200-205 | None iff no clue sits at p. Otherwise it is the value of the last-listed clue at p. |
| Clues.ResetImage | src/board.rs:200-205 | After `reset`, a cell that is no clue position holds 0. A clue position holds its last-listed clue value. |
| Clues.ResetImageSnoc | src/board.rs:202-204 | Applying one more clue to the image of a clue prefix gives the image of the longer prefix. |
| Clues.ResetRespects | src/board.rs:200-205 | With distinct in-range clue positions, the board `reset` leaves satisfies every clue. |
| Clues.ResetDuplicatePositions | src/board.rs:200-205 | Two clues at one position with different values: whichever `reset` writes last, the other one fails, so the board `reset` leaves never passes `check_invariants`. |
| Clues.Givens | src/board.rs:61-64 | The clue list the token loop builds: (k, cells[k]) for each non-zero cell, in strictly increasing k, and nothing else. |
| Clues.GivensRespected | src/board.rs:61-64 | A parsed puzzle's clues are in range, at distinct positions, and hold on its cells. |
| Rules.ScanStep | src/board.rs:103-122 | Passing (r, c) appends its value to exactly the units that contain (r, c). |
| Rules.Tally | src/board.rs:157 | For a unit's values, distinct non-zero values plus empty cells never exceed the length. They reach it iff no non-zero value repeats. |
| Rules.RepeatsSnoc | src/board.rs:147-149 | Adding a value creates a repeat exactly when a repeat existed before, or when the value is non-zero and already present. |
| Rules.TallySnoc | src/board.rs:142-150 | One more cell grows the non-zero set by a non-zero value, or the empty count by one for a 0. |
| Rules.FlaggedIffRepeat | src/board.rs:157 | `verbose_verify`'s test flags a unit iff one of the unit's non-zero values repeats. Empty cells alone never flag it. |
| Rules.Label | src/board.rs:158-164 | The entry pushed for unit i is Row(i), Col(i - 9) or Square(i - 18), and it names unit i back. |
| Rules.ViolationsBelow | src/board.rs:154-166 | The pushed list has no more entries than units scanned. Each entry names a flagged unit, entries come in strictly ascending unit order, and every flagged unit has one. |
| Rules.Violations | src/board.rs:154-168 | The returned list: one entry per flagged unit, each naming a unit below 27 as its `Label`, in strictly ascending unit order (rows, then columns, then boxes), at most 27 entries. |
| Rules.UnitOf | src/board.rs:10-14 | A `BoardInvalid` with an index below 9 names one of the 27 units: `Row` a row, `Col` a column, `Square` a box. |
| Rules.LabelUnitOf | src/board.rs:10-14 | Every `BoardInvalid` with an index below 9 is the entry pushed for the unit it names. |
| Rules.ViolationsExactly | src/board.rs:131-169 | Unit u is reported iff some non-zero value repeats in it. |
| Rules.EmptyBoardClean | src/board.rs:131-169 | The all-zero board yields no entries. |
| Rules.VerboseAgreesWhenFilled | src/board.rs:94-169 | On a filled grid, the empty report means exactly that no unit repeats a value. |
| Rules.RepeatBreaksUnit | src/board.rs:114-118 | If a unit already met the value of (r, c), that unit holds a repeated value. |
| TextFormat.WordEnd | src/board.rs:43 | The end of the token starting at i: no white space before it, and white space or the end of the text at it. |
| TextFormat.Words | src/board.rs:42-43 | Every token is non-empty and holds no white space. |
| TextFormat.WordsAppend | src/board.rs:42-43 | Text that ends in white space splits into tokens independently of what follows. |
| TextFormat.Show | src/board.rs:85 | `format!("{}", n)` is a non-empty string of decimal digits. |
| TextFormat.DecimalValueShow | src/board.rs:85 | The printed digits denote the number printed. |
| TextFormat.ParseShow | src/board.rs:50 | Every u8 parses back from its printed form. |
| TextFormat.ParseU8 | src/board.rs:50 | An accepted token is neither empty nor a lone '+'. |
| TextFormat.ParseU8Digits | src/board.rs:50 | A non-empty string of digits denoting a value below 256 parses to that value. An accepted token ends in a digit and holds no '-'. |
| TextFormat.ParseU8Edges | src/board.rs:50-60 | A leading '+' is accepted ("+7" is 7) and leading zeros are ignored ("007" is 7). "-0", a lone "+", "++1", the empty string and "1 " are rejected. 255 is accepted and 256 is rejected, so an overflowing token is a parse error and the loop reports NotANumber, not OutOfRange. |
| TextFormat.FirstBad | src/board.rs:44-60 | The first token, among the first 81, that is not a number below 10. All tokens before it are good. |
| TextFormat.FirstBadAt | src/board.rs:44-60 | If the first i tokens are good and token i is not, the scan stops at i. |
| TextFormat.Parse | src/board.rs:37-76 | Success iff exactly 81 tokens each parse to a value below 10. On success cell k is token k, and the clues are the non-zero cells in increasing position. |
| TextFormat.FirstBadIgnoresExtra | src/board.rs:44-49 | Tokens after the 81st do not change where the scan stops. |
| TextFormat.ExtraTokensUnread | src/board.rs:44-49 | After 81 good tokens, any further token gives TooManyNumbers, even a malformed one. Otherwise the first 81 tokens decide the error. |
| TextFormat.ShortInput | src/board.rs:69-74 | Fewer than 81 tokens, all good: the load fails with TooFewNumbers once input is exhausted. |
| TextFormat.Load | src/board.rs:37-76 | `from_file` on a text: an error unless the text has exactly 81 tokens. On success, 81 cells each below 10, and the clues are the non-zero cells. |
| TextFormat.WordsOfRow | src/board.rs:84-86 | A written row splits into its nine printed values, and it ends in a space. |
| TextFormat.WordsOfGrid | src/board.rs:83-88 | The written text splits into the printed cells in row-major order, and every line ends in a newline. |
| TextFormat.Text | src/board.rs:83-88 | The text `to_file` writes holds only digits, spaces and line breaks, and ends in a line break. |
| TextFormat.RowShape | src/board.rs:84-86 | A written row holds only digits and spaces, at least two characters per value, and ends in a space. |
| TextFormat.GridShape | src/board.rs:83-88 | The written rows hold only digits, spaces and line breaks, and the last one ends in a line break. |
| TextFormat.ParseShown | src/board.rs:37-76 | Parsing the 81 printed cells gives back those cells and their non-zero cells as clues if all are below 10. Otherwise it gives OutOfRange. |
| TextFormat.RoundTrip | src/board.rs:37-88 | Loading what `to_file` writes gives back the same 81 cells and their non-zero cells as clues when all are below 10. Otherwise it fails with OutOfRange. |
| SudokuBoard.Board.Empty | src/board.rs:30-35 | A fresh board of 81 zeros with no clues, and every clue holds. |
| SudokuBoard.Board.New | src/board.rs:26-28 | A fresh board holding exactly the given cells and clue list. |
| SudokuBoard.Board.CheckInvariants | src/board.rs:172-176 | True iff every clue names a cell holding the clue's value. |
| SudokuBoard.Board.Get | src/board.rs:180-182 | The cell at row-major index 9r + c, which is row r, column c for proper coordinates and the aliased cell for column 9. |
| SudokuBoard.Board.Set | src/board.rs:187-197 | Err iff a clue sits at the target and the current value differs from val; the board is then unchanged. Otherwise only that cell becomes val. The clue list never changes, and clue satisfaction is preserved. |
| SudokuBoard.Board.Reset | src/board.rs:200-205 | The board becomes the reset image of the unchanged clue list, so a second reset changes nothing. With distinct positions every clue holds. |
| SudokuBoard.Board.Verify | src/board.rs:94-125 | True iff every clue holds, no cell is 0, and no row, column or box holds a value twice. Values are not range-checked. |
| SudokuBoard.Board.VerboseVerify | src/board.rs:131-169 | The list is the flagged units' entries in ascending unit order, and the flag is true iff the list is empty. |
| SudokuBoard.Board.ToText | src/board.rs:83-88 | The text `to_file` writes: nine lines, each holding the row's values each followed by a space, then a newline. |
| SudokuBoard.Board.RowToText | src/board.rs:84-86 | One row's values, each followed by a space. |
| SudokuBoard.Board.FromFile | src/board.rs:37-76 | An error exactly when `Load` of the text fails, with the same error. On success, a fresh board whose cells and clues are the loaded ones. |
| SudokuBoard.Board.FromTokens | src/board.rs:40-75 | The token loop: an error exactly when `Parse` of the tokens fails, with the same error. On success, a fresh board whose cells and clues are the parsed ones. |
| SudokuBoard.Board.Accept | src/board.rs:62-66 | One accepted token: a non-zero value is pushed as a clue and written to its cell, so the board and clues become those of one more token. |
| SudokuBoard.StopAt | src/board.rs:50-60 | At the first bad token the loop stops with NotANumber or OutOfRange, depending on whether the token parses at all. |
| SudokuBoard.TooManyAt | src/board.rs:44-49 | An 82nd token after 81 good ones stops the loop with TooManyNumbers. |
| SudokuBoard.EndAt | src/board.rs:69-75 | Input exhausted with all tokens good: TooFewNumbers below 81 tokens, or otherwise the built puzzle. |
| SudokuBoard.LoadStep | src/board.rs:61-65 | One accepted token writes its cell and, if non-zero, appends its clue, keeping the board and the clues equal to those of the tokens read so far. |
| SudokuBoard.DistinctStep | src/board.rs:114-121 | Inserting a new value into its three unit sets keeps every set equal to its unit's values so far, all distinct. |
| SudokuBoard.TallyZeroStep | src/board.rs:141-145 | An empty cell bumps the empty counts of its three units, keeping every count equal to the unit's zeros so far. |
| SudokuBoard.TallyValueStep | src/board.rs:146-150 | A non-zero cell joins the sets of its three units, keeping every set equal to the unit's non-zero values so far. |

## Left out

- Reading and writing files:
  - `fs::read_to_string` in `from_file`: the file's text is a parameter of `FromFile`.
  - `OpenOptions::create_new` and `file.write` in `to_file`: `ToText` returns the text, so the error for a destination that already exists is not modelled.
- `print`, and the terminal user interface in `src/tui.rs`: output only.
- `src/main.rs` is argument parsing only.
- `src/solver.rs` (a stub returning true), `src/generator.rs` (returns an empty board) and `src/game.rs` (a banner): these hold no board logic.
- The kinds of error: every parse failure of a token is one `NotANumber`, whatever `ParseIntError` kind Rust reports. The messages of the three `io::Error` exits are not modelled, only which exit is taken.
- `contents.lines()` followed by `split_whitespace()` is modelled as one split on Unicode white space. Line breaks are white space, so no token spans a line and the token sequence is the same.
- The loop of `from_file` is split in three: `FromFile` splits the text into tokens, `FromTokens` runs the loop over them, and `Accept` is one accepted token's update. The source does all three in one function.
- The string building of `to_file` is split in two: each line is built in `RowToText` and then appended, where the source appends every piece to one `String` directly. The resulting text is the same.

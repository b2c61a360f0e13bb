/**
  The plain-text puzzle format: the whitespace tokenizer and `u8` parsing that
  `from_file` relies on, the token loop's outcome as a function of the tokens,
  the text `to_file` writes, and the round trip between the two.
 */
module TextFormat {
  import opened Wrappers
  import opened Grid
  import opened Clues

  /** The Unicode White_Space characters, on which Rust's `split_whitespace` splits. */
  predicate IsSpace(ch: char)
  {
    ('\t' <= ch <= '\r') || ch == ' ' || ch == '\U{85}' || ch == '\U{A0}' || ch == '\U{1680}' ||
    ('\U{2000}' <= ch <= '\U{200A}') || ch == '\U{2028}' || ch == '\U{2029}' ||
    ch == '\U{202F}' || ch == '\U{205F}' || ch == '\U{3000}'
  }

  /** The end of the word that starts at i: the first white-space position at or after i, or |s|. */
  function WordEnd(s: string, i: nat): (k: nat)
    requires i <= |s|
    ensures i <= k <= |s|
    ensures forall j | i <= j < k :: !IsSpace(s[j])
    ensures k < |s| ==> IsSpace(s[k])
    decreases |s| - i
  {
    if i == |s| || IsSpace(s[i]) then i else WordEnd(s, i + 1)
  }

  /**
    The tokens of `contents.lines()` followed by `split_whitespace()`: the maximal
    runs of non-white-space characters, in order (line breaks are white space).
   */
  function Words(s: string): (ws: seq<string>)
    ensures forall i | 0 <= i < |ws| :: ws[i] != [] && forall j | 0 <= j < |ws[i]| :: !IsSpace(ws[i][j])
    decreases |s|
  {
    if s == [] then []
    else if IsSpace(s[0]) then Words(s[1..])
    else
      var k := WordEnd(s, 0);
      [s[..k]] + Words(s[k..])
  }

  /** Splitting text that ends in white space splits its two halves independently. */
  lemma {:induction false} WordsAppend(a: string, b: string)
    requires a == [] || IsSpace(a[|a| - 1])
    ensures Words(a + b) == Words(a) + Words(b)
    decreases |a|
  {
    if a == [] {
      assert a + b == b;
    } else if IsSpace(a[0]) {
      assert (a + b)[1..] == a[1..] + b;
      WordsAppend(a[1..], b);
    } else {
      var k := WordEnd(a, 0);
      var k' := WordEnd(a + b, 0);
      assert k < |a|;
      assert (a + b)[k] == a[k];
      assert (a + b)[k'] == a[k'];
      assert k' == k;
      assert (a + b)[..k] == a[..k];
      assert (a + b)[k..] == a[k..] + b;
      WordsAppend(a[k..], b);
    }
  }

  predicate IsDigit(ch: char)
  {
    '0' <= ch <= '9'
  }

  predicate AllDigits(s: string)
  {
    forall j | 0 <= j < |s| :: IsDigit(s[j])
  }

  function DigitChar(d: nat): (ch: char)
    requires d < 10
    ensures IsDigit(ch)
  {
    ('0' as int + d) as char
  }

  /** The number a string of decimal digits denotes. */
  function DecimalValue(ds: string): nat
    requires AllDigits(ds)
    decreases |ds|
  {
    if ds == [] then 0
    else DecimalValue(ds[..|ds| - 1]) * 10 + (ds[|ds| - 1] as int - '0' as int)
  }

  /**
    `str::parse::<u8>`: an optional leading '+', then one or more decimal digits
    whose value is below 256; anything else (a sign alone, a '-', another
    character, an overflow) is a parse error.
   */
  function ParseU8(tok: string): (r: Option<u8>)
    ensures r.Some? ==> tok != [] && tok != "+"
  {
    var digits := if |tok| > 0 && tok[0] == '+' then tok[1..] else tok;
    if digits == [] || !AllDigits(digits) then None
    else
      var n := DecimalValue(digits);
      if n < 256 then Some(n as u8) else None
  }

  /**
    What `str::parse::<u8>` accepts: a string of digits denoting a value below 256
    reads as that value; an accepted token ends in a digit and holds no '-'.
   */
  lemma ParseU8Digits(tok: string)
    ensures tok != [] && AllDigits(tok) && DecimalValue(tok) < 256 ==> ParseU8(tok) == Some(DecimalValue(tok) as u8)
    ensures ParseU8(tok).Some? ==> tok != [] && IsDigit(tok[|tok| - 1])
    ensures ParseU8(tok).Some? ==> forall j | 0 <= j < |tok| :: tok[j] != '-'
  {
  }

  /** The edges of `str::parse::<u8>` that the token loop meets. */
  lemma ParseU8Edges()
    ensures ParseU8("+7") == Some(7) && ParseU8("007") == Some(7) && ParseU8("255") == Some(255)
    ensures ParseU8("-0") == None && ParseU8("+") == None && ParseU8("++1") == None
    ensures ParseU8("256") == None && ParseU8("") == None && ParseU8("1 ") == None
  {
    assert !IsDigit("-0"[0]) && !IsDigit("+1"[0]) && !IsDigit("1 "[1]);
    assert DecimalValue("7") == 7 && DecimalValue("07") == 7 && DecimalValue("007") == 7;
    assert DecimalValue("2") == 2 && DecimalValue("25") == 25;
    assert DecimalValue("255") == 255 && DecimalValue("256") == 256;
  }

  /** `format!("{}", n)`: the decimal digits of n, without sign or leading zeros. */
  function Show(n: nat): (s: string)
    ensures s != [] && AllDigits(s)
    decreases n
  {
    if n < 10 then [DigitChar(n)] else Show(n / 10) + [DigitChar(n % 10)]
  }

  lemma {:induction false} DecimalValueShow(n: nat)
    ensures DecimalValue(Show(n)) == n
    decreases n
  {
    if n >= 10 {
      var s := Show(n);
      assert s[..|s| - 1] == Show(n / 10);
      DecimalValueShow(n / 10);
    }
  }

  /** Every u8 value reads back from its decimal text. */
  lemma ParseShow(v: u8)
    ensures ParseU8(Show(v as nat)) == Some(v)
  {
    DecimalValueShow(v as nat);
  }

  /** A token the loop accepts as a cell: it parses as a u8 below 10. */
  predicate IsCellToken(tok: string)
  {
    ParseU8(tok).Some? && ParseU8(tok).value < 10
  }

  function TokenValue(tok: string): u8
  {
    match ParseU8(tok)
    case Some(v) => v
    case None => 0
  }

  /** The four data-format errors of `from_file`, in the order its checks meet them. */
  datatype LoadError =
    | TooManyNumbers   // an 82nd token is reached
    | OutOfRange       // a token parses to 10 or more
    | NotANumber       // a token does not parse as a u8
    | TooFewNumbers    // the input ends before 81 tokens

  /** A loaded puzzle: the 81 cells and the clue list. */
  datatype Puzzle = Puzzle(cells: seq<u8>, clues: seq<Clue>)

  /** How many tokens the loop parses before it can stop for having seen 81. */
  function ScanLimit(toks: seq<string>): nat
  {
    if |toks| < BOARD_SIZE then |toks| else BOARD_SIZE
  }

  /** The first token at or after i, among the first ScanLimit tokens, that is not a cell; ScanLimit if none. */
  function FirstBad(toks: seq<string>, i: nat): (k: nat)
    requires i <= ScanLimit(toks)
    ensures i <= k <= ScanLimit(toks)
    ensures forall j | i <= j < k :: IsCellToken(toks[j])
    ensures k < ScanLimit(toks) ==> !IsCellToken(toks[k])
    decreases ScanLimit(toks) - i
  {
    if i == ScanLimit(toks) || !IsCellToken(toks[i]) then i else FirstBad(toks, i + 1)
  }

  /** The first i tokens are cells and token i (if among the first 81) is not: the scan stops at i. */
  lemma FirstBadAt(toks: seq<string>, i: nat)
    requires i <= ScanLimit(toks)
    requires forall j | 0 <= j < i :: IsCellToken(toks[j])
    requires i < ScanLimit(toks) ==> !IsCellToken(toks[i])
    ensures FirstBad(toks, 0) == i
  {
  }

  /**
    What the token loop of `from_file` yields for a token sequence: the error of
    the first bad token among the first 81, else too many or too few tokens,
    else the grid of token values with every non-zero token as a clue.
   */
  function Parse(toks: seq<string>): (res: Result<Puzzle, LoadError>)
    ensures res.Ok? <==> |toks| == BOARD_SIZE && forall j | 0 <= j < BOARD_SIZE :: IsCellToken(toks[j])
    ensures res.Ok? ==>
      |res.value.cells| == BOARD_SIZE && res.value.clues == Givens(res.value.cells) &&
      forall j | 0 <= j < BOARD_SIZE :: ParseU8(toks[j]) == Some(res.value.cells[j])
  {
    var k := FirstBad(toks, 0);
    if k < ScanLimit(toks) then Err(if ParseU8(toks[k]).None? then NotANumber else OutOfRange)
    else if |toks| > BOARD_SIZE then Err(TooManyNumbers)
    else if |toks| < BOARD_SIZE then Err(TooFewNumbers)
    else
      var cells := seq(BOARD_SIZE, j requires 0 <= j < BOARD_SIZE => TokenValue(toks[j]));
      Ok(Puzzle(cells, Givens(cells)))
  }

  lemma {:induction false} FirstBadIgnoresExtra(toks: seq<string>, extra: seq<string>, i: nat)
    requires |toks| == BOARD_SIZE && i <= BOARD_SIZE
    ensures FirstBad(toks + extra, i) == FirstBad(toks, i)
    decreases BOARD_SIZE - i
  {
    if i < BOARD_SIZE {
      assert (toks + extra)[i] == toks[i];
      FirstBadIgnoresExtra(toks, extra, i + 1);
    }
  }

  /**
    Tokens after the 81st are never parsed: with 81 good tokens any further token,
    even a malformed one, gives TooManyNumbers; otherwise the error is the one
    the first 81 tokens give.
   */
  lemma ExtraTokensUnread(toks: seq<string>, extra: seq<string>)
    requires |toks| == BOARD_SIZE && extra != []
    ensures Parse(toks + extra) == if Parse(toks).Ok? then Err(TooManyNumbers) else Parse(toks)
  {
    FirstBadIgnoresExtra(toks, extra, 0);
    assert forall j | 0 <= j < BOARD_SIZE :: (toks + extra)[j] == toks[j];
  }

  /** A short input whose tokens are all cells fails only once it is exhausted. */
  lemma ShortInput(toks: seq<string>)
    requires |toks| < BOARD_SIZE && forall j | 0 <= j < |toks| :: IsCellToken(toks[j])
    ensures Parse(toks) == Err(TooFewNumbers)
  {
  }

  /** `from_file` on the text of a file. */
  function Load(contents: string): (res: Result<Puzzle, LoadError>)
    ensures |Words(contents)| != BOARD_SIZE ==> res.Err?
    ensures res.Ok? ==>
      |res.value.cells| == BOARD_SIZE && res.value.clues == Givens(res.value.cells) &&
      forall j | 0 <= j < BOARD_SIZE :: res.value.cells[j] < 10
  {
    Parse(Words(contents))
  }

  /** Every character of t is a decimal digit, a space or, when lines holds, a line break. */
  predicate Printed(t: string, lines: bool)
  {
    forall j | 0 <= j < |t| :: IsDigit(t[j]) || t[j] == ' ' || (lines && t[j] == '\n')
  }

  lemma PrintedAppend(a: string, b: string, lines: bool)
    requires Printed(a, lines) && Printed(b, lines)
    ensures Printed(a + b, lines)
  {
  }

  /** Row r as `to_file` writes it, up to column c: each value followed by one space. */
  function RowText(cells: seq<u8>, r: nat, c: nat): string
    requires |cells| == BOARD_SIZE && r < 9 && c <= 9
    decreases c
  {
    if c == 0 then "" else RowText(cells, r, c - 1) + (Show(cells[9 * r + c - 1] as nat) + " ")
  }

  /** The first r rows as `to_file` writes them, each ended by a newline. */
  function GridText(cells: seq<u8>, r: nat): string
    requires |cells| == BOARD_SIZE && r <= 9
    decreases r
  {
    if r == 0 then "" else GridText(cells, r - 1) + RowText(cells, r - 1, 9) + "\n"
  }

  /** The whole text `to_file` writes. */
  function Text(cells: seq<u8>): (t: string)
    requires |cells| == BOARD_SIZE
    ensures |t| > 0 && t[|t| - 1] == '\n'
    ensures Printed(t, true)
  {
    GridShape(cells, 9);
    GridText(cells, 9)
  }

  /** A written row holds only digits and spaces, at least two characters per value, and ends in a space. */
  lemma {:induction false} RowShape(cells: seq<u8>, r: nat, c: nat)
    requires |cells| == BOARD_SIZE && r < 9 && c <= 9
    ensures |RowText(cells, r, c)| >= 2 * c && Printed(RowText(cells, r, c), false)
    ensures c > 0 ==> RowText(cells, r, c)[|RowText(cells, r, c)| - 1] == ' '
    decreases c
  {
    if c > 0 {
      RowShape(cells, r, c - 1);
      PrintedAppend(RowText(cells, r, c - 1), Show(cells[9 * r + c - 1] as nat) + " ", false);
    }
  }

  /** The written rows hold only digits, spaces and line breaks, and each ends in a line break. */
  lemma {:induction false} GridShape(cells: seq<u8>, r: nat)
    requires |cells| == BOARD_SIZE && r <= 9
    ensures Printed(GridText(cells, r), true)
    ensures r > 0 ==> |GridText(cells, r)| > 0 && GridText(cells, r)[|GridText(cells, r)| - 1] == '\n'
    decreases r
  {
    if r > 0 {
      var prev, row := GridText(cells, r - 1), RowText(cells, r - 1, 9);
      GridShape(cells, r - 1);
      RowShape(cells, r - 1, 9);
      PrintedLine(prev, row);
    }
  }

  /** One more line of digits and spaces, ended by a line break. */
  lemma PrintedLine(prev: string, row: string)
    requires Printed(prev, true) && Printed(row, false)
    ensures Printed(prev + row + "\n", true)
    ensures (prev + row + "\n")[|prev + row + "\n"| - 1] == '\n'
  {
    assert Printed(row, true);
    PrintedAppend(prev, row, true);
    PrintedAppend(prev + row, "\n", true);
  }

  /** A number followed by a space is one token. */
  lemma WordsOfNumber(w: string)
    requires w != [] && AllDigits(w)
    ensures Words(w + " ") == [w]
  {
    var s := w + " ";
    var k := WordEnd(s, 0);
    assert !IsSpace(s[0]);
    assert s[|w|] == ' ';
    assert k == |w|;
    assert s[..k] == w;
    assert s[k..] == " ";
    assert Words(" ") == [];
  }

  lemma {:induction false} WordsOfRow(cells: seq<u8>, r: nat, c: nat)
    requires |cells| == BOARD_SIZE && r < 9 && c <= 9
    ensures Words(RowText(cells, r, c)) == seq(c, j requires 0 <= j < c => Show(cells[9 * r + j] as nat))
    ensures c > 0 ==> RowText(cells, r, c)[|RowText(cells, r, c)| - 1] == ' '
    decreases c
  {
    if c > 0 {
      var w := Show(cells[9 * r + c - 1] as nat);
      WordsOfRow(cells, r, c - 1);
      WordsOfRowStep(RowText(cells, r, c - 1), w);
      assert seq(c - 1, j requires 0 <= j < c - 1 => Show(cells[9 * r + j] as nat)) + [w]
          == seq(c, j requires 0 <= j < c => Show(cells[9 * r + j] as nat));
    }
  }

  /** One more number and its space add one token. */
  lemma WordsOfRowStep(prev: string, w: string)
    requires prev == [] || prev[|prev| - 1] == ' '
    requires w != [] && AllDigits(w)
    ensures Words(prev + (w + " ")) == Words(prev) + [w]
    ensures (prev + (w + " "))[|prev + (w + " ")| - 1] == ' '
  {
    WordsAppend(prev, w + " ");
    WordsOfNumber(w);
  }

  /** A line break after text that ends in white space adds no token. */
  lemma WordsOfLine(row: string)
    requires row != [] && IsSpace(row[|row| - 1])
    ensures Words(row + "\n") == Words(row)
  {
    WordsAppend(row, "\n");
    assert Words("\n") == [];
  }

  /** One more line adds the tokens of its row. */
  lemma WordsOfGridStep(prev: string, row: string)
    requires prev == [] || prev[|prev| - 1] == '\n'
    requires row != [] && row[|row| - 1] == ' '
    ensures Words(prev + row + "\n") == Words(prev) + Words(row)
    ensures (prev + row + "\n")[|prev + row + "\n"| - 1] == '\n'
  {
    assert prev + row + "\n" == prev + (row + "\n");
    WordsAppend(prev, row + "\n");
    WordsOfLine(row);
  }

  /** The decimal texts of the first n cells. */
  function Shown(cells: seq<u8>, n: nat): (toks: seq<string>)
    requires n <= |cells|
    ensures |toks| == n
  {
    seq(n, k requires 0 <= k < n => Show(cells[k] as nat))
  }

  lemma WordsSplice(cells: seq<u8>, r: nat)
    requires |cells| == BOARD_SIZE && 0 < r <= 9
    ensures Shown(cells, 9 * (r - 1)) + seq(9, j requires 0 <= j < 9 => Show(cells[9 * (r - 1) + j] as nat))
         == Shown(cells, 9 * r)
  {
  }

  lemma {:induction false} WordsOfGrid(cells: seq<u8>, r: nat)
    requires |cells| == BOARD_SIZE && r <= 9
    ensures Words(GridText(cells, r)) == Shown(cells, 9 * r)
    ensures r > 0 ==> GridText(cells, r)[|GridText(cells, r)| - 1] == '\n'
    decreases r
  {
    if r > 0 {
      WordsOfGrid(cells, r - 1);
      WordsOfRow(cells, r - 1, 9);
      WordsOfGridStep(GridText(cells, r - 1), RowText(cells, r - 1, 9));
      WordsSplice(cells, r);
    }
  }

  /**
    Reading back what `to_file` writes: with every cell below 10 the same 81 cells
    return, with the non-zero cells as clues in row-major order; otherwise the
    first cell of 10 or more makes the load fail with OutOfRange.
   */
  lemma RoundTrip(cells: seq<u8>)
    requires |cells| == BOARD_SIZE
    ensures Load(Text(cells)) ==
      if forall k | 0 <= k < BOARD_SIZE :: cells[k] < 10 then Ok(Puzzle(cells, Givens(cells)))
      else Err(OutOfRange)
  {
    WordsOfGrid(cells, 9);
    assert Words(Text(cells)) == Shown(cells, BOARD_SIZE);
    ParseShown(cells);
  }

  /** Parsing the decimal texts of 81 cells. */
  lemma ParseShown(cells: seq<u8>)
    requires |cells| == BOARD_SIZE
    ensures Parse(Shown(cells, BOARD_SIZE)) ==
      if forall k | 0 <= k < BOARD_SIZE :: cells[k] < 10 then Ok(Puzzle(cells, Givens(cells)))
      else Err(OutOfRange)
  {
    var toks := Shown(cells, BOARD_SIZE);
    forall k | 0 <= k < BOARD_SIZE ensures ParseU8(toks[k]) == Some(cells[k]) {
      ParseShow(cells[k]);
    }
    var res := Parse(toks);
    if forall k | 0 <= k < BOARD_SIZE :: cells[k] < 10 {
      assert res.value.cells == cells;
    } else {
      var k := FirstBad(toks, 0);
      assert k < BOARD_SIZE;
    }
  }
}

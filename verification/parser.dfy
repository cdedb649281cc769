/**
 * The puzzle reader: the lines of a puzzle file are split into tokens,
 * each token becomes a cell value ("_" an empty cell, a decimal number
 * its value), and the grid must be non-empty and square.
 */
module Parser {
  import opened Wrappers
  import opened SudokuGrid

  /** The three ways reading a puzzle can fail. */
  datatype ParseError = WrongCharacters | EmptyFile | NotSquare(rows: nat, columns: nat)

  // ---------------------------------------------------------------------
  // Splitting a line into tokens
  // ---------------------------------------------------------------------

  /** A separator of str.split(): space, \t, \n, \x0b, \x0c, \r and \x1c..\x1f. */
  predicate IsSpace(c: char) {
    c == ' ' || 9 <= c as int <= 13 || 28 <= c as int <= 31
  }

  /** A token: a non-empty run of characters without a separator. */
  predicate IsToken(t: string) {
    |t| > 0 && forall i :: 0 <= i < |t| ==> !IsSpace(t[i])
  }

  /** The end of the run of non-separators that starts at i. */
  function WordEnd(s: string, i: nat): (j: nat)
    requires i <= |s|
    ensures i <= j <= |s|
    ensures forall k :: i <= k < j ==> !IsSpace(s[k])
    ensures j == |s| || IsSpace(s[j])
    decreases |s| - i
  {
    if i == |s| || IsSpace(s[i]) then i else WordEnd(s, i + 1)
  }

  /** str.split() without arguments: the maximal runs of non-separators, in order. */
  function Split(s: string): (ts: seq<string>)
    ensures forall i :: 0 <= i < |ts| ==> IsToken(ts[i])
    decreases |s|
  {
    if |s| == 0 then []
    else if IsSpace(s[0]) then Split(s[1..])
    else
      var j := WordEnd(s, 0);
      [s[..j]] + Split(s[j..])
  }

  /** A token followed by nothing or by a separator splits off as one token. */
  lemma SplitToken(t: string, r: string)
    requires IsToken(t) && (r == [] || IsSpace(r[0]))
    ensures Split(t + r) == [t] + Split(r)
  {
    var s := t + r;
    assert s[0] == t[0];
    WordEndOfToken(t, r, 0);
    assert s[..|t|] == t && s[|t|..] == r;
  }

  lemma {:induction false} WordEndOfToken(t: string, r: string, i: nat)
    requires IsToken(t) && (r == [] || IsSpace(r[0])) && i <= |t|
    ensures WordEnd(t + r, i) == |t|
    decreases |t| - i
  {
    var s := t + r;
    if i < |t| {
      assert s[i] == t[i];
      WordEndOfToken(t, r, i + 1);
    } else if r != [] {
      assert s[i] == r[0];
    }
  }

  // ---------------------------------------------------------------------
  // Decimal numbers
  // ---------------------------------------------------------------------

  predicate IsDigit(c: char) {
    '0' <= c <= '9'
  }

  /** str.isdigit() on ASCII: at least one character, all of them digits. */
  predicate AllDigits(t: string) {
    |t| > 0 && forall i :: 0 <= i < |t| ==> IsDigit(t[i])
  }

  function DigitValue(c: char): nat
    requires IsDigit(c)
  {
    c as int - '0' as int
  }

  function DigitChar(d: nat): (c: char)
    requires d < 10
    ensures IsDigit(c) && DigitValue(c) == d
  {
    ('0' as int + d) as char
  }

  /** int(t) for a string of decimal digits (leading zeros allowed). */
  function DecimalValue(t: string): nat
    requires forall i :: 0 <= i < |t| ==> IsDigit(t[i])
  {
    if |t| == 0 then 0 else 10 * DecimalValue(t[..|t| - 1]) + DigitValue(t[|t| - 1])
  }

  /** The decimal digits of n without leading zeros, as str(n) writes them. */
  function Decimal(n: nat): (s: string)
    ensures AllDigits(s)
    ensures |s| == 1 || s[0] != '0'
  {
    if n < 10 then [DigitChar(n)] else Decimal(n / 10) + [DigitChar(n % 10)]
  }

  /** Reading back the digits of n gives n. */
  lemma {:induction false} DecimalRoundTrip(n: nat)
    ensures DecimalValue(Decimal(n)) == n
  {
    var s := Decimal(n);
    if n >= 10 {
      DecimalRoundTrip(n / 10);
      assert s[..|s| - 1] == Decimal(n / 10);
    }
  }

  /** A digit string without a leading zero, or the single digit 0, is the decimal form of its value. */
  lemma {:induction false} DecimalCanonical(t: string)
    requires AllDigits(t) && (|t| == 1 || t[0] != '0')
    ensures Decimal(DecimalValue(t)) == t
    decreases |t|
  {
    if |t| > 1 {
      var p := t[..|t| - 1];
      assert p[0] == t[0];
      LeadingDigitPositive(p);
      DecimalCanonical(p);
      assert t == p + [t[|t| - 1]];
    }
  }

  /** A digit string that starts with a non-zero digit has a positive value. */
  lemma {:induction false} LeadingDigitPositive(t: string)
    requires AllDigits(t) && t[0] != '0'
    ensures DecimalValue(t) >= 1
    decreases |t|
  {
    if |t| > 1 {
      var p := t[..|t| - 1];
      assert p[0] == t[0];
      LeadingDigitPositive(p);
    }
  }

  // ---------------------------------------------------------------------
  // parse_int
  // ---------------------------------------------------------------------

  /** One token: "_" is an empty cell (0), a digit string is its value, anything else is an error. */
  function ParseToken(t: string): (r: Result<int, ParseError>)
    ensures r.Ok? ==> r.value >= 0
    ensures r.Err? ==> r.error == WrongCharacters
  {
    if t == "_" then Ok(0)
    else if AllDigits(t) then Ok(DecimalValue(t))
    else Err(WrongCharacters)
  }

  /**
   * The values of the tokens, in order; the first token that is neither
   * "_" nor a digit string makes the whole line an error.
   */
  function ParseTokens(ts: seq<string>): (r: Result<seq<int>, ParseError>)
    ensures r.Ok? <==> forall i :: 0 <= i < |ts| ==> ParseToken(ts[i]).Ok?
    ensures r.Ok? ==> |r.value| == |ts| && forall i :: 0 <= i < |ts| ==> ParseToken(ts[i]) == Ok(r.value[i])
    ensures r.Err? ==> r.error == WrongCharacters
  {
    if |ts| == 0 then Ok([])
    else
      match ParseToken(ts[0])
      case Err(e) => Err(e)
      case Ok(v) =>
        match ParseTokens(ts[1..])
        case Err(e) => Err(e)
        case Ok(vs) => Ok([v] + vs)
  }

  /** parse_int: the values of the whitespace-separated tokens of one line. */
  function ParseInt(line: string): (r: Result<seq<int>, ParseError>)
    ensures r.Ok? ==> forall i :: 0 <= i < |Split(line)| ==> ParseToken(Split(line)[i]).Ok?
    ensures (forall i :: 0 <= i < |Split(line)| ==> ParseToken(Split(line)[i]).Ok?) ==> r.Ok?
    ensures r.Ok? ==> |r.value| == |Split(line)| && forall i :: 0 <= i < |r.value| ==> ParseToken(Split(line)[i]) == Ok(r.value[i])
    ensures r.Err? ==> r.error == WrongCharacters
  {
    ParseTokens(Split(line))
  }

  /**
   * One line of the plain printout of a grid (dirty_print_sudoku): every
   * value in decimal followed by a space, then the line break.
   */
  function PrintedLine(vs: seq<nat>): string {
    if |vs| == 0 then "\n" else Decimal(vs[0]) + [' '] + PrintedLine(vs[1..])
  }

  /** The printed line splits into the decimal forms of its values. */
  lemma {:induction false} SplitPrinted(vs: seq<nat>)
    ensures Split(PrintedLine(vs)) == seq(|vs|, i requires 0 <= i < |vs| => Decimal(vs[i]))
  {
    if |vs| > 0 {
      var rest := PrintedLine(vs[1..]);
      assert PrintedLine(vs) == Decimal(vs[0]) + ([' '] + rest);
      SplitToken(Decimal(vs[0]), [' '] + rest);
      assert ([' '] + rest)[1..] == rest;
      SplitPrinted(vs[1..]);
    }
  }

  /** A value reads back from its decimal form. */
  lemma ParseDecimal(v: nat)
    ensures ParseToken(Decimal(v)) == Ok(v)
  {
    DecimalRoundTrip(v);
    assert Decimal(v) != "_" by {
      assert IsDigit(Decimal(v)[0]);
    }
  }

  /** parse_int reads a printed line back as the row that was printed. */
  lemma ParsePrintedLine(vs: seq<nat>)
    ensures ParseInt(PrintedLine(vs)) == Ok(vs)
  {
    var ts := Split(PrintedLine(vs));
    SplitPrinted(vs);
    forall i | 0 <= i < |vs| ensures ParseToken(ts[i]) == Ok(vs[i] as int) {
      ParseDecimal(vs[i]);
    }
    var r := ParseTokens(ts);
    assert r.value == vs;
  }

  /** A token is accepted exactly when it is "_" or a digit string; then it denotes 0 or int(t). */
  lemma ParseTokenAccepts(t: string)
    ensures ParseToken(t).Ok? <==> t == "_" || AllDigits(t)
    ensures t == "_" ==> ParseToken(t) == Ok(0)
    ensures AllDigits(t) && (|t| == 1 || t[0] != '0') ==> Decimal(ParseToken(t).value) == t
  {
    if AllDigits(t) && (|t| == 1 || t[0] != '0') {
      assert t != "_" by {
        assert IsDigit(t[0]);
      }
      DecimalCanonical(t);
    }
  }

  // ---------------------------------------------------------------------
  // parse_sudoku
  // ---------------------------------------------------------------------

  /** Every line of the file parsed into one row, stopping at the first bad token. */
  function ParseLines(lines: seq<string>): (r: Result<seq<seq<int>>, ParseError>)
    ensures r.Ok? <==> forall i :: 0 <= i < |lines| ==> ParseInt(lines[i]).Ok?
    ensures r.Ok? ==> |r.value| == |lines| && forall i :: 0 <= i < |lines| ==> ParseInt(lines[i]) == Ok(r.value[i])
    ensures r.Err? ==> r.error == WrongCharacters
  {
    if |lines| == 0 then Ok([])
    else
      match ParseInt(lines[0])
      case Err(e) => Err(e)
      case Ok(row) =>
        match ParseLines(lines[1..])
        case Err(e) => Err(e)
        case Ok(rows) => Ok([row] + rows)
  }

  /**
   * parse_sudoku on the lines of a file: a bad token, then no rows at all,
   * then a row count different from the length of the first row are errors.
   */
  function ParseSudoku(lines: seq<string>): (r: Result<seq<seq<int>>, ParseError>)
    ensures r.Ok? ==> |r.value| == |lines| > 0 && |r.value| == |r.value[0]|
    ensures r.Ok? ==> forall i :: 0 <= i < |lines| ==> ParseInt(lines[i]) == Ok(r.value[i])
  {
    match ParseLines(lines)
    case Err(e) => Err(e)
    case Ok(rows) =>
      if |rows| == 0 then Err(EmptyFile)
      else if |rows| != |rows[0]| then Err(NotSquare(|rows|, |rows[0]|))
      else Ok(rows)
  }

  /**
   * Which error parse_sudoku reports, and when it succeeds: the rows are
   * the parsed lines and their number equals the length of the first row
   * (the other rows are not checked).
   */
  lemma ParseSudokuOutcome(lines: seq<string>)
    ensures ParseSudoku(lines) == Err(WrongCharacters) <==> exists i :: 0 <= i < |lines| && ParseInt(lines[i]).Err?
    ensures ParseSudoku(lines) == Err(EmptyFile) <==> |lines| == 0
    ensures ParseSudoku(lines).Err? && ParseSudoku(lines).error.NotSquare? <==>
              && (forall i :: 0 <= i < |lines| ==> ParseInt(lines[i]).Ok?)
              && |lines| > 0
              && |lines| != |ParseInt(lines[0]).value|
    ensures ParseSudoku(lines).Ok? ==>
              && |lines| > 0
              && |ParseSudoku(lines).value| == |lines| == |ParseSudoku(lines).value[0]|
              && forall i :: 0 <= i < |lines| ==> ParseInt(lines[i]) == Ok(ParseSudoku(lines).value[i])
  {
    var r := ParseLines(lines);
    if r.Ok? && |lines| > 0 {
      assert ParseInt(lines[0]) == Ok(r.value[0]);
    }
  }

  /** The printout of a square grid of non-negative values reads back as that grid. */
  lemma ParseSudokuRoundTrip(cfg: Config, g: seq<seq<nat>>)
    requires |g| == cfg.N() && forall r :: 0 <= r < |g| ==> |g[r]| == cfg.N()
    ensures ParseSudoku(seq(|g|, r requires 0 <= r < |g| => PrintedLine(g[r]))) == Ok(g)
  {
    var lines := seq(|g|, r requires 0 <= r < |g| => PrintedLine(g[r]));
    forall r | 0 <= r < |g| ensures ParseInt(lines[r]) == Ok(g[r]) {
      ParsePrintedLine(g[r]);
    }
    var rows := ParseLines(lines);
    assert rows.Ok?;
    assert rows.value == g;
  }

  // ---------------------------------------------------------------------
  // The block side
  // ---------------------------------------------------------------------

  /** int(math.sqrt(size)): the largest k with k * k <= size. */
  function BlockSideOf(size: nat): (k: nat)
    ensures k * k <= size < (k + 1) * (k + 1)
  {
    if size == 0 then 0
    else
      var s := BlockSideOf(size - 1);
      assert (s + 2) * (s + 2) == (s + 1) * (s + 1) + 2 * s + 3;
      if (s + 1) * (s + 1) <= size then s + 1 else s
  }

  /** For a puzzle of N = k * k rows the block side read off the row count is k. */
  lemma BlockSideOfSquare(cfg: Config)
    ensures BlockSideOf(cfg.N()) == cfg.k
  {
    var k: nat := cfg.k;
    SquareRootUnique(BlockSideOf(k * k), k);
  }

  /** k is the only r with r * r <= k * k < (r + 1) * (r + 1). */
  lemma SquareRootUnique(r: nat, k: nat)
    requires r * r <= k * k < (r + 1) * (r + 1)
    ensures r == k
  {
    if r < k {
      MulMonotone(r + 1, k);
    } else if r > k {
      MulMonotone(k + 1, r);
    }
  }

  lemma MulMonotone(a: nat, b: nat)
    requires a <= b
    ensures a * a <= b * b
  {
    assert a * a <= a * b <= b * b;
  }
}

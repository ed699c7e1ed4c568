/** The digit text that Board::save writes and Board::load reads back: a
    "givens" block (the value of every fixed cell, 0 elsewhere) and a "solved"
    block (every value), each a row-major list of decimal numbers followed by
    a space, with "\n\t" before the first row and after every row. The XML
    document that carries the two blocks is not part of this model. */
module BoardText {
  import opened Layout

  /** std::isdigit on the characters of the saved text. */
  predicate IsDigit(ch: char)
  {
    '0' <= ch <= '9'
  }

  /** The character of a decimal digit. */
  function DigitChar(d: nat): (ch: char)
    requires d < 10
    ensures IsDigit(ch) && ch as int - '0' as int == d
  {
    ('0' as int + d) as char
  }

  /** std::to_string: the decimal digits of v, most significant first. */
  function ToDecimal(v: nat): (s: string)
    ensures |s| >= 1
    ensures forall k :: 0 <= k < |s| ==> IsDigit(s[k])
    ensures v < 10 ==> s == [DigitChar(v)]
    decreases v
  {
    if v < 10 then [DigitChar(v)] else ToDecimal(v / 10) + [DigitChar(v % 10)]
  }

  /** The values of the digit characters of s, in order: the load loops
      give them to cells 0, 1, 2, ... and skip every other character. */
  function Digits(s: string): (ds: seq<nat>)
    ensures |ds| <= |s|
    ensures forall k :: 0 <= k < |ds| ==> ds[k] <= 9
  {
    if s == [] then []
    else Digits(s[..|s| - 1]) + (if IsDigit(s[|s| - 1]) then [s[|s| - 1] as int - '0' as int] else [])
  }

  /** Digit extraction distributes over concatenation. */
  lemma {:induction false} DigitsOfConcat(a: string, b: string)
    ensures Digits(a + b) == Digits(a) + Digits(b)
    decreases |b|
  {
    if b != [] {
      var n := |b| - 1;
      assert (a + b)[..|a + b| - 1] == a + b[..n];
      DigitsOfConcat(a, b[..n]);
    } else {
      assert a + b == a;
    }
  }

  /** Reading one more character adds its digit, if it is one. */
  lemma DigitsOfLonger(s: string, i: nat)
    requires i < |s|
    ensures Digits(s[..i + 1]) == Digits(s[..i]) + (if IsDigit(s[i]) then [s[i] as int - '0' as int] else [])
    ensures |Digits(s[..i])| <= |Digits(s)|
  {
    assert s[..i + 1][..i] == s[..i];
    assert s == s[..i] + s[i..];
    DigitsOfConcat(s[..i], s[i..]);
  }

  /** The givens block: the value of each fixed cell, 0 for the others. */
  function GivenValues(g: Grid): (vals: seq<nat>)
    ensures |vals| == |g|
  {
    seq(|g|, p requires 0 <= p < |g| => if g[p].fixed then g[p].value else 0)
  }

  /** The solved block: every cell's value. */
  function Values(g: Grid): (vals: seq<nat>)
    ensures |vals| == |g|
  {
    seq(|g|, p requires 0 <= p < |g| => g[p].value)
  }

  /** One row (or part of one): each value as to_string(v) + " ". */
  function EncodeRow(vals: seq<nat>): string
  {
    if vals == [] then "" else EncodeRow(vals[..|vals| - 1]) + ToDecimal(vals[|vals| - 1]) + " "
  }

  /** The first `rows` rows, each followed by "\n\t". */
  function EncodeRows(vals: seq<nat>, rows: nat): string
    requires rows <= 9 && |vals| == 81
  {
    if rows == 0 then "" else EncodeRows(vals, rows - 1) + EncodeRow(vals[(rows - 1) * 9 .. rows * 9]) + "\n\t"
  }

  /** A whole block as save writes it. */
  function Encode(vals: seq<nat>): string
    requires |vals| == 81
  {
    "\n\t" + EncodeRows(vals, 9)
  }

  /** The givens pass of load: digit k sets cell k to that value, fixed
      exactly when it is nonzero; cells past the last digit keep what they
      held. */
  function LoadGivens(g: Grid, ds: seq<nat>): (h: Grid)
    requires |ds| <= |g|
    ensures |h| == |g|
  {
    seq(|g|, p requires 0 <= p < |g| => if p < |ds| then Cell(ds[p], ds[p] != 0) else g[p])
  }

  /** The solved pass of load: digit k overwrites the value of cell k and
      leaves its flag alone. */
  function LoadSolved(g: Grid, ds: seq<nat>): (h: Grid)
    requires |ds| <= |g|
    ensures |h| == |g|
  {
    seq(|g|, p requires 0 <= p < |g| => if p < |ds| then g[p].(value := ds[p]) else g[p])
  }

  /** Board::load on the two blocks, givens first. */
  function LoadText(g: Grid, givens: string, solved: string): (h: Grid)
    requires |Digits(givens)| <= |g| && |Digits(solved)| <= |g|
    ensures |h| == |g|
  {
    LoadSolved(LoadGivens(g, Digits(givens)), Digits(solved))
  }

  /** A single-digit value is written as exactly its digit. */
  lemma DigitsOfDecimal(v: nat)
    requires v <= 9
    ensures Digits(ToDecimal(v)) == [v]
  {
    assert ToDecimal(v)[..0] == [];
  }

  /** The digits of a row with one more single-digit value written. */
  lemma DigitsOfValueAppend(row: string, v: nat)
    requires v <= 9
    ensures Digits(row + ToDecimal(v) + " ") == Digits(row) + [v]
  {
    var t := ToDecimal(v);
    DigitsOfConcat(row, t);
    DigitsOfConcat(row + t, " ");
    DigitsOfDecimal(v);
    assert Digits(" ") == [] by {
      assert " "[..0] == [];
    }
    assert Digits(row) + [v] + [] == Digits(row) + [v];
  }

  lemma {:induction false} DigitsOfEncodeRow(vals: seq<nat>)
    requires forall k :: 0 <= k < |vals| ==> vals[k] <= 9
    ensures Digits(EncodeRow(vals)) == vals
    decreases |vals|
  {
    if vals != [] {
      var n := |vals| - 1;
      DigitsOfEncodeRow(vals[..n]);
      DigitsOfValueAppend(EncodeRow(vals[..n]), vals[n]);
      assert vals == vals[..n] + [vals[n]];
    }
  }

  /** The row separator holds no digit. */
  lemma DigitsOfSeparator()
    ensures Digits("\n\t") == []
  {
    assert "\n\t"[..1] == "\n";
    assert "\n"[..0] == [];
  }

  /** The digits of a row appended to a block, with the row separator. */
  lemma DigitsOfRowAppend(block: string, row: string)
    ensures Digits(block + row + "\n\t") == Digits(block) + Digits(row)
  {
    DigitsOfConcat(block, row);
    DigitsOfConcat(block + row, "\n\t");
    DigitsOfSeparator();
    assert Digits(block) + Digits(row) + [] == Digits(block) + Digits(row);
  }

  lemma {:induction false} DigitsOfEncodeRows(vals: seq<nat>, rows: nat)
    requires rows <= 9 && |vals| == 81
    requires forall k :: 0 <= k < 81 ==> vals[k] <= 9
    ensures Digits(EncodeRows(vals, rows)) == vals[..rows * 9]
    decreases rows
  {
    if rows > 0 {
      var start := (rows - 1) * 9;
      var row := vals[start .. start + 9];
      DigitsOfEncodeRows(vals, rows - 1);
      DigitsOfEncodeRow(row);
      DigitsOfRowAppend(EncodeRows(vals, rows - 1), EncodeRow(row));
      assert vals[..start + 9] == vals[..start] + row;
    } else {
      assert Digits("") == [];
    }
  }

  /** Reading back a block that save wrote gives its 81 values, provided
      every value is a single digit. */
  lemma DigitsOfEncode(vals: seq<nat>)
    requires |vals| == 81
    requires forall k :: 0 <= k < 81 ==> vals[k] <= 9
    ensures Digits(Encode(vals)) == vals
  {
    DigitsOfEncodeRows(vals, 9);
    DigitsOfConcat("\n\t", EncodeRows(vals, 9));
    DigitsOfSeparator();
    assert vals[..81] == vals;
  }

  /** save followed by load restores every value and every fixed flag of a
      board whose values are 0..9 and whose fixed cells are nonzero, whatever
      the loading board held before. */
  lemma SaveLoadRoundTrip(g: Grid, prior: Grid)
    requires |g| == 81 && |prior| == 81
    requires forall p :: 0 <= p < 81 ==> g[p].value <= 9
    requires forall p :: 0 <= p < 81 && g[p].fixed ==> g[p].value != 0
    ensures |Digits(Encode(GivenValues(g)))| == 81 && |Digits(Encode(Values(g)))| == 81
    ensures LoadText(prior, Encode(GivenValues(g)), Encode(Values(g))) == g
  {
    DigitsOfEncode(GivenValues(g));
    DigitsOfEncode(Values(g));
    var h := LoadText(prior, Encode(GivenValues(g)), Encode(Values(g)));
    forall p | 0 <= p < 81 ensures h[p] == g[p] {
    }
  }
}

/** The Board class: a fixed buffer of 81 cells updated in place by set,
    reset and load, and read by get, is_valid, full, ==, != and save. */
module Boards {
  import opened Layout
  import opened Rules
  import opened BoardText

  class Board {
    /** `Cell board[81]`, row-major. */
    const cells: array<Cell>

    /** A board holds exactly 81 cells. */
    predicate Valid()
    {
      cells.Length == 81
    }

    /** The cell sequence the board currently holds. */
    function Cells(): (g: Grid)
      reads cells
      ensures |g| == cells.Length
    {
      cells[..]
    }

    /** Board(): all 81 cells default-constructed (value 0, not fixed). */
    constructor ()
      ensures Valid() && fresh(cells)
      ensures forall p :: 0 <= p < 81 ==> Cells()[p] == DefaultCell
      ensures ZeroCount(Cells()) == 81
    {
      cells := new Cell[81](_ => DefaultCell);
      new;
      ZeroCountAll(cells[..]);
    }

    /** Board(const Board &): copies all 81 cells of the other board, given
        here by its cell sequence. */
    constructor Copy(other: Grid)
      requires |other| == 81
      ensures Valid() && fresh(cells) && Cells() == other
    {
      var a := new Cell[81];
      for i := 0 to 81
        invariant forall j :: 0 <= j < i ==> a[j] == other[j]
      {
        a[i] := other[i];
      }
      cells := a;
    }

    /** Board::get. */
    function Get(x: nat, y: nat): (c: Cell)
      requires Valid() && x < 9 && y < 9
      reads cells
      ensures c == Layout.Get(Cells(), x, y)
    {
      cells[y * 9 + x]
    }

    /** Board::set: writes index y * 9 + x and nothing else. */
    method Set(x: nat, y: nat, c: Cell)
      requires Valid() && x < 9 && y < 9
      modifies cells
      ensures Cells() == SetCell(old(Cells()), x, y, c)
    {
      cells[y * 9 + x] := c;
    }

    /** Board::is_valid: scans row y, column x and the 3x3 box of (x, y) for
        another nonzero cell holding the same value. */
    method IsValid(x: nat, y: nat) returns (ok: bool)
      requires Valid() && x < 9 && y < 9
      ensures ok == IsValidAt(Cells(), x, y)
    {
      var value := Get(x, y).value;

      var xx := 0;
      while xx < 9
        invariant xx <= 9
        invariant forall k :: 0 <= k < xx && k != x ==>
                    Layout.Get(Cells(), k, y).value == 0 || Layout.Get(Cells(), k, y).value != value
      {
        if xx != x && Get(xx, y).value != 0 && Get(xx, y).value == value {
          return false;
        }
        xx := xx + 1;
      }

      var yy := 0;
      while yy < 9
        invariant yy <= 9
        invariant forall k :: 0 <= k < yy && k != y ==>
                    Layout.Get(Cells(), x, k).value == 0 || Layout.Get(Cells(), x, k).value != value
      {
        if yy != y && Get(x, yy).value != 0 && Get(x, yy).value == value {
          return false;
        }
        yy := yy + 1;
      }

      var left, top := (x / 3) * 3, (y / 3) * 3;
      yy := top;
      while yy < top + 3
        invariant top <= yy <= top + 3
        invariant forall k, l :: left <= k < left + 3 && top <= l < yy && (k != x || l != y) ==>
                    Layout.Get(Cells(), k, l).value == 0 || Layout.Get(Cells(), k, l).value != value
      {
        xx := left;
        while xx < left + 3
          invariant left <= xx <= left + 3
          invariant forall k, l :: left <= k < left + 3 && top <= l < yy && (k != x || l != y) ==>
                      Layout.Get(Cells(), k, l).value == 0 || Layout.Get(Cells(), k, l).value != value
          invariant forall k :: left <= k < xx && (k != x || yy != y) ==>
                      Layout.Get(Cells(), k, yy).value == 0 || Layout.Get(Cells(), k, yy).value != value
        {
          if (yy != y || xx != x) && Get(xx, yy).value != 0 && Get(xx, yy).value == value {
            return false;
          }
          xx := xx + 1;
        }
        yy := yy + 1;
      }
      return true;
    }

    /** Board::full: scans from the last cell down for a 0. */
    method Full() returns (full: bool)
      requires Valid()
      ensures full == Rules.Full(Cells())
    {
      var i: int := 80;
      while i >= 0
        invariant -1 <= i <= 80
        invariant forall j :: i < j < 81 ==> cells[j].value != 0
      {
        if cells[i].value == 0 {
          return false;
        }
        i := i - 1;
      }
      return true;
    }

    /** Board::operator==: compares the 81 values and nothing else. */
    method Equals(other: Grid) returns (equal: bool)
      requires Valid() && |other| == 81
      ensures equal == SameValues(Cells(), other)
    {
      for i := 0 to 81
        invariant forall j :: 0 <= j < i ==> cells[j].value == other[j].value
      {
        if cells[i].value != other[i].value {
          return false;
        }
      }
      return true;
    }

    /** Board::operator!=: the negation of ==. */
    method NotEquals(other: Grid) returns (different: bool)
      requires Valid() && |other| == 81
      ensures different == !SameValues(Cells(), other)
    {
      var equal := Equals(other);
      different := !equal;
    }

    /** Board::reset: empties every cell that is not fixed. */
    method Reset()
      requires Valid()
      modifies cells
      ensures Cells() == Rules.Reset(old(Cells()))
    {
      for i := 0 to 81
        invariant forall j :: 0 <= j < i ==> cells[j] == Rules.Reset(old(cells[..]))[j]
        invariant forall j :: i <= j < 81 ==> cells[j] == old(cells[j])
      {
        if !cells[i].fixed {
          cells[i] := cells[i].(value := 0);
        }
      }
    }

    /** Board::load on the document's two digit blocks, in document order:
        the root's text (givens) and then the "solved" child. */
    method Load(givens: string, solved: string)
      requires Valid()
      requires |Digits(givens)| <= 81 && |Digits(solved)| <= 81
      modifies cells
      ensures Cells() == LoadText(old(Cells()), givens, solved)
    {
      LoadGivensBlock(givens);
      LoadSolvedBlock(solved);
    }

    /** The givens loop of load: the k-th digit character sets cell k to
        that value, fixed exactly when it is not 0. */
    method LoadGivensBlock(text: string)
      requires Valid() && |Digits(text)| <= 81
      modifies cells
      ensures Cells() == LoadGivens(old(Cells()), Digits(text))
    {
      var index := 0;
      var i := 0;
      while i < |text|
        invariant i <= |text|
        invariant index == |Digits(text[..i])| <= 81
        invariant Cells() == LoadGivens(old(Cells()), Digits(text[..i]))
      {
        DigitsOfLonger(text, i);
        if i + 1 < |text| {
          DigitsOfLonger(text, i + 1);
        } else {
          assert text[..i + 1] == text;
        }
        if IsDigit(text[i]) {
          var d := text[i] as int - '0' as int;
          LoadGivensStep(old(Cells()), Digits(text[..i]), d);
          cells[index] := Cell(d, d != 0);
          index := index + 1;
        }
        i := i + 1;
      }
      assert text[..i] == text;
    }

    /** The solved loop of load: the k-th digit character overwrites the
        value of cell k and keeps its flag. */
    method LoadSolvedBlock(text: string)
      requires Valid() && |Digits(text)| <= 81
      modifies cells
      ensures Cells() == LoadSolved(old(Cells()), Digits(text))
    {
      var index := 0;
      var i := 0;
      while i < |text|
        invariant i <= |text|
        invariant index == |Digits(text[..i])| <= 81
        invariant Cells() == LoadSolved(old(Cells()), Digits(text[..i]))
      {
        DigitsOfLonger(text, i);
        if i + 1 < |text| {
          DigitsOfLonger(text, i + 1);
        } else {
          assert text[..i + 1] == text;
        }
        if IsDigit(text[i]) {
          var d := text[i] as int - '0' as int;
          LoadSolvedStep(old(Cells()), Digits(text[..i]), d);
          cells[index] := cells[index].(value := d);
          index := index + 1;
        }
        i := i + 1;
      }
      assert text[..i] == text;
    }

    /** Board::save: the givens block, then the solved block. */
    method Save() returns (givens: string, solved: string)
      requires Valid()
      ensures givens == Encode(GivenValues(Cells()))
      ensures solved == Encode(Values(Cells()))
    {
      givens := SaveBlock(true);
      solved := SaveBlock(false);
    }

    /** One block of save: nine rows, each followed by "\n\t". With
        `onlyFixed` the value of a cell that is not fixed is written as 0. */
    method SaveBlock(onlyFixed: bool) returns (data: string)
      requires Valid()
      ensures data == Encode(if onlyFixed then GivenValues(Cells()) else Values(Cells()))
    {
      ghost var vals := if onlyFixed then GivenValues(Cells()) else Values(Cells());
      data := "\n\t";
      for y := 0 to 9
        invariant data == "\n\t" + EncodeRows(vals, y)
      {
        var row := SaveRow(y, onlyFixed);
        EncodeRowsStep(vals, y);
        data := data + row + "\n\t";
      }
    }

    /** One row of save: each value of row y followed by a space. */
    method SaveRow(y: nat, onlyFixed: bool) returns (row: string)
      requires Valid() && y < 9
      ensures row == EncodeRow((if onlyFixed then GivenValues(Cells()) else Values(Cells()))[y * 9 .. (y + 1) * 9])
    {
      ghost var vals := if onlyFixed then GivenValues(Cells()) else Values(Cells());
      row := "";
      for x := 0 to 9
        invariant row == EncodeRow(vals[y * 9 .. y * 9 + x])
      {
        var value := Get(x, y).value;
        if onlyFixed && !Get(x, y).fixed {
          value := 0;
        }
        assert value == vals[y * 9 + x];
        EncodeRowStep(vals, y * 9, x);
        row := row + ToDecimal(value) + " ";
      }
    }
  }

  /** A board of default cells has 81 zero cells. */
  lemma ZeroCountAll(g: Grid)
    requires |g| == 81 && forall p :: 0 <= p < 81 ==> g[p] == DefaultCell
    ensures ZeroCount(g) == 81
  {
    FullIffNoZeros(g);
    var k := 0;
    while k < 81
      invariant k <= 81 && ZeroCount(g[..k]) == k
    {
      assert g[..k + 1][..k] == g[..k];
      k := k + 1;
    }
    assert g[..81] == g;
  }

  /** Appending the next value of a row to the encoded row. */
  lemma EncodeRowStep(vals: seq<nat>, start: nat, x: nat)
    requires start + x < |vals|
    ensures EncodeRow(vals[start .. start + x + 1]) == EncodeRow(vals[start .. start + x]) + ToDecimal(vals[start + x]) + " "
  {
    assert vals[start .. start + x + 1][..x] == vals[start .. start + x];
  }

  /** Appending the next row, and its "\n\t", to the encoded block. */
  lemma EncodeRowsStep(vals: seq<nat>, y: nat)
    requires |vals| == 81 && y < 9
    ensures "\n\t" + EncodeRows(vals, y + 1) == "\n\t" + EncodeRows(vals, y) + EncodeRow(vals[y * 9 .. (y + 1) * 9]) + "\n\t"
  {
  }

  /** The givens pass after one more digit: only the next cell changes. */
  lemma LoadGivensStep(g: Grid, ds: seq<nat>, d: nat)
    requires |ds| < |g|
    ensures LoadGivens(g, ds + [d]) == LoadGivens(g, ds)[|ds| := Cell(d, d != 0)]
  {
  }

  /** The solved pass after one more digit: only the next cell's value
      changes. */
  lemma LoadSolvedStep(g: Grid, ds: seq<nat>, d: nat)
    requires |ds| < |g|
    ensures LoadSolved(g, ds + [d]) == LoadSolved(g, ds)[|ds| := LoadSolved(g, ds)[|ds|].(value := d)]
  {
  }
}

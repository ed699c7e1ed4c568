/** What a board means: the row/column/box check of Board::is_valid, the
    Sudoku rule, fullness, value equality, reset, and what it is for a full
    board to be a solution of a puzzle. Everything here is about the cell
    sequence of a board. */
module Rules {
  import opened Layout

  /** First column (or row) of the 3x3 box that holds column (or row) c. */
  function BoxStart(c: nat): nat
  {
    (c / 3) * 3
  }

  /** Board::is_valid: the value at (x, y) equals no other nonzero value of
      row y, of column x, or of the 3x3 box starting at
      (BoxStart(x), BoxStart(y)). A cell holding 0 is always valid. */
  predicate IsValidAt(g: Grid, x: nat, y: nat)
    requires |g| == 81 && x < 9 && y < 9
  {
    var v := Get(g, x, y).value;
    && (forall xx :: 0 <= xx < 9 && xx != x ==>
          Get(g, xx, y).value == 0 || Get(g, xx, y).value != v)
    && (forall yy :: 0 <= yy < 9 && yy != y ==>
          Get(g, x, yy).value == 0 || Get(g, x, yy).value != v)
    && (forall xx, yy ::
          (BoxStart(x) <= xx < BoxStart(x) + 3 && BoxStart(y) <= yy < BoxStart(y) + 3 && (xx != x || yy != y)) ==>
          Get(g, xx, yy).value == 0 || Get(g, xx, yy).value != v)
  }

  /** Indices p and q share a row, a column or a 3x3 box. */
  predicate Peers(p: nat, q: nat)
  {
    || p % 9 == q % 9
    || p / 9 == q / 9
    || (p % 9 / 3 == q % 9 / 3 && p / 9 / 3 == q / 9 / 3)
  }

  /** No other nonzero peer of cell p holds the value of cell p. */
  predicate NoClash(g: Grid, p: nat)
    requires |g| == 81 && p < 81
  {
    forall q {:trigger Peers(p, q)} :: 0 <= q < 81 && q != p && Peers(p, q) && g[q].value != 0 ==> g[q].value != g[p].value
  }

  /** The Sudoku rule: no two distinct peers hold the same nonzero value. */
  predicate ConflictFree(g: Grid)
    requires |g| == 81
  {
    forall p, q {:trigger Peers(p, q)} :: 0 <= p < 81 && 0 <= q < 81 && p != q && Peers(p, q) && g[p].value != 0 ==>
      g[p].value != g[q].value
  }

  /** The coordinate loops of is_valid visit exactly the peers of the cell. */
  lemma ValidAtIffNoClash(g: Grid, x: nat, y: nat)
    requires |g| == 81 && x < 9 && y < 9
    ensures IsValidAt(g, x, y) <==> NoClash(g, Index(x, y))
  {
    var p := Index(x, y);
    if IsValidAt(g, x, y) {
      forall q | 0 <= q < 81 && q != p && Peers(p, q) && g[q].value != 0
        ensures g[q].value != g[p].value
      {
        var qx, qy := q % 9, q / 9;
        IndexOfCoordinates(q);
        assert g[q] == Get(g, qx, qy);
        if qy == y {
          assert qx != x;
        } else if qx == x {
          assert qy != y;
        } else {
          assert qx / 3 == x / 3 && qy / 3 == y / 3;
          assert BoxStart(x) <= qx < BoxStart(x) + 3;
          assert BoxStart(y) <= qy < BoxStart(y) + 3;
        }
      }
    }
    if NoClash(g, p) {
      forall xx | 0 <= xx < 9 && xx != x
        ensures Get(g, xx, y).value == 0 || Get(g, xx, y).value != Get(g, x, y).value
      {
        assert Peers(p, Index(xx, y));
      }
      forall yy | 0 <= yy < 9 && yy != y
        ensures Get(g, x, yy).value == 0 || Get(g, x, yy).value != Get(g, x, y).value
      {
        assert Peers(p, Index(x, yy));
      }
      forall xx, yy | BoxStart(x) <= xx < BoxStart(x) + 3 && BoxStart(y) <= yy < BoxStart(y) + 3
          && (xx != x || yy != y)
        ensures Get(g, xx, yy).value == 0 || Get(g, xx, yy).value != Get(g, x, y).value
      {
        var q := Index(xx, yy);
        assert xx / 3 == x / 3 && yy / 3 == y / 3;
        assert Peers(p, q);
        assert q != p;
      }
    }
  }

  /** A cell holding 0 never conflicts: is_valid accepts it. */
  lemma EmptyCellIsValid(g: Grid, x: nat, y: nat)
    requires |g| == 81 && x < 9 && y < 9 && Get(g, x, y).value == 0
    ensures IsValidAt(g, x, y)
  {
  }

  /** A board satisfies the Sudoku rule exactly when every cell passes
      is_valid. */
  lemma ConflictFreeIffAllValid(g: Grid)
    requires |g| == 81
    ensures ConflictFree(g) <==> forall x: nat, y: nat :: x < 9 && y < 9 ==> IsValidAt(g, x, y)
  {
    if ConflictFree(g) {
      forall x: nat, y: nat | x < 9 && y < 9
        ensures IsValidAt(g, x, y)
      {
        ValidAtIffNoClash(g, x, y);
      }
    }
    if forall x: nat, y: nat :: x < 9 && y < 9 ==> IsValidAt(g, x, y) {
      forall p, q | 0 <= p < 81 && 0 <= q < 81 && p != q && Peers(p, q) && g[p].value != 0
        ensures g[p].value != g[q].value
      {
        IndexOfCoordinates(q);
        ValidAtIffNoClash(g, q % 9, q / 9);
        assert NoClash(g, q);
        assert Peers(q, p);
      }
    }
  }

  /** Writing one cell so that it passes is_valid keeps a conflict-free
      board conflict-free. */
  lemma ValidPlacementKeepsRule(g: Grid, i: nat, c: Cell)
    requires |g| == 81 && i < 81 && ConflictFree(g)
    requires IsValidAt(g[i := c], i % 9, i / 9)
    ensures ConflictFree(g[i := c])
  {
    var h := g[i := c];
    IndexOfCoordinates(i);
    ValidAtIffNoClash(h, i % 9, i / 9);
    assert NoClash(h, i);
    forall p, q | 0 <= p < 81 && 0 <= q < 81 && p != q && Peers(p, q) && h[p].value != 0
      ensures h[p].value != h[q].value
    {
      if p == i {
        assert Peers(i, q);
      } else if q == i {
        assert Peers(i, p);
      }
    }
  }

  /** Board::full: no cell holds 0. */
  predicate Full(g: Grid)
  {
    forall p :: 0 <= p < |g| ==> g[p].value != 0
  }

  /** Number of cells holding 0 (Generator::hidden_count). */
  function ZeroCount(g: Grid): (n: nat)
    ensures n <= |g|
  {
    if g == [] then 0 else ZeroCount(g[..|g| - 1]) + (if g[|g| - 1].value == 0 then 1 else 0)
  }

  /** Overwriting one cell changes the zero count only by that cell. */
  lemma {:induction false} ZeroCountUpdate(g: Grid, i: nat, c: Cell)
    requires i < |g|
    ensures ZeroCount(g[i := c]) + (if g[i].value == 0 then 1 else 0)
         == ZeroCount(g) + (if c.value == 0 then 1 else 0)
    decreases |g|
  {
    var h := g[i := c];
    var n := |g| - 1;
    if i == n {
      assert h[..n] == g[..n];
    } else {
      assert h[..n] == g[..n][i := c];
      ZeroCountUpdate(g[..n], i, c);
    }
  }

  /** The zero count depends on the values only. */
  lemma {:induction false} ZeroCountOfSameValues(a: Grid, b: Grid)
    requires SameValues(a, b)
    ensures ZeroCount(a) == ZeroCount(b)
    decreases |a|
  {
    if a != [] {
      var n := |a| - 1;
      assert SameValues(a[..n], b[..n]);
      ZeroCountOfSameValues(a[..n], b[..n]);
    }
  }

  /** A board is full exactly when it has no zero cell. */
  lemma {:induction false} FullIffNoZeros(g: Grid)
    ensures Full(g) <==> ZeroCount(g) == 0
    decreases |g|
  {
    if g != [] {
      var n := |g| - 1;
      FullIffNoZeros(g[..n]);
      assert Full(g) <==> Full(g[..n]) && g[n].value != 0 by {
        if Full(g[..n]) && g[n].value != 0 {
          forall p | 0 <= p < |g| ensures g[p].value != 0 {
            if p < n { assert g[..n][p] == g[p]; }
          }
        }
        if Full(g) {
          forall p | 0 <= p < n ensures g[..n][p].value != 0 {
            assert g[..n][p] == g[p];
          }
        }
      }
    }
  }

  /** Board::operator==: the two boards hold the same 81 values; fixed
      flags are ignored. */
  predicate SameValues(a: Grid, b: Grid)
  {
    |a| == |b| && forall p :: 0 <= p < |a| ==> a[p].value == b[p].value
  }

  /** operator== is an equivalence relation. */
  lemma SameValuesIsEquivalence()
    ensures forall a: Grid :: SameValues(a, a)
    ensures forall a: Grid, b: Grid :: SameValues(a, b) ==> SameValues(b, a)
    ensures forall a: Grid, b: Grid, c: Grid :: SameValues(a, b) && SameValues(b, c) ==> SameValues(a, c)
  {
  }

  /** c keeps every nonzero value of g. */
  predicate Agrees(c: Grid, g: Grid)
  {
    |c| == |g| && forall p :: 0 <= p < |g| && g[p].value != 0 ==> c[p].value == g[p].value
  }

  /** c and g carry the same fixed flags. */
  predicate SameFlags(c: Grid, g: Grid)
  {
    |c| == |g| && forall p :: 0 <= p < |g| ==> c[p].fixed == g[p].fixed
  }

  /** Every cell holds a digit 1..9. */
  predicate AllDigits(c: Grid)
  {
    forall p :: 0 <= p < |c| ==> 1 <= c[p].value <= 9
  }

  /** Every cell holds 0..9. */
  predicate ValuesAtMostNine(g: Grid)
  {
    forall p :: 0 <= p < |g| ==> g[p].value <= 9
  }

  /** c is a solved Sudoku that keeps every value of the puzzle g. Only the
      values of g matter. */
  predicate IsSolution(c: Grid, g: Grid)
  {
    |c| == 81 && |g| == 81 && AllDigits(c) && ConflictFree(c) && Agrees(c, g)
  }

  /** A puzzle that has a solution obeys the Sudoku rule and holds only
      0..9. */
  lemma SolvablePuzzleIsWellFormed(c: Grid, g: Grid)
    requires IsSolution(c, g)
    ensures ConflictFree(g) && ValuesAtMostNine(g)
  {
  }

  /** Board::reset: every non-fixed cell is emptied. */
  function Reset(g: Grid): (r: Grid)
    ensures |r| == |g|
  {
    seq(|g|, p requires 0 <= p < |g| => if g[p].fixed then g[p] else g[p].(value := 0))
  }

  /** reset never changes a flag, leaves fixed cells untouched, empties
      every other cell, and a second reset changes nothing. */
  lemma ResetProperties(g: Grid)
    ensures SameFlags(Reset(g), g)
    ensures forall p :: 0 <= p < |g| && g[p].fixed ==> Reset(g)[p] == g[p]
    ensures forall p :: 0 <= p < |g| && !g[p].fixed ==> Reset(g)[p].value == 0
    ensures Reset(Reset(g)) == Reset(g)
  {
  }

  /** Reset only removes values, so a solution of the board is still a
      solution of the reset board. */
  lemma ResetKeepsSolutions(c: Grid, g: Grid)
    requires IsSolution(c, g)
    ensures IsSolution(c, Reset(g))
  {
  }
}

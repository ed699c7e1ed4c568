/** Solver: the backtracking search over Board objects. Each recursive call
    works on its own copy of the board, as the definition of the recursive
    Solver::solve takes its board by value, and the boards it finds are
    returned as snapshots of their cells. */
module Solver {
  import opened Layout
  import opened Rules
  import opened Boards
  import opened SolverSpec

  /** Solver::get_next_empty_cell: the first cell in row-major order that
      holds 0, or 81 when there is none. */
  method GetNextEmptyCell(board: Board) returns (i: nat)
    requires board.Valid()
    ensures i == NextEmpty(board.Cells())
  {
    i := 0;
    while i < 81
      invariant i <= 81
      invariant forall j :: 0 <= j < i ==> board.cells[j].value != 0
    {
      if board.cells[i].value == 0 {
        return;
      }
      i := i + 1;
    }
  }

  /** The recursive Solver::solve on a copy of `board` with the solution
      list `solutions`: the returned flag and list are those of the search
      that SolverSpec defines, and every list entry is a whole board. */
  method SolveFrom(board: Board, solutions: seq<Grid>, max: nat) returns (stop: bool, found: seq<Grid>)
    requires board.Valid()
    requires forall k :: 0 <= k < |solutions| ==> |solutions[k]| == 81
    ensures Outcome(stop, found) == Search(board.Cells(), solutions, max)
    ensures forall k :: 0 <= k < |found| ==> |found[k]| == 81
    decreases ZeroCount(board.Cells()), 2
  {
    var b := new Board.Copy(board.Cells());
    var i := GetNextEmptyCell(b);
    if i == 81 {
      if |solutions| > 0 {
        var same := b.Equals(solutions[0]);
        if same || |solutions| == max {
          return true, solutions;
        }
      }
      return false, solutions + [b.Cells()];
    }
    stop, found := TryValues(b, i, solutions, max);
  }

  /** The value loop of the recursive Solver::solve at the empty cell i:
      writes 1..9 there in turn and searches on from every value is_valid
      accepts, until a branch asks to stop. */
  method TryValues(b: Board, i: nat, solutions: seq<Grid>, max: nat) returns (stop: bool, found: seq<Grid>)
    requires b.Valid() && i < 81 && b.cells[i].value == 0
    requires forall k :: 0 <= k < |solutions| ==> |solutions[k]| == 81
    modifies b.cells
    ensures Outcome(stop, found) == TryFrom(old(b.Cells()), i, 1, solutions, max)
    ensures forall k :: 0 <= k < |found| ==> |found[k]| == 81
    decreases ZeroCount(b.Cells()), 1
  {
    ghost var g := b.Cells();
    assert b.Cells() == Place(g, i, b.cells[i].value);
    stop, found := false, solutions;
    var v := 1;
    while v <= 9
      invariant 1 <= v <= 10 && !stop
      invariant b.Cells() == Place(g, i, b.cells[i].value)
      invariant TryFrom(g, i, v, found, max) == TryFrom(g, i, 1, solutions, max)
      invariant forall k :: 0 <= k < |found| ==> |found[k]| == 81
    {
      stop, found := TryValue(b, g, i, v, found, max);
      if stop {
        return;
      }
      v := v + 1;
    }
  }

  /** One round of the value loop: writes v at cell i and, when is_valid
      accepts it there, searches on from that board. */
  method TryValue(b: Board, ghost g: Grid, i: nat, v: nat, found: seq<Grid>, max: nat) returns (stop: bool, found': seq<Grid>)
    requires b.Valid() && |g| == 81 && i < 81 && g[i].value == 0 && 1 <= v <= 9
    requires b.Cells() == Place(g, i, b.cells[i].value)
    requires forall k :: 0 <= k < |found| ==> |found[k]| == 81
    modifies b.cells
    ensures b.Cells() == Place(g, i, v)
    ensures stop ==> TryFrom(g, i, v, found, max) == Outcome(true, found')
    ensures !stop ==> TryFrom(g, i, v, found, max) == TryFrom(g, i, v + 1, found', max)
    ensures forall k :: 0 <= k < |found'| ==> |found'[k]| == 81
    decreases ZeroCount(g), 0
  {
    b.cells[i] := b.cells[i].(value := v);
    assert b.Cells() == Place(g, i, v);
    var ok := b.IsValid(i % 9, i / 9);
    if ok {
      ZeroCountUpdate(g, i, g[i].(value := v));
      stop, found' := SolveFrom(b, found, max);
      if !stop {
        assert TryFrom(g, i, v, found, max) == TryFrom(g, i, v + 1, found', max);
      }
    } else {
      stop, found' := false, found;
    }
  }

  /** The public Solver::solve: the boards the search collects from an
      empty list. */
  method Solve(board: Board, maxSolutions: nat) returns (solutions: seq<Grid>)
    requires board.Valid()
    ensures solutions == Solutions(board.Cells(), maxSolutions)
    ensures forall k :: 0 <= k < |solutions| ==> |solutions[k]| == 81
  {
    var stop;
    stop, solutions := SolveFrom(board, [], maxSolutions);
  }
}

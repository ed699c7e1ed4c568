/** Generator: fill_board seeds the three diagonal 3x3 boxes with shuffled
    1..9 and lets the solver complete the board; generate_board hides
    cells of that board in shuffled order, rolling a hide back whenever the
    solver then finds more than the wanted number of solutions, and finally
    fixes the visible cells. Random choices come from caller-supplied
    draws: 27 for fill_board (nine per diagonal box) followed by 81 for
    the order of the positions. */
module Generator {
  import opened Layout
  import opened Rules
  import opened Boards
  import opened SolverSpec
  import opened Solver
  import opened Random

  /** Index p lies in one of the diagonal boxes (box row == box column). */
  predicate OnDiagonal(p: nat)
  {
    p % 9 / 3 == p / 9 / 3
  }

  /** Which diagonal box: 0, 1 or 2 (the loop variable s of fill_board is
      three times this). */
  function DiagBox(p: nat): nat
  {
    p % 9 / 3
  }

  /** Position of cell p inside its 3x3 box in the order fill_board visits
      it: rows top to bottom, columns left to right. */
  function Offset(p: nat): nat
  {
    p / 9 % 3 * 3 + p % 9 % 3
  }

  /** The step of fill_board's seeding loops that writes cell p; 27 for a
      cell the loops never write. */
  function SeedStep(p: nat): (k: nat)
    ensures k <= 27
  {
    if p < 81 && OnDiagonal(p) then 9 * DiagBox(p) + Offset(p) else 27
  }

  /** Distinct cells are written at distinct steps. */
  lemma SeedStepInjective(p: nat, q: nat)
    requires p < 81 && q < 81 && SeedStep(p) == SeedStep(q) < 27
    ensures p == q
  {
    var d, o := DiagBox(p), Offset(p);
    assert d < 3 && o < 9 && DiagBox(q) < 3 && Offset(q) < 9;
    assert d == DiagBox(q) && o == Offset(q) by {
      assert 9 * d + o == 9 * DiagBox(q) + Offset(q);
    }
    assert p / 9 % 3 == o / 3 && p % 9 % 3 == o % 3;
    assert q / 9 % 3 == o / 3 && q % 9 % 3 == o % 3;
    assert p % 9 == 3 * d + o % 3 == q % 9;
    assert p / 9 == 3 * d + o / 3 == q / 9;
  }

  /** The writes of fill_board's loops for box s / 3 visit the steps
      9 * (s / 3) + (y - s) * 3 + (x - s). */
  lemma SeedStepOf(s: nat, x: nat, y: nat)
    requires s % 3 == 0 && s < 9 && s <= x < s + 3 && s <= y < s + 3
    ensures SeedStep(Index(x, y)) == 3 * s + (y - s) * 3 + (x - s)
    ensures DiagBox(Index(x, y)) == s / 3 && Offset(Index(x, y)) == (y - s) * 3 + (x - s)
  {
    var p := Index(x, y);
    assert p % 9 == x && p / 9 == y;
  }

  /** The list of box b after shuffle: 1..9 shuffled with that box's nine
      draws. */
  function SeedList(draws: seq<nat>, b: nat): (l: seq<nat>)
    requires b < 3 && |draws| >= 27
    ensures |l| == 9
  {
    ShufflePermutes([1, 2, 3, 4, 5, 6, 7, 8, 9], draws[9 * b .. 9 * b + 9], 0);
    ShuffleFrom([1, 2, 3, 4, 5, 6, 7, 8, 9], draws[9 * b .. 9 * b + 9], 0)
  }

  /** A shuffled list holds each of 1..9 exactly once. */
  lemma SeedListIsPermutation(draws: seq<nat>, b: nat)
    requires b < 3 && |draws| >= 27
    ensures Distinct(SeedList(draws, b))
    ensures forall k :: 0 <= k < 9 ==> 1 <= SeedList(draws, b)[k] <= 9
  {
    var one := [1, 2, 3, 4, 5, 6, 7, 8, 9];
    assert Distinct(one);
    ShuffleOfDistinct(one, draws[9 * b .. 9 * b + 9]);
    var l := SeedList(draws, b);
    forall k | 0 <= k < 9
      ensures 1 <= l[k] <= 9
    {
      assert l[k] in one;
    }
  }

  /** The board after the first `steps` writes of fill_board's seeding
      loops: each write puts list.back() of its box's list, that is the
      entry 8 - Offset, and pops it. */
  function SeededUpTo(draws: seq<nat>, steps: nat): (g: Grid)
    requires |draws| >= 27
    ensures |g| == 81
  {
    seq(81, p requires 0 <= p < 81 =>
      if SeedStep(p) < steps then Cell(SeedList(draws, DiagBox(p))[8 - Offset(p)], false) else DefaultCell)
  }

  /** The board fill_board hands to the solver. */
  function Seeded(draws: seq<nat>): (g: Grid)
    requires |draws| >= 27
    ensures |g| == 81
  {
    SeededUpTo(draws, 27)
  }

  /** One more write of the seeding loops: step 3 * s + o writes cell
      (x, y), o = (y - s) * 3 + (x - s), with entry 8 - o of the box's list. */
  lemma SeededStep(draws: seq<nat>, s: nat, x: nat, y: nat, o: nat)
    requires |draws| >= 27 && s % 3 == 0 && s < 9 && s <= x < s + 3 && s <= y < s + 3
    requires o == (y - s) * 3 + (x - s)
    ensures SetCell(SeededUpTo(draws, 3 * s + o), x, y, Cell(SeedList(draws, s / 3)[8 - o], false))
         == SeededUpTo(draws, 3 * s + o + 1)
  {
    var q := Index(x, y);
    SeedStepOf(s, x, y);
    var before, after := SeededUpTo(draws, 3 * s + o), SeededUpTo(draws, 3 * s + o + 1);
    forall p | 0 <= p < 81 && p != q
      ensures before[p] == after[p]
    {
      if SeedStep(p) == 3 * s + o {
        SeedStepInjective(p, q);
      }
    }
  }

  /** Two distinct peers of the seeded board never hold the same nonzero
      value: if both are seeded they lie in the same diagonal box at
      different offsets of its shuffled list. */
  lemma SeededPair(draws: seq<nat>, p: nat, q: nat)
    requires |draws| >= 27 && p < 81 && q < 81 && p != q && Peers(p, q)
    requires forall b :: 0 <= b < 3 ==> Distinct(SeedList(draws, b))
    ensures Seeded(draws)[p].value == 0 || Seeded(draws)[p].value != Seeded(draws)[q].value
  {
    if SeedStep(p) < 27 && SeedStep(q) < 27 {
      assert DiagBox(p) == DiagBox(q);
      if Offset(p) == Offset(q) {
        SeedStepInjective(p, q);
      }
      var l := SeedList(draws, DiagBox(p));
      assert l[8 - Offset(p)] != l[8 - Offset(q)];
    }
  }

  /** The seeded board obeys the Sudoku rule and holds only 0..9: the
      diagonal boxes share no row and no column, and each holds 1..9 once.
      No cell of it is fixed. */
  lemma SeededIsWellFormed(draws: seq<nat>)
    requires |draws| >= 27
    ensures ConflictFree(Seeded(draws)) && ValuesAtMostNine(Seeded(draws))
    ensures forall p :: 0 <= p < 81 ==> !Seeded(draws)[p].fixed
  {
    var g := Seeded(draws);
    forall b | 0 <= b < 3
      ensures Distinct(SeedList(draws, b))
      ensures forall k :: 0 <= k < 9 ==> 1 <= SeedList(draws, b)[k] <= 9
    {
      SeedListIsPermutation(draws, b);
    }
    forall p, q | 0 <= p < 81 && 0 <= q < 81 && p != q && Peers(p, q) && g[p].value != 0
      ensures g[p].value != g[q].value
    {
      SeededPair(draws, p, q);
    }
    forall p | 0 <= p < 81
      ensures g[p].value <= 9
    {
      if SeedStep(p) < 27 {
        var l := SeedList(draws, DiagBox(p));
        assert g[p].value == l[8 - Offset(p)];
      }
    }
  }

  /** What fill_board returns: the first board the solver returns for the
      seeded board with max_solutions 1, or None when it returns none (the
      front() of an empty list). */
  function Fill(draws: seq<nat>): Option<Grid>
    requires |draws| >= 27
  {
    var r := Solutions(Seeded(draws), 1);
    if |r| == 0 then None else Some(r[0])
  }

  /** fill_board finds a board exactly when the seeded board has a
      solution, and the board it finds is one: full, 1..9 everywhere,
      obeying the Sudoku rule, keeping the 27 seeded values, no cell
      fixed. */
  lemma FillIsSolution(draws: seq<nat>)
    requires |draws| >= 27
    ensures Fill(draws).Some? <==> exists c :: IsSolution(c, Seeded(draws))
    ensures Fill(draws).Some? ==> IsSolution(Fill(draws).value, Seeded(draws)) && Full(Fill(draws).value)
    ensures Fill(draws).Some? ==> forall p :: 0 <= p < 81 ==> !Fill(draws).value[p].fixed
  {
    var g := Seeded(draws);
    SeededIsWellFormed(draws);
    SolutionsAreSolved(g, 1);
    SolutionsAreCompletions(g, 1);
    if c :| IsSolution(c, g) {
      SolvableFindsOne(c, g, 1);
    }
    if Fill(draws).Some? {
      assert IsSolution(Solutions(g, 1)[0], g);
    }
  }

  /** Generator::fill_board: seeds the diagonal boxes s = 0, 3, 6 with a
      shuffled list of 1..9, then takes the solver's first solution. None
      stands for the solver returning no board. */
  method FillBoard(draws: seq<nat>) returns (board: Option<Board>)
    requires |draws| >= 27
    ensures board.Some? <==> Fill(draws).Some?
    ensures board.Some? ==> board.value.Valid() && fresh(board.value.cells) && board.value.Cells() == Fill(draws).value
  {
    var b := new Board();
    SeedDiagonal(b, draws);
    var solutions := Solve(b, 1);
    if |solutions| == 0 {
      return None;
    }
    var filled := new Board.Copy(solutions[0]);
    return Some(filled);
  }

  /** The box loop of fill_board on a new board: s = 0, 3, 6. */
  method SeedDiagonal(b: Board, draws: seq<nat>)
    requires |draws| >= 27 && b.Valid() && forall p :: 0 <= p < 81 ==> b.Cells()[p] == DefaultCell
    modifies b.cells
    ensures b.Cells() == Seeded(draws)
  {
    assert b.Cells() == SeededUpTo(draws, 0);
    var s := 0;
    while s < 9
      invariant s % 3 == 0 && s <= 9
      invariant b.Cells() == SeededUpTo(draws, 3 * s)
    {
      SeedBox(b, draws, s);
      s := s + 3;
    }
  }

  /** One round of fill_board's box loop: shuffles 1..9 and writes the
      nine cells of the diagonal box at (s, s). */
  method SeedBox(b: Board, draws: seq<nat>, s: nat)
    requires |draws| >= 27 && s % 3 == 0 && s < 9
    requires b.Valid() && b.Cells() == SeededUpTo(draws, 3 * s)
    modifies b.cells
    ensures b.Cells() == SeededUpTo(draws, 3 * s + 9)
  {
    var list := ShuffledDigits(draws[3 * s .. 3 * s + 9]);
    assert list == SeedList(draws, s / 3)[..9];
    var y := s;
    while y < s + 3
      invariant s <= y <= s + 3
      invariant b.Cells() == SeededUpTo(draws, 3 * s + (y - s) * 3)
      invariant list == SeedList(draws, s / 3)[..9 - (y - s) * 3]
    {
      list := SeedRow(b, draws, s, y, list);
      y := y + 1;
    }
  }

  /** The x loop of fill_board for row y of the box at (s, s): each cell
      gets list.back(), which is then popped. */
  method SeedRow(b: Board, draws: seq<nat>, s: nat, y: nat, list: seq<nat>) returns (rest: seq<nat>)
    requires |draws| >= 27 && s % 3 == 0 && s < 9 && s <= y < s + 3
    requires b.Valid() && b.Cells() == SeededUpTo(draws, 3 * s + (y - s) * 3)
    requires list == SeedList(draws, s / 3)[..9 - (y - s) * 3]
    modifies b.cells
    ensures b.Cells() == SeededUpTo(draws, 3 * s + (y - s) * 3 + 3)
    ensures rest == SeedList(draws, s / 3)[..9 - (y - s) * 3 - 3]
  {
    rest := list;
    var x := s;
    while x < s + 3
      invariant s <= x <= s + 3
      invariant b.Cells() == SeededUpTo(draws, 3 * s + (y - s) * 3 + (x - s))
      invariant rest == SeedList(draws, s / 3)[..9 - ((y - s) * 3 + (x - s))]
    {
      rest := SeedCell(b, draws, s, x, y, rest);
      x := x + 1;
    }
  }

  /** One write of fill_board's seeding loops: cell (x, y) gets
      list.back(), which is then popped. */
  method SeedCell(b: Board, draws: seq<nat>, s: nat, x: nat, y: nat, list: seq<nat>) returns (rest: seq<nat>)
    requires |draws| >= 27 && s % 3 == 0 && s < 9 && s <= x < s + 3 && s <= y < s + 3
    requires b.Valid() && b.Cells() == SeededUpTo(draws, 3 * s + (y - s) * 3 + (x - s))
    requires list == SeedList(draws, s / 3)[..9 - ((y - s) * 3 + (x - s))]
    modifies b.cells
    ensures b.Cells() == SeededUpTo(draws, 3 * s + (y - s) * 3 + (x - s) + 1)
    ensures rest == SeedList(draws, s / 3)[..9 - ((y - s) * 3 + (x - s)) - 1]
  {
    ghost var o := (y - s) * 3 + (x - s);
    ghost var l := SeedList(draws, s / 3);
    ghost var before := SeededUpTo(draws, 3 * s + o);
    var c := Cell(list[|list| - 1], false);
    assert c == Cell(l[8 - o], false);
    SeededStep(draws, s, x, y, o);
    b.Set(x, y, c);
    assert b.Cells() == SetCell(before, x, y, c);
    rest := list[..|list| - 1];
    assert rest == l[..9 - o - 1];
  }

  /** The list { 1, ..., 9 } of fill_board after shuffle. */
  method ShuffledDigits(draws: seq<nat>) returns (list: seq<nat>)
    requires |draws| == 9
    ensures list == ShuffleFrom([1, 2, 3, 4, 5, 6, 7, 8, 9], draws, 0)
  {
    var v := new nat[9](k => k + 1);
    assert v[..] == [1, 2, 3, 4, 5, 6, 7, 8, 9];
    Shuffle(v, draws);
    list := v[..];
  }

  /** Generator::hidden_count: the number of cells holding 0. */
  method HiddenCount(board: Board) returns (count: nat)
    requires board.Valid()
    ensures count == ZeroCount(board.Cells())
  {
    count := 0;
    for i := 0 to 81
      invariant count == ZeroCount(board.cells[..i])
    {
      assert board.cells[..i + 1][..i] == board.cells[..i];
      if board.cells[i].value == 0 {
        count := count + 1;
      }
    }
    assert board.cells[..81] == board.Cells();
  }

  /** The count generate_board passes to the solver: solutions + 1 in
      32-bit unsigned arithmetic, so the largest unsigned value wraps to 0,
      which the solver reads as "collect every solution". */
  function Cap(solutions: nat): (max: nat)
    requires solutions < 0x1_0000_0000
    ensures max < 0x1_0000_0000
    ensures solutions < 0xFFFF_FFFF ==> max == solutions + 1
    ensures solutions == 0xFFFF_FFFF ==> max == 0
  {
    (solutions + 1) % 0x1_0000_0000
  }

  /** g with the value of cell p set to 0. */
  function Hide(g: Grid, p: nat): (h: Grid)
    requires p < |g|
    ensures |h| == |g|
  {
    g[p := g[p].(value := 0)]
  }

  /** The bookkeeping of generate_board's hiding loop: every cell of the
      board g is the cell of the filled board, or that cell emptied, and
      `positions` lists, without repeats, exactly the cells still visible,
      so it is as long as the number of visible cells. */
  predicate Tracks(g: Grid, filled: Grid, positions: seq<nat>)
  {
    && |g| == 81 && |filled| == 81 && Full(filled)
    && (forall q :: 0 <= q < 81 ==> g[q] == filled[q] || g[q] == filled[q].(value := 0))
    && Distinct(positions)
    && (forall k :: 0 <= k < |positions| ==> positions[k] < 81)
    && (forall q :: 0 <= q < 81 ==> (g[q].value != 0 <==> q in positions))
    && ZeroCount(g) + |positions| == 81
  }

  /** The invariant of generate_board's hiding loop: the bookkeeping holds
      and, unless nothing is hidden yet, the solver finds at most
      `solutions` boards for g when asked for solutions + 1. */
  predicate Hiding(g: Grid, filled: Grid, positions: seq<nat>, solutions: nat)
    requires solutions < 0x1_0000_0000
  {
    Tracks(g, filled, positions) && (g == filled || |Solutions(g, Cap(solutions))| <= solutions)
  }

  /** The loop starts from the filled board and a list of all 81 cells. */
  lemma HidingStart(filled: Grid, positions: seq<nat>, solutions: nat)
    requires |filled| == 81 && Full(filled) && solutions < 0x1_0000_0000
    requires |positions| == 81 && Distinct(positions)
    requires forall q: nat :: q in positions <==> q < 81
    ensures Hiding(filled, filled, positions, solutions)
  {
    FullIffNoZeros(filled);
    forall k | 0 <= k < |positions|
      ensures positions[k] < 81
    {
      assert positions[k] in positions;
    }
  }

  /** pop_back on a list without repeats: what remains has no repeats and
      holds every listed element except the popped one. */
  lemma PopBack(positions: seq<nat>)
    requires Distinct(positions) && |positions| > 0
    ensures Distinct(positions[..|positions| - 1])
    ensures forall q :: q in positions[..|positions| - 1] <==> q in positions && q != positions[|positions| - 1]
  {
    var n := |positions| - 1;
    var rest := positions[..n];
    forall q
      ensures q in rest <==> q in positions && q != positions[n]
    {
      if q in rest {
        var k :| 0 <= k < n && rest[k] == q;
        assert positions[k] == q && k != n;
      }
      if q != positions[n] && q in positions {
        var k :| 0 <= k < |positions| && positions[k] == q;
        assert k != n && rest[k] == q;
      }
    }
  }

  /** Moving the back of a list without repeats to its front keeps it
      without repeats and keeps its elements. */
  lemma MoveToFront(positions: seq<nat>)
    requires Distinct(positions) && |positions| > 0
    ensures Distinct([positions[|positions| - 1]] + positions[..|positions| - 1])
    ensures forall q :: q in [positions[|positions| - 1]] + positions[..|positions| - 1] <==> q in positions
  {
    var n := |positions| - 1;
    var moved := [positions[n]] + positions[..n];
    forall a, b | 0 <= a < b < |moved|
      ensures moved[a] != moved[b]
    {
      if a == 0 {
        assert moved[a] == positions[n] && moved[b] == positions[b - 1];
      } else {
        assert moved[a] == positions[a - 1] && moved[b] == positions[b - 1];
      }
    }
    forall q
      ensures q in moved <==> q in positions
    {
      if q in positions {
        var k :| 0 <= k < |positions| && positions[k] == q;
        if k == n {
          assert moved[0] == q;
        } else {
          assert moved[k + 1] == q;
        }
      }
      if q in moved {
        var k :| 0 <= k < |moved| && moved[k] == q;
        if k == 0 {
          assert positions[n] == q;
        } else {
          assert positions[k - 1] == q;
        }
      }
    }
  }

  /** Emptying the last listed cell and popping it keeps the bookkeeping,
      with one more cell hidden. */
  lemma TracksAfterHide(g: Grid, filled: Grid, positions: seq<nat>)
    requires Tracks(g, filled, positions) && |positions| > 0
    ensures Tracks(Hide(g, positions[|positions| - 1]), filled, positions[..|positions| - 1])
    ensures ZeroCount(Hide(g, positions[|positions| - 1])) == ZeroCount(g) + 1
  {
    var n := |positions| - 1;
    var p, rest := positions[n], positions[..n];
    var h := Hide(g, p);
    assert p in positions;
    ZeroCountUpdate(g, p, g[p].(value := 0));
    PopBack(positions);
    forall q | 0 <= q < 81
      ensures h[q] == filled[q] || h[q] == filled[q].(value := 0)
      ensures h[q].value != 0 <==> q in rest
    {
      if q == p {
        assert h[q] == filled[q].(value := 0);
      } else {
        assert h[q] == g[q];
      }
    }
    forall k | 0 <= k < n
      ensures rest[k] < 81
    {
      assert rest[k] == positions[k];
    }
  }

  /** A hide the solver accepts: the last listed cell is emptied and
      dropped from the list, and one more cell is hidden. */
  lemma HidingAfterHide(g: Grid, filled: Grid, positions: seq<nat>, solutions: nat)
    requires solutions < 0x1_0000_0000 && Hiding(g, filled, positions, solutions) && |positions| > 0
    requires |Solutions(Hide(g, positions[|positions| - 1]), Cap(solutions))| <= solutions
    ensures Hiding(Hide(g, positions[|positions| - 1]), filled, positions[..|positions| - 1], solutions)
    ensures ZeroCount(Hide(g, positions[|positions| - 1])) == ZeroCount(g) + 1
  {
    TracksAfterHide(g, filled, positions);
  }

  /** A hide the solver refuses: the board is back as it was and the cell
      moves from the back of the list to its front. */
  lemma HidingAfterRollback(g: Grid, filled: Grid, positions: seq<nat>, solutions: nat)
    requires solutions < 0x1_0000_0000 && Hiding(g, filled, positions, solutions) && |positions| > 0
    ensures Hiding(g, filled, [positions[|positions| - 1]] + positions[..|positions| - 1], solutions)
  {
    var n := |positions| - 1;
    var moved := [positions[n]] + positions[..n];
    MoveToFront(positions);
    forall k | 0 <= k < |moved|
      ensures moved[k] < 81
    {
      assert moved[k] in positions;
    }
  }

  /** One round of generate_board's hiding loop: the last listed cell p is
      popped and emptied; when the solver, asked for solutions + 1 boards,
      finds more than `solutions`, the value is put back and p goes to the
      front of the list. */
  method HideOne(b: Board, ghost filled: Grid, positions: seq<nat>, solutions: nat) returns (positions': seq<nat>)
    requires solutions < 0x1_0000_0000 && b.Valid()
    requires Hiding(b.Cells(), filled, positions, solutions) && |positions| > 0
    modifies b.cells
    ensures Hiding(b.Cells(), filled, positions', solutions)
    ensures ZeroCount(b.Cells()) <= ZeroCount(old(b.Cells())) + 1
    ensures var p := positions[|positions| - 1];
      if |Solutions(Hide(old(b.Cells()), p), Cap(solutions))| > solutions then
        b.Cells() == old(b.Cells()) && positions' == [p] + positions[..|positions| - 1]
      else
        b.Cells() == Hide(old(b.Cells()), p) && positions' == positions[..|positions| - 1]
  {
    ghost var g := b.Cells();
    var p := positions[|positions| - 1];
    positions' := positions[..|positions| - 1];
    var v := b.cells[p].value;
    b.cells[p] := b.cells[p].(value := 0);
    assert b.Cells() == Hide(g, p);
    var found := Solve(b, Cap(solutions));
    if |found| > solutions {
      b.cells[p] := b.cells[p].(value := v);
      positions' := [p] + positions';
      assert b.Cells() == g;
      HidingAfterRollback(g, filled, positions, solutions);
    } else {
      HidingAfterHide(g, filled, positions, solutions);
    }
  }

  /** The board after the last loop of generate_board: every cell holding
      a value is marked fixed. */
  function Fixed(g: Grid): (r: Grid)
    ensures |r| == |g|
  {
    seq(|g|, p requires 0 <= p < |g| => if g[p].value != 0 then g[p].(fixed := true) else g[p])
  }

  /** Fixing keeps every value, marks exactly the cells that hold a value
      or were fixed already, and the reset of a fixed board changes
      nothing: a player's reset brings back the generated puzzle. */
  lemma FixedProperties(g: Grid)
    ensures SameValues(Fixed(g), g)
    ensures forall p :: 0 <= p < |g| ==> (Fixed(g)[p].fixed <==> g[p].fixed || g[p].value != 0)
    ensures Reset(Fixed(g)) == Fixed(g)
  {
  }

  /** The fixing loop of generate_board. */
  method FixVisible(b: Board)
    requires b.Valid()
    modifies b.cells
    ensures b.Cells() == Fixed(old(b.Cells()))
  {
    ghost var g := b.Cells();
    for i := 0 to 81
      invariant forall j :: 0 <= j < i ==> b.cells[j] == Fixed(g)[j]
      invariant forall j :: i <= j < 81 ==> b.cells[j] == g[j]
    {
      if b.cells[i].value != 0 {
        b.cells[i] := b.cells[i].(fixed := true);
      }
    }
  }

  /** The list of positions of generate_board: 0..80 (std::iota), then
      shuffled; it lists every cell once. */
  method ShuffledPositions(draws: seq<nat>) returns (positions: seq<nat>)
    requires |draws| == 81
    ensures positions == ShuffleFrom(Iota(81), draws, 0)
    ensures |positions| == 81 && Distinct(positions)
    ensures forall q: nat :: q in positions <==> q < 81
  {
    var order := new nat[81](k => k);
    assert order[..] == Iota(81);
    Shuffle(order, draws);
    positions := order[..];
    ShuffleOfDistinct(Iota(81), draws);
    IotaMembers(81);
  }

  /** The hiding loop of generate_board, run for at most `fuel` rounds:
      `done` says that the loop ended, which it does with exactly
      `hiddenNumbers` cells hidden. */
  method HideCells(b: Board, ghost filled: Grid, positions: seq<nat>, hiddenNumbers: nat, solutions: nat, fuel: nat)
      returns (done: bool)
    requires hiddenNumbers <= 81 && solutions < 0x1_0000_0000 && b.Valid()
    requires ZeroCount(b.Cells()) <= hiddenNumbers
    requires Hiding(b.Cells(), filled, positions, solutions)
    modifies b.cells
    ensures exists rest :: Hiding(b.Cells(), filled, rest, solutions)
    ensures done ==> ZeroCount(b.Cells()) == hiddenNumbers
  {
    var rest := positions;
    var hidden := HiddenCount(b);
    var rounds := fuel;
    while hidden < hiddenNumbers
      invariant Hiding(b.Cells(), filled, rest, solutions)
      invariant hidden == ZeroCount(b.Cells()) <= hiddenNumbers
      decreases rounds
    {
      if rounds == 0 {
        return false;
      }
      rounds := rounds - 1;
      rest := HideOne(b, filled, rest, solutions);
      hidden := HiddenCount(b);
    }
    return true;
  }

  /** The board the hiding loop leaves keeps the filled board as a
      solution, and once fixed it has the fixed flag exactly on its visible
      cells and as many hidden cells as before. */
  lemma PuzzleOfHiding(g: Grid, filled: Grid, positions: seq<nat>, solutions: nat)
    requires solutions < 0x1_0000_0000 && Hiding(g, filled, positions, solutions)
    requires IsSolution(filled, filled) && forall p :: 0 <= p < 81 ==> !filled[p].fixed
    ensures IsSolution(filled, g) && IsSolution(filled, Fixed(g))
    ensures ZeroCount(Fixed(g)) == ZeroCount(g)
    ensures forall p :: 0 <= p < 81 ==> (Fixed(g)[p].fixed <==> Fixed(g)[p].value != 0)
  {
    FixedProperties(g);
    ZeroCountOfSameValues(Fixed(g), g);
  }

  /** What generate_board hands back: the puzzle board; NoCompletion where
      fill_board's solver finds no board (the front() of an empty list);
      OutOfFuel where the hiding loop has not ended within the given number
      of rounds. */
  datatype Generation = Generated(board: Board) | NoCompletion | OutOfFuel

  /** Generator::generate_board: fills a board, shuffles the 81 positions,
      hides cells until `hiddenNumbers` are hidden, rolling back every hide
      after which the solver finds more than `solutions` boards, and fixes
      the visible cells. `filled` is the board fill_board returned and
      `puzzle` the board before the fixing loop. */
  method GenerateBoard(hiddenNumbers: nat, solutions: nat, draws: seq<nat>, fuel: nat)
      returns (result: Generation, ghost filled: Grid, ghost puzzle: Grid)
    requires hiddenNumbers <= 81 && solutions < 0x1_0000_0000 && |draws| >= 108
    ensures result.NoCompletion? <==> Fill(draws).None?
    ensures result.Generated? ==>
      && result.board.Valid() && fresh(result.board.cells)
      && Fill(draws) == Some(filled)
      && result.board.Cells() == Fixed(puzzle)
      && IsSolution(filled, puzzle) && IsSolution(filled, result.board.Cells())
      && ZeroCount(result.board.Cells()) == hiddenNumbers
      && (forall p :: 0 <= p < 81 ==> (result.board.Cells()[p].fixed <==> result.board.Cells()[p].value != 0))
      && (puzzle == filled || |Solutions(puzzle, Cap(solutions))| <= solutions)
  {
    var full := FillBoard(draws);
    if full.None? {
      return NoCompletion, [], [];
    }
    var b := full.value;
    filled := b.Cells();
    FillIsSolution(draws);
    var positions := ShuffledPositions(draws[27..108]);
    HidingStart(filled, positions, solutions);
    var done := HideCells(b, filled, positions, hiddenNumbers, solutions, fuel);
    if !done {
      return OutOfFuel, filled, b.Cells();
    }
    puzzle := b.Cells();
    ghost var rest :| Hiding(puzzle, filled, rest, solutions);
    FixVisible(b);
    PuzzleOfHiding(puzzle, filled, rest, solutions);
    result := Generated(b);
  }

  /** What an accepted puzzle means: when the filled board is a solution
      of g and g is the filled board or the solver found at most
      `solutions` boards for it when asked for solutions + 1, then that
      list has between 1 and `solutions` boards and holds, by value, every
      solution of g. */
  lemma AcceptedPuzzleSolutions(g: Grid, filled: Grid, solutions: nat)
    requires 0 < solutions < 0x1_0000_0000 && IsSolution(filled, g)
    requires g == filled || |Solutions(g, Cap(solutions))| <= solutions
    ensures 1 <= |Solutions(g, Cap(solutions))| <= solutions
    ensures forall c :: IsSolution(c, g) ==> Covers(Solutions(g, Cap(solutions)), c)
  {
    var max := Cap(solutions);
    if g == filled {
      FullBoardSolvesToItself(g, max);
    }
    SolvableFindsOne(filled, g, max);
    SolutionsFindEverySolution(g, max);
  }

  /** With solutions = 1, every solution of an accepted puzzle holds the
      values of the filled board: the puzzle has a unique solution. */
  lemma AcceptedPuzzleIsUnique(g: Grid, filled: Grid)
    requires IsSolution(filled, g)
    requires g == filled || |Solutions(g, Cap(1))| <= 1
    ensures forall c :: IsSolution(c, g) ==> SameValues(c, filled)
  {
    AcceptedPuzzleSolutions(g, filled, 1);
    var only := Solutions(g, Cap(1))[0];
    forall c | IsSolution(c, g)
      ensures SameValues(c, filled)
    {
      assert Covers(Solutions(g, Cap(1)), c) && Covers(Solutions(g, Cap(1)), filled);
      assert SameValues(only, c) && SameValues(only, filled);
    }
  }

  /** A board that generate_board(_, 1) hands back has exactly one
      solution, whatever cap the solver is given: solve(board, max) returns
      one board, holding the values of the filled board. SudokuApp::new_game
      asks with max = 100 and takes front(); a uniqueness check would ask
      with max = 2. */
  lemma NewGameSolution(board: Grid, puzzle: Grid, filled: Grid, max: nat)
    requires board == Fixed(puzzle) && IsSolution(filled, puzzle)
    requires puzzle == filled || |Solutions(puzzle, Cap(1))| <= 1
    ensures |Solutions(board, max)| == 1 && SameValues(Solutions(board, max)[0], filled)
  {
    AcceptedPuzzleIsUnique(puzzle, filled);
    FixedProperties(puzzle);
    forall c | IsSolution(c, board)
      ensures SameValues(c, filled)
    {
      assert IsSolution(c, puzzle);
    }
    assert IsSolution(filled, board);
    UniqueSolutionFound(filled, board, max);
  }

  /** With solutions = 0 the solver, asked for one board, still finds the
      filled board after any hide, so every hide is rolled back and the
      hiding loop never ends once a cell is to be hidden. */
  lemma ZeroSolutionsRollsBackEveryHide(g: Grid, filled: Grid, p: nat)
    requires IsSolution(filled, g) && p < 81
    ensures |Solutions(Hide(g, p), Cap(0))| > 0
  {
    assert IsSolution(filled, Hide(g, p));
    SolvableFindsOne(filled, Hide(g, p), Cap(0));
  }
}

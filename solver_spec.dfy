/** What Solver::solve computes: a depth-first search that always fills the
    first empty cell, tries 1..9 there in increasing order, keeps a value
    only when is_valid accepts it, and appends every full board it reaches
    to the solution list, stopping when the list's front board comes round
    again or the list already holds max_solutions boards (0 means no cap). */
module SolverSpec {
  import opened Layout
  import opened Rules

  /** The first index at or after k whose cell holds 0, or 81. */
  function FirstZeroFrom(g: Grid, k: nat): (i: nat)
    requires |g| == 81 && k <= 81
    ensures k <= i <= 81
    ensures i < 81 ==> g[i].value == 0
    ensures forall j :: k <= j < i ==> g[j].value != 0
    decreases 81 - k
  {
    if k == 81 then 81 else if g[k].value == 0 then k else FirstZeroFrom(g, k + 1)
  }

  /** Solver::get_next_empty_cell: the first empty cell in row-major
      order, or 81 when the board is full. */
  function NextEmpty(g: Grid): (i: nat)
    requires |g| == 81
    ensures i <= 81
    ensures i < 81 ==> g[i].value == 0
    ensures forall j :: 0 <= j < i ==> g[j].value != 0
  {
    FirstZeroFrom(g, 0)
  }

  /** get_next_empty_cell answers 81 exactly on a full board. */
  lemma NextEmptyIsEndIffFull(g: Grid)
    requires |g| == 81
    ensures NextEmpty(g) == 81 <==> Full(g)
  {
  }

  /** The board with the value of cell i replaced by v, flag kept. */
  function Place(g: Grid, i: nat, v: nat): (h: Grid)
    requires i < |g|
    ensures |h| == |g|
  {
    g[i := g[i].(value := v)]
  }

  /** The result of one recursive solve call: whether it asked its callers
      to stop, and the solution list after it. */
  datatype Outcome = Outcome(stop: bool, found: seq<Grid>)

  /** The recursive Solver::solve on board g with solution list `found`. */
  function Search(g: Grid, found: seq<Grid>, max: nat): Outcome
    requires |g| == 81
    decreases ZeroCount(g), 10
  {
    var i := NextEmpty(g);
    if i == 81 then
      if |found| > 0 && (SameValues(g, found[0]) || |found| == max) then Outcome(true, found)
      else Outcome(false, found + [g])
    else
      TryFrom(g, i, 1, found, max)
  }

  /** The value loop of Solver::solve at empty cell i, from value v on. */
  function TryFrom(g: Grid, i: nat, v: nat, found: seq<Grid>, max: nat): Outcome
    requires |g| == 81 && i < 81 && g[i].value == 0 && 1 <= v <= 10
    decreases ZeroCount(g), 10 - v
  {
    if v == 10 then Outcome(false, found)
    else
      var h := Place(g, i, v);
      if IsValidAt(h, i % 9, i / 9) then
        ZeroCountUpdate(g, i, g[i].(value := v));
        var o := Search(h, found, max);
        if o.stop then o else TryFrom(g, i, v + 1, o.found, max)
      else
        TryFrom(g, i, v + 1, found, max)
  }

  /** The public Solver::solve: the search from an empty list. */
  function Solutions(g: Grid, max: nat): seq<Grid>
    requires |g| == 81
  {
    Search(g, [], max).found
  }

  /** e is a full board the search can reach from g: it keeps every value
      and every flag of g, puts a digit 1..9 in every empty cell of g, and
      obeys the Sudoku rule whenever g does. */
  predicate Completes(e: Grid, g: Grid)
  {
    && |e| == 81 && |g| == 81
    && Full(e) && Agrees(e, g) && SameFlags(e, g)
    && (forall p :: 0 <= p < 81 && g[p].value == 0 ==> 1 <= e[p].value <= 9)
    && (ConflictFree(g) ==> ConflictFree(e))
  }

  /** A completion of a board one accepted placement further is a
      completion of the board before it. */
  lemma CompletesStep(e: Grid, g: Grid, i: nat, v: nat)
    requires |g| == 81 && i < 81 && g[i].value == 0 && 1 <= v <= 9
    requires IsValidAt(Place(g, i, v), i % 9, i / 9)
    requires Completes(e, Place(g, i, v))
    ensures Completes(e, g)
  {
    var h := Place(g, i, v);
    assert e[i].value == v;
    forall p | 0 <= p < 81 && g[p].value != 0
      ensures e[p].value == g[p].value
    {
      assert h[p] == g[p];
    }
    if ConflictFree(g) {
      ValidPlacementKeepsRule(g, i, g[i].(value := v));
    }
  }

  /** e comes before g in the search: they agree below some index k, every
      cell of g up to k is filled, and e holds a smaller value at k. On full
      boards this is row-major lexicographic order of the values. */
  predicate PrecedesAt(e: Grid, g: Grid, k: nat)
  {
    && |e| == 81 && |g| == 81 && k < 81
    && (forall j :: 0 <= j <= k ==> g[j].value != 0)
    && (forall j :: 0 <= j < k ==> e[j].value == g[j].value)
    && e[k].value < g[k].value
  }

  ghost predicate Precedes(e: Grid, g: Grid)
  {
    exists k: nat :: PrecedesAt(e, g, k)
  }

  /** Each board of the list comes before every later one. */
  ghost predicate StrictlyIncreasing(found: seq<Grid>)
  {
    forall a, b {:trigger Precedes(found[a], found[b])} :: 0 <= a < b < |found| ==> Precedes(found[a], found[b])
  }

  /** Every board of the list comes before g. */
  ghost predicate AllPrecede(found: seq<Grid>, g: Grid)
  {
    forall k :: 0 <= k < |found| ==> Precedes(found[k], g)
  }

  /** Some board of the list holds the values of c. */
  predicate Covers(found: seq<Grid>, c: Grid)
  {
    exists k :: 0 <= k < |found| && SameValues(found[k], c)
  }

  /** A board that comes before g never holds the same values as g. */
  lemma PrecedesDiffers(e: Grid, g: Grid)
    requires Precedes(e, g)
    ensures !SameValues(e, g)
  {
    var k: nat :| PrecedesAt(e, g, k);
    assert e[k].value != g[k].value;
  }

  /** Filling an empty cell of g keeps what came before g before it. */
  lemma PrecedesPlace(e: Grid, g: Grid, i: nat, v: nat)
    requires Precedes(e, g) && |g| == 81 && i < 81 && g[i].value == 0
    ensures Precedes(e, Place(g, i, v))
  {
    var k: nat :| PrecedesAt(e, g, k);
    assert k != i;
    assert PrecedesAt(e, Place(g, i, v), k);
  }

  /** Raising the value tried at the first empty cell keeps what came
      before the board before it. */
  lemma PrecedesRaise(e: Grid, g: Grid, i: nat, v: nat)
    requires |g| == 81 && i < 81 && 1 <= v
    requires forall j :: 0 <= j < i ==> g[j].value != 0
    requires Precedes(e, Place(g, i, v))
    ensures Precedes(e, Place(g, i, v + 1))
  {
    var h, h' := Place(g, i, v), Place(g, i, v + 1);
    var k: nat :| PrecedesAt(e, h, k);
    if k < i {
      assert PrecedesAt(e, h', k);
    } else {
      assert e[i].value <= v;
      assert PrecedesAt(e, h', i);
    }
  }

  /** A board that keeps the values of g with v at its first empty cell i
      comes before g with v + 1 there. */
  lemma BranchPrecedesNext(e: Grid, g: Grid, i: nat, v: nat)
    requires |g| == 81 && |e| == 81 && i < 81 && 1 <= v
    requires forall j :: 0 <= j < i ==> g[j].value != 0
    requires Agrees(e, Place(g, i, v))
    ensures Precedes(e, Place(g, i, v + 1))
  {
    var h := Place(g, i, v);
    assert e[i].value == h[i].value;
    assert PrecedesAt(e, Place(g, i, v + 1), i);
  }

  /** The outcome's list starts with `found`, and with a positive cap it
      is no longer than the cap if `found` was not. */
  predicate Extends(o: Outcome, found: seq<Grid>, max: nat)
  {
    && |found| <= |o.found| && o.found[..|found|] == found
    && (0 < max && |found| <= max ==> |o.found| <= max)
  }

  /** Every board of the list from index `from` on completes g. */
  predicate CompletesFrom(list: seq<Grid>, from: nat, g: Grid)
  {
    forall k :: from <= k < |list| ==> Completes(list[k], g)
  }

  /** Unless the outcome stops, its list covers every solution of g. */
  ghost predicate CoversEvery(o: Outcome, g: Grid)
  {
    !o.stop ==> forall c: Grid :: IsSolution(c, g) ==> Covers(o.found, c)
  }

  /** Unless the outcome stops, its list covers every solution of g that
      holds at least v at cell i. */
  ghost predicate CoversFrom(o: Outcome, g: Grid, i: nat, v: nat)
  {
    !o.stop ==> forall c: Grid :: IsSolution(c, g) && i < |c| && v <= c[i].value ==> Covers(o.found, c)
  }

  /** The list only grows at its end, and with a positive cap it never
      outgrows the cap. */
  lemma {:induction false} SearchGrows(g: Grid, found: seq<Grid>, max: nat)
    requires |g| == 81
    ensures Extends(Search(g, found, max), found, max)
    decreases ZeroCount(g), 10
  {
    var i := NextEmpty(g);
    if i < 81 {
      TryGrows(g, i, 1, found, max);
    }
  }

  lemma {:induction false} TryGrows(g: Grid, i: nat, v: nat, found: seq<Grid>, max: nat)
    requires |g| == 81 && i < 81 && g[i].value == 0 && 1 <= v <= 10
    ensures Extends(TryFrom(g, i, v, found, max), found, max)
    decreases ZeroCount(g), 10 - v, 2
  {
    if v < 10 {
      if IsValidAt(Place(g, i, v), i % 9, i / 9) {
        TryGrowsAccepted(g, i, v, found, max);
      } else {
        TryGrows(g, i, v + 1, found, max);
      }
    }
  }

  /** TryGrows when is_valid accepts v at cell i. */
  lemma {:induction false} TryGrowsAccepted(g: Grid, i: nat, v: nat, found: seq<Grid>, max: nat)
    requires |g| == 81 && i < 81 && g[i].value == 0 && 1 <= v <= 9
    requires IsValidAt(Place(g, i, v), i % 9, i / 9)
    ensures Extends(TryFrom(g, i, v, found, max), found, max)
    decreases ZeroCount(g), 10 - v, 1
  {
    var h := Place(g, i, v);
    ZeroCountUpdate(g, i, g[i].(value := v));
    SearchGrows(h, found, max);
    var o := Search(h, found, max);
    if o.stop {
      assert TryFrom(g, i, v, found, max) == o;
    } else {
      assert TryFrom(g, i, v, found, max) == TryFrom(g, i, v + 1, o.found, max);
      TryGrowsNext(g, i, v, found, o.found, max);
    }
  }

  /** The values after v, continuing from the list the branch for v left,
      which extends `found` within the cap. */
  lemma {:induction false} TryGrowsNext(g: Grid, i: nat, v: nat, found: seq<Grid>, branch: seq<Grid>, max: nat)
    requires |g| == 81 && i < 81 && g[i].value == 0 && 1 <= v <= 9
    requires |found| <= |branch| && branch[..|found|] == found
    requires 0 < max && |found| <= max ==> |branch| <= max
    ensures Extends(TryFrom(g, i, v + 1, branch, max), found, max)
    decreases ZeroCount(g), 10 - v, 0
  {
    var r := TryFrom(g, i, v + 1, branch, max);
    TryGrows(g, i, v + 1, branch, max);
    assert r.found[..|found|] == r.found[..|branch|][..|found|];
  }

  /** Every board the search appends is a completion of g. */
  lemma {:induction false} SearchReaches(g: Grid, found: seq<Grid>, max: nat)
    requires |g| == 81
    ensures CompletesFrom(Search(g, found, max).found, |found|, g)
    decreases ZeroCount(g), 10
  {
    var i := NextEmpty(g);
    if i < 81 {
      TryReaches(g, i, 1, found, max);
    } else {
      assert Completes(g, g);
    }
  }

  lemma {:induction false} TryReaches(g: Grid, i: nat, v: nat, found: seq<Grid>, max: nat)
    requires |g| == 81 && i < 81 && g[i].value == 0 && 1 <= v <= 10
    ensures CompletesFrom(TryFrom(g, i, v, found, max).found, |found|, g)
    decreases ZeroCount(g), 10 - v, 2
  {
    if v < 10 {
      if IsValidAt(Place(g, i, v), i % 9, i / 9) {
        TryReachesAccepted(g, i, v, found, max);
      } else {
        TryReaches(g, i, v + 1, found, max);
      }
    }
  }

  /** TryReaches when is_valid accepts v at cell i. */
  lemma {:induction false} TryReachesAccepted(g: Grid, i: nat, v: nat, found: seq<Grid>, max: nat)
    requires |g| == 81 && i < 81 && g[i].value == 0 && 1 <= v <= 9
    requires IsValidAt(Place(g, i, v), i % 9, i / 9)
    ensures CompletesFrom(TryFrom(g, i, v, found, max).found, |found|, g)
    decreases ZeroCount(g), 10 - v, 1
  {
    var h := Place(g, i, v);
    ZeroCountUpdate(g, i, g[i].(value := v));
    SearchReaches(h, found, max);
    var o := Search(h, found, max);
    CompletesStepAll(o.found, |found|, g, i, v);
    if o.stop {
      assert TryFrom(g, i, v, found, max) == o;
    } else {
      assert TryFrom(g, i, v, found, max) == TryFrom(g, i, v + 1, o.found, max);
      TryReachesNext(g, i, v, |found|, o.found, max);
    }
  }

  /** The values after v, continuing from the list the branch for v left:
      every board from index `from` on still completes g. */
  lemma {:induction false} TryReachesNext(g: Grid, i: nat, v: nat, from: nat, branch: seq<Grid>, max: nat)
    requires |g| == 81 && i < 81 && g[i].value == 0 && 1 <= v <= 9
    requires CompletesFrom(branch, from, g)
    ensures CompletesFrom(TryFrom(g, i, v + 1, branch, max).found, from, g)
    decreases ZeroCount(g), 10 - v, 0
  {
    var r := TryFrom(g, i, v + 1, branch, max);
    TryReaches(g, i, v + 1, branch, max);
    TryGrows(g, i, v + 1, branch, max);
    CompletesFromJoin(branch, r.found, from, g);
  }

  /** A list that extends `prefix` completes g from `from` on when the
      prefix does and the rest does. */
  lemma CompletesFromJoin(prefix: seq<Grid>, list: seq<Grid>, from: nat, g: Grid)
    requires |prefix| <= |list| && list[..|prefix|] == prefix
    requires CompletesFrom(prefix, from, g) && CompletesFrom(list, |prefix|, g)
    ensures CompletesFrom(list, from, g)
  {
    forall k | from <= k < |prefix|
      ensures list[k] == prefix[k]
    {
      assert list[k] == list[..|prefix|][k];
    }
  }

  /** CompletesStep for every board of a list from index `from` on. */
  lemma CompletesStepAll(found: seq<Grid>, from: nat, g: Grid, i: nat, v: nat)
    requires |g| == 81 && i < 81 && g[i].value == 0 && 1 <= v <= 9
    requires IsValidAt(Place(g, i, v), i % 9, i / 9)
    requires CompletesFrom(found, from, Place(g, i, v))
    ensures CompletesFrom(found, from, g)
  {
    forall k | from <= k < |found|
      ensures Completes(found[k], g)
    {
      CompletesStep(found[k], g, i, v);
    }
  }

  /** The list of the outcome is in strictly increasing order, and the
      outcome stops only with a list of exactly the (positive) cap. */
  ghost predicate Ordered(o: Outcome, max: nat)
  {
    StrictlyIncreasing(o.found) && (o.stop ==> 0 < |o.found| == max)
  }

  /** The list stays in strictly increasing order, and the search stops only
      when the list has reached a positive cap: the front-board check never
      fires. */
  lemma {:induction false} SearchOrdered(g: Grid, found: seq<Grid>, max: nat)
    requires |g| == 81 && StrictlyIncreasing(found) && AllPrecede(found, g)
    ensures Ordered(Search(g, found, max), max)
    decreases ZeroCount(g), 10
  {
    var i := NextEmpty(g);
    if i < 81 {
      forall k | 0 <= k < |found|
        ensures Precedes(found[k], Place(g, i, 1))
      {
        PrecedesPlace(found[k], g, i, 1);
      }
      TryOrdered(g, i, 1, found, max);
    } else if |found| > 0 {
      PrecedesDiffers(found[0], g);
    }
  }

  lemma {:induction false} TryOrdered(g: Grid, i: nat, v: nat, found: seq<Grid>, max: nat)
    requires |g| == 81 && i < 81 && g[i].value == 0 && 1 <= v <= 10
    requires forall j :: 0 <= j < i ==> g[j].value != 0
    requires StrictlyIncreasing(found) && AllPrecede(found, Place(g, i, v))
    ensures Ordered(TryFrom(g, i, v, found, max), max)
    decreases ZeroCount(g), 10 - v, 2
  {
    if v < 10 {
      if IsValidAt(Place(g, i, v), i % 9, i / 9) {
        TryOrderedAccepted(g, i, v, found, max);
      } else {
        forall k | 0 <= k < |found|
          ensures Precedes(found[k], Place(g, i, v + 1))
        {
          PrecedesRaise(found[k], g, i, v);
        }
        TryOrdered(g, i, v + 1, found, max);
      }
    }
  }

  /** TryOrdered when is_valid accepts v at cell i. */
  lemma {:induction false} TryOrderedAccepted(g: Grid, i: nat, v: nat, found: seq<Grid>, max: nat)
    requires |g| == 81 && i < 81 && g[i].value == 0 && 1 <= v <= 9
    requires forall j :: 0 <= j < i ==> g[j].value != 0
    requires IsValidAt(Place(g, i, v), i % 9, i / 9)
    requires StrictlyIncreasing(found) && AllPrecede(found, Place(g, i, v))
    ensures Ordered(TryFrom(g, i, v, found, max), max)
    decreases ZeroCount(g), 10 - v, 1
  {
    var h := Place(g, i, v);
    ZeroCountUpdate(g, i, g[i].(value := v));
    SearchOrdered(h, found, max);
    var o := Search(h, found, max);
    if o.stop {
      assert TryFrom(g, i, v, found, max) == o;
    } else {
      assert TryFrom(g, i, v, found, max) == TryFrom(g, i, v + 1, o.found, max);
      SearchGrows(h, found, max);
      SearchReaches(h, found, max);
      TryOrderedNext(g, i, v, found, o.found, max);
    }
  }

  /** The values after v, continuing from the list the branch for v left:
      that list is ordered and ends below g with v + 1 at cell i. */
  lemma {:induction false} TryOrderedNext(g: Grid, i: nat, v: nat, found: seq<Grid>, branch: seq<Grid>, max: nat)
    requires |g| == 81 && i < 81 && g[i].value == 0 && 1 <= v <= 9
    requires forall j :: 0 <= j < i ==> g[j].value != 0
    requires AllPrecede(found, Place(g, i, v)) && StrictlyIncreasing(branch)
    requires |found| <= |branch| && branch[..|found|] == found
    requires CompletesFrom(branch, |found|, Place(g, i, v))
    ensures Ordered(TryFrom(g, i, v + 1, branch, max), max)
    decreases ZeroCount(g), 10 - v, 0
  {
    AllPrecedeNext(found, branch, g, i, v);
    TryOrdered(g, i, v + 1, branch, max);
  }

  /** After the branch for v, the old list and every board the branch
      appended come before g with v + 1 at its first empty cell i. */
  lemma AllPrecedeNext(found: seq<Grid>, list: seq<Grid>, g: Grid, i: nat, v: nat)
    requires |g| == 81 && i < 81 && g[i].value == 0 && 1 <= v <= 9
    requires forall j :: 0 <= j < i ==> g[j].value != 0
    requires AllPrecede(found, Place(g, i, v))
    requires |found| <= |list| && list[..|found|] == found
    requires CompletesFrom(list, |found|, Place(g, i, v))
    ensures AllPrecede(list, Place(g, i, v + 1))
  {
    forall k | 0 <= k < |list|
      ensures Precedes(list[k], Place(g, i, v + 1))
    {
      if k < |found| {
        assert list[k] == list[..|found|][k];
        PrecedesRaise(found[k], g, i, v);
      } else {
        BranchPrecedesNext(list[k], g, i, v);
      }
    }
  }

  /** A solution of g puts in each empty cell a value that is_valid accepts
      there. */
  lemma SolutionPlacementValid(c: Grid, g: Grid, i: nat)
    requires IsSolution(c, g) && i < 81
    ensures IsValidAt(Place(g, i, c[i].value), i % 9, i / 9)
  {
    var h := Place(g, i, c[i].value);
    IndexOfCoordinates(i);
    forall q | 0 <= q < 81 && q != i && Peers(i, q) && h[q].value != 0
      ensures h[q].value != h[i].value
    {
      assert h[q] == g[q];
    }
    assert NoClash(h, i);
    ValidAtIffNoClash(h, i % 9, i / 9);
  }

  /** Unless it stops, the search puts every solution of g in the list. */
  lemma {:induction false} SearchComplete(g: Grid, found: seq<Grid>, max: nat)
    requires |g| == 81
    ensures CoversEvery(Search(g, found, max), g)
    decreases ZeroCount(g), 10
  {
    var i := NextEmpty(g);
    if i < 81 {
      TryComplete(g, i, 1, found, max);
    } else {
      var o := Search(g, found, max);
      if !o.stop {
        forall c | IsSolution(c, g)
          ensures Covers(o.found, c)
        {
          assert SameValues(o.found[|found|], c);
        }
      }
    }
  }

  lemma {:induction false} TryComplete(g: Grid, i: nat, v: nat, found: seq<Grid>, max: nat)
    requires |g| == 81 && i < 81 && g[i].value == 0 && 1 <= v <= 10
    ensures CoversFrom(TryFrom(g, i, v, found, max), g, i, v)
    decreases ZeroCount(g), 10 - v, 2
  {
    if v < 10 {
      if IsValidAt(Place(g, i, v), i % 9, i / 9) {
        TryCompleteAccepted(g, i, v, found, max);
      } else {
        TryComplete(g, i, v + 1, found, max);
        forall c: Grid | IsSolution(c, g) && v <= c[i].value
          ensures v + 1 <= c[i].value
        {
          if c[i].value == v {
            SolutionPlacementValid(c, g, i);
          }
        }
      }
    }
  }

  /** TryComplete when is_valid accepts v at cell i. */
  lemma {:induction false} TryCompleteAccepted(g: Grid, i: nat, v: nat, found: seq<Grid>, max: nat)
    requires |g| == 81 && i < 81 && g[i].value == 0 && 1 <= v <= 9
    requires IsValidAt(Place(g, i, v), i % 9, i / 9)
    ensures CoversFrom(TryFrom(g, i, v, found, max), g, i, v)
    decreases ZeroCount(g), 10 - v, 1
  {
    var h := Place(g, i, v);
    ZeroCountUpdate(g, i, g[i].(value := v));
    var o := Search(h, found, max);
    if o.stop {
      assert TryFrom(g, i, v, found, max) == o;
    } else {
      assert TryFrom(g, i, v, found, max) == TryFrom(g, i, v + 1, o.found, max);
      SearchComplete(h, found, max);
      TryCompleteNext(g, i, v, o.found, max);
    }
  }

  /** The branch for v did not stop: the values after v take over from
      its list. */
  lemma {:induction false} TryCompleteNext(g: Grid, i: nat, v: nat, branch: seq<Grid>, max: nat)
    requires |g| == 81 && i < 81 && g[i].value == 0 && 1 <= v <= 9
    requires forall c: Grid :: IsSolution(c, Place(g, i, v)) ==> Covers(branch, c)
    ensures CoversFrom(TryFrom(g, i, v + 1, branch, max), g, i, v)
    decreases ZeroCount(g), 10 - v, 0
  {
    var r := TryFrom(g, i, v + 1, branch, max);
    TryComplete(g, i, v + 1, branch, max);
    TryGrows(g, i, v + 1, branch, max);
    BranchSolutionsCovered(g, i, v, branch, r.found);
    CoversFromJoin(r, g, i, v);
  }

  /** Covering the solutions with v at cell i and those with more than v
      there covers those with at least v. */
  lemma CoversFromJoin(r: Outcome, g: Grid, i: nat, v: nat)
    requires i < 81
    requires forall c: Grid :: IsSolution(c, g) && c[i].value == v ==> Covers(r.found, c)
    requires CoversFrom(r, g, i, v + 1)
    ensures CoversFrom(r, g, i, v)
  {
    if !r.stop {
      forall c: Grid | IsSolution(c, g) && v <= c[i].value
        ensures Covers(r.found, c)
      {
        if c[i].value != v {
          assert v + 1 <= c[i].value;
        }
      }
    }
  }

  /** The solutions of g with v at cell i are those of g with v placed, so
      a list that extends one covering the latter covers them. */
  lemma BranchSolutionsCovered(g: Grid, i: nat, v: nat, branch: seq<Grid>, found: seq<Grid>)
    requires |g| == 81 && i < 81
    requires forall c: Grid :: IsSolution(c, Place(g, i, v)) ==> Covers(branch, c)
    requires |branch| <= |found| && found[..|branch|] == branch
    ensures forall c: Grid :: IsSolution(c, g) && c[i].value == v ==> Covers(found, c)
  {
    forall c: Grid | IsSolution(c, g) && c[i].value == v
      ensures Covers(found, c)
    {
      SolutionOfPlaced(c, g, i);
      CoversPrefix(branch, found, c);
    }
  }

  /** A solution of g is a solution of g with one of its own values
      placed. */
  lemma SolutionOfPlaced(c: Grid, g: Grid, i: nat)
    requires IsSolution(c, g) && i < 81
    ensures IsSolution(c, Place(g, i, c[i].value))
  {
  }

  /** A list that starts with a covering list covers too. */
  lemma CoversPrefix(prefix: seq<Grid>, found: seq<Grid>, c: Grid)
    requires |prefix| <= |found| && found[..|prefix|] == prefix
    requires Covers(prefix, c)
    ensures Covers(found, c)
  {
    var k :| 0 <= k < |prefix| && SameValues(prefix[k], c);
    assert found[k] == prefix[k];
  }

  /** Every board solve returns keeps the puzzle's values and flags, is
      full, and obeys the Sudoku rule when the puzzle does. */
  lemma SolutionsAreCompletions(g: Grid, max: nat)
    requires |g| == 81
    ensures forall k :: 0 <= k < |Solutions(g, max)| ==> Completes(Solutions(g, max)[k], g)
  {
    SearchReaches(g, [], max);
  }

  /** On a puzzle that obeys the Sudoku rule and holds only 0..9, every
      board solve returns is a solution of it. */
  lemma SolutionsAreSolved(g: Grid, max: nat)
    requires |g| == 81 && ConflictFree(g) && ValuesAtMostNine(g)
    ensures forall k :: 0 <= k < |Solutions(g, max)| ==> IsSolution(Solutions(g, max)[k], g)
  {
    SolutionsAreCompletions(g, max);
  }

  /** solve returns its boards in strictly increasing row-major order of
      their values, so no two of them hold the same values. */
  lemma SolutionsInSearchOrder(g: Grid, max: nat)
    requires |g| == 81
    ensures StrictlyIncreasing(Solutions(g, max))
    ensures forall a, b :: 0 <= a < |Solutions(g, max)| && 0 <= b < |Solutions(g, max)| && a != b ==>
              !SameValues(Solutions(g, max)[a], Solutions(g, max)[b])
  {
    var r := Solutions(g, max);
    SearchOrdered(g, [], max);
    forall a, b | 0 <= a < |r| && 0 <= b < |r| && a != b
      ensures !SameValues(r[a], r[b])
    {
      if a < b {
        PrecedesDiffers(r[a], r[b]);
      } else {
        PrecedesDiffers(r[b], r[a]);
      }
    }
  }

  /** A positive cap bounds the list, and the search stops early only with
      exactly that many boards. */
  lemma SolutionsBounded(g: Grid, max: nat)
    requires |g| == 81
    ensures 0 < max ==> |Solutions(g, max)| <= max
    ensures Search(g, [], max).stop ==> 0 < max == |Solutions(g, max)|
  {
    SearchGrows(g, [], max);
    SearchOrdered(g, [], max);
  }

  /** With no cap, or with fewer boards than the cap, every solution of the
      puzzle is among the boards returned. */
  lemma SolutionsFindEverySolution(g: Grid, max: nat)
    requires |g| == 81
    requires max == 0 || |Solutions(g, max)| < max
    ensures forall c :: IsSolution(c, g) ==> Covers(Solutions(g, max), c)
  {
    SolutionsBounded(g, max);
    SearchComplete(g, [], max);
  }

  /** A puzzle with a solution gets at least one board back, whatever the
      cap. */
  lemma SolvableFindsOne(c: Grid, g: Grid, max: nat)
    requires IsSolution(c, g)
    ensures |Solutions(g, max)| >= 1
  {
    SolutionsBounded(g, max);
    if !Search(g, [], max).stop {
      SearchComplete(g, [], max);
      assert Covers(Solutions(g, max), c);
    }
  }

  /** A puzzle whose solutions all hold the values of `filled` gets exactly
      one board back, whatever the cap, and it holds those values. */
  lemma UniqueSolutionFound(filled: Grid, g: Grid, max: nat)
    requires IsSolution(filled, g)
    requires forall c :: IsSolution(c, g) ==> SameValues(c, filled)
    ensures |Solutions(g, max)| == 1
    ensures SameValues(Solutions(g, max)[0], filled)
  {
    var r := Solutions(g, max);
    SolvableFindsOne(filled, g, max);
    SolvablePuzzleIsWellFormed(filled, g);
    SolutionsAreSolved(g, max);
    SolutionsInSearchOrder(g, max);
    assert SameValues(r[0], filled) && SameValues(r[|r| - 1], filled);
    assert SameValues(r[0], r[|r| - 1]);
  }

  /** A full board is its own only answer, whatever the cap. */
  lemma FullBoardSolvesToItself(g: Grid, max: nat)
    requires |g| == 81 && Full(g)
    ensures Solutions(g, max) == [g]
  {
  }

  /** When the search does not stop, the boards returned for a puzzle with
      at most `max - 1` solutions are exactly its solutions, one per
      solution. */
  lemma SolutionsExactly(g: Grid, max: nat, c: Grid)
    requires |g| == 81 && ConflictFree(g) && ValuesAtMostNine(g) && |c| == 81
    requires max == 0 || |Solutions(g, max)| < max
    ensures IsSolution(c, g) <==> Covers(Solutions(g, max), c)
  {
    var r := Solutions(g, max);
    SolutionsFindEverySolution(g, max);
    if Covers(r, c) {
      var k :| 0 <= k < |r| && SameValues(r[k], c);
      SolutionsAreSolved(g, max);
      SolutionTransfers(r[k], c, g);
    }
  }

  /** Being a solution depends only on the values. */
  lemma SolutionTransfers(e: Grid, c: Grid, g: Grid)
    requires IsSolution(e, g) && SameValues(e, c)
    ensures IsSolution(c, g)
  {
  }
}

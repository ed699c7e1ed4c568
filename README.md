# gtk-sudoku puzzle engine in Dafny

A model of the 9x9 puzzle engine of the GTK Sudoku game: the `Board` with its
cells, the digit text that `save` writes and `load` reads, the backtracking
`Solver`, and the `Generator` that fills a board and hides cells of it. The
model proves facts about that engine.

- `layout.dfy` (module `Layout`): the `Cell` record, the row-major layout of
  81 cells (cell (x, y) at index y * 9 + x), and `get`/`set` on a cell
  sequence.
- `rules.dfy` (module `Rules`): what `is_valid` checks, the Sudoku rule, `full`,
  value-only `==`, `reset`, the number of empty cells, and what a solution of
  a puzzle is.
- `board_text.dfy` (module `BoardText`): the digit blocks of `save`/`load`.
  These are the givens block (a fixed cell's value, else 0) and the solved
  block (every value), with the save-then-load round trip.
- `board.dfy` (module `Boards`): `class Board` over an `array<Cell>` of 81
  cells. Each of its methods is proved against the functions above.
- `solver_spec.dfy` (module `SolverSpec`): the recursive `Solver::solve` as a
  pair of mutually recursive functions over the cell sequence. They carry the
  stop flag and the solution list, and their termination measure is the
  number of empty cells. The module also proves the search's properties:
  - every returned board completes the puzzle;
  - the boards come in strictly increasing row-major order, so they are
    pairwise different and the "same as the front board" test never fires;
  - a positive cap bounds the list;
  - unless the cap is reached, every solution is found.
- `solver.dfy` (module `Solver`): the solver as methods on `Board`. Each
  recursive call copies its board, as the definition in `src/solver.cpp`
  takes the board by value. Each method is proved equal to the specification.
- `random.dfy` (module `Random`): `rand_int` and the free function `shuffle`,
  driven by caller-supplied draws. Shuffling keeps the multiset of elements.
- `generator.dfy` (module `Generator`): `fill_board`, `hidden_count` and
  `generate_board` with its hide-and-rollback loop. Proved about the
  generator:
  - the seeded diagonal boxes obey the rule;
  - the filled board is a solution;
  - the loop keeps its invariant;
  - the result has exactly `hidden_numbers` hidden cells, with fixed flags
    exactly on the visible cells;
  - with `solutions = 1` the puzzle has a single solution, which the
    application's `solve(board, 100)` returns (and so does `solve` with any
    other cap).

Randomness is a parameter. `rand_int(min, max)` takes the next caller-supplied
draw `d` and answers `min + d % (max - min + 1)`. `generate_board` uses
27 draws for `fill_board` (nine per diagonal box), then 81 for the order of
the positions.

Three points where the code does more, or less, than its header comments say:

- `solve` with `max_solutions = 0` collects every solution, because the cap
  test `size() == 0` never fires on a non-empty list. The comment at
  include/solver.h:27 suggests -1 for "all", but as an unsigned -1 is the
  largest value and acts as an ordinary cap.
- `fill_board` takes `front()` of the solver's list and does not retry when
  the seeded board has no completion; include/generator.h:34-38 promises a
  full valid board without that condition.
- The solver's only guard against listing a board twice is the comparison
  with the front board (src/solver.cpp:41). The model proves that the search
  order alone already makes the listed boards distinct, so that guard never
  fires.

With `solutions = 0` every hide is rolled back
(`Generator.ZeroSolutionsRollsBackEveryHide`), so the hiding loop never ends
once a cell is to be hidden. The application never passes 0.

## Model

| member | source | states |
|---|---|---|
| Layout.Index | src/board.cpp:52-54 | cell (x, y) is stored at an index below 81 from which x and y come back as index % 9 and index / 9 |
| Layout.IndexOfCoordinates | src/board.cpp:53 | every index 0..80 is the storage index of (index % 9, index / 9): the layout is a bijection |
| Layout.Get | src/board.cpp:52-54 | get(x, y) on a cell sequence: the cell stored at index y * 9 + x |
| Layout.SetCell | src/board.cpp:63-65 | set(x, y, c) on a cell sequence: the 81 cells with the one at index y * 9 + x replaced by c |
| Layout.GetAfterSet | src/board.cpp:52-65 | after set(x, y, c), get(x, y) returns c and get at any other coordinates returns what it returned before |
| Rules.IsValidAt | src/board.cpp:76-101 | is_valid(x, y): no other nonzero cell of row y, of column x or of the 3x3 box from ((x/3)*3, (y/3)*3) holds the value of (x, y) |
| Rules.ValidAtIffNoClash | src/board.cpp:76-101 | is_valid(x, y) holds exactly when no other nonzero cell of row y, column x or the 3x3 box from ((x/3)*3, (y/3)*3) holds the value of (x, y) |
| Rules.EmptyCellIsValid | src/board.cpp:78-98 | a cell holding 0 always passes is_valid |
| Rules.ConflictFreeIffAllValid | src/board.cpp:76-101 | a board obeys the Sudoku rule exactly when is_valid accepts every one of its 81 cells |
| Rules.ValidPlacementKeepsRule | src/solver.cpp:50-51 | writing a value that is_valid then accepts into a conflict-free board leaves it conflict-free |
| Rules.Full | src/board.cpp:109-112 | full(): no cell holds 0 |
| Rules.SameValues | src/board.cpp:121-126 | operator==: the two boards hold the same value in each of their cells, flags ignored |
| Rules.Reset | src/board.cpp:143-145 | reset(): every cell not fixed has its value set to 0, fixed cells are kept |
| Rules.ZeroCount | src/generator.cpp:74-78 | the number of empty cells never exceeds the number of cells, so hidden_count lies in 0..81 |
| Rules.ZeroCountUpdate | src/generator.cpp:52-58 | overwriting one cell changes the number of empty cells only by that cell going from or to 0 |
| Rules.ZeroCountOfSameValues | src/generator.cpp:64 | boards with the same values have the same number of empty cells, so fixing cells keeps hidden_count |
| Rules.FullIffNoZeros | src/board.cpp:109-112 | full() holds exactly when no cell holds 0, that is when hidden_count is 0 |
| Rules.SameValuesIsEquivalence | src/board.cpp:121-126 | operator== on the 81 values is reflexive, symmetric and transitive |
| Rules.SolvablePuzzleIsWellFormed | src/solver.cpp:49-53 | a puzzle with a solution obeys the Sudoku rule and holds only 0..9 |
| Rules.ResetProperties | src/board.cpp:143-145 | reset never changes a flag, leaves fixed cells untouched, empties every other cell, and a second reset changes nothing |
| Rules.ResetKeepsSolutions | src/board.cpp:143-145 | a solution of a board is still a solution of the board after reset |
| BoardText.GivenValues | src/board.cpp:205-212 | the values the givens block writes: a fixed cell's value, 0 for every other cell |
| BoardText.Values | src/board.cpp:219-225 | the values the solved block writes: every cell's value |
| BoardText.EncodeRow | src/board.cpp:206-210 | a row of a block: each value written as to_string(v) + " " |
| BoardText.EncodeRows | src/board.cpp:205-212 | the first rows of a block, each row of nine values followed by "\n\t" |
| BoardText.Encode | src/board.cpp:203-212 | a whole block: "\n\t" followed by the nine encoded rows |
| BoardText.LoadGivens | src/board.cpp:174-185 | the text-node pass of load: the k-th digit sets cell k to that value, fixed exactly when nonzero; later cells keep what they held |
| BoardText.LoadSolved | src/board.cpp:164-173 | the solved pass of load: the k-th digit overwrites the value of cell k and keeps its flag; later cells keep what they held |
| BoardText.LoadText | src/board.cpp:162-186 | load on the two blocks: the givens pass over the first block's digits, then the solved pass over the second's |
| BoardText.DigitChar | src/board.cpp:169 | the character written for digit d is a digit character whose code minus '0' is d |
| BoardText.ToDecimal | src/board.cpp:209 | to_string(v) is a non-empty run of digit characters, the single digit of v when v < 10 |
| BoardText.Digits | src/board.cpp:167-172 | the digits read from a text are at most as many as its characters and each is 0..9 |
| BoardText.DigitsOfConcat | src/board.cpp:178-184 | the digits read from two texts one after the other are the digits of the first followed by those of the second |
| BoardText.DigitsOfLonger | src/board.cpp:178-184 | reading one more character adds its digit when it is a digit and skips it otherwise |
| BoardText.DigitsOfEncodeRow | src/board.cpp:206-210 | reading back a row written as to_string(v) + " " per value gives the row's values when each is 0..9 |
| BoardText.DigitsOfEncodeRows | src/board.cpp:205-212 | reading back the first rows of a block gives the values of exactly those rows |
| BoardText.DigitsOfEncode | src/board.cpp:203-212 | reading back a whole block gives its 81 values |
| BoardText.SaveLoadRoundTrip | src/board.cpp:162-225 | when every value is 0..9 and every fixed cell is nonzero, loading the givens block and then the solved block that save writes restores every value and every fixed flag, whatever the board held before |
| Boards.Board.constructor | include/board.h:23-44 | a new board holds 81 default cells (value 0, not fixed), all 81 of them empty |
| Boards.Board.Copy | src/board.cpp:41-43 | the copy holds exactly the 81 cells of the original |
| Boards.Board.Get | src/board.cpp:52-54 | get(x, y) is the cell stored at index y * 9 + x |
| Boards.Board.Set | src/board.cpp:63-65 | the new cells are the old ones with only index y * 9 + x replaced by the given cell |
| Boards.Board.IsValid | src/board.cpp:76-101 | the row, column and box loops answer exactly the is_valid predicate of the current cells |
| Boards.Board.Full | src/board.cpp:109-112 | the downward scan answers true exactly when no cell holds 0 |
| Boards.Board.Equals | src/board.cpp:121-126 | true exactly when the 81 values agree, whatever the flags |
| Boards.Board.NotEquals | src/board.cpp:135-137 | exactly the negation of operator== |
| Boards.Board.Reset | src/board.cpp:143-145 | the new cells are the reset of the old ones |
| Boards.Board.Load | src/board.cpp:162-186 | the board ends as the givens pass over the first block's digits followed by the solved pass over the second block's digits |
| Boards.Board.LoadGivensBlock | src/board.cpp:174-185 | the k-th digit sets cell k to that value, fixed exactly when nonzero, and cells past the last digit keep their old contents |
| Boards.Board.LoadSolvedBlock | src/board.cpp:164-173 | the k-th digit overwrites only the value of cell k, keeping its flag |
| Boards.Board.Save | src/board.cpp:203-225 | the two blocks are the encoding of the givens values (fixed value or 0) and of all values |
| Boards.Board.SaveBlock | src/board.cpp:203-212 | a block is "\n\t" followed by nine encoded rows, each followed by "\n\t" |
| Boards.Board.SaveRow | src/board.cpp:206-210 | a row is the values of row y, each written as to_string(v) + " " |
| SolverSpec.Place | src/solver.cpp:50 | board.board[i].value = v: the board with cell i's value replaced by v, its flag kept |
| SolverSpec.Search | src/solver.cpp:35-57 | the recursive solve: on a full board, stop when the list is non-empty and the board equals its front or the list holds max_solutions boards, else append the board; otherwise run the value loop at the first empty cell |
| SolverSpec.TryFrom | src/solver.cpp:49-56 | the value loop from v: write v at the empty cell, recurse when is_valid accepts it, stop as soon as a recursive call asks to, else go on with v + 1 up to 9 |
| SolverSpec.Solutions | src/solver.cpp:21-25 | the public solve: the list the recursive solve builds from an empty list |
| SolverSpec.FirstZeroFrom | src/solver.cpp:64-69 | the first index at or after k whose cell holds 0, or 81 when there is none |
| SolverSpec.NextEmpty | src/solver.cpp:63-70 | the smallest index whose cell holds 0, or 81 when no cell does |
| SolverSpec.NextEmptyIsEndIffFull | src/solver.cpp:36-38 | get_next_empty_cell answers 81 exactly on a full board |
| SolverSpec.CompletesStep | src/solver.cpp:49-53 | a completion of the board after an accepted placement is a completion of the board before it |
| SolverSpec.PrecedesDiffers | src/solver.cpp:41 | a board that comes before another in search order never holds the same values |
| SolverSpec.SearchGrows | src/solver.cpp:35-57 | the recursive solve only appends to the list and never pushes it past a positive cap |
| SolverSpec.TryGrows | src/solver.cpp:49-56 | the value loop from value v on only appends to the list and never pushes it past a positive cap |
| SolverSpec.SearchReaches | src/solver.cpp:35-57 | every appended board is full, keeps every value and flag of the board searched, puts 1..9 in each of its empty cells and obeys the rule when that board does |
| SolverSpec.TryReaches | src/solver.cpp:49-56 | every board the value loop appends completes the board searched |
| SolverSpec.SearchOrdered | src/solver.cpp:35-57 | the list stays in strictly increasing row-major order of values, and the search stops only with exactly a positive cap of boards, so the front-board test never fires |
| SolverSpec.TryOrdered | src/solver.cpp:49-56 | the value loop keeps the list in strictly increasing order and stops only at a positive cap |
| SolverSpec.SolutionPlacementValid | src/solver.cpp:50-51 | a solution's value at an empty cell passes is_valid there, so pruning never loses a solution |
| SolverSpec.SearchComplete | src/solver.cpp:35-57 | unless the search stops, its list holds, by value, every solution of the board |
| SolverSpec.TryComplete | src/solver.cpp:49-56 | unless it stops, the value loop from v on covers every solution holding at least v at the cell |
| SolverSpec.SolutionsAreCompletions | src/solver.cpp:21-25 | every board solve returns is full, keeps the puzzle's values and flags, and obeys the rule when the puzzle does |
| SolverSpec.SolutionsAreSolved | src/solver.cpp:21-25 | on a puzzle that obeys the rule and holds 0..9, every returned board is a solution of it |
| SolverSpec.SolutionsInSearchOrder | src/solver.cpp:36-53 | the returned boards are in strictly increasing row-major order, so no two hold the same values |
| SolverSpec.SolutionsBounded | src/solver.cpp:40-46 | a positive max_solutions bounds the list, and the search stops early only with exactly that many boards |
| SolverSpec.SolutionsFindEverySolution | include/solver.h:23-30 | with max_solutions 0, or fewer boards than the cap, every solution of the puzzle is among the boards returned |
| SolverSpec.SolvableFindsOne | src/solver.cpp:21-25 | a puzzle with a solution gets at least one board back, whatever the cap |
| SolverSpec.UniqueSolutionFound | src/solver.cpp:21-25 | a puzzle whose solutions all hold the same values gets exactly one board back, holding those values |
| SolverSpec.FullBoardSolvesToItself | src/solver.cpp:38-46 | an already full board yields exactly the list holding that board |
| SolverSpec.SolutionsExactly | include/solver.h:23-30 | when the cap is not reached, a full board is a solution exactly when some returned board holds its values |
| SolverSpec.SolutionTransfers | src/board.cpp:121-126 | being a solution depends only on the values, so boards equal under operator== solve the same puzzles |
| Solver.GetNextEmptyCell | src/solver.cpp:63-70 | the loop returns the smallest index holding 0, or 81 |
| Solver.SolveFrom | src/solver.cpp:35-57 | on its own copy of the board, the stop flag and list are those of the recursive specification, and every list entry has 81 cells |
| Solver.TryValues | src/solver.cpp:49-56 | the value loop returns the specification's outcome from value 1 |
| Solver.TryValue | src/solver.cpp:50-53 | one round writes v at the cell and either stops with the specification's outcome or continues exactly as the specification does from v + 1 |
| Solver.Solve | src/solver.cpp:21-25 | the list returned is the specification's list for an empty accumulator, and the caller's board is not changed |
| Random.RandInt | src/generator.cpp:108-111 | the result lies in [min, max] |
| Random.RandIntReachesAll | src/generator.cpp:108-111 | every value of [min, max] comes out for some draw |
| Random.IotaMembers | src/generator.cpp:44-45 | iota(n) holds exactly the numbers below n |
| Random.Swap | src/generator.cpp:121-123 | the elements at i and j are exchanged and all others kept |
| Random.SwapPermutes | src/generator.cpp:121-123 | a swap keeps the multiset of elements |
| Random.ShuffleFrom | src/generator.cpp:118-125 | shuffle from index i on: index i is swapped with the partner that the next draw picks from [0, size - 1], for every i up to the end |
| Random.ShufflePermutes | src/generator.cpp:118-125 | shuffle keeps the length and the multiset of elements |
| Random.Shuffle | src/generator.cpp:118-125 | the in-place loop swaps index i with the partner drawn from [0, size - 1] for every i, ending as the shuffle function of the old contents |
| Random.ShuffleOfDistinct | src/generator.cpp:44-46 | shuffling a list without repeats gives a list without repeats holding the same elements |
| Generator.SeededUpTo | src/generator.cpp:90-99 | the board after the first steps of the seeding loops: each written cell holds the entry 8 - offset of its box's shuffled list, not fixed; the others are default |
| Generator.Seeded | src/generator.cpp:87-100 | the board after all 27 writes of the seeding loops |
| Generator.SeedStepInjective | src/generator.cpp:90-99 | the seeding loops write each cell at most once |
| Generator.SeedStepOf | src/generator.cpp:90-99 | the write of (x, y) for box s comes at step 3s + (y - s) * 3 + (x - s), in box s / 3, at offset (y - s) * 3 + (x - s) |
| Generator.SeedListIsPermutation | src/generator.cpp:92-93 | a shuffled list holds each of 1..9 exactly once |
| Generator.SeededStep | src/generator.cpp:96-97 | each write puts the current back of the box's list, its entry 8 - offset, into its cell as not fixed and changes no other cell |
| Generator.SeededPair | src/generator.cpp:90-100 | two distinct peers of the seeded board never hold the same nonzero value |
| Generator.SeededIsWellFormed | src/generator.cpp:90-100 | the seeded board obeys the Sudoku rule, holds only 0..9 and has no fixed cell |
| Generator.Fill | src/generator.cpp:85-103 | what fill_board returns: the first board the solver returns for the seeded board with cap 1, or none when it returns none |
| Generator.FillIsSolution | src/generator.cpp:102 | fill_board finds a board exactly when the seeded board has a solution, and that board is a full solution keeping the seeded values, with no cell fixed |
| Generator.FillBoard | src/generator.cpp:85-103 | returns a board exactly when the solver finds one for the seeded board, and then its cells are the solver's first board |
| Generator.SeedDiagonal | src/generator.cpp:90-100 | the box loop over s = 0, 3, 6 turns a default board into the seeded board |
| Generator.SeedBox | src/generator.cpp:91-99 | one box round writes the nine cells of box (s, s) from a fresh shuffle of 1..9 |
| Generator.SeedRow | src/generator.cpp:95-98 | the x loop writes three cells of row y and pops three entries of the list |
| Generator.SeedCell | src/generator.cpp:96-97 | one cell gets list.back(), which is then popped |
| Generator.ShuffledDigits | src/generator.cpp:92-93 | the list { 1, ..., 9 } after shuffle |
| Generator.HiddenCount | src/generator.cpp:74-78 | the counting loop returns the number of cells holding 0 |
| Generator.Cap | src/generator.cpp:55 | solutions + 1 in 32-bit unsigned arithmetic: one more than solutions, except that the largest unsigned wraps to 0 |
| Generator.Hide | src/generator.cpp:52-53 | the board with cell p's value set to 0 |
| Generator.HidingStart | src/generator.cpp:42-48 | the filled board with the shuffled list of all 81 positions satisfies the loop invariant |
| Generator.PopBack | src/generator.cpp:49-50 | after pop_back a list without repeats has none and holds every element except the popped one |
| Generator.MoveToFront | src/generator.cpp:59 | re-inserting the popped position at the front keeps the list without repeats and with the same elements |
| Generator.TracksAfterHide | src/generator.cpp:49-53 | emptying the popped cell keeps the bookkeeping: visible cells are exactly the listed ones, and one more cell is hidden |
| Generator.HidingAfterHide | src/generator.cpp:49-55 | a hide the solver accepts keeps the loop invariant and adds one hidden cell |
| Generator.HidingAfterRollback | src/generator.cpp:55-60 | a rolled-back hide keeps the loop invariant with the position moved to the front |
| Generator.HideOne | src/generator.cpp:49-60 | a round hides the last listed cell and is rolled back, position re-inserted at the front, exactly when the solver finds more than `solutions` boards; the invariant holds after it and at most one more cell is hidden |
| Generator.Fixed | src/generator.cpp:64 | the board with every cell holding a value marked fixed |
| Generator.FixedProperties | src/generator.cpp:64 | fixing keeps every value, marks fixed exactly the cells already fixed or holding a value, and reset leaves a fixed board as it is |
| Generator.FixVisible | src/generator.cpp:64 | the loop marks fixed every cell holding a value and changes nothing else |
| Generator.ShuffledPositions | src/generator.cpp:44-46 | the shuffled positions list every cell 0..80 exactly once |
| Generator.HideCells | src/generator.cpp:48-61 | the hiding loop keeps its invariant and, when it ends, exactly hidden_numbers cells are hidden |
| Generator.PuzzleOfHiding | src/generator.cpp:48-64 | the board the loop leaves has the filled board as a solution, and once fixed it has fixed flags exactly on its visible cells and the same hidden count |
| Generator.GenerateBoard | src/generator.cpp:40-67 | the result holds exactly hidden_numbers hidden cells, its visible cells are those of the filled board and exactly they are fixed, and the solver asked for solutions + 1 boards found at most `solutions` unless nothing was hidden; no board comes back exactly when fill_board's solver finds none |
| Generator.AcceptedPuzzleSolutions | include/generator.h:24-31 | for solutions >= 1, the generated puzzle has between 1 and `solutions` boards from the solver, and they cover every solution by value |
| Generator.AcceptedPuzzleIsUnique | include/generator.h:15-20 | with solutions = 1 every solution of the generated puzzle holds the values of the filled board |
| Generator.NewGameSolution | src/sudoku.cpp:80-85 | for a board from generate_board(_, 1), solve(board, max) returns exactly one board for every max, holding the values of the filled board: new_game's solve(board, 100) has that board as front(), and solve(board, 2) returns exactly one board |
| Generator.ZeroSolutionsRollsBackEveryHide | src/generator.cpp:55-60 | with solutions = 0 the solver still finds a board after any hide, so every hide is rolled back |

## Left out

- XML input and output are not modelled: libxml document reading and writing, node walking, file paths and the asserts on failure. `Boards.Board.Load` takes the text of the two blocks, givens first, and `Boards.Board.Save` returns the two block texts.
- Boards.Board.Load: requires at most 81 digits per block, because the code writes past the 81-cell array on more.
- `Board::print` is console output and is not modelled.
- The board `id` is not modelled, and neither is the id stamping of `Board()`. That constructor's body is not part of this model, so the default constructor models only the default cells.
- The clock-seeded random engine is replaced by caller-supplied draws. `Random.RandInt` reduces a draw into range, so the model does not capture the distribution of values.
- Generator.GenerateBoard: the hiding loop has no bound in the code. The model runs it for at most `fuel` rounds and answers OutOfFuel after that, so termination is not claimed.
- Generator.FillBoard: fill_board takes `front()` of the solver's list, which would be undefined on an empty list. The model returns None there. It does not prove that the seeded board always has a completion.
- Generator.GenerateBoard: the header comment "number of solutions of the board" (include/generator.h:27) is stated as what the code checks. The solver, asked for solutions + 1 boards, found at most `solutions`. For solutions >= 1 that means between 1 and `solutions` solutions by value (`Generator.AcceptedPuzzleSolutions`), not exactly `solutions`.
- Generator.GenerateBoard: requires only hidden_numbers <= 81, which keeps `positions.back()` off an empty list. The header's guidance of at least 24 visible numbers is about whether the hiding loop can finish: once every remaining visible cell is needed for the solution bound, each hide is rolled back and the loop runs forever (with solutions = 1 and fewer than 17 visible cells this always happens, as no such puzzle has a unique solution). The model claims no termination (`fuel`, OutOfFuel), so hidden_numbers <= 81 is all that its proofs need.
- Cell values are unbounded naturals rather than 32-bit unsigned. The engine only stores 0..9 through its own paths, so no wrap-around of cell values is modelled. The one unsigned wrap that matters, `solutions + 1`, is modelled by `Generator.Cap`.
- The boards in the solver's result list are cell snapshots (sequences of cells), not Board objects. Copying and comparing a board takes such a snapshot, so aliasing between the listed boards is not modelled.
- The recursive `solve` is declared with `Board &` in the header but defined with a by-value `Board` parameter. The model follows the definition: each recursive call works on its own copy.
- The GTK user interface, configuration, players, file lists and the older board declaration in the Sudoku header are not modelled. They are outside the engine.

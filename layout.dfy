/** The cell record and the board layout of the 9x9 Sudoku board:
    81 cells in row-major order, cell (x, y) stored at index y * 9 + x. */
module Layout {

  /** One board position. `value` 0 is an empty cell; `fixed` marks a given
      that the algorithms must not change. */
  datatype Cell = Cell(value: nat, fixed: bool)

  /** A default-constructed cell: empty and not fixed. */
  const DefaultCell: Cell := Cell(0, false)

  /** The cells of a board, row-major. */
  type Grid = seq<Cell>

  datatype Option<T> = None | Some(value: T)

  /** Position of cell (x, y) in the row-major storage; it is a bijection
      between the 9x9 coordinates and 0..80. */
  function Index(x: nat, y: nat): (i: nat)
    requires x < 9 && y < 9
    ensures i < 81 && i % 9 == x && i / 9 == y
  {
    y * 9 + x
  }

  lemma IndexOfCoordinates(i: nat)
    requires i < 81
    ensures i % 9 < 9 && i / 9 < 9 && Index(i % 9, i / 9) == i
  {
  }

  /** Board::get: the cell at (x, y). */
  function Get(g: Grid, x: nat, y: nat): Cell
    requires |g| == 81 && x < 9 && y < 9
  {
    g[Index(x, y)]
  }

  /** Board::set on the cell sequence: replaces the cell at (x, y). */
  function SetCell(g: Grid, x: nat, y: nat, c: Cell): (h: Grid)
    requires |g| == 81 && x < 9 && y < 9
    ensures |h| == 81
  {
    g[Index(x, y) := c]
  }

  /** After a set, get at the same coordinates returns the new cell and
      every other coordinate still returns its old cell. */
  lemma GetAfterSet(g: Grid, x: nat, y: nat, c: Cell, x': nat, y': nat)
    requires |g| == 81 && x < 9 && y < 9 && x' < 9 && y' < 9
    ensures Get(SetCell(g, x, y, c), x', y') == if x == x' && y == y' then c else Get(g, x', y')
  {
    if x != x' || y != y' {
      assert Index(x, y) != Index(x', y') by {
        assert Index(x, y) % 9 == x && Index(x', y') % 9 == x';
        assert Index(x, y) / 9 == y && Index(x', y') / 9 == y';
      }
    }
  }
}

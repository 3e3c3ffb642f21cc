/**
 * The collision oracle: three read-only scans of a 4×4 pattern placed with
 * its top-left corner at world column x and world row y (rows grow
 * downwards, the visible field is rows 0..19 and columns 0..9).
 */
module Collision {
  import opened Catalogue

  /** The playfield: rows of cell codes. */
  type Grid = seq<seq<int>>

  const Height: nat := 20
  const Width: nat := 10

  /** Exactly 20 rows, each of exactly 10 cells. */
  predicate IsGrid(g: Grid) {
    |g| == Height && forall r :: 0 <= r < Height ==> |g[r]| == Width
  }

  /** Every non-empty cell of the pattern lands in a column 0..9. */
  predicate ColumnsFit(p: Pattern, x: int)
    requires IsPattern(p)
  {
    forall r, c :: 0 <= r < 4 && 0 <= c < 4 && p[r][c] > 0 ==> 0 <= c + x < Width
  }

  /** No non-empty cell of the pattern lands below the floor (row 19). */
  predicate AboveFloor(p: Pattern, y: int)
    requires IsPattern(p)
  {
    forall r, c :: 0 <= r < 4 && 0 <= c < 4 && p[r][c] > 0 ==> r + y < Height
  }

  // ---- collideGrid --------------------------------------------------------

  /** The bounds test of one cell: non-empty and below the floor or beside a wall. */
  predicate OffField(p: Pattern, x: int, y: int, row: int, col: int)
    requires IsPattern(p) && 0 <= row < 4 && 0 <= col < 4
  {
    p[row][col] > 0 && (row + y > 19 || col + x < 0 || col + x > 9)
  }

  /** The inner loop of collideGrid: columns col..3 of one pattern row. */
  function OffFieldInRow(p: Pattern, x: int, y: int, row: int, col: int): (b: bool)
    requires IsPattern(p) && 0 <= row < 4 && 0 <= col <= 4
    ensures b <==> exists c :: col <= c < 4 && OffField(p, x, y, row, c)
    decreases 4 - col
  {
    if col == 4 then false
    else OffField(p, x, y, row, col) || OffFieldInRow(p, x, y, row, col + 1)
  }

  /** The outer loop of collideGrid: pattern rows row..3. */
  function OffFieldFrom(p: Pattern, x: int, y: int, row: int): (b: bool)
    requires IsPattern(p) && 0 <= row <= 4
    ensures b <==> exists r, c :: row <= r < 4 && 0 <= c < 4 && OffField(p, x, y, r, c)
    decreases 4 - row
  {
    if row == 4 then false
    else OffFieldInRow(p, x, y, row, 0) || OffFieldFrom(p, x, y, row + 1)
  }

  /** collideGrid: the piece does not fit the field's walls and floor. */
  function CollideGrid(p: Pattern, x: int, y: int): (b: bool)
    requires IsPattern(p)
    ensures !b <==> ColumnsFit(p, x) && AboveFloor(p, y)
  {
    var b := OffFieldFrom(p, x, y, 0);
    assert b ==> !(ColumnsFit(p, x) && AboveFloor(p, y));
    b
  }

  /** collideGrid fires exactly when a non-empty cell lands below row 19 or outside columns 0..9. */
  lemma CollideGridCells(p: Pattern, x: int, y: int)
    requires IsPattern(p)
    ensures CollideGrid(p, x, y) <==>
      exists r, c :: 0 <= r < 4 && 0 <= c < 4 && p[r][c] > 0 && (r + y > 19 || c + x < 0 || c + x > 9)
  {
    assert CollideGrid(p, x, y) == OffFieldFrom(p, x, y, 0);
  }

  // ---- collideShape -------------------------------------------------------

  /**
   * The locked-cell test of one cell: non-empty and either below the floor,
   * or in a row > 0 on a non-empty grid cell. Row 0 and the rows above it
   * are never looked up.
   */
  predicate HitsLocked(g: Grid, p: Pattern, x: int, y: int, row: int, col: int)
    requires IsGrid(g) && IsPattern(p) && ColumnsFit(p, x)
    requires 0 <= row < 4 && 0 <= col < 4
  {
    p[row][col] > 0 && (row + y > 19 || (row + y > 0 && g[row + y][col + x] > 0))
  }

  /** The inner loop of collideShape: columns col..3 of one pattern row. */
  function HitsLockedInRow(g: Grid, p: Pattern, x: int, y: int, row: int, col: int): (b: bool)
    requires IsGrid(g) && IsPattern(p) && ColumnsFit(p, x)
    requires 0 <= row < 4 && 0 <= col <= 4
    decreases 4 - col
  {
    if col == 4 then false
    else HitsLocked(g, p, x, y, row, col) || HitsLockedInRow(g, p, x, y, row, col + 1)
  }

  /** The outer loop of collideShape: pattern rows row..3. */
  function HitsLockedFrom(g: Grid, p: Pattern, x: int, y: int, row: int): (b: bool)
    requires IsGrid(g) && IsPattern(p) && ColumnsFit(p, x)
    requires 0 <= row <= 4
    decreases 4 - row
  {
    if row == 4 then false
    else HitsLockedInRow(g, p, x, y, row, 0) || HitsLockedFrom(g, p, x, y, row + 1)
  }

  lemma {:induction false} HitsLockedInRowCells(g: Grid, p: Pattern, x: int, y: int, row: int, col: int)
    requires IsGrid(g) && IsPattern(p) && ColumnsFit(p, x)
    requires 0 <= row < 4 && 0 <= col <= 4
    ensures HitsLockedInRow(g, p, x, y, row, col) <==> exists c :: col <= c < 4 && HitsLocked(g, p, x, y, row, c)
    decreases 4 - col
  {
    if col < 4 {
      HitsLockedInRowCells(g, p, x, y, row, col + 1);
    }
  }

  lemma {:induction false} HitsLockedFromCells(g: Grid, p: Pattern, x: int, y: int, row: int)
    requires IsGrid(g) && IsPattern(p) && ColumnsFit(p, x)
    requires 0 <= row <= 4
    ensures HitsLockedFrom(g, p, x, y, row) <==> exists r, c :: row <= r < 4 && 0 <= c < 4 && HitsLocked(g, p, x, y, r, c)
    decreases 4 - row
  {
    if row < 4 {
      HitsLockedInRowCells(g, p, x, y, row, 0);
      HitsLockedFromCells(g, p, x, y, row + 1);
    }
  }

  /**
   * collideShape, on a piece whose columns fit the field (the source indexes
   * the grid without a column check). A piece it lets pass lies above the
   * floor.
   */
  function CollideShape(g: Grid, p: Pattern, x: int, y: int): (b: bool)
    requires IsGrid(g) && IsPattern(p) && ColumnsFit(p, x)
    ensures !b ==> AboveFloor(p, y)
  {
    var b := HitsLockedFrom(g, p, x, y, 0);
    assert !b ==> AboveFloor(p, y) by {
      HitsLockedFromCells(g, p, x, y, 0);
      if !b {
        forall r, c | 0 <= r < 4 && 0 <= c < 4 && p[r][c] > 0
          ensures r + y < Height
        {
          assert !HitsLocked(g, p, x, y, r, c);
        }
      }
    }
    b
  }

  /**
   * collideShape fires exactly when a non-empty cell lands below row 19, or
   * lands in a row greater than 0 on a locked (non-empty) cell.
   */
  lemma CollideShapeCells(g: Grid, p: Pattern, x: int, y: int)
    requires IsGrid(g) && IsPattern(p) && ColumnsFit(p, x)
    ensures CollideShape(g, p, x, y) <==>
      exists r, c :: 0 <= r < 4 && 0 <= c < 4 && p[r][c] > 0 &&
                     (r + y > 19 || (r + y > 0 && g[r + y][c + x] > 0))
  {
    HitsLockedFromCells(g, p, x, y, 0);
  }

  // ---- collideAll ---------------------------------------------------------

  /**
   * collideAll: the bounds test or the locked-cell test. The bounds test is
   * evaluated first so that the grid is only looked up in columns 0..9; the
   * result is the source's `collideShape || collideGrid` wherever that is
   * defined. When it is false the piece fits the walls and the floor.
   */
  function CollideAll(g: Grid, p: Pattern, x: int, y: int): (b: bool)
    requires IsGrid(g) && IsPattern(p)
    ensures ColumnsFit(p, x) ==> (b <==> CollideShape(g, p, x, y) || CollideGrid(p, x, y))
    ensures !b ==> ColumnsFit(p, x) && AboveFloor(p, y) && !CollideShape(g, p, x, y)
  {
    CollideGrid(p, x, y) || CollideShape(g, p, x, y)
  }

  /** Locked cells in row 0 are never reported: changing row 0 changes no verdict. */
  lemma RowZeroExempt(g: Grid, row: seq<int>, p: Pattern, x: int, y: int)
    requires IsGrid(g) && |row| == Width && IsPattern(p) && ColumnsFit(p, x)
    ensures IsGrid(g[0 := row])
    ensures CollideShape(g[0 := row], p, x, y) == CollideShape(g, p, x, y)
  {
    var h := g[0 := row];
    CollideShapeCells(g, p, x, y);
    CollideShapeCells(h, p, x, y);
    forall r, c | 0 <= r < 4 && 0 <= c < 4 && r + y > 0 && r + y < Height && p[r][c] > 0
      ensures h[r + y][c + x] == g[r + y][c + x]
    {
    }
  }

  /**
   * A piece whose non-empty cells all lie in rows y+0..y+3 with y+3 <= 0 only
   * touches rows at or above row 0, so it never collides with locked cells.
   */
  lemma HighPieceNeverCollides(g: Grid, p: Pattern, x: int, y: int)
    requires IsGrid(g) && IsPattern(p) && ColumnsFit(p, x)
    requires forall r, c :: 0 <= r < 4 && 0 <= c < 4 && p[r][c] > 0 ==> r + y <= 0
    ensures !CollideShape(g, p, x, y)
  {
    CollideShapeCells(g, p, x, y);
  }
}

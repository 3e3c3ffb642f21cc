/**
 * The playfield as a value: locking a piece into it (the scan of
 * placeShape) and finding and collapsing full rows (clearLines). The game
 * class in module Tetris runs the source's loops and is proved to compute
 * these functions.
 */
module Playfield {
  import opened Catalogue
  import opened Collision

  /** Every cell of the grid holds a code in 0..7. */
  predicate GridCodesOk(g: Grid)
    requires IsGrid(g)
  {
    forall r, c :: 0 <= r < Height && 0 <= c < Width ==> 0 <= g[r][c] <= 7
  }

  /** The empty row (`zeroes`). */
  const EmptyRow: seq<int> := [0, 0, 0, 0, 0, 0, 0, 0, 0, 0]

  /** k empty rows. */
  function Zeros(k: nat): (z: seq<seq<int>>)
    ensures |z| == k && forall i :: 0 <= i < k ==> z[i] == EmptyRow
  {
    seq(k, _ => EmptyRow)
  }

  /** One more empty row on top is one more empty row. */
  lemma ZerosGrow(k: nat)
    ensures [EmptyRow] + Zeros(k) == Zeros(k + 1)
  {
    assert forall i :: 0 <= i < k + 1 ==> ([EmptyRow] + Zeros(k))[i] == EmptyRow;
  }

  /** The grid of initGrid: 20 empty rows. */
  function EmptyGrid(): (g: Grid)
    ensures IsGrid(g) && GridCodesOk(g)
    ensures forall r, c :: 0 <= r < Height && 0 <= c < Width ==> g[r][c] == 0
  {
    Zeros(Height)
  }

  // ---- locking a piece ----------------------------------------------------

  /** The outcome of placeShape: every cell written, or game over. */
  datatype PlaceResult = Locked(grid: Grid) | Overflow(grid: Grid)

  /** One write `grid[r][c] = v`. */
  function Write(g: Grid, r: int, c: int, v: int): (h: Grid)
    requires IsGrid(g) && 0 <= r < Height && 0 <= c < Width
    ensures IsGrid(h)
  {
    g[r := g[r][c := v]]
  }

  /**
   * The scan of placeShape from pattern cell (row, col) on, in row-major
   * order: a non-empty cell whose world row is negative stops the scan with
   * game over, leaving the grid as it stands; any other non-empty cell is
   * written; col == 4 ends a pattern row.
   */
  function PlaceFrom(g: Grid, p: Pattern, x: int, y: int, row: int, col: int): (res: PlaceResult)
    requires IsGrid(g) && IsPattern(p) && ColumnsFit(p, x) && AboveFloor(p, y)
    requires 0 <= row <= 4 && 0 <= col <= 4
    ensures IsGrid(res.grid)
    decreases 4 - row, 4 - col
  {
    if row == 4 then Locked(g)
    else if col == 4 then PlaceFrom(g, p, x, y, row + 1, 0)
    else if p[row][col] > 0 then
      if row + y < 0 then Overflow(g)
      else PlaceFrom(Write(g, row + y, col + x, p[row][col]), p, x, y, row, col + 1)
    else PlaceFrom(g, p, x, y, row, col + 1)
  }

  /** placeShape's scan over the whole pattern. */
  function Place(g: Grid, p: Pattern, x: int, y: int): (res: PlaceResult)
    requires IsGrid(g) && IsPattern(p) && ColumnsFit(p, x) && AboveFloor(p, y)
  {
    PlaceFrom(g, p, x, y, 0, 0)
  }

  /** Pattern cell (i, j) comes before cell (row, col) in the scan. */
  predicate Before(i: int, j: int, row: int, col: int) {
    i < row || (i == row && j < col)
  }

  /** Some non-empty cell of the pattern lands in a row above the field. */
  predicate AnyAbove(p: Pattern, y: int)
    requires IsPattern(p)
  {
    exists i, j :: 0 <= i < 4 && 0 <= j < 4 && p[i][j] > 0 && i + y < 0
  }

  /** No non-empty cell scanned before (row, col) lands above the field. */
  predicate NoneAboveBefore(p: Pattern, y: int, row: int, col: int)
    requires IsPattern(p)
  {
    forall i, j :: 0 <= i < 4 && 0 <= j < 4 && Before(i, j, row, col) && p[i][j] > 0 ==> i + y >= 0
  }

  /** World cell (r, c) is covered by a non-empty pattern cell scanned before (row, col). */
  predicate Covered(p: Pattern, x: int, y: int, r: int, c: int, row: int, col: int)
    requires IsPattern(p)
  {
    0 <= r - y < 4 && 0 <= c - x < 4 && Before(r - y, c - x, row, col) && p[r - y][c - x] > 0
  }

  /** The grid with the non-empty pattern cells scanned before (row, col) written in. */
  function Partial(g: Grid, p: Pattern, x: int, y: int, row: int, col: int): (h: Grid)
    requires IsGrid(g) && IsPattern(p)
    ensures IsGrid(h)
  {
    seq(Height, r requires 0 <= r < Height =>
      seq(Width, c requires 0 <= c < Width =>
        if Covered(p, x, y, r, c, row, col) then p[r - y][c - x] else g[r][c]))
  }

  /** The grid with every non-empty pattern cell written in. */
  function Stamp(g: Grid, p: Pattern, x: int, y: int): (h: Grid)
    requires IsGrid(g) && IsPattern(p)
  {
    Partial(g, p, x, y, 4, 0)
  }

  /** Two grids are equal when their 200 cells are. */
  lemma GridCellwiseEqual(g: Grid, h: Grid)
    requires IsGrid(g) && IsGrid(h)
    requires forall r, c :: 0 <= r < Height && 0 <= c < Width ==> g[r][c] == h[r][c]
    ensures g == h
  {
    forall r | 0 <= r < Height
      ensures g[r] == h[r]
    {
      assert forall c :: 0 <= c < Width ==> g[r][c] == h[r][c];
    }
  }

  /** Writing the non-empty, in-field cell (row, col) extends the partial grid by that cell. */
  lemma PartialWrite(g: Grid, p: Pattern, x: int, y: int, row: int, col: int)
    requires IsGrid(g) && IsPattern(p) && ColumnsFit(p, x) && AboveFloor(p, y)
    requires 0 <= row < 4 && 0 <= col < 4 && p[row][col] > 0 && row + y >= 0
    ensures Write(Partial(g, p, x, y, row, col), row + y, col + x, p[row][col]) == Partial(g, p, x, y, row, col + 1)
  {
    GridCellwiseEqual(Write(Partial(g, p, x, y, row, col), row + y, col + x, p[row][col]), Partial(g, p, x, y, row, col + 1));
  }

  /** An empty cell (row, col) changes nothing. */
  lemma PartialSkip(g: Grid, p: Pattern, x: int, y: int, row: int, col: int)
    requires IsGrid(g) && IsPattern(p)
    requires 0 <= row < 4 && 0 <= col < 4 && p[row][col] <= 0
    ensures Partial(g, p, x, y, row, col) == Partial(g, p, x, y, row, col + 1)
  {
    GridCellwiseEqual(Partial(g, p, x, y, row, col), Partial(g, p, x, y, row, col + 1));
  }

  /** The end of a pattern row is the start of the next one. */
  lemma PartialRowEnd(g: Grid, p: Pattern, x: int, y: int, row: int)
    requires IsGrid(g) && IsPattern(p) && 0 <= row < 4
    ensures Partial(g, p, x, y, row, 4) == Partial(g, p, x, y, row + 1, 0)
  {
    GridCellwiseEqual(Partial(g, p, x, y, row, 4), Partial(g, p, x, y, row + 1, 0));
  }

  /** Past the last pattern row every non-empty cell is written. */
  lemma PartialDone(g: Grid, p: Pattern, x: int, y: int, col: int)
    requires IsGrid(g) && IsPattern(p)
    ensures Partial(g, p, x, y, 4, col) == Stamp(g, p, x, y)
  {
    GridCellwiseEqual(Partial(g, p, x, y, 4, col), Stamp(g, p, x, y));
  }

  /**
   * When the scan reaches a non-empty cell above the field, every non-empty
   * cell scanned before lies in a row at or above it, hence above the field
   * as well, so nothing has been written.
   */
  lemma PartialUntouched(g: Grid, p: Pattern, x: int, y: int, row: int, col: int)
    requires IsGrid(g) && IsPattern(p)
    requires 0 <= row < 4 && 0 <= col < 4 && row + y < 0
    ensures Partial(g, p, x, y, row, col) == g
  {
    GridCellwiseEqual(Partial(g, p, x, y, row, col), g);
  }

  /**
   * The scan, resumed at (row, col) on the partially written grid, ends in
   * game over with the ORIGINAL grid when any non-empty cell lies above the
   * field, and otherwise writes every non-empty cell.
   */
  lemma {:induction false} PlaceFromPartial(g: Grid, p: Pattern, x: int, y: int, row: int, col: int)
    requires IsGrid(g) && IsPattern(p) && ColumnsFit(p, x) && AboveFloor(p, y)
    requires 0 <= row <= 4 && 0 <= col <= 4
    requires NoneAboveBefore(p, y, row, col)
    ensures PlaceFrom(Partial(g, p, x, y, row, col), p, x, y, row, col)
         == if AnyAbove(p, y) then Overflow(g) else Locked(Stamp(g, p, x, y))
    decreases 4 - row, 4 - col
  {
    if row == 4 {
      PartialDone(g, p, x, y, col);
    } else if col == 4 {
      PartialRowEnd(g, p, x, y, row);
      PlaceFromPartial(g, p, x, y, row + 1, 0);
    } else if p[row][col] > 0 {
      if row + y < 0 {
        PartialUntouched(g, p, x, y, row, col);
      } else {
        PartialWrite(g, p, x, y, row, col);
        PlaceFromPartial(g, p, x, y, row, col + 1);
      }
    } else {
      PartialSkip(g, p, x, y, row, col);
      PlaceFromPartial(g, p, x, y, row, col + 1);
    }
  }

  /**
   * placeShape's outcome. When a non-empty cell maps to a row < 0 the result
   * is game over and the grid is the one before the call, because the scan is
   * top-down and the topmost non-empty row gives up first. Otherwise every
   * non-empty pattern cell is written at its world position and every other
   * cell keeps its value.
   */
  lemma PlaceSpec(g: Grid, p: Pattern, x: int, y: int)
    requires IsGrid(g) && IsPattern(p) && ColumnsFit(p, x) && AboveFloor(p, y)
    ensures AnyAbove(p, y) <==> Place(g, p, x, y).Overflow?
    ensures AnyAbove(p, y) ==> Place(g, p, x, y).grid == g
    ensures !AnyAbove(p, y) ==>
      forall r, c :: 0 <= r < Height && 0 <= c < Width ==>
        Place(g, p, x, y).grid[r][c] ==
          if 0 <= r - y < 4 && 0 <= c - x < 4 && p[r - y][c - x] > 0 then p[r - y][c - x] else g[r][c]
  {
    GridCellwiseEqual(Partial(g, p, x, y, 0, 0), g);
    PlaceFromPartial(g, p, x, y, 0, 0);
  }

  /** Locking keeps every grid code in 0..7. */
  lemma PlaceKeepsCodes(g: Grid, p: Pattern, x: int, y: int)
    requires IsGrid(g) && IsPattern(p) && ColumnsFit(p, x) && AboveFloor(p, y)
    requires GridCodesOk(g) && CodesOk(p)
    ensures GridCodesOk(Place(g, p, x, y).grid)
  {
    PlaceSpec(g, p, x, y);
  }

  // ---- full rows ----------------------------------------------------------

  /** A row is full when every cell is non-empty (`all_of(..., c > '0')`). */
  predicate Full(row: seq<int>) {
    forall c :: 0 <= c < |row| ==> row[c] > 0
  }

  /**
   * The indices of the full rows among the first n rows, in ascending
   * order: the `cleared` vector of clearLines after n steps of its first loop.
   */
  function FullRowsUpTo(g: seq<seq<int>>, n: nat): (rows: seq<int>)
    requires n <= |g|
    ensures forall i :: 0 <= i < |rows| ==> 0 <= rows[i] < n && Full(g[rows[i]])
    ensures forall i, j :: 0 <= i < j < |rows| ==> rows[i] < rows[j]
    ensures forall r :: 0 <= r < n && Full(g[r]) ==> r in rows
  {
    if n == 0 then []
    else
      var earlier := FullRowsUpTo(g, n - 1);
      var rows := earlier + (if Full(g[n - 1]) then [n - 1] else []);
      assert forall i :: 0 <= i < |earlier| ==> rows[i] == earlier[i];
      rows
  }

  /** The indices of all full rows, in ascending order. */
  function FullRows(g: seq<seq<int>>): (rows: seq<int>)
    ensures forall i :: 0 <= i < |rows| ==> 0 <= rows[i] < |g| && Full(g[rows[i]])
    ensures forall i, j :: 0 <= i < j < |rows| ==> rows[i] < rows[j]
    ensures forall r :: 0 <= r < |g| && Full(g[r]) ==> r in rows
  {
    FullRowsUpTo(g, |g|)
  }

  /** The rows among the first n that are not full, in their original order. */
  function NonFullUpTo(g: seq<seq<int>>, n: nat): (kept: seq<seq<int>>)
    requires n <= |g|
  {
    if n == 0 then []
    else NonFullUpTo(g, n - 1) + (if Full(g[n - 1]) then [] else [g[n - 1]])
  }

  /** The rows that are not full, in their original order. */
  function NonFull(g: seq<seq<int>>): (kept: seq<seq<int>>)
  {
    NonFullUpTo(g, |g|)
  }

  /** The grid after clearLines: one empty row per full row, then the rest in order. */
  function Cleared(g: seq<seq<int>>): (h: seq<seq<int>>)
  {
    Zeros(|FullRows(g)|) + NonFull(g)
  }

  /** Among the first n rows, the full ones and the others together make up n rows. */
  lemma {:induction false} RowsSplitUpTo(g: seq<seq<int>>, n: nat)
    requires n <= |g|
    ensures |FullRowsUpTo(g, n)| + |NonFullUpTo(g, n)| == n
    ensures forall i :: 0 <= i < |NonFullUpTo(g, n)| ==> NonFullUpTo(g, n)[i] in g && !Full(NonFullUpTo(g, n)[i])
  {
    if n > 0 {
      RowsSplitUpTo(g, n - 1);
    }
  }

  /** The full rows and the other rows together make up the grid. */
  lemma RowsSplit(g: seq<seq<int>>)
    ensures |FullRows(g)| + |NonFull(g)| == |g|
    ensures forall i :: 0 <= i < |NonFull(g)| ==> NonFull(g)[i] in g && !Full(NonFull(g)[i])
  {
    RowsSplitUpTo(g, |g|);
  }

  /** The filter of the first n rows only looks at those rows. */
  lemma {:induction false} NonFullPrefix(g: seq<seq<int>>, h: seq<seq<int>>, n: nat)
    requires n <= |g| && n <= |h|
    requires forall i :: 0 <= i < n ==> g[i] == h[i]
    ensures NonFullUpTo(g, n) == NonFullUpTo(h, n)
  {
    if n > 0 {
      NonFullPrefix(g, h, n - 1);
    }
  }

  /** Filtering a + b, up to |a| + k rows, is filtering a, then the first k rows of b. */
  lemma {:induction false} NonFullAppendUpTo(a: seq<seq<int>>, b: seq<seq<int>>, k: nat)
    requires k <= |b|
    ensures NonFullUpTo(a + b, |a| + k) == NonFull(a) + NonFullUpTo(b, k)
  {
    if k == 0 {
      NonFullPrefix(a + b, a, |a|);
    } else {
      NonFullAppendUpTo(a, b, k - 1);
      assert (a + b)[|a| + k - 1] == b[k - 1];
    }
  }

  /** Filtering distributes over concatenation. */
  lemma NonFullAppend(a: seq<seq<int>>, b: seq<seq<int>>)
    ensures NonFull(a + b) == NonFull(a) + NonFull(b)
  {
    NonFullAppendUpTo(a, b, |b|);
  }

  /** Erasing a full row leaves the non-full rows as they were. */
  lemma EraseFull(g: seq<seq<int>>, i: int)
    requires 0 <= i < |g| && Full(g[i])
    ensures NonFull(g[..i] + g[i + 1..]) == NonFull(g)
  {
    var front, row, back := g[..i], [g[i]], g[i + 1..];
    assert g == (front + row) + back;
    assert NonFull(row) == [] by {
      assert NonFullUpTo(row, 0) == [];
    }
    calc {
      NonFull(g);
      { NonFullAppend(front + row, back); }
      NonFull(front + row) + NonFull(back);
      { NonFullAppend(front, row); }
      NonFull(front) + NonFull(back);
      { NonFullAppend(front, back); }
      NonFull(front + back);
    }
  }

  /** Without full rows among the first n, the filter keeps all n rows. */
  lemma {:induction false} NoFullUpTo(g: seq<seq<int>>, n: nat)
    requires n <= |g|
    requires forall i :: 0 <= i < n ==> !Full(g[i])
    ensures NonFullUpTo(g, n) == g[..n]
  {
    if n > 0 {
      NoFullUpTo(g, n - 1);
      assert g[..n] == g[..n - 1] + [g[n - 1]];
    }
  }

  /** A grid without full rows is its own filter. */
  lemma NoFullIsFixed(g: seq<seq<int>>)
    requires forall i :: 0 <= i < |g| ==> !Full(g[i])
    ensures NonFull(g) == g
  {
    NoFullUpTo(g, |g|);
    assert g[..|g|] == g;
  }

  /**
   * clearLines' result: 20 rows of 10 cells, no row full, the first k rows
   * empty where k is the number of full rows, and the rows from k on are the
   * non-full rows kept in their original order.
   */
  lemma ClearedSpec(g: Grid)
    requires IsGrid(g)
    ensures var k := |FullRows(g)|;
      IsGrid(Cleared(g)) &&
      (forall r :: 0 <= r < Height ==> !Full(Cleared(g)[r])) &&
      (forall r :: 0 <= r < k ==> Cleared(g)[r] == EmptyRow) &&
      Cleared(g)[k..] == NonFull(g)
  {
    RowsSplit(g);
    var k := |FullRows(g)|;
    var h := Cleared(g);
    assert h[k..] == NonFull(g);
    forall r | 0 <= r < Height
      ensures |h[r]| == Width && !Full(h[r])
    {
      if r < k {
        assert h[r] == EmptyRow && EmptyRow[0] == 0;
      } else {
        assert h[r] == NonFull(g)[r - k];
      }
    }
  }

  /** The empty grid has no full row, so clearLines leaves it as it is. */
  lemma ClearedEmpty()
    ensures FullRows(EmptyGrid()) == [] && Cleared(EmptyGrid()) == EmptyGrid()
  {
    var g := EmptyGrid();
    forall r | 0 <= r < Height
      ensures !Full(g[r])
    {
      assert g[r][0] == 0;
    }
    NoFullIsFixed(g);
    RowsSplit(g);
  }

  /** clearLines keeps every code in 0..7. */
  lemma ClearedKeepsCodes(g: Grid)
    requires IsGrid(g) && GridCodesOk(g)
    ensures IsGrid(Cleared(g)) && GridCodesOk(Cleared(g))
  {
    ClearedSpec(g);
    RowsSplit(g);
    var k := |FullRows(g)|;
    var h := Cleared(g);
    forall r, c | 0 <= r < Height && 0 <= c < Width
      ensures 0 <= h[r][c] <= 7
    {
      if r >= k {
        assert h[r] == NonFull(g)[r - k];
        assert h[r] in g;
      }
    }
  }

  /**
   * NonFull is the reference "keep the non-full rows in order": row i of the
   * result is grid row m(i) for a strictly increasing index map m that hits
   * every non-full row.
   */
  lemma NonFullIsOrderedSelection(g: seq<seq<int>>) returns (m: seq<int>)
    ensures |m| == |NonFull(g)|
    ensures forall i :: 0 <= i < |m| ==> 0 <= m[i] < |g| && NonFull(g)[i] == g[m[i]]
    ensures forall i, j :: 0 <= i < j < |m| ==> m[i] < m[j]
    ensures forall r :: 0 <= r < |g| && !Full(g[r]) ==> r in m
  {
    m := SelectionUpTo(g, |g|);
  }

  /** NonFullIsOrderedSelection for the first n rows. */
  lemma {:induction false} SelectionUpTo(g: seq<seq<int>>, n: nat) returns (m: seq<int>)
    requires n <= |g|
    ensures |m| == |NonFullUpTo(g, n)|
    ensures forall i :: 0 <= i < |m| ==> 0 <= m[i] < n && NonFullUpTo(g, n)[i] == g[m[i]]
    ensures forall i, j :: 0 <= i < j < |m| ==> m[i] < m[j]
    ensures forall r :: 0 <= r < n && !Full(g[r]) ==> r in m
  {
    if n == 0 {
      m := [];
    } else {
      var earlier := SelectionUpTo(g, n - 1);
      var kept := NonFullUpTo(g, n - 1);
      if Full(g[n - 1]) {
        m := earlier;
        assert NonFullUpTo(g, n) == kept;
      } else {
        m := earlier + [n - 1];
        assert NonFullUpTo(g, n) == kept + [g[n - 1]];
        forall i | 0 <= i < |earlier|
          ensures m[i] == earlier[i] && NonFullUpTo(g, n)[i] == kept[i]
        {
        }
        forall r | 0 <= r < n - 1 && !Full(g[r])
          ensures r in m
        {
          assert r in earlier;
        }
      }
    }
  }
}

/**
 * The tetromino catalogue of the game: seven fixed 4×4 patterns of cell
 * codes, one per kind, where kind k is drawn with the code k + 1 and 0 is an
 * empty cell.
 */
module Catalogue {

  /** A 4×4 piece pattern, row by row. */
  type Pattern = seq<seq<int>>

  /** Number of tetromino kinds. */
  const KindCount: nat := 7

  /** A tetromino kind: an index into the catalogue. */
  type Kind = k: int | 0 <= k < 7

  predicate IsPattern(p: Pattern) {
    |p| == 4 && forall r :: 0 <= r < 4 ==> |p[r]| == 4
  }

  /** Every cell of the pattern holds a code in 0..7. */
  predicate CodesOk(p: Pattern)
    requires IsPattern(p)
  {
    forall r, c :: 0 <= r < 4 && 0 <= c < 4 ==> 0 <= p[r][c] <= 7
  }

  /** At least one cell of the pattern is non-empty. */
  predicate HasBlock(p: Pattern)
    requires IsPattern(p)
  {
    exists r, c :: 0 <= r < 4 && 0 <= c < 4 && p[r][c] > 0
  }

  /** 1 when a cell holds the code v, 0 otherwise. */
  function Hit(cell: int, v: int): (n: nat) {
    if cell == v then 1 else 0
  }

  /** Number of cells of one 4-cell row that hold the code v. */
  function RowCount(row: seq<int>, v: int): (n: nat)
    requires |row| == 4
  {
    Hit(row[0], v) + Hit(row[1], v) + Hit(row[2], v) + Hit(row[3], v)
  }

  /** Number of cells of a pattern that hold the code v. */
  function CountCode(p: Pattern, v: int): (n: nat)
    requires IsPattern(p)
  {
    RowCount(p[0], v) + RowCount(p[1], v) + RowCount(p[2], v) + RowCount(p[3], v)
  }

  /** The catalogue, in the order I, J, L, O, S, T, Z. */
  const Shapes: seq<Pattern> := [
    [[0, 0, 0, 0], [1, 1, 1, 1], [0, 0, 0, 0], [0, 0, 0, 0]],
    [[0, 0, 0, 0], [2, 2, 2, 0], [0, 0, 2, 0], [0, 0, 0, 0]],
    [[0, 0, 0, 0], [0, 3, 3, 3], [0, 3, 0, 0], [0, 0, 0, 0]],
    [[0, 0, 0, 0], [0, 4, 4, 0], [0, 4, 4, 0], [0, 0, 0, 0]],
    [[0, 0, 0, 0], [0, 5, 5, 0], [5, 5, 0, 0], [0, 0, 0, 0]],
    [[0, 0, 0, 0], [6, 6, 6, 0], [0, 6, 0, 0], [0, 0, 0, 0]],
    [[0, 0, 0, 0], [7, 7, 0, 0], [0, 7, 7, 0], [0, 0, 0, 0]]
  ]

  /** The catalogue pattern of one kind. */
  function Shape(k: Kind): (p: Pattern)
    ensures IsPattern(p) && CodesOk(p) && HasBlock(p)
  {
    assert Shapes[k][1][1] > 0;
    Shapes[k]
  }

  /**
   * Each catalogue pattern is 4×4 with exactly four cells of the code
   * kind + 1 and twelve empty ones (so no other code occurs); its top and
   * bottom rows are empty and its cell [1][1] is filled.
   */
  lemma ShapeCells(k: Kind)
    ensures IsPattern(Shape(k))
    ensures CountCode(Shape(k), k + 1) == 4
    ensures CountCode(Shape(k), 0) == 12
    ensures Shape(k)[0] == [0, 0, 0, 0] && Shape(k)[3] == [0, 0, 0, 0]
    ensures Shape(k)[1][1] == k + 1
  {
  }
}

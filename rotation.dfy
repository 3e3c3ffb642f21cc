/**
 * Rotation of a 4×4 piece pattern, as values. The in-place loops that the
 * game runs on the active piece are proved equal to these functions in
 * module Tetris (Player.Rotate).
 */
module Rotation {
  import opened Catalogue

  /** Swap rows and columns: cell [r][c] takes the old cell [c][r]. */
  function Transpose(p: Pattern): (t: Pattern)
    requires IsPattern(p)
    ensures IsPattern(t)
  {
    [[p[0][0], p[1][0], p[2][0], p[3][0]],
     [p[0][1], p[1][1], p[2][1], p[3][1]],
     [p[0][2], p[1][2], p[2][2], p[3][2]],
     [p[0][3], p[1][3], p[2][3], p[3][3]]]
  }

  /** Reverse every row: cell [r][c] takes the old cell [r][3 - c]. */
  function ReverseRows(p: Pattern): (t: Pattern)
    requires IsPattern(p)
    ensures IsPattern(t)
  {
    [[p[0][3], p[0][2], p[0][1], p[0][0]],
     [p[1][3], p[1][2], p[1][1], p[1][0]],
     [p[2][3], p[2][2], p[2][1], p[2][0]],
     [p[3][3], p[3][2], p[3][1], p[3][0]]]
  }

  /** A quarter turn clockwise: cell [r][c] takes the old cell [3 - c][r]. */
  function RotateCW(p: Pattern): (t: Pattern)
    requires IsPattern(p)
    ensures IsPattern(t)
  {
    [[p[3][0], p[2][0], p[1][0], p[0][0]],
     [p[3][1], p[2][1], p[1][1], p[0][1]],
     [p[3][2], p[2][2], p[1][2], p[0][2]],
     [p[3][3], p[2][3], p[1][3], p[0][3]]]
  }

  /** A quarter turn counter-clockwise: cell [r][c] takes the old cell [c][3 - r]. */
  function RotateCCW(p: Pattern): (t: Pattern)
    requires IsPattern(p)
    ensures IsPattern(t)
  {
    [[p[0][3], p[1][3], p[2][3], p[3][3]],
     [p[0][2], p[1][2], p[2][2], p[3][2]],
     [p[0][1], p[1][1], p[2][1], p[3][1]],
     [p[0][0], p[1][0], p[2][0], p[3][0]]]
  }

  /** A half turn: cell [r][c] takes the old cell [3 - r][3 - c]. */
  function HalfTurn(p: Pattern): (t: Pattern)
    requires IsPattern(p)
    ensures IsPattern(t)
  {
    [[p[3][3], p[3][2], p[3][1], p[3][0]],
     [p[2][3], p[2][2], p[2][1], p[2][0]],
     [p[1][3], p[1][2], p[1][1], p[1][0]],
     [p[0][3], p[0][2], p[0][1], p[0][0]]]
  }

  /** Two patterns are equal when their sixteen cells are. */
  lemma CellwiseEqual(p: Pattern, q: Pattern)
    requires IsPattern(p) && IsPattern(q)
    requires forall r, c :: 0 <= r < 4 && 0 <= c < 4 ==> p[r][c] == q[r][c]
    ensures p == q
  {
    forall r | 0 <= r < 4
      ensures p[r] == q[r]
    {
      assert forall c :: 0 <= c < 4 ==> p[r][c] == q[r][c];
    }
  }

  /** The clockwise turn is "transpose, then reverse each row". */
  lemma CWIsTransposeThenReverse(p: Pattern)
    requires IsPattern(p)
    ensures RotateCW(p) == ReverseRows(Transpose(p))
  {
    CellwiseEqual(RotateCW(p), ReverseRows(Transpose(p)));
  }

  /** The counter-clockwise turn is "reverse each row, then transpose". */
  lemma CCWIsReverseThenTranspose(p: Pattern)
    requires IsPattern(p)
    ensures RotateCCW(p) == Transpose(ReverseRows(p))
  {
    CellwiseEqual(RotateCCW(p), Transpose(ReverseRows(p)));
  }

  /** A counter-clockwise turn undoes a clockwise one. */
  lemma CCWUndoesCW(p: Pattern)
    requires IsPattern(p)
    ensures RotateCCW(RotateCW(p)) == p
  {
    CellwiseEqual(RotateCCW(RotateCW(p)), p);
  }

  /** A clockwise turn undoes a counter-clockwise one. */
  lemma CWUndoesCCW(p: Pattern)
    requires IsPattern(p)
    ensures RotateCW(RotateCCW(p)) == p
  {
    CellwiseEqual(RotateCW(RotateCCW(p)), p);
  }

  /** Two clockwise turns, and two counter-clockwise turns, are a half turn. */
  lemma TwoTurnsAreHalfTurn(p: Pattern)
    requires IsPattern(p)
    ensures RotateCW(RotateCW(p)) == HalfTurn(p)
    ensures RotateCCW(RotateCCW(p)) == HalfTurn(p)
  {
    CellwiseEqual(RotateCW(RotateCW(p)), HalfTurn(p));
    CellwiseEqual(RotateCCW(RotateCCW(p)), HalfTurn(p));
  }

  /** Four clockwise turns restore the pattern exactly, and so do four counter-clockwise ones. */
  lemma FourTurnsRestore(p: Pattern)
    requires IsPattern(p)
    ensures RotateCW(RotateCW(RotateCW(RotateCW(p)))) == p
    ensures RotateCCW(RotateCCW(RotateCCW(RotateCCW(p)))) == p
  {
    TwoTurnsAreHalfTurn(p);
    TwoTurnsAreHalfTurn(HalfTurn(p));
    CellwiseEqual(HalfTurn(HalfTurn(p)), p);
  }

  /** A turn keeps every code in 0..7 and keeps some cell non-empty. */
  lemma TurnsKeepCodes(p: Pattern)
    requires IsPattern(p)
    ensures CodesOk(p) ==> CodesOk(RotateCW(p)) && CodesOk(RotateCCW(p))
    ensures HasBlock(p) ==> HasBlock(RotateCW(p)) && HasBlock(RotateCCW(p))
  {
    if HasBlock(p) {
      var r, c :| 0 <= r < 4 && 0 <= c < 4 && p[r][c] > 0;
      assert RotateCW(p)[c][3 - r] == p[r][c];
      assert RotateCCW(p)[3 - c][r] == p[r][c];
    }
  }

  /** A turn moves cells without changing them: every code occurs as often as before. */
  lemma TurnsKeepCounts(p: Pattern, v: int)
    requires IsPattern(p)
    ensures CountCode(RotateCW(p), v) == CountCode(p, v)
    ensures CountCode(RotateCCW(p), v) == CountCode(p, v)
  {
    var q := RotateCW(p);
    var t := RotateCCW(p);
    forall r | 0 <= r < 4
      ensures RowCount(q[r], v) == Hit(p[0][r], v) + Hit(p[1][r], v) + Hit(p[2][r], v) + Hit(p[3][r], v)
      ensures RowCount(t[r], v) == Hit(p[0][3 - r], v) + Hit(p[1][3 - r], v) + Hit(p[2][3 - r], v) + Hit(p[3][3 - r], v)
    {
    }
  }
}

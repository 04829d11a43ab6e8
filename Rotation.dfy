// The quarter-turn applied to a piece's cells (Piece.ApplyRotationMatrix),
// with the rotation matrix taken as exactly [cos 90, sin 90; -sin 90, cos 90]
// = [0, 1; -1, 0]. The centrified branch shifts each offset by (-1/2, -1/2)
// and rounds up; doubling the coordinates keeps that in integers.

module Rotation {
  import opened Geometry
  import opened Pieces

  const RotationMatrix: seq<int> := [0, 1, -1, 0]

  /** Mathf.CeilToInt(n / 2) for an integer n. */
  function CeilHalf(n: int): (r: int)
    ensures 2 * r - 2 < n <= 2 * r
  {
    -((-n) / 2)
  }

  /** One offset under the matrix scaled by `direction`. A plain piece rounds
      an integer, which changes nothing; a centrified piece rotates
      (x - 1/2, y - 1/2) and rounds each coordinate up. */
  function RotateOffset(p: Vec, direction: int, centrified: bool): (r: Vec)
    ensures !centrified ==> r == Vec(direction * p.y, -direction * p.x)
    ensures centrified ==>
      r == Vec(CeilHalf(direction * (2 * p.y - 1)), CeilHalf(-direction * (2 * p.x - 1)))
  {
    var m := RotationMatrix;
    if !centrified then
      Vec(p.x * m[0] * direction + p.y * m[1] * direction,
          p.x * m[2] * direction + p.y * m[3] * direction)
    else
      var x2, y2 := 2 * p.x - 1, 2 * p.y - 1;
      Vec(CeilHalf(x2 * m[0] * direction + y2 * m[1] * direction),
          CeilHalf(x2 * m[2] * direction + y2 * m[3] * direction))
  }

  /** The integer formulas of each branch. */
  lemma RotateOffsetFormulas(p: Vec, direction: int)
    ensures RotateOffset(p, direction, false) == Vec(direction * p.y, -direction * p.x)
    ensures direction == 1 ==> RotateOffset(p, direction, true) == Vec(p.y, 1 - p.x)
    ensures direction == -1 ==> RotateOffset(p, direction, true) == Vec(1 - p.y, p.x)
  {
  }

  /** Turning one way and then the other restores every offset. */
  lemma RotateOffsetUndo(p: Vec, direction: int, centrified: bool)
    requires direction == 1 || direction == -1
    ensures RotateOffset(RotateOffset(p, direction, centrified), -direction, centrified) == p
  {
    RotateOffsetFormulas(p, direction);
    RotateOffsetFormulas(RotateOffset(p, direction, centrified), -direction);
  }

  /** Four quarter-turns in the same direction are the identity. */
  lemma RotateOffsetFourTimes(p: Vec, direction: int, centrified: bool)
    requires direction == 1 || direction == -1
    ensures var r1 := RotateOffset(p, direction, centrified);
            var r2 := RotateOffset(r1, direction, centrified);
            var r3 := RotateOffset(r2, direction, centrified);
            RotateOffset(r3, direction, centrified) == p
  {
    var r1 := RotateOffset(p, direction, centrified);
    var r2 := RotateOffset(r1, direction, centrified);
    var r3 := RotateOffset(r2, direction, centrified);
    RotateOffsetFormulas(p, direction);
    RotateOffsetFormulas(r1, direction);
    RotateOffsetFormulas(r2, direction);
    RotateOffsetFormulas(r3, direction);
  }

  /** Every cell of a piece rotated; tiles stay with their cells. */
  function RotateCells(cells: seq<ColoredCell>, direction: int, centrified: bool): (r: seq<ColoredCell>)
    ensures |r| == |cells|
    ensures forall i :: 0 <= i < |cells| ==>
      r[i].tile == cells[i].tile && r[i].position == RotateOffset(cells[i].position, direction, centrified)
  {
    seq(|cells|, i requires 0 <= i < |cells| =>
      cells[i].(position := RotateOffset(cells[i].position, direction, centrified)))
  }

  /** A rotation followed by the opposite rotation restores the cells exactly. */
  lemma RotateCellsUndo(cells: seq<ColoredCell>, direction: int, centrified: bool)
    requires direction == 1 || direction == -1
    ensures RotateCells(RotateCells(cells, direction, centrified), -direction, centrified) == cells
  {
    var back := RotateCells(RotateCells(cells, direction, centrified), -direction, centrified);
    forall i | 0 <= i < |cells| ensures back[i] == cells[i] {
      RotateOffsetUndo(cells[i].position, direction, centrified);
    }
  }
}

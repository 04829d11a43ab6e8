// Integer geometry shared by every part of the rules engine: Unity's
// Vector2Int and RectInt, and C#'s truncating integer division by two.

module Wrappers {
  datatype Option<T> = None | Some(value: T)
}

module Geometry {

  /** A grid position or a piece-relative offset (Unity's Vector2Int). */
  datatype Vec = Vec(x: int, y: int)
  {
    function Plus(other: Vec): Vec { Vec(x + other.x, y + other.y) }
    function Negated(): Vec { Vec(-x, -y) }
  }

  const Down := Vec(0, -1)
  const Left := Vec(-1, 0)
  const Right := Vec(1, 0)

  /** Unity's RectInt: the half-open rectangle [xMin, xMax) x [yMin, yMax). */
  datatype Rect = Rect(xMin: int, yMin: int, width: nat, height: nat)
  {
    const xMax: int := xMin + width
    const yMax: int := yMin + height

    predicate Contains(p: Vec) {
      xMin <= p.x < xMax && yMin <= p.y < yMax
    }
  }

  /** C#'s `n / 2` on int, which truncates toward zero (Dafny's `/` floors). */
  function Half(n: int): (r: int)
    ensures n >= 0 ==> 0 <= 2 * r <= n < 2 * r + 2
    ensures n < 0 ==> 2 * r - 2 < n <= 2 * r <= 0
  {
    if n >= 0 then n / 2 else -((-n) / 2)
  }

  /** Row-major order, the order in which RectInt.allPositionsWithin visits
      positions: rows bottom to top, and left to right inside a row. */
  predicate Before(a: Vec, b: Vec) {
    a.y < b.y || (a.y == b.y && a.x < b.x)
  }
}

// Piece descriptions (PieceData): a piece's coloured cells, its centring
// class, its spawn offset and its wall-kick list, together with the static
// helpers that build a wall-kick list from the width and height scans.

module Pieces {
  import opened Geometry
  import opened Tilemaps

  /** One cell of a piece: its offset from the piece's position, and its tile. */
  datatype ColoredCell = ColoredCell(position: Vec, tile: Tile)

  /** A piece type. `isCentrified` selects the half-integer pivot in rotation;
      `wallkicks` are the translations a rotation tries, in order. */
  datatype PieceData = PieceData(
    tiles: seq<ColoredCell>,
    isCentrified: bool,
    spawnPositionOffset: Vec,
    wallkicks: seq<Vec>)

  function Xs(cells: seq<Vec>): (xs: seq<int>)
    ensures |xs| == |cells| && forall i :: 0 <= i < |cells| ==> xs[i] == cells[i].x
  {
    seq(|cells|, i requires 0 <= i < |cells| => cells[i].x)
  }

  function Ys(cells: seq<Vec>): (ys: seq<int>)
    ensures |ys| == |cells| && forall i :: 0 <= i < |cells| ==> ys[i] == cells[i].y
  {
    seq(|cells|, i requires 0 <= i < |cells| => cells[i].y)
  }

  // ---------------------------------------------------------------------------
  // The width and height scans. Both start from min = max = 0 and, per value,
  // either lower the minimum or, when the value is not below it, overwrite the
  // maximum with it. ScanMin and ScanMax give the two locals after a prefix.

  function ScanMin(xs: seq<int>): int
  {
    if xs == [] then 0
    else
      var m := ScanMin(xs[..|xs| - 1]);
      if xs[|xs| - 1] < m then xs[|xs| - 1] else m
  }

  function ScanMax(xs: seq<int>): int
  {
    if xs == [] then 0
    else if xs[|xs| - 1] < ScanMin(xs[..|xs| - 1]) then ScanMax(xs[..|xs| - 1])
    else xs[|xs| - 1]
  }

  function ScanSpan(xs: seq<int>): int {
    ScanMax(xs) - ScanMin(xs) + 1
  }

  /** The running minimum ends as the minimum of zero and every value. */
  lemma {:induction false} ScanMinIsMinWithZero(xs: seq<int>)
    ensures ScanMin(xs) <= 0
    ensures forall i :: 0 <= i < |xs| ==> ScanMin(xs) <= xs[i]
    ensures ScanMin(xs) == 0 || ScanMin(xs) in xs
  {
    if xs != [] {
      var init := xs[..|xs| - 1];
      ScanMinIsMinWithZero(init);
      assert forall i :: 0 <= i < |xs| - 1 ==> xs[i] == init[i];
    }
  }

  /** The maximum never falls below the minimum, so a scan spans at least 1,
      and exactly 1 when there are no values. */
  lemma {:induction false} ScanSpanPositive(xs: seq<int>)
    ensures ScanMin(xs) <= ScanMax(xs)
    ensures ScanSpan(xs) >= 1
    ensures xs == [] ==> ScanSpan(xs) == 1
  {
    if xs != [] {
      ScanSpanPositive(xs[..|xs| - 1]);
    }
  }

  /** The recorded maximum is zero or one of the values, so it never exceeds
      the larger of 0 and every value. */
  lemma {:induction false} ScanMaxIsZeroOrValue(xs: seq<int>)
    ensures ScanMax(xs) == 0 || ScanMax(xs) in xs
  {
    if xs != [] {
      var init := xs[..|xs| - 1];
      ScanMaxIsZeroOrValue(init);
      assert forall v :: v in init ==> v in xs;
    }
  }

  /** On values in ascending order that include the origin column, the scan
      gives the true extent, last minus first plus one. */
  lemma {:induction false} ScanSpanOfSorted(xs: seq<int>)
    requires 0 in xs
    requires forall i, j :: 0 <= i <= j < |xs| ==> xs[i] <= xs[j]
    ensures ScanSpan(xs) == xs[|xs| - 1] - xs[0] + 1
  {
    ScanMinIsMinWithZero(xs);
    assert ScanMin(xs) == xs[0] by {
      var k :| 0 <= k < |xs| && xs[k] == 0;
      assert xs[0] <= 0;
    }
    var init := xs[..|xs| - 1];
    ScanMinIsMinWithZero(init);
    if |xs| > 1 {
      assert init[0] == xs[0];
      assert ScanMin(init) <= init[0] <= xs[|xs| - 1];
    } else {
      assert xs[0] == 0;
    }
  }

  /** Values out of order break the scan: x = [2, 0] gives width 1, not 3. */
  lemma ScanSpanOutOfOrder()
    ensures ScanSpan([2, 0]) == 1
  {
    assert [2, 0][..1] == [2];
    assert [2][..0] == [];
  }

  /** CalculateWidth: the scan over the x offsets. */
  method CalculateWidth(cells: seq<Vec>) returns (width: int)
    ensures width == ScanSpan(Xs(cells))
    ensures width >= 1
  {
    var xMin, xMax := 0, 0;
    ghost var xs := Xs(cells);
    for i := 0 to |cells|
      invariant xMin == ScanMin(xs[..i]) && xMax == ScanMax(xs[..i])
    {
      assert xs[..i + 1][..i] == xs[..i];
      if cells[i].x < xMin {
        xMin := cells[i].x;
      } else {
        xMax := cells[i].x;
      }
    }
    assert xs[..|cells|] == xs;
    ScanSpanPositive(xs);
    width := xMax - xMin + 1;
  }

  /** CalculateHeight: the same scan over the y offsets. */
  method CalculateHeight(cells: seq<Vec>) returns (height: int)
    ensures height == ScanSpan(Ys(cells))
    ensures height >= 1
  {
    var yMin, yMax := 0, 0;
    ghost var ys := Ys(cells);
    for i := 0 to |cells|
      invariant yMin == ScanMin(ys[..i]) && yMax == ScanMax(ys[..i])
    {
      assert ys[..i + 1][..i] == ys[..i];
      if cells[i].y < yMin {
        yMin := cells[i].y;
      } else {
        yMax := cells[i].y;
      }
    }
    assert ys[..|cells|] == ys;
    ScanSpanPositive(ys);
    height := yMax - yMin + 1;
  }

  // ---------------------------------------------------------------------------
  // The wall-kick list.

  function MirrorX(v: Vec): Vec { Vec(-v.x, v.y) }

  /** The seventeen kicks built from the integer halves of width and height. */
  function WallkickTable(width: int, height: int): (kicks: seq<Vec>)
    ensures |kicks| == 17
    ensures kicks[0] == Vec(0, 0)
  {
    var w, h := Half(width), Half(height);
    [ Vec(0, 0),
      Vec(0, -h), Vec(0, h), Vec(w, 0), Vec(-w, 0),
      Vec(w, -h), Vec(-w, -h), Vec(w, h), Vec(-w, h),
      Vec(0, -h - 1), Vec(0, h + 1), Vec(w + 1, 0), Vec(-w - 1, 0),
      Vec(w + 1, -h - 1), Vec(-w - 1, -h + 1), Vec(w + 1, h + 1), Vec(-w - 1, h + 1) ]
  }

  /** The kicks after the first come in pairs that mirror or negate each other. */
  lemma WallkickPairs(width: int, height: int)
    ensures var kicks := WallkickTable(width, height);
      && kicks[2] == kicks[1].Negated() && kicks[4] == kicks[3].Negated()
      && kicks[6] == MirrorX(kicks[5]) && kicks[8] == MirrorX(kicks[7])
      && kicks[10] == kicks[9].Negated() && kicks[12] == kicks[11].Negated()
      && kicks[16] == MirrorX(kicks[15])
  {
  }

  /** The fifteenth kick (index 14) is (-w/2 - 1, -h/2 + 1): it never mirrors
      the fourteenth, and negates it only when the half-height is zero. */
  lemma WallkickFifteenthAsWritten(width: int, height: int)
    ensures var kicks := WallkickTable(width, height);
      && kicks[14] == Vec(-Half(width) - 1, -Half(height) + 1)
      && (kicks[14] == kicks[13].Negated() <==> Half(height) == 0)
      && kicks[14] != MirrorX(kicks[13])
  {
  }

  /** CalculateWallkicks: the table for the scanned width and height. The
      rotation index and direction are accepted and never read. */
  method CalculateWallkicks(cells: seq<Vec>, rotationIndex: int, direction: int)
    returns (kicks: seq<Vec>)
    ensures kicks == WallkickTable(ScanSpan(Xs(cells)), ScanSpan(Ys(cells)))
    ensures |kicks| == 17 && kicks[0] == Vec(0, 0)
  {
    var height := CalculateHeight(cells);
    var width := CalculateWidth(cells);
    kicks := WallkickTable(width, height);
  }
}

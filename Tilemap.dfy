// The occupancy grid (CustomTilemap): one cell per position of a fixed
// rectangle, each empty or holding a tile. A tile is a colour token here; the
// sprite objects the game instantiates for it are not modelled.

module Tilemaps {
  import opened Wrappers
  import opened Geometry

  datatype Tile = Tile(colour: nat)

  /** The occupied cells of a tilemap and their tiles; an empty cell has no key. */
  type Grid = map<Vec, Tile>

  function Lookup(g: Grid, p: Vec): Option<Tile> {
    if p in g then Some(g[p]) else None
  }

  /** Every occupied cell lies inside the rectangle. */
  ghost predicate Within(g: Grid, r: Rect) {
    forall p :: p in g ==> r.Contains(p)
  }

  class CustomTilemap {
    const size: Rect
    var tiles: Grid

    ghost predicate Valid()
      reads this
    {
      Within(tiles, size)
    }

    /** Start: a cell for every position of `size`, all of them empty. */
    constructor (size: Rect)
      ensures Valid()
      ensures this.size == size && tiles == map[]
    {
      this.size := size;
      tiles := map[];
    }

    /** The half-open test against `size`: an empty size holds no cell, the
        low corner is inside, and one width right or one height up is outside. */
    predicate IsInbound(p: Vec)
      reads this
      ensures IsInbound(p) ==> size.width > 0 && size.height > 0
      ensures p == Vec(size.xMin, size.yMin) ==> (IsInbound(p) <==> size.width > 0 && size.height > 0)
      ensures IsInbound(p) ==>
        !size.Contains(Vec(p.x + size.width, p.y)) && !size.Contains(Vec(p.x, p.y + size.height))
    {
      size.Contains(p)
    }

    /** False outside the rectangle; inside, true iff the cell holds a tile. */
    predicate HasTile(p: Vec)
      reads this
      ensures !IsInbound(p) ==> !HasTile(p)
      ensures Valid() ==> (HasTile(p) <==> Lookup(tiles, p).Some?)
    {
      IsInbound(p) && p in tiles
    }

    /** The tile of an in-bounds cell, None when it is empty. */
    function GetTile(p: Vec): (t: Option<Tile>)
      reads this
      requires IsInbound(p)
      ensures t.Some? <==> HasTile(p)
      ensures t.Some? ==> t.value == tiles[p]
    {
      Lookup(tiles, p)
    }

    /** Empties a cell; reports whether it held a tile. */
    method ClearCell(p: Vec) returns (cleared: bool)
      requires Valid() && IsInbound(p)
      modifies this
      ensures Valid()
      ensures cleared == old(HasTile(p))
      ensures tiles == old(tiles) - {p}
    {
      cleared := p in tiles;
      tiles := tiles - {p};
    }

    /** Stores a tile in an empty cell; an occupied cell is left as it was. */
    method SetTile(p: Vec, t: Tile) returns (stored: bool)
      requires Valid() && IsInbound(p)
      modifies this
      ensures Valid()
      ensures stored == !old(HasTile(p))
      ensures tiles == if stored then old(tiles)[p := t] else old(tiles)
    {
      if p in tiles {
        return false;
      }
      tiles := tiles[p := t];
      return true;
    }

    /** Stores a tile whatever the cell held before. */
    method ReplaceTile(p: Vec, t: Tile) returns (stored: bool)
      requires Valid() && IsInbound(p)
      modifies this
      ensures Valid()
      ensures stored
      ensures tiles == old(tiles)[p := t]
    {
      if p in tiles {
        var _ := ClearCell(p);
      }
      tiles := tiles[p := t];
      return true;
    }

    /** Moves the tile of `from` into `to` when both are in bounds, `from` is
        occupied and `to` is empty; otherwise changes nothing. */
    method TransferCell(from: Vec, to: Vec) returns (moved: bool)
      requires Valid()
      modifies this
      ensures Valid()
      ensures moved == (IsInbound(from) && IsInbound(to) && old(HasTile(from)) && !old(HasTile(to)))
      ensures moved ==> tiles == (old(tiles) - {from})[to := old(tiles)[from]]
      ensures !moved ==> tiles == old(tiles)
    {
      if !IsInbound(to) || !IsInbound(from) {
        return false;
      }
      if !HasTile(from) || HasTile(to) {
        return false;
      }
      var t := GetTile(from);
      var stored := SetTile(to, t.value);
      if stored {
        var _ := ClearCell(from);
      }
      return true;
    }

    /** Empties every cell, visiting the rectangle row by row. */
    method ClearAll()
      requires Valid()
      modifies this
      ensures Valid()
      ensures tiles == map[]
    {
      var y := size.yMin;
      while y < size.yMax
        invariant size.yMin <= y <= size.yMax
        invariant Valid()
        invariant forall p :: p in tiles ==> y <= p.y
      {
        var x := size.xMin;
        while x < size.xMax
          invariant size.xMin <= x <= size.xMax
          invariant Valid()
          invariant forall p :: p in tiles ==> y < p.y || (y == p.y && x <= p.x)
        {
          var _ := ClearCell(Vec(x, y));
          x := x + 1;
        }
        y := y + 1;
      }
      assert tiles.Keys == {};
    }

    /** Lists the occupied cells in the order allPositionsWithin visits them. */
    method GetAllOccupiedCells() returns (cells: seq<Vec>)
      requires Valid()
      ensures forall p :: p in cells <==> HasTile(p)
      ensures forall i, j :: 0 <= i < j < |cells| ==> Before(cells[i], cells[j])
    {
      cells := [];
      var y := size.yMin;
      while y < size.yMax
        invariant size.yMin <= y <= size.yMax
        invariant forall p :: p in cells <==> p in tiles && p.y < y
        invariant forall i, j :: 0 <= i < j < |cells| ==> Before(cells[i], cells[j])
        invariant forall i :: 0 <= i < |cells| ==> cells[i].y < y
      {
        var x := size.xMin;
        while x < size.xMax
          invariant size.xMin <= x <= size.xMax
          invariant forall p :: p in cells <==> p in tiles && (p.y < y || (p.y == y && p.x < x))
          invariant forall i, j :: 0 <= i < j < |cells| ==> Before(cells[i], cells[j])
          invariant forall i :: 0 <= i < |cells| ==> Before(cells[i], Vec(x, y))
        {
          if HasTile(Vec(x, y)) {
            cells := cells + [Vec(x, y)];
          }
          x := x + 1;
        }
        y := y + 1;
      }
    }
  }

  /** Listing every occupied cell once, sorted, pins the list down: two such
      lists of the same grid are equal. */
  lemma {:induction false} SortedListingUnique(a: seq<Vec>, b: seq<Vec>)
    requires forall p :: p in a <==> p in b
    requires forall i, j :: 0 <= i < j < |a| ==> Before(a[i], a[j])
    requires forall i, j :: 0 <= i < j < |b| ==> Before(b[i], b[j])
    ensures a == b
  {
    assert |b| > 0 ==> b[0] in a;
    if a != [] {
      assert a[0] in b;
      assert a[0] == b[0] by {
        var i :| 0 <= i < |b| && b[i] == a[0];
        assert b[0] in b;
        var j :| 0 <= j < |a| && a[j] == b[0];
      }
      forall p ensures p in a[1..] <==> p in b[1..] {
        if p in a[1..] {
          var i :| 1 <= i < |a| && a[i] == p;
          assert Before(a[0], a[i]);
          assert p in b && p != b[0];
          var k :| 0 <= k < |b| && b[k] == p;
          assert b[1..][k - 1] == p;
        }
        if p in b[1..] {
          var i :| 1 <= i < |b| && b[i] == p;
          assert Before(b[0], b[i]);
          assert p in a && p != a[0];
          var k :| 0 <= k < |a| && a[k] == p;
          assert a[1..][k - 1] == p;
        }
      }
      SortedListingUnique(a[1..], b[1..]);
      assert a == [a[0]] + a[1..] && b == [b[0]] + b[1..];
    }
  }
}

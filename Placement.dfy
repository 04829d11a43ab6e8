// The board's pure rules (Board.cs): centred bounds, placement validity,
// full rows, and what writing or erasing a piece does to the grid.

module Placement {
  import opened Wrappers
  import opened Geometry
  import opened Tilemaps
  import opened Pieces
  import opened Cascade

  /** Board.Bounds: the size, placed at (-w/2, -h/2) with C# division. */
  function BoundsOf(boardSize: Vec): (R: Rect)
    requires boardSize.x >= 0 && boardSize.y >= 0
    ensures R.width == boardSize.x && R.height == boardSize.y
    ensures R.xMin + R.xMax == boardSize.x % 2 && R.yMin + R.yMax == boardSize.y % 2
    ensures R.xMin <= 0 <= R.xMax && R.yMin <= 0 <= R.yMax
  {
    Rect(Half(-boardSize.x), Half(-boardSize.y), boardSize.x, boardSize.y)
  }

  /** Board._top: the spawn anchor, (-xMax/2 + 1, yMax) with C# division. It
      lies on the row just above the board and, on a centred board at least
      one column wide, within the board's column range. */
  function TopOf(R: Rect): (top: Vec)
    ensures top.y == R.yMax
    ensures R.xMax >= 0 ==> -R.xMax <= 2 * (top.x - 1) < -R.xMax + 2
    ensures R.width >= 1 && 0 <= R.xMin + R.xMax <= 1 ==> R.xMin <= top.x <= R.xMax
  {
    Vec(Half(-R.xMax) + 1, R.yMax)
  }

  /** The absolute cells of a piece at a position. */
  function Footprint(position: Vec, cells: seq<ColoredCell>): (f: seq<Vec>)
    ensures |f| == |cells|
    ensures forall i :: 0 <= i < |cells| ==> f[i] == cells[i].position.Plus(position)
  {
    seq(|cells|, i requires 0 <= i < |cells| => cells[i].position.Plus(position))
  }

  ghost predicate InBounds(R: Rect, position: Vec, cells: seq<ColoredCell>) {
    forall i :: 0 <= i < |cells| ==> R.Contains(cells[i].position.Plus(position))
  }

  /** Board.IsValidPosition: every cell of the piece at `position` is inside
      the bounds and unoccupied. */
  ghost predicate ValidAt(g: Grid, R: Rect, position: Vec, cells: seq<ColoredCell>) {
    forall i :: 0 <= i < |cells| ==>
      R.Contains(cells[i].position.Plus(position)) && cells[i].position.Plus(position) !in g
  }

  /** A piece with no cells fits at every position, so a drop loop that
      moves it while the move is valid never stops. */
  lemma EmptyPieceFitsEverywhere(g: Grid, R: Rect, position: Vec)
    ensures ValidAt(g, R, position, [])
    ensures ValidAt(g, R, position.Plus(Down), [])
  {
  }

  /** A valid placement is one whose footprint is in bounds and meets no tile. */
  lemma ValidAtFootprint(g: Grid, R: Rect, position: Vec, cells: seq<ColoredCell>)
    ensures ValidAt(g, R, position, cells) <==>
      forall q :: q in Footprint(position, cells) ==> R.Contains(q) && q !in g
  {
    var f := Footprint(position, cells);
    if forall q :: q in f ==> R.Contains(q) && q !in g {
      forall i | 0 <= i < |cells|
        ensures R.Contains(cells[i].position.Plus(position)) && cells[i].position.Plus(position) !in g
      {
        assert f[i] in f;
      }
    }
  }

  /** Board.Set: each cell of the piece, in order, written with SetTile, which
      leaves an occupied cell as it is. */
  ghost function SetCells(g: Grid, position: Vec, cells: seq<ColoredCell>): Grid
    decreases |cells|
  {
    if cells == [] then g
    else
      var g' := SetCells(g, position, cells[..|cells| - 1]);
      var p := cells[|cells| - 1].position.Plus(position);
      if p in g' then g' else g'[p := cells[|cells| - 1].tile]
  }

  /** Set never changes an occupied cell or a cell the piece does not cover. */
  lemma {:induction false} SetCellsKeeps(g: Grid, position: Vec, cells: seq<ColoredCell>, p: Vec)
    requires p in g || p !in Footprint(position, cells)
    ensures Lookup(SetCells(g, position, cells), p) == Lookup(g, p)
    decreases |cells|
  {
    if cells != [] {
      var init := cells[..|cells| - 1];
      if p !in g {
        assert Footprint(position, init) == Footprint(position, cells)[..|init|];
      }
      SetCellsKeeps(g, position, init, p);
    }
  }

  /** A free cell receives the tile of the first piece cell covering it. */
  lemma {:induction false} SetCellsFirst(g: Grid, position: Vec, cells: seq<ColoredCell>, p: Vec, i: nat)
    requires i < |cells| && p !in g && cells[i].position.Plus(position) == p
    requires forall j :: 0 <= j < i ==> cells[j].position.Plus(position) != p
    ensures Lookup(SetCells(g, position, cells), p) == Some(cells[i].tile)
    decreases |cells|
  {
    var n := |cells| - 1;
    var init := cells[..n];
    if i < n {
      SetCellsFirst(g, position, init, p, i);
    } else {
      assert p !in Footprint(position, init) by {
        forall k | 0 <= k < |init| ensures Footprint(position, init)[k] != p {
          assert init[k] == cells[k];
        }
      }
      SetCellsKeeps(g, position, init, p);
    }
  }

  /** What Set leaves in a cell: an occupied cell keeps its tile, a cell the
      piece does not cover is untouched, and a free covered cell receives the
      tile of the first piece cell that covers it. */
  lemma SetCellsAt(g: Grid, position: Vec, cells: seq<ColoredCell>, p: Vec)
    ensures p in g ==> Lookup(SetCells(g, position, cells), p) == Lookup(g, p)
    ensures p !in Footprint(position, cells) ==> Lookup(SetCells(g, position, cells), p) == Lookup(g, p)
    ensures forall i :: (0 <= i < |cells| && p !in g && cells[i].position.Plus(position) == p &&
      (forall j :: 0 <= j < i ==> cells[j].position.Plus(position) != p)) ==>
        Lookup(SetCells(g, position, cells), p) == Some(cells[i].tile)
  {
    if p in g || p !in Footprint(position, cells) {
      SetCellsKeeps(g, position, cells, p);
    }
    forall i | 0 <= i < |cells| && p !in g && cells[i].position.Plus(position) == p &&
      (forall j :: 0 <= j < i ==> cells[j].position.Plus(position) != p)
      ensures Lookup(SetCells(g, position, cells), p) == Some(cells[i].tile)
    {
      SetCellsFirst(g, position, cells, p, i);
    }
  }

  /** Set only adds tiles, and only inside the footprint. */
  lemma {:induction false} SetCellsKeys(g: Grid, position: Vec, cells: seq<ColoredCell>)
    ensures SetCells(g, position, cells).Keys == g.Keys + set q | q in Footprint(position, cells)
    decreases |cells|
  {
    if cells != [] {
      var init := cells[..|cells| - 1];
      SetCellsKeys(g, position, init);
      var f, fi := Footprint(position, cells), Footprint(position, init);
      assert f == fi + [cells[|cells| - 1].position.Plus(position)];
    }
  }

  /** Board.Clear: every covered cell that holds a tile is emptied. */
  ghost function ClearCells(g: Grid, position: Vec, cells: seq<ColoredCell>): (g': Grid)
    ensures forall p :: p in g' <==> p in g && p !in Footprint(position, cells)
    ensures forall p :: p in g' ==> g'[p] == g[p]
  {
    map p | p in g && p !in Footprint(position, cells) :: g[p]
  }

  /** After Clear, the piece's own position is valid exactly when its
      footprint lies in bounds: the piece cannot collide with itself. */
  lemma ClearedPlacementIsValid(g: Grid, R: Rect, position: Vec, cells: seq<ColoredCell>)
    ensures ValidAt(ClearCells(g, position, cells), R, position, cells) <==> InBounds(R, position, cells)
  {
    var f := Footprint(position, cells);
    forall i | 0 <= i < |cells| ensures cells[i].position.Plus(position) !in ClearCells(g, position, cells) {
      assert f[i] == cells[i].position.Plus(position);
    }
  }

  /** Writing a piece back after erasing it restores the grid when the piece's
      own tiles were there, one tile per footprint cell. */
  lemma ClearThenSetRestores(g: Grid, position: Vec, cells: seq<ColoredCell>)
    requires forall i, j :: 0 <= i < j < |cells| ==>
      cells[i].position.Plus(position) != cells[j].position.Plus(position)
    requires forall i :: 0 <= i < |cells| ==>
      cells[i].position.Plus(position) in g && g[cells[i].position.Plus(position)] == cells[i].tile
    ensures SetCells(ClearCells(g, position, cells), position, cells) == g
  {
    var c := ClearCells(g, position, cells);
    var s := SetCells(c, position, cells);
    var f := Footprint(position, cells);
    forall p ensures Lookup(s, p) == Lookup(g, p) {
      SetCellsAt(c, position, cells, p);
      if p in f {
        var i :| 0 <= i < |cells| && f[i] == p;
        assert p !in c;
      }
    }
    assert s.Keys == g.Keys by {
      forall p ensures p in s <==> p in g {
        assert Lookup(s, p) == Lookup(g, p);
      }
    }
    forall p | p in s ensures s[p] == g[p] {
      assert Lookup(s, p) == Lookup(g, p);
    }
  }

  // ---------------------------------------------------------------------------
  // Full rows.

  /** Board.IsLineFull: every column of the bounds holds a tile in that row. */
  ghost predicate FullRow(g: Grid, R: Rect, row: int) {
    forall x :: R.xMin <= x < R.xMax ==> R.Contains(Vec(x, row)) && Vec(x, row) in g
  }

  /** The row just above the board, which the scan also visits, is never full. */
  lemma RowAboveNeverFull(g: Grid, R: Rect)
    requires R.width > 0
    ensures !FullRow(g, R, R.yMax)
  {
    assert !R.Contains(Vec(R.xMin, R.yMax));
  }

  /** The full rows among lo .. hi, listed from the top down, as the scan of
      CheckAndClearLines collects them. */
  ghost function FullRowsDown(g: Grid, R: Rect, hi: int, lo: int): seq<int>
    decreases hi - lo
  {
    if lo > hi then []
    else FullRowsDown(g, R, hi, lo + 1) + (if FullRow(g, R, lo) then [lo] else [])
  }

  /** The scan collects exactly the full rows of the range, strictly descending. */
  lemma {:induction false} FullRowsDownExact(g: Grid, R: Rect, hi: int, lo: int)
    ensures var rows := FullRowsDown(g, R, hi, lo);
      && (forall i, j :: 0 <= i < j < |rows| ==> rows[i] > rows[j])
      && (forall r :: r in rows <==> lo <= r <= hi && FullRow(g, R, r))
    decreases hi - lo
  {
    if lo <= hi {
      FullRowsDownExact(g, R, hi, lo + 1);
      var rest := FullRowsDown(g, R, hi, lo + 1);
      var rows := FullRowsDown(g, R, hi, lo);
      assert forall i :: 0 <= i < |rest| ==> rest[i] in rest;
      assert forall r :: r in rows <==> r in rest || (r == lo && FullRow(g, R, lo));
    }
  }

  // ---------------------------------------------------------------------------
  // Clearing full rows removes exactly one row's worth of tiles per row.

  /** The cells a, a+1, .., a+n-1 of row y. */
  ghost function RowSpan(a: int, n: nat, y: int): set<Vec> {
    set x | a <= x < a + n :: Vec(x, y)
  }

  lemma {:induction false} RowSpanSize(a: int, n: nat, y: int)
    ensures |RowSpan(a, n, y)| == n
    decreases n
  {
    if n > 0 {
      RowSpanSize(a, n - 1, y);
      assert RowSpan(a, n, y) == RowSpan(a, n - 1, y) + {Vec(a + n - 1, y)};
    }
  }

  /** Moving a set of cells one row down keeps its size. */
  lemma {:induction false} LoweredSize(S: set<Vec>)
    ensures |set p | p in S :: p.Plus(Down)| == |S|
    decreases |S|
  {
    if S != {} {
      var q :| q in S;
      var rest := S - {q};
      LoweredSize(rest);
      var img := set p | p in S :: p.Plus(Down);
      var imgRest := set p | p in rest :: p.Plus(Down);
      assert img == imgRest + {q.Plus(Down)};
      assert q.Plus(Down) !in imgRest;
    }
  }

  ghost function RowsBelow(g: Grid, r: int): set<Vec> { set p | p in g && p.y < r }
  ghost function RowsAbove(g: Grid, r: int): set<Vec> { set p | p in g && p.y > r }

  /** A full row splits the occupied cells into those below, the row, and those above. */
  lemma FullRowSplits(g: Grid, r: int, R: Rect)
    requires Within(g, R) && FullRow(g, R, r)
    ensures |g.Keys| == |RowsBelow(g, r)| + R.width + |RowsAbove(g, r)|
  {
    var row := RowSpan(R.xMin, R.width, r);
    var below, above := RowsBelow(g, r), RowsAbove(g, r);
    forall p | p in row ensures p in g {
      assert R.xMin <= p.x < R.xMax;
    }
    forall p | p in g && p.y == r ensures p in row {
      assert R.Contains(p);
    }
    assert g.Keys == below + row + above;
    assert below !! row && (below + row) !! above;
    RowSpanSize(R.xMin, R.width, r);
  }

  /** After the cascade, the cells are those below the row plus those above it lowered by one. */
  lemma ShiftAtKeys(g: Grid, r: int, skip: seq<Vec>, R: Rect)
    requires Within(g, R) && NoSkip(skip, R) && R.yMin <= r
    ensures ShiftAt(g, r, skip, R).Keys == RowsBelow(g, r) + set p | p in RowsAbove(g, r) :: p.Plus(Down)
  {
    var s := ShiftAt(g, r, skip, R);
    var lowered := set p | p in RowsAbove(g, r) :: p.Plus(Down);
    forall p ensures p in s <==> p in RowsBelow(g, r) + lowered {
      ShiftAtDeletesRow(g, r, skip, R, p);
      var q := Vec(p.x, p.y + 1);
      if p.y >= r && q in g {
        assert q in RowsAbove(g, r) && q.Plus(Down) == p;
      }
    }
  }

  /** Cascading over a full row with the piece out of the way removes exactly
      that row's tiles. */
  lemma ShiftAtRemovesOneRow(g: Grid, r: int, skip: seq<Vec>, R: Rect)
    requires Within(g, R) && NoSkip(skip, R)
    requires R.yMin <= r < R.yMax && FullRow(g, R, r)
    ensures |ShiftAt(g, r, skip, R).Keys| == |g.Keys| - R.width
  {
    var below, above := RowsBelow(g, r), RowsAbove(g, r);
    var lowered := set p | p in above :: p.Plus(Down);
    ShiftAtKeys(g, r, skip, R);
    FullRowSplits(g, r, R);
    LoweredSize(above);
    assert below !! lowered;
  }

  /** A full row below the cleared one is still full after the cascade. */
  lemma FullRowBelowSurvives(g: Grid, r: int, skip: seq<Vec>, R: Rect, y: int)
    requires Within(g, R) && NoSkip(skip, R)
    requires y < r && FullRow(g, R, y)
    ensures FullRow(ShiftAt(g, r, skip, R), R, y)
  {
    forall x | R.xMin <= x < R.xMax ensures Vec(x, y) in ShiftAt(g, r, skip, R) {
      ShiftAtDeletesRow(g, r, skip, R, Vec(x, y));
    }
  }

  lemma MulSucc(n: int, w: int)
    ensures (n + 1) * w == n * w + w
  {
  }

  /** Clearing k full rows, highest first, with the piece out of the way
      removes exactly k times the board width tiles. */
  lemma {:induction false} ClearRowsRemovesRows(g: Grid, rows: seq<int>, skip: seq<Vec>, R: Rect)
    requires Within(g, R) && NoSkip(skip, R)
    requires StrictlyDescending(rows)
    requires forall i :: 0 <= i < |rows| ==> R.yMin <= rows[i] < R.yMax && FullRow(g, R, rows[i])
    ensures |ClearRows(g, rows, skip, R).Keys| == |g.Keys| - |rows| * R.width
    decreases |rows|
  {
    if rows != [] {
      var g1 := ShiftAt(g, rows[0], skip, R);
      ShiftAtRemovesOneRow(g, rows[0], skip, R);
      var rest := rows[1..];
      forall i | 0 <= i < |rest| ensures R.yMin <= rest[i] < R.yMax && FullRow(g1, R, rest[i]) {
        assert rest[i] == rows[i + 1] < rows[0];
        FullRowBelowSurvives(g, rows[0], skip, R, rest[i]);
      }
      assert StrictlyDescending(rest);
      ClearRowsRemovesRows(g1, rest, skip, R);
      MulSucc(|rest|, R.width);
    }
  }
}

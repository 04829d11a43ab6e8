// What Board.ClearLine does to the grid. For one cleared row r it walks the
// rows r .. yMax-1 bottom-up and, column by column, moves the tile of the cell
// above into the cell below (or empties the cell below when the one above is
// empty), skipping every source cell that lies under the active piece.
// ClearRows folds that over the list of cleared rows. The lemmas show that,
// when the active piece is out of the way, clearing full rows in descending
// order deletes exactly those rows and compacts the rest downward.

module Cascade {
  import opened Wrappers
  import opened Geometry
  import opened Tilemaps

  ghost function RectCells(R: Rect): set<Vec> {
    set x, y | R.xMin <= x < R.xMax && R.yMin <= y < R.yMax :: Vec(x, y)
  }

  /** What cell p holds once the cascade for cleared row r is over; `skip` is
      the active piece's footprint. */
  ghost function CellAfterShift(g: Grid, r: int, skip: seq<Vec>, R: Rect, p: Vec): Option<Tile> {
    if !R.Contains(p) || p.y < r then Lookup(g, p)
    else if Vec(p.x, p.y + 1) in skip then
      // p itself was a source one row earlier: emptied unless skipped
      if p.y > r && p !in skip then None else Lookup(g, p)
    else Lookup(g, Vec(p.x, p.y + 1))
  }

  /** The grid once the cascade for one cleared row is over. */
  ghost function ShiftAt(g: Grid, r: int, skip: seq<Vec>, R: Rect): (g': Grid)
    ensures Within(g', R)
  {
    map p | p in RectCells(R) && CellAfterShift(g, r, skip, R, p).Some? ::
      CellAfterShift(g, r, skip, R, p).value
  }

  lemma LookupShiftAt(g: Grid, r: int, skip: seq<Vec>, R: Rect, p: Vec)
    requires Within(g, R)
    ensures Lookup(ShiftAt(g, r, skip, R), p) == CellAfterShift(g, r, skip, R, p)
  {
    if R.Contains(p) {
      assert p in RectCells(R);
    }
  }

  /** The cascade for each cleared row, in list order. */
  ghost function ClearRows(g: Grid, rows: seq<int>, skip: seq<Vec>, R: Rect): Grid
    decreases |rows|
  {
    if rows == [] then g else ClearRows(ShiftAt(g, rows[0], skip, R), rows[1..], skip, R)
  }

  lemma {:induction false} ClearRowsSnoc(g: Grid, rows: seq<int>, r: int, skip: seq<Vec>, R: Rect)
    ensures ClearRows(g, rows + [r], skip, R) == ShiftAt(ClearRows(g, rows, skip, R), r, skip, R)
    decreases |rows|
  {
    if rows == [] {
      assert rows + [r] == [r];
    } else {
      assert (rows + [r])[1..] == rows[1..] + [r];
      ClearRowsSnoc(ShiftAt(g, rows[0], skip, R), rows[1..], r, skip, R);
    }
  }

  lemma GridExtensionality(a: Grid, b: Grid)
    requires forall p :: Lookup(a, p) == Lookup(b, p)
    ensures a == b
  {
    assert a.Keys == b.Keys by {
      forall p ensures p in a <==> p in b {
        assert Lookup(a, p) == Lookup(b, p);
      }
    }
    forall p | p in a ensures a[p] == b[p] {
      assert Lookup(a, p) == Lookup(b, p);
    }
  }

  // ---------------------------------------------------------------------------
  // The state of the nested loops of ClearLine while they handle cleared row r:
  // rows r .. row-1 are done, and in row `row` the columns left of `col`.

  ghost function CascadeProgress(g: Grid, r: int, skip: seq<Vec>, R: Rect, row: int, col: int, p: Vec): Option<Tile> {
    if !R.Contains(p) || p.y < r then Lookup(g, p)
    else if p.y < row || (p.y == row && p.x < col) then CellAfterShift(g, r, skip, R, p)
    else if p.y == row then (if p.y > r && p !in skip then None else Lookup(g, p))
    else if p.y == row + 1 && p.x < col && p !in skip then None
    else Lookup(g, p)
  }

  // ---------------------------------------------------------------------------
  // With the active piece out of the way, the cascade deletes a row.

  /** No footprint cell can be the source of a move: none lies in the board's
      columns in rows yMin+1 .. yMax. */
  ghost predicate NoSkip(skip: seq<Vec>, R: Rect) {
    forall q :: q in skip ==> !(R.xMin <= q.x < R.xMax && R.yMin < q.y <= R.yMax)
  }

  /** Row y of the result comes from row y below r and from row y+1 above. */
  lemma ShiftAtDeletesRow(g: Grid, r: int, skip: seq<Vec>, R: Rect, p: Vec)
    requires Within(g, R) && NoSkip(skip, R) && R.yMin <= r
    ensures Lookup(ShiftAt(g, r, skip, R), p) ==
      if p.y < r then Lookup(g, p) else Lookup(g, Vec(p.x, p.y + 1))
  {
    LookupShiftAt(g, r, skip, R, p);
    if R.Contains(p) && p.y >= r {
      assert Vec(p.x, p.y + 1) !in skip;
    }
  }

  /** The row of the input that ends up as row y after clearing `rows`. */
  function KeptRow(rows: seq<int>, y: int): int
    decreases |rows|
  {
    if rows == [] then y
    else
      var y' := KeptRow(rows[1..], y);
      if y' < rows[0] then y' else y' + 1
  }

  /** How many of the rows lie strictly below z. */
  function CountBelow(rows: seq<int>, z: int): (n: nat)
    ensures n <= |rows|
    decreases |rows|
  {
    if rows == [] then 0 else (if rows[0] < z then 1 else 0) + CountBelow(rows[1..], z)
  }

  ghost predicate StrictlyDescending(rows: seq<int>) {
    forall i, j :: 0 <= i < j < |rows| ==> rows[i] > rows[j]
  }

  lemma {:induction false} CountBelowStep(rows: seq<int>, z: int)
    requires z !in rows
    ensures CountBelow(rows, z + 1) == CountBelow(rows, z)
    decreases |rows|
  {
    if rows != [] {
      CountBelowStep(rows[1..], z);
    }
  }

  /** Clearing the rows moves every cell of kept row KeptRow(rows, y) to row y. */
  lemma {:induction false} ClearRowsMovesKeptRows(g: Grid, rows: seq<int>, skip: seq<Vec>, R: Rect, p: Vec)
    requires Within(g, R) && NoSkip(skip, R)
    requires forall i :: 0 <= i < |rows| ==> R.yMin <= rows[i]
    ensures Lookup(ClearRows(g, rows, skip, R), p) == Lookup(g, Vec(p.x, KeptRow(rows, p.y)))
    decreases |rows|
  {
    if rows != [] {
      var g1 := ShiftAt(g, rows[0], skip, R);
      ClearRowsMovesKeptRows(g1, rows[1..], skip, R, p);
      ShiftAtDeletesRow(g, rows[0], skip, R, Vec(p.x, KeptRow(rows[1..], p.y)));
    }
  }

  /** The source row of every result row is a kept row lying exactly as many
      rows higher as there are cleared rows below it. */
  lemma {:induction false} KeptRowIsKept(rows: seq<int>, y: int)
    requires StrictlyDescending(rows)
    ensures KeptRow(rows, y) !in rows
    ensures KeptRow(rows, y) - CountBelow(rows, KeptRow(rows, y)) == y
    decreases |rows|
  {
    if rows != [] {
      var rest := rows[1..];
      var y' := KeptRow(rest, y);
      KeptRowIsKept(rest, y);
      if y' >= rows[0] {
        forall i | 0 <= i < |rest| ensures rest[i] < y' {
          assert rest[i] == rows[i + 1];
        }
        CountBelowStep(rest, y');
      } else {
        assert forall i :: 0 <= i < |rest| ==> rest[i] == rows[i + 1];
      }
    }
  }

  /** Every kept row z lands at z minus the number of cleared rows below it. */
  lemma {:induction false} KeptRowLands(rows: seq<int>, z: int)
    requires StrictlyDescending(rows)
    requires z !in rows
    ensures KeptRow(rows, z - CountBelow(rows, z)) == z
    decreases |rows|
  {
    if rows != [] {
      var rest := rows[1..];
      assert forall i :: 0 <= i < |rest| ==> rest[i] == rows[i + 1];
      if z < rows[0] {
        KeptRowLands(rest, z);
      } else {
        assert z - 1 !in rest;
        CountBelowStep(rest, z - 1);
        KeptRowLands(rest, z - 1);
      }
    }
  }

  /** Clearing rows in descending order with the active piece out of the way
      deletes those rows and compacts the rest downward: each kept row z drops
      by the number of cleared rows below it. */
  lemma ClearRowsCompacts(g: Grid, rows: seq<int>, skip: seq<Vec>, R: Rect)
    requires Within(g, R) && NoSkip(skip, R)
    requires StrictlyDescending(rows)
    requires forall i :: 0 <= i < |rows| ==> R.yMin <= rows[i]
    ensures forall x, z :: z !in rows ==>
      Lookup(ClearRows(g, rows, skip, R), Vec(x, z - CountBelow(rows, z))) == Lookup(g, Vec(x, z))
  {
    forall x, z | z !in rows
      ensures Lookup(ClearRows(g, rows, skip, R), Vec(x, z - CountBelow(rows, z))) == Lookup(g, Vec(x, z))
    {
      KeptRowLands(rows, z);
      ClearRowsMovesKeptRows(g, rows, skip, R, Vec(x, z - CountBelow(rows, z)));
    }
  }

  /** ... and nothing else is left: every row of the result holds a kept row. */
  lemma ClearRowsOnlyKeptRows(g: Grid, rows: seq<int>, skip: seq<Vec>, R: Rect, x: int, y: int)
    requires Within(g, R) && NoSkip(skip, R)
    requires StrictlyDescending(rows)
    requires forall i :: 0 <= i < |rows| ==> R.yMin <= rows[i]
    ensures exists z :: (z !in rows && z - CountBelow(rows, z) == y &&
      Lookup(ClearRows(g, rows, skip, R), Vec(x, y)) == Lookup(g, Vec(x, z)))
  {
    var z := KeptRow(rows, y);
    KeptRowIsKept(rows, y);
    ClearRowsMovesKeptRows(g, rows, skip, R, Vec(x, y));
    assert z !in rows && z - CountBelow(rows, z) == y;
  }

  // ---------------------------------------------------------------------------
  // The move step of ClearLine as written empties the source cell and only
  // then reads it back for ReplaceTile. CellAfterShift above moves the tile
  // that was there, read before the source is emptied.

  /** The tile the move step hands to ReplaceTile as written: read after ClearCell. */
  function TileHandedAsWritten(g: Grid, source: Vec): Option<Tile> {
    Lookup(g - {source}, source)
  }

  /** As written, every occupied source hands over no tile at all, while the
      cell held one. */
  lemma MoveStepLosesTile(g: Grid, source: Vec)
    requires source in g
    ensures TileHandedAsWritten(g, source) == None
    ensures Lookup(g, source) == Some(g[source])
  {
  }
}

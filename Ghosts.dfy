// The two landing previews (Ghost and GhostPiece). Each keeps a copy of the
// tracked piece's offsets and searches, at the piece's column, for the row to
// draw them at. Drawing on the preview tilemap is not modelled.

module Ghosts {
  import opened Wrappers
  import opened Geometry
  import opened Tilemaps
  import opened Pieces
  import opened Placement
  import opened Game

  /** The lowest row from `lo` up to `hi` at which the cells fit in column x. */
  ghost function LowestValidRow(g: Grid, R: Rect, x: int, lo: int, hi: int, cells: seq<ColoredCell>): (row: Option<int>)
    ensures row.Some? ==> lo <= row.value <= hi && ValidAt(g, R, Vec(x, row.value), cells)
    ensures forall y :: lo <= y <= hi && (row.None? || y < row.value) ==> !ValidAt(g, R, Vec(x, y), cells)
    decreases hi - lo
  {
    if lo > hi then None
    else if ValidAt(g, R, Vec(x, lo), cells) then Some(lo)
    else LowestValidRow(g, R, x, lo + 1, hi, cells)
  }

  class Ghost {
    const mainBoard: Board
    const trackingPiece: Piece
    var cells: array<Vec>
    var position: Vec

    /** Awake: room for four offsets. */
    constructor (mainBoard: Board, trackingPiece: Piece)
      ensures this.mainBoard == mainBoard && this.trackingPiece == trackingPiece
      ensures fresh(cells) && cells.Length == 4 && position == Vec(0, 0)
    {
      this.mainBoard := mainBoard;
      this.trackingPiece := trackingPiece;
      cells := new Vec[4](_ => Vec(0, 0));
      position := Vec(0, 0);
    }

    /** Copy: the tracked piece's offsets, in order. */
    method Copy()
      modifies this`cells
      ensures fresh(cells) && cells.Length == trackingPiece.cells.Length
      ensures forall i :: 0 <= i < cells.Length ==> cells[i] == trackingPiece.cells[i].position
    {
      var copy := new Vec[trackingPiece.cells.Length](_ => Vec(0, 0));
      for i := 0 to copy.Length
        invariant forall j :: 0 <= j < i ==> copy[j] == trackingPiece.cells[j].position
      {
        copy[i] := trackingPiece.cells[i].position;
      }
      cells := copy;
    }

    /** Drop: with the tracked piece taken off the main grid, walk down from
        the piece's row to one row below the board and keep the last row
        where the piece fits, stopping at the first where it does not; then
        write the piece back. */
    method Drop()
      requires mainBoard.Valid() && trackingPiece == mainBoard.activePiece
      modifies this`position, mainBoard.tilemap
      ensures mainBoard.Valid()
      ensures var tracked := trackingPiece.cells[..];
        var g1 := ClearCells(old(mainBoard.tilemap.tiles), trackingPiece.position, tracked);
        mainBoard.tilemap.tiles == SetCells(g1, trackingPiece.position, tracked)
      ensures var tracked := trackingPiece.cells[..];
        var g1 := ClearCells(old(mainBoard.tilemap.tiles), trackingPiece.position, tracked);
        var R := mainBoard.Bounds();
        var x, current := trackingPiece.position.x, trackingPiece.position.y;
        var bottom := Half(-mainBoard.boardSize.y) - 1;
        if current < bottom || !ValidAt(g1, R, trackingPiece.position, tracked) then
          position == old(position)
        else
          && position.x == x && bottom <= position.y <= current
          && (forall y :: position.y <= y <= current ==> ValidAt(g1, R, Vec(x, y), tracked))
          && (position.y > bottom ==> !ValidAt(g1, R, Vec(x, position.y - 1), tracked))
    {
      var piecePosition := trackingPiece.position;
      var current := piecePosition.y;
      var bottom := Half(-mainBoard.boardSize.y) - 1;
      mainBoard.Clear(trackingPiece);
      ghost var g1 := mainBoard.tilemap.tiles;
      ghost var R := mainBoard.Bounds();
      ghost var tracked := trackingPiece.cells[..];
      var row := current;
      while row >= bottom
        invariant row <= current && (row == current || bottom - 1 <= row)
        invariant mainBoard.tilemap.tiles == g1
        invariant forall y :: row < y <= current ==> ValidAt(g1, R, Vec(piecePosition.x, y), tracked)
        invariant row == current ==> position == old(position)
        invariant row < current ==> position == Vec(piecePosition.x, row + 1)
        modifies this`position
      {
        var valid := mainBoard.IsValidPosition(Vec(piecePosition.x, row), trackingPiece.cells[..]);
        if valid {
          position := Vec(piecePosition.x, row);
        } else {
          break;
        }
        row := row - 1;
      }
      assert g1 == ClearCells(old(mainBoard.tilemap.tiles), piecePosition, tracked);
      mainBoard.Set(trackingPiece);
      assert trackingPiece.position == piecePosition && trackingPiece.cells[..] == tracked;
      assert mainBoard.Bounds() == R;
    }
  }

  class GhostPiece {
    const mainBoard: Board
    const trackingPiece: Piece
    var cells: array<Vec>
    var position: Vec

    /** Awake: room for four offsets. */
    constructor (mainBoard: Board, trackingPiece: Piece)
      ensures this.mainBoard == mainBoard && this.trackingPiece == trackingPiece
      ensures fresh(cells) && cells.Length == 4 && position == Vec(0, 0)
    {
      this.mainBoard := mainBoard;
      this.trackingPiece := trackingPiece;
      cells := new Vec[4](_ => Vec(0, 0));
      position := Vec(0, 0);
    }

    /** Copy: the tracked piece's offsets, in order. */
    method Copy()
      modifies this`cells
      ensures fresh(cells) && cells.Length == trackingPiece.cells.Length
      ensures forall i :: 0 <= i < cells.Length ==> cells[i] == trackingPiece.cells[i].position
    {
      var copy := new Vec[trackingPiece.cells.Length](_ => Vec(0, 0));
      for i := 0 to copy.Length
        invariant forall j :: 0 <= j < i ==> copy[j] == trackingPiece.cells[j].position
      {
        copy[i] := trackingPiece.cells[i].position;
      }
      cells := copy;
    }

    /** Drop: walk up from the board's bottom row to the piece's row and take
        the first row where the piece fits on the grid as it stands; with
        none, the position is left as it was. */
    method Drop()
      requires mainBoard.Ready()
      modifies this`position
      ensures var R := mainBoard.Bounds();
        var found := LowestValidRow(mainBoard.tilemap.tiles, R, trackingPiece.position.x, R.yMin,
          trackingPiece.position.y, trackingPiece.cells[..]);
        position == if found.Some? then Vec(trackingPiece.position.x, found.value) else old(position)
    {
      var piecePosition := trackingPiece.position;
      var current := piecePosition.y;
      var bottom := mainBoard.Bounds().yMin;
      ghost var R := mainBoard.Bounds();
      ghost var tracked := trackingPiece.cells[..];
      var row := bottom;
      while row <= current
        invariant bottom <= row && (row <= current + 1 || row == bottom)
        invariant position == old(position)
        invariant LowestValidRow(mainBoard.tilemap.tiles, R, piecePosition.x, bottom, current, tracked) ==
          LowestValidRow(mainBoard.tilemap.tiles, R, piecePosition.x, row, current, tracked)
      {
        var valid := mainBoard.IsValidPosition(Vec(piecePosition.x, row), trackingPiece.cells[..]);
        if valid {
          position := Vec(piecePosition.x, row);
          return;
        }
        row := row + 1;
      }
    }
  }

  /** The two searches differ under an overhang. On a board one column wide
      and three rows high with a tile in row 1, a one-cell piece in row 2
      fits there but not in row 1, so Ghost stops at row 2; row 0 is free, so
      GhostPiece shows row 0, which the piece cannot fall to. */
  lemma SearchesDifferUnderOverhang()
    ensures var R := Rect(0, 0, 1, 3);
      var g := map[Vec(0, 1) := Tile(0)];
      var cells := [ColoredCell(Vec(0, 0), Tile(1))];
      && ValidAt(g, R, Vec(0, 2), cells) && !ValidAt(g, R, Vec(0, 1), cells)
      && LowestValidRow(g, R, 0, 0, 2, cells) == Some(0)
  {
    var R := Rect(0, 0, 1, 3);
    var g := map[Vec(0, 1) := Tile(0)];
    var cells := [ColoredCell(Vec(0, 0), Tile(1))];
    assert cells[0].position.Plus(Vec(0, 1)) == Vec(0, 1);
    assert ValidAt(g, R, Vec(0, 0), cells);
  }
}

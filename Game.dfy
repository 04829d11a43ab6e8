// The board (Board) and the falling piece (Piece). The board owns the
// tilemap, the score counter and the one active piece; the piece moves,
// rotates and locks by asking the board whether a placement is valid.
// Keyboard polling and the step and move timers are replaced by method calls
// (Piece.Update takes the frame's inputs as parameters), the random piece
// choice by an oracle `roll`, and the fade-out before a line clear by a queue
// of pending row lists that FinishClearAnimation empties one at a time.

module Game {
  import opened Wrappers
  import opened Geometry
  import opened Tilemaps
  import opened Pieces
  import opened Rotation
  import opened Scoring
  import opened Cascade
  import opened Placement

  /** A piece type the board can spawn: it has cells, and at its spawn
      position every cell lies inside the bounds. */
  ghost predicate Spawnable(R: Rect, top: Vec, data: PieceData) {
    |data.tiles| > 0 && InBounds(R, data.spawnPositionOffset.Plus(top), data.tiles)
  }

  /** The index of the first kick, from `from` on in list order, whose
      translated placement is valid. */
  ghost function FirstValidKick(g: Grid, R: Rect, position: Vec, cells: seq<ColoredCell>,
                                kicks: seq<Vec>, from: nat): (k: Option<nat>)
    ensures k.Some? ==> from <= k.value < |kicks| && ValidAt(g, R, position.Plus(kicks[k.value]), cells)
    ensures forall j :: from <= j < |kicks| && (k.None? || j < k.value) ==>
      !ValidAt(g, R, position.Plus(kicks[j]), cells)
    decreases |kicks| - from
  {
    if from >= |kicks| then None
    else if ValidAt(g, R, position.Plus(kicks[from]), cells) then Some(from)
    else FirstValidKick(g, R, position, cells, kicks, from + 1)
  }

  class Board {
    const tilemap: CustomTilemap
    const activePiece: Piece
    const scoreManager: ScoreManager
    const tetrominoes: seq<PieceData>
    const boardSize: Vec
    /** _top: the anchor that spawn offsets are added to. */
    const top: Vec
    /** What Random.Range(0, n) is reduced from on each draw, by draw number. */
    const roll: nat -> nat
    var draws: nat
    var nextPiece: PieceData
    /** Row lists whose fade-out is running; each is cleared when it ends. */
    var pendingClears: seq<seq<int>>

    function Bounds(): Rect
      requires boardSize.x >= 0 && boardSize.y >= 0
    {
      BoundsOf(boardSize)
    }

    /** Everything but the active piece is in order. */
    ghost predicate Ready()
      reads this, tilemap
    {
      && boardSize.x >= 0 && boardSize.y >= 0
      && tilemap.size == Bounds()
      && tilemap.Valid()
      && top == TopOf(Bounds())
      && |tetrominoes| > 0
      && (forall i :: 0 <= i < |tetrominoes| ==> Spawnable(Bounds(), top, tetrominoes[i]))
      && Spawnable(Bounds(), top, nextPiece)
      && (forall i, j :: 0 <= i < |pendingClears| && 0 <= j < |pendingClears[i]| ==>
            Bounds().yMin <= pendingClears[i][j])
    }

    /** ... and the active piece belongs to this board and lies inside it. */
    ghost predicate Valid()
      reads this, tilemap, activePiece, activePiece.cells
    {
      && Ready()
      && activePiece.board == this
      && activePiece.cells.Length > 0
      && InBounds(Bounds(), activePiece.position, activePiece.cells[..])
    }

    /** The state GameOver leaves: an empty grid, and the score counter's
        high-score decision taken on score0 and high0. */
    ghost predicate GameEnded(score0: int, high0: int)
      reads tilemap, scoreManager
    {
      && tilemap.tiles == map[]
      && if score0 > high0 then scoreManager.score == score0 && scoreManager.highScore == score0
         else scoreManager.score == 0 && scoreManager.highScore == high0
    }

    /** The state SpawnPiece leaves for piece type `data`, from grid g0 and
        score counter (score0, high0). */
    ghost predicate Spawned(data: PieceData, g0: Grid, score0: int, high0: int)
      reads tilemap, scoreManager, activePiece, activePiece.cells
      requires boardSize.x >= 0 && boardSize.y >= 0
    {
      var spawn := data.spawnPositionOffset.Plus(top);
      && activePiece.board == this && activePiece.position == spawn
      && activePiece.data == data && activePiece.cells[..] == data.tiles
      && if ValidAt(g0, Bounds(), spawn, data.tiles) then
           && tilemap.tiles == SetCells(g0, spawn, data.tiles)
           && scoreManager.score == score0 && scoreManager.highScore == high0
         else
           GameEnded(score0, high0)
    }

    /** The state Lock leaves for a piece locked at `position` with `cells`,
        from grid g0 and the board's previous counters. */
    ghost predicate Locked(g0: Grid, position: Vec, cells: seq<ColoredCell>, score0: int, high0: int,
                           pending0: seq<seq<int>>, next0: PieceData, draws0: nat)
      reads this, tilemap, scoreManager, activePiece, activePiece.cells
      requires boardSize.x >= 0 && boardSize.y >= 0 && |tetrominoes| > 0
    {
      var R := Bounds();
      var g1 := SetCells(g0, position, cells);
      var rows := FullRowsDown(g1, R, R.yMax, R.yMin);
      && pendingClears == (if |rows| > 0 then pending0 + [rows] else pending0)
      && nextPiece == tetrominoes[roll(draws0) % |tetrominoes|] && draws == draws0 + 1
      && Spawned(next0, g1, score0 + Increment(|rows|), high0)
    }

    /** Awake and Start of the board, its tilemap and its score counter: an
        empty grid and a zero score, then a first piece spawned and the next
        one drawn. */
    constructor (boardSize: Vec, tetrominoes: seq<PieceData>, roll: nat -> nat)
      requires boardSize.x >= 0 && boardSize.y >= 0 && |tetrominoes| > 0
      requires forall i :: 0 <= i < |tetrominoes| ==>
        Spawnable(BoundsOf(boardSize), TopOf(BoundsOf(boardSize)), tetrominoes[i])
      ensures Valid()
      ensures this.boardSize == boardSize && this.tetrominoes == tetrominoes && this.roll == roll
      ensures var first := tetrominoes[roll(0) % |tetrominoes|];
        var spawn := first.spawnPositionOffset.Plus(top);
        && activePiece.position == spawn && activePiece.cells[..] == first.tiles
        && tilemap.tiles == SetCells(map[], spawn, first.tiles)
      ensures nextPiece == tetrominoes[roll(1) % |tetrominoes|] && draws == 2
      ensures scoreManager.score == 0 && scoreManager.highScore == 0 && pendingClears == []
    {
      this.boardSize := boardSize;
      this.tetrominoes := tetrominoes;
      this.roll := roll;
      var R := BoundsOf(boardSize);
      top := TopOf(R);
      tilemap := new CustomTilemap(R);
      scoreManager := new ScoreManager();
      activePiece := new Piece();
      draws := 0;
      nextPiece := tetrominoes[0];
      pendingClears := [];
      new;
      var first := ChooseNextPiece();
      assert tilemap.tiles == map[] && Spawnable(R, top, first);
      assert ValidAt(map[], R, first.spawnPositionOffset.Plus(top), first.tiles);
      SpawnPieceFrom(first);
      assert draws == 1 && pendingClears == [];
      nextPiece := ChooseNextPiece();
    }

    /** ChooseNextPiece: the piece type of the next draw. */
    method ChooseNextPiece() returns (data: PieceData)
      requires |tetrominoes| > 0
      modifies this`draws
      ensures data == tetrominoes[roll(old(draws)) % |tetrominoes|] && data in tetrominoes
      ensures draws == old(draws) + 1
    {
      data := tetrominoes[roll(draws) % |tetrominoes|];
      draws := draws + 1;
    }

    /** SpawnPiece(): spawn the drawn next piece, then draw another. */
    method SpawnPiece()
      requires Ready()
      modifies this`nextPiece, this`draws, activePiece, tilemap, scoreManager
      ensures Valid() && fresh(activePiece.cells)
      ensures Spawned(old(nextPiece), old(tilemap.tiles), old(scoreManager.score), old(scoreManager.highScore))
      ensures nextPiece == tetrominoes[roll(old(draws)) % |tetrominoes|] && draws == old(draws) + 1
    {
      SpawnPieceFrom(nextPiece);
      nextPiece := ChooseNextPiece();
    }

    /** SpawnPiece(data): a fresh piece of that type at its spawn position,
        written to the grid, or game over when that position is blocked. */
    method SpawnPieceFrom(data: PieceData)
      requires Ready() && Spawnable(Bounds(), top, data)
      modifies activePiece, tilemap, scoreManager
      ensures Valid() && fresh(activePiece.cells)
      ensures Spawned(data, old(tilemap.tiles), old(scoreManager.score), old(scoreManager.highScore))
    {
      var spawn := data.spawnPositionOffset.Plus(top);
      activePiece.Initialize(this, spawn, data);
      var valid := IsValidPosition(spawn, activePiece.cells[..]);
      if valid {
        Set(activePiece);
      } else {
        GameOver();
      }
    }

    /** GameOver: every cell emptied, and the score counter's game over. */
    method GameOver()
      requires tilemap.Valid()
      modifies tilemap, scoreManager
      ensures tilemap.Valid()
      ensures GameEnded(old(scoreManager.score), old(scoreManager.highScore))
    {
      tilemap.ClearAll();
      var _ := scoreManager.GameOver();
    }

    /** Set: each cell of the piece written with SetTile, in order. */
    method Set(piece: Piece)
      requires Ready() && InBounds(Bounds(), piece.position, piece.cells[..])
      modifies tilemap
      ensures Ready()
      ensures tilemap.tiles == SetCells(old(tilemap.tiles), piece.position, piece.cells[..])
    {
      ghost var g0 := tilemap.tiles;
      for i := 0 to piece.cells.Length
        invariant Ready()
        invariant tilemap.tiles == SetCells(g0, piece.position, piece.cells[..i])
      {
        var cell := piece.cells[i];
        var _ := tilemap.SetTile(cell.position.Plus(piece.position), cell.tile);
        assert piece.cells[..i + 1][..i] == piece.cells[..i];
      }
      assert piece.cells[..piece.cells.Length] == piece.cells[..];
    }

    /** Clear: each cell of the piece that holds a tile emptied. */
    method Clear(piece: Piece)
      requires Ready()
      modifies tilemap
      ensures Ready()
      ensures tilemap.tiles == ClearCells(old(tilemap.tiles), piece.position, piece.cells[..])
    {
      ghost var g0 := tilemap.tiles;
      for i := 0 to piece.cells.Length
        invariant Ready()
        invariant tilemap.tiles == ClearCells(g0, piece.position, piece.cells[..i])
      {
        var p := piece.cells[i].position.Plus(piece.position);
        if tilemap.HasTile(p) {
          var _ := tilemap.ClearCell(p);
        }
        assert Footprint(piece.position, piece.cells[..i + 1]) ==
          Footprint(piece.position, piece.cells[..i]) + [p];
      }
      assert piece.cells[..piece.cells.Length] == piece.cells[..];
    }

    /** IsValidPosition: false at the first cell outside the bounds or on a tile. */
    method IsValidPosition(position: Vec, cells: seq<ColoredCell>) returns (valid: bool)
      requires Ready()
      ensures valid == ValidAt(tilemap.tiles, Bounds(), position, cells)
    {
      var bounds := Bounds();
      for i := 0 to |cells|
        invariant ValidAt(tilemap.tiles, bounds, position, cells[..i])
      {
        var tilePosition := cells[i].position.Plus(position);
        if !bounds.Contains(tilePosition) {
          return false;
        }
        if tilemap.HasTile(tilePosition) {
          return false;
        }
        assert cells[..i + 1][i] == cells[i];
      }
      assert cells[..|cells|] == cells;
      return true;
    }

    /** IsLineFull: false at the first column without a tile. */
    method IsLineFull(row: int) returns (full: bool)
      requires Ready()
      ensures full == FullRow(tilemap.tiles, Bounds(), row)
    {
      var bounds := Bounds();
      var column := bounds.xMin;
      while column < bounds.xMax
        invariant bounds.xMin <= column <= bounds.xMax
        invariant forall x :: bounds.xMin <= x < column ==>
          bounds.Contains(Vec(x, row)) && Vec(x, row) in tilemap.tiles
      {
        if !tilemap.HasTile(Vec(column, row)) {
          return false;
        }
        column := column + 1;
      }
      return true;
    }

    /** CheckAndClearLines: the full rows, scanned from yMax down to yMin,
        are queued for clearing and scored; nothing happens when none is full. */
    method CheckAndClearLines()
      requires Ready()
      modifies this`pendingClears, scoreManager
      ensures Ready()
      ensures var R := Bounds();
        var rows := FullRowsDown(tilemap.tiles, R, R.yMax, R.yMin);
        && pendingClears == (if |rows| > 0 then old(pendingClears) + [rows] else old(pendingClears))
        && scoreManager.score == old(scoreManager.score) + Increment(|rows|)
        && scoreManager.highScore == old(scoreManager.highScore)
    {
      var bounds := Bounds();
      var linesCleared := 0;
      var toClear: seq<int> := [];
      var row := bounds.yMax;
      while row >= bounds.yMin
        invariant bounds.yMin - 1 <= row <= bounds.yMax
        invariant toClear == FullRowsDown(tilemap.tiles, bounds, bounds.yMax, row + 1)
        invariant linesCleared == |toClear|
        invariant forall j :: 0 <= j < |toClear| ==> bounds.yMin <= toClear[j]
        invariant Ready() && pendingClears == old(pendingClears)
        invariant unchanged(scoreManager)
      {
        var full := IsLineFull(row);
        if full {
          toClear := toClear + [row];
          linesCleared := linesCleared + 1;
        }
        row := row - 1;
      }
      if linesCleared <= 0 {
        return;
      }
      AnimateClear(toClear);
      scoreManager.AddScore(linesCleared);
    }

    /** AnimateClear: the rows start fading; they are cleared when it ends. */
    method AnimateClear(rows: seq<int>)
      requires Ready()
      requires forall j :: 0 <= j < |rows| ==> Bounds().yMin <= rows[j]
      modifies this`pendingClears
      ensures Ready()
      ensures pendingClears == old(pendingClears) + [rows]
    {
      pendingClears := pendingClears + [rows];
    }

    /** The oldest fade has ended: ClearLine runs on its rows. */
    method FinishClearAnimation()
      requires Ready() && pendingClears != []
      modifies this`pendingClears, tilemap
      ensures Ready()
      ensures pendingClears == old(pendingClears[1..])
      ensures tilemap.tiles == ClearRows(old(tilemap.tiles), old(pendingClears[0]),
        Footprint(activePiece.position, activePiece.cells[..]), Bounds())
    {
      var rows := pendingClears[0];
      pendingClears := pendingClears[1..];
      ClearLine(rows);
    }

    /** ClearLine: the cascade for each listed row, in list order, skipping
        every source cell under the active piece. */
    method ClearLine(rows: seq<int>)
      requires Ready()
      requires forall j :: 0 <= j < |rows| ==> Bounds().yMin <= rows[j]
      modifies tilemap
      ensures Ready()
      ensures tilemap.tiles == ClearRows(old(tilemap.tiles), rows,
        Footprint(activePiece.position, activePiece.cells[..]), Bounds())
    {
      ghost var g0 := tilemap.tiles;
      var skip := Footprint(activePiece.position, activePiece.cells[..]);
      for k := 0 to |rows|
        invariant Ready()
        invariant tilemap.tiles == ClearRows(g0, rows[..k], skip, Bounds())
      {
        CascadeFrom(rows[k], skip);
        ClearRowsSnoc(g0, rows[..k], rows[k], skip, Bounds());
        assert rows[..k + 1] == rows[..k] + [rows[k]];
      }
      assert rows[..|rows|] == rows;
    }

    /** The two inner loops of ClearLine for one cleared row r: rows r ..
        yMax-1 bottom-up, each cell taking the tile of the cell above, whose
        tile is read before that cell is emptied. */
    method CascadeFrom(r: int, skip: seq<Vec>)
      requires Ready() && Bounds().yMin <= r
      modifies tilemap
      ensures Ready()
      ensures tilemap.tiles == ShiftAt(old(tilemap.tiles), r, skip, Bounds())
    {
      ghost var g := tilemap.tiles;
      var R := tilemap.size;
      var row := r;
      while row < R.yMax
        invariant Ready()
        invariant r <= row && (row == r || row <= R.yMax)
        invariant forall p :: Lookup(tilemap.tiles, p) == CascadeProgress(g, r, skip, R, row, R.xMin, p)
      {
        var col := R.xMin;
        while col < R.xMax
          invariant Ready()
          invariant R.xMin <= col <= R.xMax
          invariant forall p :: Lookup(tilemap.tiles, p) == CascadeProgress(g, r, skip, R, row, col, p)
        {
          var position := Vec(col, row + 1);
          var newPosition := Vec(col, row);
          ghost var before := tilemap.tiles;
          if position !in skip {
            if !tilemap.HasTile(position) {
              var _ := tilemap.ClearCell(newPosition);
            } else {
              var t := tilemap.GetTile(position);
              var _ := tilemap.ClearCell(position);
              var _ := tilemap.ReplaceTile(newPosition, t.value);
            }
          }
          CascadeStep(g, r, skip, R, row, col, before, tilemap.tiles);
          col := col + 1;
        }
        row := row + 1;
      }
      forall p ensures Lookup(tilemap.tiles, p) == Lookup(ShiftAt(g, r, skip, R), p) {
        LookupShiftAt(g, r, skip, R, p);
      }
      GridExtensionality(tilemap.tiles, ShiftAt(g, r, skip, R));
    }
  }

  /** One pass of the innermost loop of the cascade keeps its progress
      invariant: `after` is `before` with the cell at (col, row) handled. */
  lemma CascadeStep(g: Grid, r: int, skip: seq<Vec>, R: Rect, row: int, col: int, before: Grid, after: Grid)
    requires Within(g, R) && Within(before, R)
    requires R.yMin <= r <= row < R.yMax && R.xMin <= col < R.xMax
    requires forall p :: Lookup(before, p) == CascadeProgress(g, r, skip, R, row, col, p)
    requires var source, target := Vec(col, row + 1), Vec(col, row);
      if source in skip then after == before
      else if source !in before then after == before - {target}
      else after == (before - {source})[target := before[source]]
    ensures forall p :: Lookup(after, p) == CascadeProgress(g, r, skip, R, row, col + 1, p)
  {
    var source := Vec(col, row + 1);
    forall p ensures Lookup(after, p) == CascadeProgress(g, r, skip, R, row, col + 1, p) {
      assert Lookup(before, p) == CascadeProgress(g, r, skip, R, row, col, p);
      assert Lookup(before, source) == CascadeProgress(g, r, skip, R, row, col, source);
    }
  }

  class Piece {
    var board: Board?
    var position: Vec
    var cells: array<ColoredCell>
    var data: PieceData

    /** A piece component before Initialize: no board and no cells. */
    constructor ()
      ensures board == null && fresh(cells) && cells.Length == 0
    {
      board := null;
      position := Vec(0, 0);
      cells := new ColoredCell[0];
      data := PieceData([], false, Vec(0, 0), []);
    }

    /** Initialize: the piece's cells become a fresh copy of the type's cells. */
    method Initialize(board: Board, position: Vec, data: PieceData)
      modifies this
      ensures this.board == board && this.position == position && this.data == data
      ensures fresh(cells) && cells[..] == data.tiles
    {
      this.board := board;
      this.position := position;
      this.data := data;
      cells := new ColoredCell[|data.tiles|];
      for i := 0 to cells.Length
        invariant cells.Length == |data.tiles|
        invariant cells[..i] == data.tiles[..i]
        modifies cells
      {
        cells[i] := data.tiles[i];
      }
    }

    /** Move: translate when the translated placement is valid. */
    method Move(translation: Vec) returns (moved: bool)
      requires board != null && board.Ready()
      modifies this`position
      ensures moved == ValidAt(board.tilemap.tiles, board.Bounds(), old(position).Plus(translation), cells[..])
      ensures position == if moved then old(position).Plus(translation) else old(position)
    {
      var newPosition := position.Plus(translation);
      var valid := board.IsValidPosition(newPosition, cells[..]);
      if !valid {
        return false;
      }
      position := newPosition;
      return true;
    }

    /** Step: one row down when that is valid; otherwise the piece locks. */
    method Step()
      requires board != null && board.Valid() && board.activePiece == this
      modifies this, board, board.tilemap, board.scoreManager
      ensures board == old(board) && board.Valid()
      ensures var g0 := old(board.tilemap.tiles);
        var below := old(position).Plus(Down);
        if ValidAt(g0, board.Bounds(), below, old(cells[..])) then
          && position == below && cells == old(cells) && cells[..] == old(cells[..])
          && data == old(data) && board.tilemap.tiles == g0
          && unchanged(board, board.scoreManager)
        else
          board.Locked(g0, old(position), old(cells[..]), old(board.scoreManager.score),
            old(board.scoreManager.highScore), old(board.pendingClears), old(board.nextPiece), old(board.draws))
    {
      var moved := Move(Down);
      if moved {
        return;
      }
      Lock();
    }

    /** The first half of HardDrop: move down while the move is valid. The
        piece ends at the lowest row it reaches through valid rows only. */
    method Fall()
      requires board != null && board.Valid() && board.activePiece == this
      modifies this`position
      ensures board.Valid()
      ensures position.x == old(position).x && position.y <= old(position).y
      ensures forall y :: position.y <= y < old(position).y ==>
        ValidAt(board.tilemap.tiles, board.Bounds(), Vec(position.x, y), cells[..])
      ensures !ValidAt(board.tilemap.tiles, board.Bounds(), position.Plus(Down), cells[..])
    {
      ghost var g0, R, cs, start := board.tilemap.tiles, board.Bounds(), cells[..], position;
      var moved := Move(Down);
      while moved
        invariant board.Ready() && board.tilemap.tiles == g0 && cells[..] == cs && InBounds(R, position, cs)
        invariant position.x == start.x && position.y <= start.y
        invariant forall y :: position.y <= y < start.y ==> ValidAt(g0, R, Vec(start.x, y), cs)
        invariant !moved ==> !ValidAt(g0, R, position.Plus(Down), cs)
        modifies this`position
        decreases position.y + cs[0].position.y - R.yMin, moved
      {
        ghost var prev := position;
        moved := Move(Down);
        if moved {
          assert position == Vec(start.x, prev.y - 1) && ValidAt(g0, R, position, cs);
        }
      }
    }

    /** HardDrop: fall, then lock. The landing position is returned for the
        contract. */
    method HardDrop() returns (ghost landing: Vec)
      requires board != null && board.Valid() && board.activePiece == this
      modifies this, board, board.tilemap, board.scoreManager
      ensures board == old(board) && board.Valid() && fresh(cells)
      ensures landing.x == old(position).x && landing.y <= old(position).y
      ensures forall y :: landing.y <= y < old(position).y ==>
        ValidAt(old(board.tilemap.tiles), board.Bounds(), Vec(landing.x, y), old(cells[..]))
      ensures !ValidAt(old(board.tilemap.tiles), board.Bounds(), landing.Plus(Down), old(cells[..]))
      ensures board.Locked(old(board.tilemap.tiles), landing, old(cells[..]), old(board.scoreManager.score),
        old(board.scoreManager.highScore), old(board.pendingClears), old(board.nextPiece), old(board.draws))
    {
      Fall();
      landing := position;
      Lock();
    }

    /** Lock: the piece written to the grid, full rows queued and scored, and
        the next piece spawned. */
    method Lock()
      requires board != null && board.Valid() && board.activePiece == this
      modifies this, board, board.tilemap, board.scoreManager
      ensures board == old(board) && board.Valid() && fresh(cells)
      ensures board.Locked(old(board.tilemap.tiles), old(position), old(cells[..]), old(board.scoreManager.score),
        old(board.scoreManager.highScore), old(board.pendingClears), old(board.nextPiece), old(board.draws))
    {
      board.Set(this);
      board.CheckAndClearLines();
      board.SpawnPiece();
    }

    /** Rotate: turn the cells, then take the first kick whose placement is
        valid; with none, turn the cells back. */
    method Rotate(direction: int)
      requires board != null && board.Ready()
      requires direction == 1 || direction == -1
      modifies this`position, cells
      ensures var turned := RotateCells(old(cells[..]), direction, data.isCentrified);
        var k := FirstValidKick(board.tilemap.tiles, board.Bounds(), old(position), turned, data.wallkicks, 0);
        if k.Some? then cells[..] == turned && position == old(position).Plus(data.wallkicks[k.value])
        else cells[..] == old(cells[..]) && position == old(position)
    {
      ApplyRotationMatrix(direction);
      var kicked := TestWallKicks();
      if kicked {
        return;
      }
      ApplyRotationMatrix(-direction);
      RotateCellsUndo(old(cells[..]), direction, data.isCentrified);
    }

    /** ApplyRotationMatrix: every cell's offset turned a quarter. */
    method ApplyRotationMatrix(direction: int)
      modifies cells
      ensures cells[..] == RotateCells(old(cells[..]), direction, data.isCentrified)
    {
      ghost var original := cells[..];
      for i := 0 to cells.Length
        invariant forall j :: 0 <= j < i ==>
          cells[j] == original[j].(position := RotateOffset(original[j].position, direction, data.isCentrified))
        invariant forall j :: i <= j < cells.Length ==> cells[j] == original[j]
      {
        cells[i] := cells[i].(position := RotateOffset(cells[i].position, direction, data.isCentrified));
      }
    }

    /** TestWallKicks: Move on each kick in list order, stopping at the first
        that succeeds. */
    method TestWallKicks() returns (kicked: bool)
      requires board != null && board.Ready()
      modifies this`position
      ensures var k := FirstValidKick(board.tilemap.tiles, board.Bounds(), old(position), cells[..], data.wallkicks, 0);
        && kicked == k.Some?
        && position == if k.Some? then old(position).Plus(data.wallkicks[k.value]) else old(position)
    {
      var i := 0;
      while i < |data.wallkicks|
        invariant 0 <= i <= |data.wallkicks| && position == old(position)
        invariant FirstValidKick(board.tilemap.tiles, board.Bounds(), position, cells[..], data.wallkicks, 0) ==
          FirstValidKick(board.tilemap.tiles, board.Bounds(), position, cells[..], data.wallkicks, i)
      {
        var moved := Move(data.wallkicks[i]);
        if moved {
          return true;
        }
        i := i + 1;
      }
      return false;
    }

    /** Update: one frame, with that frame's inputs as parameters. The piece
        is taken off the grid, rotated, hard dropped, moved when the move
        timer is due, stepped when the step timer is due, and written back. */
    method Update(rotation: int, hardDrop: bool, moveDue: bool, softDrop: bool, horizontal: int, stepDue: bool)
      requires board != null && board.Valid() && board.activePiece == this
      requires -1 <= rotation <= 1 && -1 <= horizontal <= 1
      modifies this, cells, board, board.tilemap, board.scoreManager
      ensures board == old(board) && board.Valid()
    {
      board.Clear(this);
      HandleRotationInputs(rotation);
      HandleHardDropInputs(hardDrop);
      if moveDue {
        HandleMoveInputs(softDrop, horizontal);
      }
      if stepDue {
        Step();
      }
      board.Set(this);
    }

    /** HandleRotationInputs: rotation -1 (Q), 1 (E) or 0 for neither. */
    method HandleRotationInputs(rotation: int)
      requires board != null && board.Valid() && board.activePiece == this
      requires -1 <= rotation <= 1
      modifies this`position, cells
      ensures board.Valid()
    {
      if rotation == -1 {
        Rotate(-1);
      } else if rotation == 1 {
        Rotate(1);
      }
    }

    /** HandleHardDropInputs: a hard drop when the key was pressed. */
    method HandleHardDropInputs(hardDrop: bool)
      requires board != null && board.Valid() && board.activePiece == this
      modifies this, board, board.tilemap, board.scoreManager
      ensures board == old(board) && board.Valid()
    {
      if hardDrop {
        var _ := HardDrop();
      }
    }

    /** HandleMoveInputs: a soft drop when held, then horizontal -1 (A), 1 (D)
        or 0 for neither. */
    method HandleMoveInputs(softDrop: bool, horizontal: int)
      requires board != null && board.Valid() && board.activePiece == this
      requires -1 <= horizontal <= 1
      modifies this`position
      ensures board.Valid()
    {
      if softDrop {
        var _ := Move(Down);
      }
      if horizontal == -1 {
        var _ := Move(Left);
      } else if horizontal == 1 {
        var _ := Move(Right);
      }
    }
  }
}

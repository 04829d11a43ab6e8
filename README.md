# Falling-block rules engine, modelled in Dafny

This project models the rules engine of the Unity falling-block game
TetrisALike. It covers:

- the occupancy grid (`CustomTilemap`);
- the board rules (`Board`): centred bounds, placement validity, full rows,
  the row-collapse cascade of `ClearLine`, and spawn or game over;
- the falling piece (`Piece`): move, step, hard drop, lock, and rotation with
  wall kicks;
- the shape helpers (`PieceData`): the width and height scans and the
  wall-kick table;
- the score counter (`ScoreManager`);
- the two landing previews (`Ghost`, `GhostPiece`).

Tiles are colour tokens (`Tile(colour)`), not sprite objects. The grid is a
`map<Vec, Tile>` that holds only the occupied cells. An empty cell of the
source has no key.

Files:

- `Geometry.dfy`: `Vec` (Vector2Int), `Rect` (RectInt, half-open), C#
  truncating division by two (`Half`), and the row-major order of
  `allPositionsWithin`.
- `Tilemap.dfy`: the `CustomTilemap` class.
  - `IsInbound` is the half-open test of `size`.
  - `HasTile` is false outside `size`, and inside it is true iff the cell holds
    a tile.
  - The tile methods are proved against the new state of `tiles`.
- `PieceData.dfy`: the `PieceData` record, and the scan and wall-kick methods,
  each proved against a specification function.
- `Rotation.dfy`: the quarter-turn of `ApplyRotationMatrix` as integer
  formulas.
- `Score.dfy`: the increment rule and the `ScoreManager` class.
- `Cascade.dfy`: what `ClearLine` does to the grid (`ShiftAt`, `ClearRows`),
  and the theorem that clearing full rows in descending order deletes them
  and compacts the rest downward.
- `Placement.dfy`: the pure board rules:
  - bounds;
  - validity;
  - what `Set` and `Clear` do to the grid;
  - full rows;
  - the tile count after clearing full rows.
- `Game.dfy`: the `Board` and `Piece` classes, mutually linked as in the
  source.
- `Ghosts.dfy`: the `Ghost` and `GhostPiece` classes.

Behaviours of the code that a reader might not expect:

- **Wall-kick list.** `CalculateWallkicks` builds 17 kicks. The fifteenth
  (index 14) is `(-w/2-1, -h/2+1)`, which is not the x-mirror of the
  fourteenth, `(w/2+1, -h/2-1)`.
- **Width and height.** These are a running minimum from 0 and a last-value
  "maximum", so the x offsets `[2, 0]` give width 1.
- **Rotation index.** Pieces carry no rotation index: a rotation only turns
  the cells and moves the position.
- **Locking.** Locking writes with `SetTile`, which silently keeps an occupied
  cell. Placing onto an occupied cell is not an error.
- **Game over.** Game over empties the grid and applies the high-score rule.
  When the score does not beat the stored high score, the score resets to 0,
  the refused piece stays active, and play continues on the empty grid. When
  it does beat it, `ScoreManager.GameOver` stores it and loads the
  "Highscore" scene, which ends the game scene. That scene change is not
  modelled.
- **Line clears.** `CheckAndClearLines` does not clear rows itself. It starts
  a fade (`AnimateClear`), and `ClearLine` runs when the fade ends. The model
  keeps this as a queue `pendingClears`, emptied by
  `Board.FinishClearAnimation`. By then the next piece has already spawned,
  and `ClearLine` skips the cells under it.
- **Type mismatches between source files.** `Board.cs` and `Piece.cs` use
  `PieceData.ColoredCell`, `Tiles`, `SpawnPositionOffset` and `Wallkicks`,
  which `PieceData.cs` in this repository does not declare. The model makes
  `PieceData` a record with exactly those fields, and `ColoredCell` a value
  (a struct).
- **`Ghost` overload.** `Ghost` calls an overload `IsValidPosition(piece,
  position)` that `Board` lacks. It is modelled as
  `IsValidPosition(position, piece.cells)`.
- **`GhostPiece` and `Bounds`.** `GhostPiece` reads `Board.Bounds`, which is
  private in `Board.cs`. It is modelled as readable.

## Model

| member | source | states |
|---|---|---|
| Geometry.Half | Assets/Scripts/Board.cs:30 | C# `n / 2` truncates toward zero: 2r ≤ n < 2r+2 for n ≥ 0 and 2r−2 < n ≤ 2r for n < 0 |
| Tilemaps.CustomTilemap.constructor | Assets/Scripts/CustomTilemap.cs:9-15 | after Start every cell of `size` exists and is empty |
| Tilemaps.CustomTilemap.IsInbound | Assets/Scripts/CustomTilemap.cs:100-103 | the half-open test against `size`: an empty size holds no cell, the low corner is inside exactly when the size is non-empty, and a cell one width to the right or one height up is outside |
| Tilemaps.CustomTilemap.HasTile | Assets/Scripts/CustomTilemap.cs:17-30 | false outside `size`; on a well-formed tilemap, true exactly when the cell holds a tile |
| Tilemaps.CustomTilemap.GetTile | Assets/Scripts/CustomTilemap.cs:32-35 | an in-bounds cell yields its tile exactly when HasTile holds, and that tile is the stored one |
| Tilemaps.CustomTilemap.ClearCell | Assets/Scripts/CustomTilemap.cs:57-60 | returns true iff the cell was occupied; afterwards it is empty and every other cell is unchanged |
| Tilemaps.CustomTilemap.SetTile | Assets/Scripts/CustomTilemap.cs:70-73 | on an occupied cell returns false and changes nothing; on an empty one stores the tile, returns true, and changes no other cell |
| Tilemaps.CustomTilemap.ReplaceTile | Assets/Scripts/CustomTilemap.cs:75-78 | always returns true and leaves the cell holding the new tile, whatever it held, with no other cell changed |
| Tilemaps.CustomTilemap.TransferCell | Assets/Scripts/CustomTilemap.cs:80-98 | moves the tile iff both ends are in bounds, `from` is occupied and `to` is empty (so never for from == to); otherwise returns false and changes nothing |
| Tilemaps.CustomTilemap.ClearAll | Assets/Scripts/CustomTilemap.cs:62-68 | afterwards no cell holds a tile |
| Tilemaps.CustomTilemap.GetAllOccupiedCells | Assets/Scripts/CustomTilemap.cs:42-55 | lists exactly the occupied in-bounds cells, strictly in row-major order (so each once) |
| Tilemaps.SortedListingUnique | Assets/Scripts/CustomTilemap.cs:46-52 | two strictly row-major listings of the same cells are equal: the listing is determined by the grid |
| Pieces.ScanMinIsMinWithZero | Assets/Scripts/PieceData.cs:49-58 | the running minimum ends as min(0, every value) and is 0 or one of the values |
| Pieces.ScanSpanPositive | Assets/Scripts/PieceData.cs:44-62 | the recorded maximum never falls below the minimum, so a scan spans at least 1 (1 for no cells) |
| Pieces.ScanMaxIsZeroOrValue | Assets/Scripts/PieceData.cs:49-58 | the recorded maximum is 0 or one of the values |
| Pieces.ScanSpanOfSorted | Assets/Scripts/PieceData.cs:44-62 | on ascending values that include 0 the scan gives the true extent, last − first + 1 |
| Pieces.ScanSpanOutOfOrder | Assets/Scripts/PieceData.cs:49-61 | on x = [2, 0] the scan gives width 1, not the true 3 |
| Pieces.CalculateWidth | Assets/Scripts/PieceData.cs:44-62 | the loop computes the scan span of the x offsets, and it is at least 1 |
| Pieces.CalculateHeight | Assets/Scripts/PieceData.cs:64-82 | the loop computes the scan span of the y offsets, and it is at least 1 |
| Pieces.WallkickTable | Assets/Scripts/PieceData.cs:21-41 | 17 kicks, the first (0, 0) |
| Pieces.WallkickPairs | Assets/Scripts/PieceData.cs:24-39 | kicks 1/2, 3/4, 9/10 and 11/12 negate each other; 5/6, 7/8 and 15/16 mirror each other in x |
| Pieces.WallkickFifteenthAsWritten | Assets/Scripts/PieceData.cs:36-37 | kick 14 is (−w/2−1, −h/2+1): never the mirror of kick 13, and its negation only when h/2 = 0 |
| Pieces.CalculateWallkicks | Assets/Scripts/PieceData.cs:16-42 | the list is the table for the scanned width and height, so it depends on neither rotationIndex nor direction |
| Rotation.CeilHalf | Assets/Scripts/Piece.cs:163-164 | Mathf.CeilToInt(n / 2): the least r with n ≤ 2r |
| Rotation.RotateOffset | Assets/Scripts/Piece.cs:150-167 | the matrix [0, 1, −1, 0] scaled by d: a plain offset (x, y) becomes (d·y, −d·x), where rounding an integer changes nothing; a centrified offset is shifted by −1/2, turned, and each coordinate rounded up, giving (⌈d(2y−1)/2⌉, ⌈−d(2x−1)/2⌉) |
| Rotation.RotateOffsetFormulas | Assets/Scripts/Piece.cs:154-165 | non-centrified (x, y) ↦ (d·y, −d·x); centrified d = 1 gives (y, 1−x) and d = −1 gives (1−y, x) |
| Rotation.RotateOffsetUndo | Assets/Scripts/Piece.cs:135-142 | turning by d then by −d restores every offset |
| Rotation.RotateOffsetFourTimes | Assets/Scripts/Piece.cs:144-169 | four quarter-turns in one direction are the identity |
| Rotation.RotateCells | Assets/Scripts/Piece.cs:148-168 | rotation keeps the number of cells and each cell's tile; only offsets change |
| Rotation.RotateCellsUndo | Assets/Scripts/Piece.cs:135-142 | rotating by d and then −d restores the cells exactly |
| Scoring.Increment | Assets/Scripts/ScoreManager.cs:26-39 | 0 for no lines, 150n − 50 for n ≥ 1; never negative, and zero only for zero lines |
| Scoring.IncrementTable | Assets/Scripts/ScoreManager.cs:26-39 | 0, 100, 250, 400, 550 for 0 to 4 lines |
| Scoring.ScoreManager.constructor | Assets/Scripts/ScoreManager.cs:14-24 | after Start score and stored high score are 0 |
| Scoring.ScoreManager.AddScore | Assets/Scripts/ScoreManager.cs:26-39 | the score grows by the increment and the high score is untouched |
| Scoring.ScoreManager.GameOver | Assets/Scripts/ScoreManager.cs:46-60 | a score above the high score becomes the high score, is kept, and true is returned; otherwise the score resets to 0 and false is returned |
| Cascade.ShiftAt | Assets/Scripts/Board.cs:180-199 | the cascade for one cleared row leaves only cells inside the board |
| Cascade.LookupShiftAt | Assets/Scripts/Board.cs:180-199 | each cell after the cascade is given by CellAfterShift: rows below r untouched, each row from r up takes the row above, a source under the piece is skipped |
| Cascade.ClearRowsSnoc | Assets/Scripts/Board.cs:178-201 | clearing a list then one more row is the cascade for that row after the list |
| Cascade.ShiftAtDeletesRow | Assets/Scripts/Board.cs:180-199 | with the piece out of the way, rows below r are untouched and every row from r up receives the row above it (the top row ends empty) |
| Cascade.KeptRowIsKept | Assets/Scripts/Board.cs:178-180 | every row of the result comes from a row that was not cleared, lying as many rows higher as there are cleared rows below it |
| Cascade.KeptRowLands | Assets/Scripts/Board.cs:178-180 | every kept row z lands at z minus the number of cleared rows below it |
| Cascade.ClearRowsMovesKeptRows | Assets/Scripts/Board.cs:178-201 | after clearing, row y holds the original row KeptRow(rows, y) |
| Cascade.ClearRowsCompacts | Assets/Scripts/Board.cs:126-131 | clearing descending rows with the piece out of the way moves each kept row z down by the number of cleared rows below it, contents intact |
| Cascade.ClearRowsOnlyKeptRows | Assets/Scripts/Board.cs:178-201 | nothing else is left: every row of the result holds some kept row |
| Cascade.MoveStepLosesTile | Assets/Scripts/Board.cs:197-198 | as written the move step reads the source after emptying it, so the tile handed to ReplaceTile is always missing |
| Placement.BoundsOf | Assets/Scripts/Board.cs:27-33 | size (w, h) placed at (−w/2, −h/2) with truncation: xMin + xMax = w mod 2, and the rectangle contains the origin's row and column range |
| Placement.TopOf | Assets/Scripts/Board.cs:37 | the spawn anchor (−xMax/2 + 1, yMax) with C# truncation: it lies on the row just above the board, and on a centred board at least one column wide its x lies between xMin and xMax |
| Placement.EmptyPieceFitsEverywhere | Assets/Scripts/Board.cs:102-118 | a piece with no cells is valid at every position and at the position one row below it |
| Placement.ValidAtFootprint | Assets/Scripts/Board.cs:102-118 | a placement is valid iff every footprint cell is in bounds and unoccupied (vacuously for no cells) |
| Placement.SetCellsAt | Assets/Scripts/Board.cs:81-88 | Set leaves occupied cells and uncovered cells as they were, and a free covered cell gets the tile of the first piece cell covering it |
| Placement.SetCellsKeys | Assets/Scripts/Board.cs:81-88 | Set adds exactly the footprint cells to the occupied ones |
| Placement.ClearCells | Assets/Scripts/Board.cs:90-100 | Clear empties exactly the occupied footprint cells and keeps every other tile |
| Placement.ClearedPlacementIsValid | Assets/Scripts/Piece.cs:37-55 | once the piece is taken off the grid its own placement is valid iff it lies in bounds: the piece never collides with itself |
| Placement.ClearThenSetRestores | Assets/Scripts/Ghost.cs:51-64 | taking a piece off the grid and writing it back restores the grid when its tiles were there |
| Placement.RowAboveNeverFull | Assets/Scripts/Board.cs:126-153 | the row yMax that the scan also visits is never full on a board of positive width |
| Placement.FullRowsDownExact | Assets/Scripts/Board.cs:120-138 | the scan collects exactly the full rows of the range, in strictly descending order |
| Placement.ShiftAtRemovesOneRow | Assets/Scripts/Board.cs:176-202 | the cascade over a full row, with the piece out of the way, removes exactly w tiles |
| Placement.ClearRowsRemovesRows | Assets/Scripts/Board.cs:126-131 | clearing k full rows highest first removes exactly k·w tiles |
| Game.FirstValidKick | Assets/Scripts/Piece.cs:173 | the first kick in list order whose placement is valid: it is valid and every earlier kick is not; none only when no kick is valid |
| Game.Board.constructor | Assets/Scripts/Board.cs:35-41 | an empty grid, zero scores, the first drawn piece spawned at its spawn position, and the second draw as next piece |
| Game.Board.ChooseNextPiece | Assets/Scripts/Board.cs:43 | the piece type of the next draw, one of the board's types |
| Game.Board.SpawnPiece | Assets/Scripts/Board.cs:45-57 | spawns the next piece (written to the grid if its position is valid, otherwise the grid is emptied and the score's game over applied), then draws another |
| Game.Board.SpawnPieceFrom | Assets/Scripts/Board.cs:59-71 | the piece gets a fresh copy of the type's cells at spawn offset + top; valid spawn writes it, blocked spawn empties the grid and applies the high-score rule |
| Game.Board.GameOver | Assets/Scripts/Board.cs:73-77 | every cell empty and the score counter's game-over decision taken |
| Game.Board.Set | Assets/Scripts/Board.cs:81-88 | the grid becomes SetCells of the piece, written cell by cell |
| Game.Board.Clear | Assets/Scripts/Board.cs:90-100 | the grid becomes ClearCells of the piece, cleared cell by cell |
| Game.Board.IsValidPosition | Assets/Scripts/Board.cs:102-118 | true iff every cell of the piece at the position is in bounds and unoccupied |
| Game.Board.IsLineFull | Assets/Scripts/Board.cs:140-153 | true iff every column of the row holds a tile |
| Game.Board.CheckAndClearLines | Assets/Scripts/Board.cs:120-138 | the full rows from yMax down are queued for clearing and their count scored; nothing changes when none is full |
| Game.Board.AnimateClear | Assets/Scripts/Board.cs:155-171 | the rows are queued to be cleared when the fade ends |
| Game.Board.FinishClearAnimation | Assets/Scripts/Board.cs:170 | the oldest queued rows are cleared by ClearLine and leave the queue |
| Game.Board.ClearLine | Assets/Scripts/Board.cs:176-202 | the grid becomes ClearRows of the listed rows, skipping cells under the active piece |
| Game.Board.CascadeFrom | Assets/Scripts/Board.cs:180-199 | the two inner loops give the cascade ShiftAt for that row |
| Game.CascadeStep | Assets/Scripts/Board.cs:182-199 | one pass of the innermost loop preserves its progress invariant |
| Game.Piece.Initialize | Assets/Scripts/Piece.cs:20-35 | the board, position and type are set, and the cells become a fresh copy of the type's cells, same length and order |
| Game.Piece.Move | Assets/Scripts/Piece.cs:120-133 | moves by exactly the translation iff that placement is valid, otherwise leaves the position; the cells are never touched |
| Game.Piece.Step | Assets/Scripts/Piece.cs:97-102 | one row down when that is valid with nothing else changed; otherwise the Lock outcome |
| Game.Piece.Fall | Assets/Scripts/Piece.cs:105 | the piece keeps its x, passes through valid rows only, and stops where the row below is invalid; nothing else changes |
| Game.Piece.HardDrop | Assets/Scripts/Piece.cs:103-108 | terminates; the landing row is reached through valid rows only, the row below it is invalid, and the piece locks there |
| Game.Piece.Lock | Assets/Scripts/Piece.cs:110-115 | the piece is written, the full rows of that grid queued and scored, and the next piece spawned or the game ended |
| Game.Piece.Rotate | Assets/Scripts/Piece.cs:135-142 | with a valid kick, the turned cells and the position moved by the first valid kick; with none, cells and position exactly as before |
| Game.Piece.ApplyRotationMatrix | Assets/Scripts/Piece.cs:144-169 | every cell's offset is turned by RotateOffset, in place |
| Game.Piece.TestWallKicks | Assets/Scripts/Piece.cs:173 | succeeds iff some kick is valid, and then moves by the first valid one only |
| Game.Piece.Update | Assets/Scripts/Piece.cs:37-55 | after a frame the board is still well formed |
| Game.Piece.HandleRotationInputs | Assets/Scripts/Piece.cs:65-75 | a rotation keeps the piece inside the board |
| Game.Piece.HandleHardDropInputs | Assets/Scripts/Piece.cs:57-63 | a hard drop keeps the board well formed |
| Game.Piece.HandleMoveInputs | Assets/Scripts/Piece.cs:77-95 | soft drop and sideways moves keep the piece inside the board |
| Ghosts.LowestValidRow | Assets/Scripts/GhostPiece.cs:52-65 | the lowest row of the range where the piece fits; every lower row of the range is invalid; none when no row fits |
| Ghosts.Ghost.constructor | Assets/Scripts/Ghost.cs:14-17 | room for four offsets |
| Ghosts.Ghost.Copy | Assets/Scripts/Ghost.cs:36-42 | the offsets become the tracked piece's, same length and order |
| Ghosts.Ghost.Drop | Assets/Scripts/Ghost.cs:44-65 | the ghost keeps the piece's x; its row is the lowest row r ≥ −h/2 − 1 such that the piece fits at every row from r up to its own, the row below r being invalid; unchanged when the piece's own row is invalid; the piece is taken off the grid and written back |
| Ghosts.GhostPiece.constructor | Assets/Scripts/GhostPiece.cs:14-18 | room for four offsets |
| Ghosts.GhostPiece.Copy | Assets/Scripts/GhostPiece.cs:37-43 | the offsets become the tracked piece's, same length and order |
| Ghosts.GhostPiece.Drop | Assets/Scripts/GhostPiece.cs:45-66 | the first row from yMin up to the piece's row where the piece fits, at the piece's x; unchanged when there is none |
| Ghosts.SearchesDifferUnderOverhang | Assets/Scripts/GhostPiece.cs:52-65 | under an overhang the upward search shows a row below a blocked one, where the downward search stops above it |

## Left out

- Rendering: sprites, `Instantiate`/`Destroy`, the DOTween fade in `AnimateClear`, the preview tilemaps of the two ghosts, score text, the next-piece preview, the high-score screen, and the pieces editor window.
- Persistence: the stored high score is a field. `PlayerPrefs` and the scene change on a new high score are not modelled.
- Randomness: `Random.Range` is an oracle `roll` on the board, indexed by draw number.
- Time and input: `Time.time`, the step and move timers, and keyboard polling. `Piece.Update` takes the frame's inputs (rotation, hard drop, move due, soft drop, horizontal, step due) as parameters. The timer resets are not modelled: `Initialize` resets both timers and a successful `Move` resets the move timer, so in the source a piece spawned by a hard-drop lock is not moved or stepped in the same frame, while the model's `Update` allows it.
- Floats: the rotation matrix is taken as exactly `[0, 1, -1, 0]`. `Mathf.Cos(π/2)` is about −4e-8 in floats, and that cannot move a round or a ceiling at the integer and half-integer values involved.
- The LateUpdate and OnGameStepped drivers of the ghosts only chain Clear, Copy, Drop and Set on the preview tilemap. `Ghost` is driven from `LateUpdate`. The `PiecePositionChanged` event `GhostPiece` subscribes to is not declared in `Piece.cs`.
- Game.Piece.Update: only states that the board stays well formed. Its effect is the composition of the handler contracts listed above, which the model does not restate as one formula.
- Game.Piece.HandleRotationInputs: only states that the piece stays inside the board. `Rotate` carries the full contract.
- Game.Piece.HandleHardDropInputs: only states that the board stays well formed. `HardDrop` carries the full contract.
- Game.Piece.HandleMoveInputs: only states that the piece stays inside the board. `Move` carries the full contract.
- Ghosts.Ghost.Drop: the x it keeps, and the row below the board it scans to, follow `Ghost.cs`. The `Vector3Int` z coordinate is dropped.
- The tile-count theorem (`ClearRowsRemovesRows`) and the compaction theorem require that the active piece lie outside the columns and rows the cascade reads from. In play the freshly spawned piece usually overlaps them, and then the cascade skips those cells as `LookupShiftAt` states.
- Piece types must have at least one cell and a spawn position inside the board. This is a requirement on the authored assets, which `PieceData.cs` does not check.
- Game.Piece.Fall: requires a piece with at least one cell, through `Board.Valid`. Its termination measure uses the first cell's offset. With no cells, every placement is valid (`Placement.EmptyPieceFitsEverywhere`). Then the source's `while (Move(Vector2Int.down)) {}` in `Piece.cs` line 105 never ends, and `HardDrop` never locks. The model does not cover that non-terminating case.
- One rectangle for the board and its tilemap. The source keeps two settings: the serialized `CustomTilemap.Size` and `Board._boardSize`. `Bounds`, computed from `_boardSize`, feeds `IsValidPosition` and `IsLineFull`. `Size` feeds `ClearLine`, `AnimateClear` and `HasTile`. The model requires, through `Board.Ready`, that `tilemap.size == Bounds()`, so it does not cover a scene where the two are set differently.
- Out-of-range cells. `GetTile`, `ClearCell`, `SetTile` and `ReplaceTile` index the cell dictionary directly. In the source, a position outside `Size` throws `KeyNotFoundException`. The model requires `IsInbound` on these four, and the footprint in bounds on `Board.Set`. So it does not model that exception.

## Findings

| source | as written | input that shows it | evidently intended | confidence | as-written member | corrected member |
|---|---|---|---|---|---|---|
| Assets/Scripts/Board.cs:197-198 | `ClearCell(position)` runs before `GetTile(position)`, so `ReplaceTile` is handed the emptied cell's null tile | any cleared row with a tile above it, e.g. a full bottom row and a tile at (0, yMin+1) | read the tile above, then empty that cell and put the tile in the cell below | not executed; as written Unity's `Instantiate(null)` would throw, which the model does not follow further | Cascade.MoveStepLosesTile | Game.Board.CascadeFrom |

# Tetris engine model

A Dafny model of the game-logic engine of a small falling-block (Tetris) game
written in C++, with proofs of what that engine guarantees. The model has two
parts, as the engine does.

- **The piece** (`Tetromino`). A piece has:
  - a type in 1..7 (I T O Z S L J);
  - a rotation state in 0..3;
  - a 4x4 0/1 shape mask, always the entry of the constant rotation table for (type, state);
  - an anchor (x, y);
  - a per-type colour.

  `Rotate` cycles the state and reloads the mask. `IsWithinShape` is a bounds-safe mask query.
- **The board** (`Board`). The board is a `height x width` grid of `BlockInfo {occupied, colour}` cells, row 0 at the bottom, plus a score. It provides:
  - the collision test, with its self-exclusion clause;
  - stamping and erasing a piece's footprint;
  - the all-or-nothing move;
  - rotate-if-legal;
  - full-row clearing with scoring;
  - the bounds-safe colour query.

The objects the C++ code updates in place are classes here:
- `Tetromino` has fields `kind`, `shape`, `x`, `y`, `colour` and `rotation`.
- `Board` has `const` `width` and `height` and mutable `score` and `blockInfo`.

The C++ shape array and the row vectors are value types, so they are `seq` fields, which the methods reassign cell by cell in the same nested loops.

Each method is proved against pure specification functions on the grid (module `BoardGrid`):
- `Painted`: a footprint is written;
- `Collides`: the collision test;
- `Compact` and `FullCount`: what row clearing leaves and scores.

Lemmas say what those functions mean.

The game-loop tick and the start-up constants are composed in module `GameLoop`:
- the 11 x 20 board;
- the spawn anchor (4, 16);
- first piece type 6.

One scenario is proved end to end: the first piece falls alone from the spawn point to the floor, and nothing is cleared.

Files:
- `tetromino_shapes.dfy`: the rotation table.
- `tetromino.dfy`: colours and the piece class.
- `board_grid.dfy`: cells and the grid specification.
- `board.dfy`: the board class.
- `game.dfy`: the tick and the scenario.

Behaviour of the code that is reproduced as written:
- The right boundary of the collision test is `width - 1`, and the full-row test scans only columns `[0, width - 1)`, so the last column is never usable (`OutOfPlay`, `RowFull`).
- With zero deltas the overlap clause of the collision test can never fire, so a rotation is refused only when the rotated mask leaves the field, never for overlapping occupied cells (`ZeroShiftCollidesOnlyOutOfPlay`, `RotateTetromino`).
- `MoveTetromino` returns `true` when the move is **blocked**. The documentation comment at include/Board.h:53 says `true` means success; the model follows the code.
- A direction other than 1, 2 or 3 gives zero deltas. The move is then a bounds test, an erase and a re-stamp in place (`DownShift`, `LeftShift`, `RightShift`, `PaintedTwice`).
- Two different "unoccupied" cell values exist:
  - erasing writes colour `(0,0,0,0)` (`Vacant`, colour `Transparent`);
  - construction and the top-row reset write a default `ngl::Vec4()` (`Blank`, colour `Unset`).

  `GetBlock` hides the difference.
- After a blocked downward move the game-loop tick stamps the piece. If the piece has moved since it spawned, it is already on the board and this is a re-stamp; `RestampKeepsExactly` covers only that case. A piece blocked on its first tick has never been stamped (a new piece is not stamped when it spawns), so for it this is its first stamp.

## Model

| member | source | states |
|---|---|---|
| TetrominoShapes.RotationStates | include/Tetromino.h:71-227 | every one of the 7 x 4 table entries is a 4 x 4 mask whose entries are all 0 or 1 |
| TetrominoShapes.EveryMaskHasFourCells | include/Tetromino.h:75-226 | every mask of the table has exactly four filled cells |
| TetrominoShapes.IBlockHasFourCells | include/Tetromino.h:75-93 | each I-block mask has four filled cells |
| TetrominoShapes.TBlockHasFourCells | include/Tetromino.h:97-115 | each T-block mask has four filled cells |
| TetrominoShapes.OBlockHasFourCells | include/Tetromino.h:118-137 | each O-block mask has four filled cells |
| TetrominoShapes.ZBlockHasFourCells | include/Tetromino.h:140-159 | each Z-block mask has four filled cells |
| TetrominoShapes.SBlockHasFourCells | include/Tetromino.h:162-181 | each S-block mask has four filled cells |
| TetrominoShapes.LBlockHasFourCells | include/Tetromino.h:184-204 | each L-block mask has four filled cells |
| TetrominoShapes.JBlockHasFourCells | include/Tetromino.h:207-226 | each J-block mask has four filled cells |
| TetrominoShapes.OBlockIsRotationInvariant | include/Tetromino.h:118-137 | the O-block mask is the same in all four rotation states |
| TetrominoShapes.IBlockHasTwoOrientations | include/Tetromino.h:75-93 | I-block state 0 equals state 2, state 1 equals state 3, and states 0 and 1 differ |
| Tetrominoes.ColourOf | src/Tetromino.cpp:24-37 | a piece type's colour is one of the seven palette colours, never transparent or unset |
| Tetrominoes.Tetromino.Valid | include/Tetromino.h:56-62 | the piece invariant (mask is the table entry for type and state, palette colour) implies the mask is a 0/1 4 x 4 grid |
| Tetrominoes.Tetromino.constructor | src/Tetromino.cpp:6-11 | needs a type in 1..7; a new piece is valid, in rotation 0, with the table mask for (type, 0), the type's colour and anchor (x, y) |
| Tetrominoes.Tetromino.Copy | src/Board.cpp:139 | a copy has the same type, state, mask, anchor and colour, and is valid |
| Tetrominoes.Tetromino.InitializeShape | src/Tetromino.cpp:14-21 | after the nested copy loop the mask equals the table entry for the current type and state |
| Tetrominoes.Tetromino.InitializeColour | src/Tetromino.cpp:24-37 | the colour becomes the type's palette colour and nothing else changes |
| Tetrominoes.Tetromino.Rotate | src/Tetromino.cpp:40-45 | the state becomes (state + 1) % 4, the mask is the table entry for it, and type, anchor and colour are untouched |
| Tetrominoes.Tetromino.SetPosition | src/Tetromino.cpp:72-77 | the anchor becomes (x, y); only x and y change |
| Tetrominoes.Tetromino.GetBlock | src/Tetromino.cpp:54-57 | needs in-range indices; returns 0 or 1, and 1 exactly when IsWithinShape holds |
| Tetrominoes.Tetromino.IsWithinShape | src/Tetromino.cpp:79-87 | the query is exactly `InMask`, the mask-membership predicate the collision predicate uses: true when (i, j) is inside the mask and that cell is 1, false outside the 4 x 4 window |
| Tetrominoes.RotateFourTimes | src/Tetromino.cpp:40-45 | four rotations restore the state and the mask and change nothing else |
| Tetrominoes.RotateOBlock | include/Tetromino.h:118-137 | rotating an O-piece advances its state and leaves its mask unchanged; it may change only the state and the mask, so type, anchor and colour stay |
| BoardGrid.PaintedCells | src/Board.cpp:58-98 | writing a footprint keeps the grid's dimensions, writes the value on every on-grid footprint cell and leaves every other cell as it was |
| BoardGrid.PaintedTwice | src/Board.cpp:105-133 | erasing then stamping the same footprint equals stamping it, so a zero-delta move only re-stamps in place |
| BoardGrid.PaintedKeepsGrid | src/Board.cpp:79-98 | writing a footprint keeps a height x width grid one, and keeps occupied cells coloured |
| BoardGrid.InPlayIsStampSafe | src/Board.cpp:88-91 | a piece inside the field has no negative footprint index, so the upper-bound-only stamp loop is safe for it |
| BoardGrid.NoCollisionMeansInPlay | src/Board.cpp:35-41 | when the test passes, every filled cell at the shifted anchor is in columns [0, width - 2] and rows >= 0 |
| BoardGrid.ZeroShiftCollidesOnlyOutOfPlay | src/Board.cpp:44-50 | with zero deltas the collision test is true exactly when some filled cell is outside the field |
| BoardGrid.AlonePieceCollidesOnlyOutOfPlay | src/Board.cpp:44-50 | a piece whose cells are the only occupied ones collides exactly when some shifted cell leaves the field (self-exclusion) |
| BoardGrid.MovedPieceStaysAlone | src/Board.cpp:125-132 | erasing a piece alone on the field and stamping it elsewhere makes its new footprint exactly the occupied cells |
| BoardGrid.RestampKeepsExactly | src/NGLScene.cpp:139-142 | stamping a piece again over its own exact footprint keeps the occupied cells exactly that footprint |
| BoardGrid.BlankRowNotFull | src/Board.cpp:182 | the reset top row is not full when the board has at least two columns |
| BoardGrid.Kept | src/Board.cpp:160-189 | every row the clearing keeps is not full |
| BoardGrid.FullCount | src/Board.cpp:160-189 | full rows plus kept rows account for every row of the grid |
| BoardGrid.KeptAppend | src/Board.cpp:174-179 | the kept rows and the full-row count of two stacked grids are those of each part, in order |
| BoardGrid.CompactKeepsDimensions | src/Board.cpp:176-182 | clearing keeps the grid height x width |
| BoardGrid.CompactTopRowsBlank | src/Board.cpp:181-182 | after clearing, the top FullCount rows are blank rows |
| BoardGrid.CompactLeavesNoFullRow | src/Board.cpp:162-188 | with at least two columns no row is full after clearing |
| BoardGrid.CompactMovesRowDown | src/Board.cpp:175-179 | a non-full row r ends at row r minus the number of full rows below it, so the surviving rows keep their order |
| BoardGrid.EmptyColumnMeansNoFullRow | src/Board.cpp:164-172 | a grid with an empty scanned column has no full row |
| BoardGrid.CompactOfClearGrid | src/Board.cpp:162-188 | a grid without full rows is left unchanged and scores nothing |
| BoardGrid.ClearRowStep | src/Board.cpp:174-187 | removing one full row and adding a blank top row keeps the final cleared grid, lowers the full-row count by one, and keeps the scanned rows non-full |
| Boards.Board.constructor | src/Board.cpp:5-8 | a new board has the given width and height, score 0 and every cell empty |
| Boards.Board.IsCollision | src/Board.cpp:25-56 | the nested scan with early return computes exactly the collision predicate: some filled cell leaves columns [0, width - 2] or rows >= 0, or lands on an occupied cell whose back-shifted local cell is not in the mask |
| Boards.Board.WriteFootprint | src/Board.cpp:58-98 | the stamp/erase loop writes the value on exactly the on-board footprint cells and keeps the board invariant |
| Boards.Board.ClearTetromino | src/Board.cpp:58-77 | the footprint cells become unoccupied and every other cell is unchanged |
| Boards.Board.UpdateTetrominoOnBoard | src/Board.cpp:79-98 | the footprint cells become occupied with the piece colour and every other cell is unchanged |
| Boards.Board.MoveTetromino | src/Board.cpp:100-134 | returns true exactly when the shifted piece collides, and then changes nothing; otherwise the anchor moves by the deltas, the old footprint is erased, the new one stamped, and the piece is in play |
| Boards.Board.RotateTetromino | src/Board.cpp:136-158 | rotates exactly when the rotated mask is inside the field; a refused rotation changes nothing, a performed one advances the state and re-stamps the grid |
| Boards.Board.CommitRotation | src/Board.cpp:148-157 | erase, rotate and stamp: the state advances by one and the grid is the old one with the old mask erased and the new mask stamped |
| Boards.Board.IsRowFull | src/Board.cpp:164-172 | the column scan with break answers whether columns [0, width - 1) of the row are all occupied |
| Boards.Board.RemoveRow | src/Board.cpp:174-182 | the rows above the cleared row move down one, the top row is reset to a blank row, the rows below are unchanged |
| Boards.Board.ClearFullRows | src/Board.cpp:160-189 | the grid becomes the non-full rows in order under blank top rows, the score rises by the number of full rows at entry, and no row is full afterwards |
| Boards.Board.GetBlock | src/Board.cpp:191-198 | the result is not transparent exactly when (row, col) is on the board and occupied, and is then that cell's colour |
| GameLoop.Tick | src/NGLScene.cpp:136-148 | the piece lands exactly when moving down collides; if it does not, it falls one row; if it does, it is stamped, full rows are cleared and scored, and a new piece of the given type spawns at (4, 16) |
| GameLoop.AlonePieceLandsOnFloor | src/Board.cpp:35-41 | a piece alone on the 11-column field at x = 4 with some filled cell in mask row 0 is blocked from moving down exactly when it is at y = 0 |
| GameLoop.LandingOnFloorClearsNothing | src/NGLScene.cpp:139-143 | a piece alone on the floor, away from column 0, clears no row and scores nothing when it lands |
| GameLoop.AloneTick | src/NGLScene.cpp:136-148 | a tick while the piece is alone keeps it alone: it lands exactly at y = 0, otherwise it falls one row |
| GameLoop.FirstPieceLands | src/main.cpp:51-56 | on the 11 x 20 board the first piece, type 6 at (4, 16), falls to y = 0 in rotation 0, is then the only occupied cells, the score stays 0 and the next piece waits at (4, 16) |

## Left out

- Rendering, the Qt window and timer, shaders and cubes (src/NGLScene.cpp, src/Cube.cpp) are not modelled. `GameLoop.Tick` takes one tick's logic only.
- The random choice of the next piece type (`rand() % 7 + 1`) is the `nextKind` parameter of `GameLoop.Tick`, restricted to 1..7.
- The score print in the tick is not modelled.
- The application set-up in src/main.cpp is not modelled. Only its constants are used: the 11 x 20 board, the spawn point (4, 16) and first piece type 6. The C++ `main` does not stamp the first piece before the first tick, and neither does `GameLoop.FirstPieceLands`.
- `ngl::Vec4` colours are an enumeration, `Colour`, with no floating-point values:
  - the seven palette entries;
  - `Transparent` for `(0,0,0,0)`;
  - `Unset` for `Vec4()`.
- The defaulted constructors `Tetromino() = default` and `Board() = default` leave fields uninitialised and are not modelled.
- Scores and coordinates are unbounded integers. The C++ `int` overflow of the score after 2^31 - 1 cleared rows is not modelled.
- The getters `GetX`, `GetY`, `GetColour`, `GetHeight`, `GetWidth` and `GetScore` are plain field reads. They are functions without contracts.
- Some C++ functions are split into helper methods that are not separate functions in the source, so each proof stays small:
  - `Boards.Board.CommitRotation` is the second half of `RotateTetromino`;
  - `Boards.Board.IsRowFull` and `Boards.Board.RemoveRow` are the scan and the shift inside `ClearFullRows`;
  - `Boards.Board.WriteFootprint` is the loop that `ClearTetromino` and `UpdateTetrominoOnBoard` share.
- Boards.Board.constructor: requires non-negative width and height. For a negative size the C++ `resize` and row `vector` construction throw `std::length_error`, which is not modelled.
- Tetrominoes.Tetromino.GetBlock: requires indices in 0..3. The C++ accessor has no bounds test, and out-of-range reads are undefined behaviour.
- Boards.Board.IsCollision: requires `CollisionDefined`:
  - every filled cell that passes the bounds test must land below `height`, since the C++ code indexes the row without a bound test;
  - this is slightly stronger than strictly needed, because an early return on an earlier cell in scan order could avoid reading such a row.
- Boards.Board.MoveTetromino and Boards.Board.RotateTetromino carry the same precondition, and so does GameLoop.Tick.
- Boards.Board.ClearTetromino, Boards.Board.UpdateTetrominoOnBoard and Boards.Board.WriteFootprint: require `StampSafe`, i.e. no negative footprint index. The C++ loops test only the upper bounds.
- Boards.Board.ClearFullRows: requires at least two columns (or no rows). With one or no column, every row passes the full-row scan, the same row is examined again after each clear, and the C++ loop never terminates.
- GameLoop.FirstPieceLands: proves the scenario for the first piece only, not for later pieces, whose landing depends on the random sequence.

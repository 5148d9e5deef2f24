// The Board of src/Board.cpp: a height x width field of BlockInfo cells and a
// score, updated in place by the piece operations and by row clearing.
module Boards {
  import opened TetrominoShapes
  import opened Tetrominoes
  import opened BoardGrid

  /** The deltas MoveTetromino derives from a direction: 1 = down, 2 = left, 3 = right, anything else none. */
  function DownShift(direction: int): int { if direction == 1 then 1 else 0 }
  function LeftShift(direction: int): int { if direction == 2 then 1 else 0 }
  function RightShift(direction: int): int { if direction == 3 then 1 else 0 }

  class Board {
    const width: int
    const height: int
    var score: int
    var blockInfo: seq<seq<BlockInfo>>   // blockInfo[row][col], row 0 at the bottom

    /** The class invariant: the grid has the fixed dimensions and occupied cells carry a piece colour. */
    ghost predicate Valid()
      reads this`blockInfo
    {
      0 <= width && 0 <= height &&
      IsGrid(blockInfo, width, height) && OccupiedColoured(blockInfo)
    }

    /** A board of the given size, every cell empty, score 0. */
    constructor (width: int, height: int)
      requires 0 <= width && 0 <= height
      ensures Valid()
      ensures this.width == width && this.height == height && score == 0
      ensures forall r, c :: 0 <= r < height && 0 <= c < width ==> blockInfo[r][c] == Blank
    {
      this.width := width;
      this.height := height;
      score := 0;
      blockInfo := seq(height, _ => seq(width, _ => Blank));
    }

    function GetHeight(): int
    {
      height
    }

    function GetWidth(): int
    {
      width
    }

    function GetScore(): int
      reads this
    {
      score
    }

    /**
     * The collision test: true when some filled cell of `t`, shifted down by
     * `down` and sideways by `right - left`, leaves the field or lands on an
     * occupied cell that does not belong to the piece's own (back-shifted) mask.
     */
    method IsCollision(t: Tetromino, down: int, left: int, right: int) returns (collides: bool)
      requires Valid() && t.Wellformed()
      requires CollisionDefined(height, width, t.shape, t.x, t.y, down, left, right)
      ensures collides == Collides(blockInfo, width, t.shape, t.x, t.y, down, left, right)
    {
      for i := 0 to 4
        invariant forall a, b :: 0 <= a < i && 0 <= b < 4 ==>
          !CellCollides(blockInfo, width, t.shape, t.x, t.y, down, left, right, a, b)
      {
        for j := 0 to 4
          invariant forall a, b :: 0 <= a < i && 0 <= b < 4 ==>
            !CellCollides(blockInfo, width, t.shape, t.x, t.y, down, left, right, a, b)
          invariant forall b :: 0 <= b < j ==>
            !CellCollides(blockInfo, width, t.shape, t.x, t.y, down, left, right, i, b)
        {
          if t.GetBlock(i, j) == 1 {
            assert InMask(t.shape, i, j);
            var newY := t.GetY() + i - down;
            var newX := t.GetX() + j + right - left;
            if newX < 0 || newX >= width - 1 || newY < 0 {
              assert CellCollides(blockInfo, width, t.shape, t.x, t.y, down, left, right, i, j);
              return true;
            }
            if t.GetBlock(i, j) == 1 && blockInfo[newY][newX].occupied && !t.IsWithinShape(i - down, j + right - left) {
              assert CellCollides(blockInfo, width, t.shape, t.x, t.y, down, left, right, i, j);
              return true;
            }
          }
        }
      }
      return false;
    }

    /** Writes `cell` into every filled footprint cell of `t` that is below the upper bounds. */
    method WriteFootprint(t: Tetromino, cell: BlockInfo)
      requires Valid() && t.Wellformed()
      requires StampSafe(width, height, t.shape, t.x, t.y)
      requires cell.occupied ==> IsPieceColour(cell.colour)
      modifies this`blockInfo
      ensures Valid()
      ensures blockInfo == Painted(old(blockInfo), t.shape, t.x, t.y, cell)
    {
      ghost var g0 := blockInfo;
      for i := 0 to 4
        invariant Valid()
        invariant forall r, c :: 0 <= r < height && 0 <= c < width ==>
          blockInfo[r][c] == if InFootprint(t.shape, t.x, t.y, r, c) && r - t.y < i then cell else g0[r][c]
      {
        for j := 0 to 4
          invariant Valid()
          invariant forall r, c :: 0 <= r < height && 0 <= c < width ==>
            blockInfo[r][c] ==
              if InFootprint(t.shape, t.x, t.y, r, c) && (r - t.y < i || (r - t.y == i && c - t.x < j))
              then cell else g0[r][c]
        {
          if t.GetBlock(i, j) == 1 {
            assert InMask(t.shape, i, j);
            var newY := t.GetY() + i;
            var newX := t.GetX() + j;
            if newY < height && newX < width {
              blockInfo := blockInfo[newY := blockInfo[newY][newX := cell]];
            }
          }
        }
      }
      PaintedCells(g0, t.shape, t.x, t.y, cell);
      assert forall r :: 0 <= r < height ==> blockInfo[r] == Painted(g0, t.shape, t.x, t.y, cell)[r];
    }

    /** Erases the footprint of `t`: its on-board filled cells become unoccupied. */
    method ClearTetromino(t: Tetromino)
      requires Valid() && t.Wellformed()
      requires StampSafe(width, height, t.shape, t.x, t.y)
      modifies this`blockInfo
      ensures Valid()
      ensures blockInfo == Painted(old(blockInfo), t.shape, t.x, t.y, Vacant)
    {
      WriteFootprint(t, Vacant);
    }

    /** Stamps the footprint of `t`: its on-board filled cells become occupied with the piece colour. */
    method UpdateTetrominoOnBoard(t: Tetromino)
      requires Valid() && t.Wellformed()
      requires StampSafe(width, height, t.shape, t.x, t.y)
      modifies this`blockInfo
      ensures Valid()
      ensures blockInfo == Painted(old(blockInfo), t.shape, t.x, t.y, BlockInfo(true, t.colour))
    {
      WriteFootprint(t, BlockInfo(true, t.GetColour()));
    }

    /**
     * Moves `t` one step in `direction` if the collision test allows it. Returns
     * true when the move is BLOCKED; then nothing changes. Otherwise the old
     * footprint is erased, the anchor moves and the new footprint is stamped.
     */
    method MoveTetromino(t: Tetromino, direction: int) returns (blocked: bool)
      requires Valid() && t.Valid()
      requires CollisionDefined(height, width, t.shape, t.x, t.y,
                                DownShift(direction), LeftShift(direction), RightShift(direction))
      requires StampSafe(width, height, t.shape, t.x, t.y)
      modifies this`blockInfo, t`x, t`y
      ensures Valid() && t.Valid()
      ensures blocked == Collides(old(blockInfo), width, t.shape, old(t.x), old(t.y),
                                  DownShift(direction), LeftShift(direction), RightShift(direction))
      ensures blocked ==> blockInfo == old(blockInfo) && t.x == old(t.x) && t.y == old(t.y)
      ensures !blocked ==>
        t.x == old(t.x) + RightShift(direction) - LeftShift(direction) &&
        t.y == old(t.y) - DownShift(direction) &&
        blockInfo == Painted(Painted(old(blockInfo), t.shape, old(t.x), old(t.y), Vacant),
                             t.shape, t.x, t.y, BlockInfo(true, t.colour))
      ensures !blocked ==> InPlay(width, t.shape, t.x, t.y)
    {
      var down, left, right := 0, 0, 0;
      if direction == 1 {
        down := 1;
      } else if direction == 2 {
        left := 1;
      } else if direction == 3 {
        right := 1;
      }
      blocked := IsCollision(t, down, left, right);
      if blocked {
        return;
      }
      NoCollisionMeansInPlay(blockInfo, width, t.shape, t.x, t.y, down, left, right);
      ClearTetromino(t);
      t.SetPosition(t.GetX() + right - left, t.GetY() - down);
      UpdateTetrominoOnBoard(t);
    }

    /**
     * Rotates `t` if its rotated mask passes the collision test with zero deltas.
     * Returns true exactly when the rotation was performed. Because the overlap
     * clause cannot fire with zero deltas, only the bounds can refuse a rotation.
     */
    method RotateTetromino(t: Tetromino) returns (rotated: bool)
      requires Valid() && t.Valid()
      requires CollisionDefined(height, width, RotationStates(t.kind - 1, (t.rotation + 1) % 4), t.x, t.y, 0, 0, 0)
      requires StampSafe(width, height, t.shape, t.x, t.y)
      modifies this`blockInfo, t`rotation, t`shape
      ensures Valid() && t.Valid()
      ensures rotated <==> InPlay(width, RotationStates(t.kind - 1, (old(t.rotation) + 1) % 4), t.x, t.y)
      ensures rotated ==>
        t.rotation == (old(t.rotation) + 1) % 4 &&
        blockInfo == Painted(Painted(old(blockInfo), old(t.shape), t.x, t.y, Vacant),
                             t.shape, t.x, t.y, BlockInfo(true, t.colour))
      ensures !rotated ==> t.rotation == old(t.rotation) && t.shape == old(t.shape) && blockInfo == old(blockInfo)
    {
      var temp := new Tetromino.Copy(t);
      temp.Rotate();
      var blocked := IsCollision(temp, 0, 0, 0);
      ZeroShiftCollidesOnlyOutOfPlay(blockInfo, width, temp.shape, temp.x, temp.y);
      if blocked {
        return false;
      }
      CommitRotation(t);
      return true;
    }

    /** The second half of RotateTetromino, once the test has passed: erase, rotate, stamp. */
    method CommitRotation(t: Tetromino)
      requires Valid() && t.Valid()
      requires StampSafe(width, height, t.shape, t.x, t.y)
      requires InPlay(width, RotationStates(t.kind - 1, (t.rotation + 1) % 4), t.x, t.y)
      modifies this`blockInfo, t`rotation, t`shape
      ensures Valid() && t.Valid()
      ensures t.rotation == (old(t.rotation) + 1) % 4
      ensures blockInfo == Painted(Painted(old(blockInfo), old(t.shape), t.x, t.y, Vacant),
                                   t.shape, t.x, t.y, BlockInfo(true, t.colour))
    {
      ghost var k0, r0 := t.kind, t.rotation;
      ghost var next := RotationStates(k0 - 1, (r0 + 1) % 4);
      ClearTetromino(t);
      t.Rotate();
      assert t.kind == k0 && t.rotation == (r0 + 1) % 4;
      assert t.shape == next;
      InPlayIsStampSafe(width, height, t.shape, t.x, t.y);
      UpdateTetrominoOnBoard(t);
    }

    /** The column scan of ClearFullRows: whether columns [0, width - 1) of `row` are all occupied. */
    method IsRowFull(row: int) returns (full: bool)
      requires Valid() && 0 <= row < height && width >= 1
      ensures full == RowFull(blockInfo[row], width)
    {
      full := true;
      for col := 0 to width - 1
        invariant forall c :: 0 <= c < col ==> blockInfo[row][c].occupied
      {
        if !blockInfo[row][col].occupied {
          full := false;
          break;
        }
      }
    }

    /** The shift of ClearFullRows: every row above `row` moves down one and the top row is reset. */
    method RemoveRow(row: int)
      requires Valid() && 0 <= row < height
      modifies this`blockInfo
      ensures Valid()
      ensures blockInfo == WithRowRemoved(old(blockInfo), row, width)
    {
      ghost var before := blockInfo;
      for moveRow := row to height - 1
        invariant |blockInfo| == height
        invariant forall k :: 0 <= k < row ==> blockInfo[k] == before[k]
        invariant forall k :: row <= k < moveRow ==> blockInfo[k] == before[k + 1]
        invariant forall k :: moveRow <= k < height ==> blockInfo[k] == before[k]
      {
        blockInfo := blockInfo[moveRow := blockInfo[moveRow + 1]];
      }
      blockInfo := blockInfo[height - 1 := BlankRow(width)];
      assert blockInfo == WithRowRemoved(before, row, width);
    }

    /**
     * Removes every row that is full over columns [0, width - 1), scanning from
     * the top: the rows above a full row move down one, the top row is reset,
     * the score goes up by one and the same row index is examined again.
     */
    method ClearFullRows()
      requires Valid()
      requires width >= 2 || height == 0
      modifies this`blockInfo, this`score
      ensures Valid()
      ensures blockInfo == Compact(old(blockInfo), width)
      ensures score == old(score) + FullCount(old(blockInfo), width)
      ensures forall r :: 0 <= r < height ==> !RowFull(blockInfo[r], width)
      ensures forall r :: height - FullCount(old(blockInfo), width) <= r < height ==> blockInfo[r] == BlankRow(width)
    {
      ghost var g0 := blockInfo;
      ghost var target, total := Compact(g0, width), score + FullCount(g0, width);
      var row := height - 1;
      while row >= 0
        invariant -1 <= row < height
        invariant Valid()
        invariant Compact(blockInfo, width) == target
        invariant score + FullCount(blockInfo, width) == total
        invariant forall k :: row < k < height ==> !RowFull(blockInfo[k], width)
        decreases FullCount(blockInfo, width), row + 1
      {
        var rowFull := IsRowFull(row);
        if rowFull {
          ghost var before := blockInfo;
          RemoveRow(row);
          ClearRowStep(before, width, row);
          row := row + 1;
          score := score + 1;
        }
        row := row - 1;
      }
      CompactOfClearGrid(blockInfo, width);
      CompactTopRowsBlank(g0, width);
    }

    /** The colour to draw at (row, col): the cell colour if it is on the board and occupied, else transparent. */
    function GetBlock(row: int, col: int): (c: Colour)
      reads this
      requires Valid()
      ensures c != Transparent <==> 0 <= row < height && 0 <= col < width && blockInfo[row][col].occupied
      ensures c != Transparent ==> c == blockInfo[row][col].colour
    {
      if 0 <= row < height && 0 <= col < width then
        (if blockInfo[row][col].occupied then blockInfo[row][col].colour else Transparent)
      else Transparent
    }
  }
}

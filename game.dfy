// The game-loop tick of src/NGLScene.cpp and the start-up constants of
// src/main.cpp, composed from the Board and Tetromino operations. Rendering,
// the Qt timer and the random choice of the next piece type are not modelled:
// the next type is a parameter.
module GameLoop {
  import opened TetrominoShapes
  import opened Tetrominoes
  import opened BoardGrid
  import opened Boards

  /** The board size, spawn anchor and first piece type the application starts with. */
  const BoardWidth := 11
  const BoardHeight := 20
  const SpawnX := 4
  const SpawnY := 16
  const FirstKind := 6

  /**
   * One tick: the falling piece moves down one row; if that move is blocked the
   * piece is stamped where it is, full rows are cleared and a new piece of type
   * `nextKind` is spawned at the spawn anchor. `next` is the falling piece after
   * the tick (the same object when the piece did not land).
   */
  method Tick(board: Board, piece: Tetromino, nextKind: int) returns (landed: bool, next: Tetromino)
    requires board.Valid() && piece.Valid() && 1 <= nextKind <= 7 && board.width >= 2
    requires CollisionDefined(board.height, board.width, piece.shape, piece.x, piece.y, 1, 0, 0)
    requires StampSafe(board.width, board.height, piece.shape, piece.x, piece.y)
    modifies board`blockInfo, board`score, piece`x, piece`y
    ensures board.Valid() && piece.Valid() && next.Valid()
    ensures landed == Collides(old(board.blockInfo), board.width, piece.shape, old(piece.x), old(piece.y), 1, 0, 0)
    ensures !landed ==>
      next == piece && piece.x == old(piece.x) && piece.y == old(piece.y) - 1 &&
      board.score == old(board.score) &&
      board.blockInfo == Painted(Painted(old(board.blockInfo), piece.shape, piece.x, old(piece.y), Vacant),
                                 piece.shape, piece.x, piece.y, BlockInfo(true, piece.colour))
    ensures landed ==>
      piece.x == old(piece.x) && piece.y == old(piece.y) &&
      next.kind == nextKind && next.rotation == 0 && next.x == SpawnX && next.y == SpawnY &&
      board.blockInfo == Compact(Painted(old(board.blockInfo), piece.shape, piece.x, piece.y,
                                         BlockInfo(true, piece.colour)), board.width) &&
      board.score == old(board.score) + FullCount(Painted(old(board.blockInfo), piece.shape, piece.x, piece.y,
                                                          BlockInfo(true, piece.colour)), board.width)
  {
    landed := board.MoveTetromino(piece, 1);
    if landed {
      board.UpdateTetrominoOnBoard(piece);
      board.ClearFullRows();
      next := new Tetromino(nextKind, SpawnX, SpawnY);
    } else {
      next := piece;
    }
  }

  /**
   * A piece alone on the 11-column field at x = SpawnX, with a filled cell in its
   * first mask row, is blocked from moving down exactly when it sits on the floor:
   * its columns x .. x + 3 are all inside [0, width - 2].
   */
  lemma AlonePieceLandsOnFloor(g: seq<seq<BlockInfo>>, mask: seq<seq<int>>, y: int)
    requires IsMask(mask) && (exists j :: InMask(mask, 0, j)) && y >= 0
    requires OccupiedOnlyBy(g, mask, SpawnX, y)
    ensures Collides(g, BoardWidth, mask, SpawnX, y, 1, 0, 0) <==> y == 0
  {
    AlonePieceCollidesOnlyOutOfPlay(g, BoardWidth, mask, SpawnX, y, 1, 0, 0);
    if y == 0 {
      var j :| InMask(mask, 0, j);
      assert OutOfPlay(BoardWidth, y + 0 - 1, SpawnX + j);
    }
  }

  /**
   * A piece alone on the 11 x 20 field that lands on the floor away from column 0:
   * stamping it again keeps its cells the only occupied ones, and since column 0
   * stays empty no row is full, so clearing rows changes nothing and scores nothing.
   */
  lemma LandingOnFloorClearsNothing(g: seq<seq<BlockInfo>>, mask: seq<seq<int>>, x: int, cell: BlockInfo)
    requires IsGrid(g, BoardWidth, BoardHeight) && OccupiedExactly(g, mask, x, 0)
    requires cell.occupied && x >= 1
    ensures OccupiedExactly(Painted(g, mask, x, 0, cell), mask, x, 0)
    ensures FullCount(Painted(g, mask, x, 0, cell), BoardWidth) == 0
    ensures Compact(Painted(g, mask, x, 0, cell), BoardWidth) == Painted(g, mask, x, 0, cell)
  {
    var stamped := Painted(g, mask, x, 0, cell);
    RestampKeepsExactly(g, mask, x, 0, cell);
    PaintedCells(g, mask, x, 0, cell);
    EmptyColumnMeansNoFullRow(stamped, BoardWidth, 0);
    CompactOfClearGrid(stamped, BoardWidth);
  }

  /**
   * One tick while the falling piece is alone on the 11 x 20 field at x = SpawnX
   * (its cells, once stamped, are the only occupied ones). The piece lands exactly
   * when it is on the floor; otherwise it falls one row and stays alone. Landing
   * on the floor clears no row, scores nothing and spawns the next piece.
   */
  method AloneTick(board: Board, piece: Tetromino, nextKind: int) returns (landed: bool, next: Tetromino)
    requires board.Valid() && piece.Valid() && 1 <= nextKind <= 7
    requires board.width == BoardWidth && board.height == BoardHeight
    requires piece.x == SpawnX && 0 <= piece.y <= SpawnY && exists j :: InMask(piece.shape, 0, j)
    requires OccupiedOnlyBy(board.blockInfo, piece.shape, piece.x, piece.y)
    requires piece.y < SpawnY ==> OccupiedExactly(board.blockInfo, piece.shape, piece.x, piece.y)
    modifies board`blockInfo, board`score, piece`x, piece`y
    ensures board.Valid() && piece.Valid() && next.Valid()
    ensures board.score == old(board.score) && piece.x == SpawnX
    ensures landed <==> old(piece.y) == 0
    ensures OccupiedExactly(board.blockInfo, piece.shape, piece.x, piece.y)
    ensures landed ==> piece.y == 0 && next.kind == nextKind && next.rotation == 0 && next.x == SpawnX && next.y == SpawnY
    ensures !landed ==> next == piece && piece.y == old(piece.y) - 1
  {
    ghost var g, y := board.blockInfo, piece.y;
    AlonePieceLandsOnFloor(g, piece.shape, y);
    landed, next := Tick(board, piece, nextKind);
    if landed {
      LandingOnFloorClearsNothing(g, piece.shape, SpawnX, BlockInfo(true, piece.colour));
    } else {
      MovedPieceStaysAlone(g, piece.shape, SpawnX, y, SpawnX, y - 1, BlockInfo(true, piece.colour));
    }
  }

  /**
   * The start of a game: the 11 x 20 board and the first piece (type 6, the
   * L-block) at (4, 16), then timer ticks until the piece lands. It lands on the
   * floor (y = 0) in the rotation it spawned with, its cells are then the only
   * occupied cells, no row is cleared and the next piece waits at the spawn anchor.
   */
  method FirstPieceLands(nextKind: int) returns (board: Board, landedPiece: Tetromino, next: Tetromino)
    requires 1 <= nextKind <= 7
    ensures board.Valid() && landedPiece.Valid() && next.Valid()
    ensures board.width == BoardWidth && board.height == BoardHeight && board.score == 0
    ensures landedPiece.kind == FirstKind && landedPiece.rotation == 0
    ensures landedPiece.x == SpawnX && landedPiece.y == 0
    ensures OccupiedExactly(board.blockInfo, landedPiece.shape, landedPiece.x, landedPiece.y)
    ensures next.kind == nextKind && next.rotation == 0 && next.x == SpawnX && next.y == SpawnY
  {
    board := new Board(BoardWidth, BoardHeight);
    landedPiece := new Tetromino(FirstKind, SpawnX, SpawnY);
    next := landedPiece;
    assert InMask(landedPiece.shape, 0, 1);
    var landed := false;
    while !landed
      invariant board.Valid() && landedPiece.Valid() && next.Valid()
      invariant board.width == BoardWidth && board.height == BoardHeight && board.score == 0
      invariant landedPiece.kind == FirstKind && landedPiece.rotation == 0 && landedPiece.x == SpawnX
      invariant 0 <= landedPiece.y <= SpawnY
      invariant !landed ==> OccupiedOnlyBy(board.blockInfo, landedPiece.shape, landedPiece.x, landedPiece.y)
      invariant landed || landedPiece.y < SpawnY ==>
        OccupiedExactly(board.blockInfo, landedPiece.shape, landedPiece.x, landedPiece.y)
      invariant landed ==> landedPiece.y == 0 && next.kind == nextKind && next.rotation == 0 && next.x == SpawnX && next.y == SpawnY
      decreases landedPiece.y + (if landed then 0 else 1)
    {
      landed, next := AloneTick(board, landedPiece, nextKind);
    }
  }
}

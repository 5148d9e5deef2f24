// The playing field of include/Board.h as a value: rows of BlockInfo cells,
// row 0 at the bottom, and the specification functions the Board operations
// are proved against (footprint painting, the collision test, full-row
// compaction), with the lemmas that say what they mean.
module BoardGrid {
  import opened TetrominoShapes
  import opened Tetrominoes

  /** One cell of the field. */
  datatype BlockInfo = BlockInfo(occupied: bool, colour: Colour)

  /** What ClearTetromino writes into a cell (colour `{0,0,0,0}`). */
  const Vacant := BlockInfo(false, Transparent)

  /** What construction and the top-row reset write into a cell (colour `ngl::Vec4()`). */
  const Blank := BlockInfo(false, Unset)

  /** `height` rows of `width` cells each. */
  ghost predicate IsGrid(g: seq<seq<BlockInfo>>, width: int, height: int) {
    |g| == height && forall r :: 0 <= r < |g| ==> |g[r]| == width
  }

  /** Occupied cells carry a piece colour, so they never read as transparent. */
  ghost predicate OccupiedColoured(g: seq<seq<BlockInfo>>) {
    forall r, c :: 0 <= r < |g| && 0 <= c < |g[r]| && g[r][c].occupied ==> IsPieceColour(g[r][c].colour)
  }

  // ---------------------------------------------------------------------------
  // Footprints

  /** Board cell (row, col) is covered by `mask` anchored at (x, y): mask row i lands on row y + i, column j on x + j. */
  predicate InFootprint(mask: seq<seq<int>>, x: int, y: int, row: int, col: int) {
    InMask(mask, row - y, col - x)
  }

  /** The grid with every on-grid footprint cell of `mask` at (x, y) replaced by `cell`. */
  ghost function Painted(g: seq<seq<BlockInfo>>, mask: seq<seq<int>>, x: int, y: int, cell: BlockInfo): (p: seq<seq<BlockInfo>>)
  {
    seq(|g|, r requires 0 <= r < |g| =>
      seq(|g[r]|, c requires 0 <= c < |g[r]| => if InFootprint(mask, x, y, r, c) then cell else g[r][c]))
  }

  /** Painting keeps the dimensions, writes `cell` exactly on the footprint and leaves every other cell alone. */
  lemma PaintedCells(g: seq<seq<BlockInfo>>, mask: seq<seq<int>>, x: int, y: int, cell: BlockInfo)
    ensures |Painted(g, mask, x, y, cell)| == |g|
    ensures forall r :: 0 <= r < |g| ==> |Painted(g, mask, x, y, cell)[r]| == |g[r]|
    ensures forall r, c :: 0 <= r < |g| && 0 <= c < |g[r]| && InFootprint(mask, x, y, r, c) ==>
      Painted(g, mask, x, y, cell)[r][c] == cell
    ensures forall r, c :: 0 <= r < |g| && 0 <= c < |g[r]| && !InFootprint(mask, x, y, r, c) ==>
      Painted(g, mask, x, y, cell)[r][c] == g[r][c]
  {
  }

  /** Painting the same footprint twice: the second value wins (erase then re-stamp in place is a stamp). */
  lemma {:induction false} PaintedTwice(g: seq<seq<BlockInfo>>, mask: seq<seq<int>>, x: int, y: int, a: BlockInfo, b: BlockInfo)
    ensures Painted(Painted(g, mask, x, y, a), mask, x, y, b) == Painted(g, mask, x, y, b)
  {
    var p, q := Painted(Painted(g, mask, x, y, a), mask, x, y, b), Painted(g, mask, x, y, b);
    assert |p| == |q|;
    forall r | 0 <= r < |p|
      ensures p[r] == q[r]
    {
      assert |p[r]| == |q[r]|;
      assert forall c :: 0 <= c < |p[r]| ==> p[r][c] == q[r][c];
    }
  }

  /** Painting keeps a grid a grid, and keeps occupied cells coloured if the new value is. */
  lemma PaintedKeepsGrid(g: seq<seq<BlockInfo>>, width: int, height: int, mask: seq<seq<int>>, x: int, y: int, cell: BlockInfo)
    requires IsGrid(g, width, height) && OccupiedColoured(g)
    requires cell.occupied ==> IsPieceColour(cell.colour)
    ensures IsGrid(Painted(g, mask, x, y, cell), width, height)
    ensures OccupiedColoured(Painted(g, mask, x, y, cell))
  {
  }

  // ---------------------------------------------------------------------------
  // Collision

  /** The bounds test of IsCollision. The right boundary is width - 1, so the last column is never usable; there is no upper row bound. */
  predicate OutOfPlay(width: int, row: int, col: int) {
    col < 0 || col >= width - 1 || row < 0
  }

  /**
   * Filled cell (i, j) of `mask` at (x, y), shifted by the deltas, is out of play,
   * or lands on an occupied cell while the back-shifted local cell
   * (i - down, j + right - left) is not part of the mask.
   */
  ghost predicate CellCollides(g: seq<seq<BlockInfo>>, width: int, mask: seq<seq<int>>, x: int, y: int,
                               down: int, left: int, right: int, i: int, j: int)
  {
    InMask(mask, i, j) &&
    (OutOfPlay(width, y + i - down, x + j + right - left) ||
     (y + i - down < |g| && x + j + right - left < |g[y + i - down]| &&
      g[y + i - down][x + j + right - left].occupied &&
      !InMask(mask, i - down, j + right - left)))
  }

  /** Some filled cell of the shifted piece collides. */
  ghost predicate Collides(g: seq<seq<BlockInfo>>, width: int, mask: seq<seq<int>>, x: int, y: int,
                           down: int, left: int, right: int)
  {
    exists i, j :: CellCollides(g, width, mask, x, y, down, left, right, i, j)
  }

  /** Every row the collision test reads exists: a filled cell that passes the bounds test lands below `height`. */
  ghost predicate CollisionDefined(height: int, width: int, mask: seq<seq<int>>, x: int, y: int,
                                   down: int, left: int, right: int)
  {
    forall i, j :: InMask(mask, i, j) && !OutOfPlay(width, y + i - down, x + j + right - left) ==> y + i - down < height
  }

  /** The indices stamp and erase write to are non-negative (those loops test only the upper bounds). */
  ghost predicate StampSafe(width: int, height: int, mask: seq<seq<int>>, x: int, y: int) {
    forall i, j :: InMask(mask, i, j) && y + i < height && x + j < width ==> 0 <= y + i && 0 <= x + j
  }

  /** Every filled cell of `mask` at (x, y) lies in columns [0, width - 2] and rows >= 0. */
  ghost predicate InPlay(width: int, mask: seq<seq<int>>, x: int, y: int) {
    forall i, j :: InMask(mask, i, j) ==> !OutOfPlay(width, y + i, x + j)
  }

  /** A piece in play has no negative row or column, so stamping it is safe. */
  lemma InPlayIsStampSafe(width: int, height: int, mask: seq<seq<int>>, x: int, y: int)
    requires InPlay(width, mask, x, y)
    ensures StampSafe(width, height, mask, x, y)
  {
  }

  /** A piece that may move lands where it is in play. */
  lemma NoCollisionMeansInPlay(g: seq<seq<BlockInfo>>, width: int, mask: seq<seq<int>>, x: int, y: int,
                               down: int, left: int, right: int)
    requires !Collides(g, width, mask, x, y, down, left, right)
    ensures InPlay(width, mask, x + right - left, y - down)
  {
    forall i, j | InMask(mask, i, j)
      ensures !OutOfPlay(width, y - down + i, x + right - left + j)
    {
      assert !CellCollides(g, width, mask, x, y, down, left, right, i, j);
    }
  }

  /**
   * With zero deltas the overlap clause never fires (the back-shifted cell is the
   * filled cell itself), so the test reduces to the bounds test.
   */
  lemma ZeroShiftCollidesOnlyOutOfPlay(g: seq<seq<BlockInfo>>, width: int, mask: seq<seq<int>>, x: int, y: int)
    ensures Collides(g, width, mask, x, y, 0, 0, 0) <==> !InPlay(width, mask, x, y)
  {
    if !InPlay(width, mask, x, y) {
      var i, j :| InMask(mask, i, j) && OutOfPlay(width, y + i, x + j);
      assert CellCollides(g, width, mask, x, y, 0, 0, 0, i, j);
    }
  }

  /** Every occupied cell of `g` is covered by the footprint of `mask` at (x, y): the piece is alone on the field. */
  ghost predicate OccupiedOnlyBy(g: seq<seq<BlockInfo>>, mask: seq<seq<int>>, x: int, y: int) {
    forall r, c :: 0 <= r < |g| && 0 <= c < |g[r]| && g[r][c].occupied ==> InFootprint(mask, x, y, r, c)
  }

  /** Self-exclusion: a piece never collides with its own stamped cells, only with the bounds. */
  lemma AlonePieceCollidesOnlyOutOfPlay(g: seq<seq<BlockInfo>>, width: int, mask: seq<seq<int>>, x: int, y: int,
                                        down: int, left: int, right: int)
    requires OccupiedOnlyBy(g, mask, x, y)
    ensures Collides(g, width, mask, x, y, down, left, right) <==>
      exists i, j :: InMask(mask, i, j) && OutOfPlay(width, y + i - down, x + j + right - left)
  {
    if Collides(g, width, mask, x, y, down, left, right) {
      var i, j :| CellCollides(g, width, mask, x, y, down, left, right, i, j);
      assert OutOfPlay(width, y + i - down, x + j + right - left);
    } else {
      forall i, j | InMask(mask, i, j)
        ensures !OutOfPlay(width, y + i - down, x + j + right - left)
      {
        assert !CellCollides(g, width, mask, x, y, down, left, right, i, j);
      }
    }
  }

  /** The occupied cells of `g` are exactly the on-grid footprint of `mask` at (x, y). */
  ghost predicate OccupiedExactly(g: seq<seq<BlockInfo>>, mask: seq<seq<int>>, x: int, y: int) {
    forall r, c :: 0 <= r < |g| && 0 <= c < |g[r]| ==> (g[r][c].occupied <==> InFootprint(mask, x, y, r, c))
  }

  /**
   * Erasing a piece that is alone on the field and stamping it somewhere else
   * leaves it alone there, and its on-grid footprint is then exactly the occupied cells.
   */
  lemma MovedPieceStaysAlone(g: seq<seq<BlockInfo>>, mask: seq<seq<int>>, x0: int, y0: int, x1: int, y1: int, cell: BlockInfo)
    requires OccupiedOnlyBy(g, mask, x0, y0) && cell.occupied
    ensures OccupiedExactly(Painted(Painted(g, mask, x0, y0, Vacant), mask, x1, y1, cell), mask, x1, y1)
  {
    PaintedCells(g, mask, x0, y0, Vacant);
    PaintedCells(Painted(g, mask, x0, y0, Vacant), mask, x1, y1, cell);
  }

  /** Stamping a piece over its own exact footprint keeps the occupancy. */
  lemma RestampKeepsExactly(g: seq<seq<BlockInfo>>, mask: seq<seq<int>>, x: int, y: int, cell: BlockInfo)
    requires OccupiedExactly(g, mask, x, y) && cell.occupied
    ensures OccupiedExactly(Painted(g, mask, x, y, cell), mask, x, y)
  {
    PaintedCells(g, mask, x, y, cell);
  }

  // ---------------------------------------------------------------------------
  // Full rows

  /** The full-row test of ClearFullRows: columns [0, width - 1) are occupied (the last column is not looked at). */
  ghost predicate RowFull(row: seq<BlockInfo>, width: int) {
    forall c :: 0 <= c < width - 1 ==> c < |row| && row[c].occupied
  }

  /** The row that replaces the top row after a clear. */
  function BlankRow(width: nat): (row: seq<BlockInfo>)
  {
    seq(width, _ => Blank)
  }

  /** A blank row is full only on a board at most one column wide. */
  lemma BlankRowNotFull(width: nat)
    requires width >= 2
    ensures !RowFull(BlankRow(width), width)
  {
    assert !BlankRow(width)[0].occupied;
  }

  /** The non-full rows of `g`, bottom to top, in their original order. */
  ghost function Kept(g: seq<seq<BlockInfo>>, width: int): (k: seq<seq<BlockInfo>>)
    ensures forall i :: 0 <= i < |k| ==> !RowFull(k[i], width)
  {
    if g == [] then [] else (if RowFull(g[0], width) then [] else [g[0]]) + Kept(g[1..], width)
  }

  /** The number of full rows of `g`. */
  ghost function FullCount(g: seq<seq<BlockInfo>>, width: int): (n: nat)
    ensures n + |Kept(g, width)| == |g|
  {
    if g == [] then 0 else (if RowFull(g[0], width) then 1 else 0) + FullCount(g[1..], width)
  }

  /** `g` after ClearFullRows: the non-full rows moved down in order, the vacated top rows blank. */
  ghost function Compact(g: seq<seq<BlockInfo>>, width: nat): (c: seq<seq<BlockInfo>>)
  {
    Kept(g, width) + seq(FullCount(g, width), _ => BlankRow(width))
  }

  /** Kept and FullCount distribute over concatenation: the filter keeps the order. */
  lemma {:induction false} KeptAppend(a: seq<seq<BlockInfo>>, b: seq<seq<BlockInfo>>, width: int)
    ensures Kept(a + b, width) == Kept(a, width) + Kept(b, width)
    ensures FullCount(a + b, width) == FullCount(a, width) + FullCount(b, width)
  {
    if a == [] {
      assert a + b == b;
    } else {
      assert (a + b)[0] == a[0];
      assert (a + b)[1..] == a[1..] + b;
      KeptAppend(a[1..], b, width);
    }
  }

  /** Kept on one row. */
  lemma KeptSingle(row: seq<BlockInfo>, width: int)
    ensures Kept([row], width) == if RowFull(row, width) then [] else [row]
    ensures FullCount([row], width) == if RowFull(row, width) then 1 else 0
  {
    assert [row][1..] == [];
  }

  /** Compaction keeps the grid's dimensions. */
  lemma {:induction false} CompactKeepsDimensions(g: seq<seq<BlockInfo>>, width: nat, height: nat)
    requires IsGrid(g, width, height)
    ensures IsGrid(Compact(g, width), width, height)
  {
    KeptRowsOf(g, width);
  }

  /** Every kept row is a row of `g`. */
  lemma {:induction false} KeptRowsOf(g: seq<seq<BlockInfo>>, width: int)
    ensures forall k :: 0 <= k < |Kept(g, width)| ==> Kept(g, width)[k] in g
  {
    if g != [] {
      KeptRowsOf(g[1..], width);
      assert forall row :: row in g[1..] ==> row in g;
    }
  }

  /** The top FullCount(g) rows of the compacted grid are blank. */
  lemma CompactTopRowsBlank(g: seq<seq<BlockInfo>>, width: nat)
    ensures forall r :: |g| - FullCount(g, width) <= r < |g| ==> Compact(g, width)[r] == BlankRow(width)
  {
  }

  /** After compaction no row is full (given at least two columns). */
  lemma CompactLeavesNoFullRow(g: seq<seq<BlockInfo>>, width: nat)
    requires width >= 2
    ensures forall k :: 0 <= k < |Compact(g, width)| ==> !RowFull(Compact(g, width)[k], width)
  {
    BlankRowNotFull(width);
  }

  /**
   * Row r of `g` that is not full moves down by the number of full rows below it,
   * so the surviving rows keep their order.
   */
  lemma {:induction false} CompactMovesRowDown(g: seq<seq<BlockInfo>>, width: nat, r: int)
    requires 0 <= r < |g| && !RowFull(g[r], width)
    ensures r - FullCount(g[..r], width) < |g|
    ensures Compact(g, width)[r - FullCount(g[..r], width)] == g[r]
  {
    assert g == g[..r] + g[r..];
    KeptAppend(g[..r], g[r..], width);
    assert g[r..] == [g[r]] + g[r + 1..];
    KeptAppend([g[r]], g[r + 1..], width);
    KeptSingle(g[r], width);
  }

  /** A grid with an empty column among the scanned ones has no full row. */
  lemma EmptyColumnMeansNoFullRow(g: seq<seq<BlockInfo>>, width: int, col: int)
    requires 0 <= col < width - 1
    requires forall r :: 0 <= r < |g| ==> col < |g[r]| && !g[r][col].occupied
    ensures forall r :: 0 <= r < |g| ==> !RowFull(g[r], width)
  {
  }

  /** Compaction leaves a grid without full rows unchanged. */
  lemma {:induction false} CompactOfClearGrid(g: seq<seq<BlockInfo>>, width: nat)
    requires forall k :: 0 <= k < |g| ==> !RowFull(g[k], width)
    ensures FullCount(g, width) == 0
    ensures Compact(g, width) == g
  {
    if g != [] {
      CompactOfClearGrid(g[1..], width);
      assert Kept(g, width) == [g[0]] + Kept(g[1..], width);
    }
  }

  /** Dropping a full row removes nothing from Kept and one from FullCount. */
  lemma {:induction false} DropFullRow(g: seq<seq<BlockInfo>>, width: int, row: int)
    requires 0 <= row < |g| && RowFull(g[row], width)
    ensures Kept(g[..row] + g[row + 1..], width) == Kept(g, width)
    ensures FullCount(g[..row] + g[row + 1..], width) == FullCount(g, width) - 1
  {
    var lo, hi := g[..row], g[row + 1..];
    assert g == lo + ([g[row]] + hi);
    KeptAppend(lo, [g[row]] + hi, width);
    KeptAppend([g[row]], hi, width);
    KeptSingle(g[row], width);
    KeptAppend(lo, hi, width);
  }

  /** A blank row put on top is kept and is not full. */
  lemma {:induction false} AddBlankRow(g: seq<seq<BlockInfo>>, width: nat)
    requires width >= 2
    ensures Kept(g + [BlankRow(width)], width) == Kept(g, width) + [BlankRow(width)]
    ensures FullCount(g + [BlankRow(width)], width) == FullCount(g, width)
  {
    KeptAppend(g, [BlankRow(width)], width);
    BlankRowNotFull(width);
    KeptSingle(BlankRow(width), width);
  }

  /** `g` with row `row` removed, the rows above moved down one and a blank row put on top. */
  ghost function WithRowRemoved(g: seq<seq<BlockInfo>>, row: int, width: nat): (h: seq<seq<BlockInfo>>)
    requires 0 <= row < |g|
  {
    g[..row] + g[row + 1..] + [BlankRow(width)]
  }

  /**
   * One clearing step of ClearFullRows: removing full row `row` does not change
   * the compacted grid, removes exactly one full row, and leaves the rows from
   * `row` up non-full when the rows above `row` were.
   */
  lemma {:induction false} ClearRowStep(g: seq<seq<BlockInfo>>, width: nat, row: int)
    requires 0 <= row < |g| && RowFull(g[row], width) && width >= 2
    ensures Compact(WithRowRemoved(g, row, width), width) == Compact(g, width)
    ensures FullCount(WithRowRemoved(g, row, width), width) == FullCount(g, width) - 1
    ensures (forall k :: row < k < |g| ==> !RowFull(g[k], width)) ==>
      forall k :: row <= k < |g| ==> !RowFull(WithRowRemoved(g, row, width)[k], width)
  {
    var rest := g[..row] + g[row + 1..];
    DropFullRow(g, width, row);
    AddBlankRow(rest, width);
    var n := FullCount(g, width);
    BlanksCons(width, n);
    assert Compact(rest + [BlankRow(width)], width)
        == Kept(g, width) + ([BlankRow(width)] + seq(n - 1, _ => BlankRow(width)));
    BlankRowNotFull(width);
    assert forall k :: row <= k < |g| - 1 ==> WithRowRemoved(g, row, width)[k] == g[k + 1];
  }

  lemma BlanksCons(width: nat, n: nat)
    requires n >= 1
    ensures [BlankRow(width)] + seq(n - 1, _ => BlankRow(width)) == seq(n, _ => BlankRow(width))
  {
  }
}

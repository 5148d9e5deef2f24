// The constant rotation table of include/Tetromino.h: for each of the seven
// piece types (0-based, I T O Z S L J) and each of the four rotation states,
// a 4x4 mask of 0/1 entries. The first index of a mask is the row (added to
// the piece's y coordinate on the board), the second is the column (added to x).
module TetrominoShapes {

  /** A 4x4 grid whose entries are all 0 or 1. */
  predicate IsMask(m: seq<seq<int>>) {
    |m| == 4 &&
    forall i :: 0 <= i < 4 ==> |m[i]| == 4 && forall j :: 0 <= j < 4 ==> m[i][j] == 0 || m[i][j] == 1
  }

  /** Local cell (i, j) of a mask is filled; false outside the mask. */
  predicate InMask(mask: seq<seq<int>>, i: int, j: int) {
    0 <= i < |mask| && 0 <= j < |mask[i]| && mask[i][j] == 1
  }

  /** `rotationStates[t][r]`: the mask of piece type t (0-based) in rotation state r. */
  function RotationStates(t: int, r: int): (m: seq<seq<int>>)
    requires 0 <= t < 7 && 0 <= r < 4
    ensures IsMask(m)
  {
    if t == 0 then // I-block
      if r == 0 then [[0, 1, 0, 0], [0, 1, 0, 0], [0, 1, 0, 0], [0, 1, 0, 0]]
      else if r == 1 then [[0, 0, 0, 0], [1, 1, 1, 1], [0, 0, 0, 0], [0, 0, 0, 0]]
      else if r == 2 then [[0, 1, 0, 0], [0, 1, 0, 0], [0, 1, 0, 0], [0, 1, 0, 0]]
      else [[0, 0, 0, 0], [1, 1, 1, 1], [0, 0, 0, 0], [0, 0, 0, 0]]
    else if t == 1 then // T-block
      if r == 0 then [[0, 0, 0, 0], [1, 1, 1, 0], [0, 1, 0, 0], [0, 0, 0, 0]]
      else if r == 1 then [[0, 1, 0, 0], [0, 1, 1, 0], [0, 1, 0, 0], [0, 0, 0, 0]]
      else if r == 2 then [[0, 1, 0, 0], [1, 1, 1, 0], [0, 0, 0, 0], [0, 0, 0, 0]]
      else [[0, 1, 0, 0], [1, 1, 0, 0], [0, 1, 0, 0], [0, 0, 0, 0]]
    else if t == 2 then // O-block
      if r == 0 then [[1, 1, 0, 0], [1, 1, 0, 0], [0, 0, 0, 0], [0, 0, 0, 0]]
      else if r == 1 then [[1, 1, 0, 0], [1, 1, 0, 0], [0, 0, 0, 0], [0, 0, 0, 0]]
      else if r == 2 then [[1, 1, 0, 0], [1, 1, 0, 0], [0, 0, 0, 0], [0, 0, 0, 0]]
      else [[1, 1, 0, 0], [1, 1, 0, 0], [0, 0, 0, 0], [0, 0, 0, 0]]
    else if t == 3 then // Z-block
      if r == 0 then [[0, 0, 0, 0], [0, 1, 0, 0], [1, 1, 0, 0], [1, 0, 0, 0]]
      else if r == 1 then [[0, 0, 0, 0], [1, 1, 0, 0], [0, 1, 1, 0], [0, 0, 0, 0]]
      else if r == 2 then [[0, 0, 0, 0], [0, 0, 1, 0], [0, 1, 1, 0], [0, 1, 0, 0]]
      else [[0, 0, 0, 0], [0, 0, 0, 0], [1, 1, 0, 0], [0, 1, 1, 0]]
    else if t == 4 then // S-block
      if r == 0 then [[1, 0, 0, 0], [1, 1, 0, 0], [0, 1, 0, 0], [0, 0, 0, 0]]
      else if r == 1 then [[0, 1, 1, 0], [1, 1, 0, 0], [0, 0, 0, 0], [0, 0, 0, 0]]
      else if r == 2 then [[0, 1, 0, 0], [0, 1, 1, 0], [0, 0, 1, 0], [0, 0, 0, 0]]
      else [[0, 0, 0, 0], [0, 1, 1, 0], [1, 1, 0, 0], [0, 0, 0, 0]]
    else if t == 5 then // L-block
      if r == 0 then [[0, 1, 0, 0], [0, 1, 0, 0], [1, 1, 0, 0], [0, 0, 0, 0]]
      else if r == 1 then [[0, 0, 0, 0], [1, 1, 1, 0], [0, 0, 1, 0], [0, 0, 0, 0]]
      else if r == 2 then [[0, 1, 1, 0], [0, 1, 0, 0], [0, 1, 0, 0], [0, 0, 0, 0]]
      else [[1, 0, 0, 0], [1, 1, 1, 0], [0, 0, 0, 0], [0, 0, 0, 0]]
    else // J-block
      if r == 0 then [[1, 0, 0, 0], [1, 0, 0, 0], [1, 1, 0, 0], [0, 0, 0, 0]]
      else if r == 1 then [[0, 0, 0, 0], [0, 0, 1, 0], [1, 1, 1, 0], [0, 0, 0, 0]]
      else if r == 2 then [[1, 1, 0, 0], [0, 1, 0, 0], [0, 1, 0, 0], [0, 0, 0, 0]]
      else [[0, 0, 0, 0], [1, 1, 1, 0], [1, 0, 0, 0], [0, 0, 0, 0]]
  }

  function Bit(b: int): nat { if b == 1 then 1 else 0 }

  /** Number of 1 entries in columns j.. of one mask row. */
  function RowFilled(row: seq<int>, j: nat): nat
    decreases |row| - j
  {
    if j >= |row| then 0 else Bit(row[j]) + RowFilled(row, j + 1)
  }

  /** Number of 1 entries in rows i.. of a mask. */
  function FilledFrom(m: seq<seq<int>>, i: nat): nat
    decreases |m| - i
  {
    if i >= |m| then 0 else RowFilled(m[i], 0) + FilledFrom(m, i + 1)
  }

  /** Number of 1 entries in a mask. */
  function Filled(m: seq<seq<int>>): nat {
    FilledFrom(m, 0)
  }

  // Per-type helpers: each case is evaluated on the literal mask.
  lemma IBlockHasFourCells(r: int)
    requires 0 <= r < 4
    ensures Filled(RotationStates(0, r)) == 4
  {
    if r == 0 {
      assert Filled(RotationStates(0, 0)) == 4;
    } else if r == 1 {
      assert Filled(RotationStates(0, 1)) == 4;
    } else if r == 2 {
      assert Filled(RotationStates(0, 2)) == 4;
    } else {
      assert Filled(RotationStates(0, 3)) == 4;
    }
  }

  lemma TBlockHasFourCells(r: int)
    requires 0 <= r < 4
    ensures Filled(RotationStates(1, r)) == 4
  {
    if r == 0 {
      assert Filled(RotationStates(1, 0)) == 4;
    } else if r == 1 {
      assert Filled(RotationStates(1, 1)) == 4;
    } else if r == 2 {
      assert Filled(RotationStates(1, 2)) == 4;
    } else {
      assert Filled(RotationStates(1, 3)) == 4;
    }
  }

  lemma OBlockHasFourCells(r: int)
    requires 0 <= r < 4
    ensures Filled(RotationStates(2, r)) == 4
  {
    if r == 0 {
      assert Filled(RotationStates(2, 0)) == 4;
    } else if r == 1 {
      assert Filled(RotationStates(2, 1)) == 4;
    } else if r == 2 {
      assert Filled(RotationStates(2, 2)) == 4;
    } else {
      assert Filled(RotationStates(2, 3)) == 4;
    }
  }

  lemma ZBlockHasFourCells(r: int)
    requires 0 <= r < 4
    ensures Filled(RotationStates(3, r)) == 4
  {
    if r == 0 {
      assert Filled(RotationStates(3, 0)) == 4;
    } else if r == 1 {
      assert Filled(RotationStates(3, 1)) == 4;
    } else if r == 2 {
      assert Filled(RotationStates(3, 2)) == 4;
    } else {
      assert Filled(RotationStates(3, 3)) == 4;
    }
  }

  lemma SBlockHasFourCells(r: int)
    requires 0 <= r < 4
    ensures Filled(RotationStates(4, r)) == 4
  {
    if r == 0 {
      assert Filled(RotationStates(4, 0)) == 4;
    } else if r == 1 {
      assert Filled(RotationStates(4, 1)) == 4;
    } else if r == 2 {
      assert Filled(RotationStates(4, 2)) == 4;
    } else {
      assert Filled(RotationStates(4, 3)) == 4;
    }
  }

  lemma LBlockHasFourCells(r: int)
    requires 0 <= r < 4
    ensures Filled(RotationStates(5, r)) == 4
  {
    if r == 0 {
      assert Filled(RotationStates(5, 0)) == 4;
    } else if r == 1 {
      assert Filled(RotationStates(5, 1)) == 4;
    } else if r == 2 {
      assert Filled(RotationStates(5, 2)) == 4;
    } else {
      assert Filled(RotationStates(5, 3)) == 4;
    }
  }

  lemma JBlockHasFourCells(r: int)
    requires 0 <= r < 4
    ensures Filled(RotationStates(6, r)) == 4
  {
    if r == 0 {
      assert Filled(RotationStates(6, 0)) == 4;
    } else if r == 1 {
      assert Filled(RotationStates(6, 1)) == 4;
    } else if r == 2 {
      assert Filled(RotationStates(6, 2)) == 4;
    } else {
      assert Filled(RotationStates(6, 3)) == 4;
    }
  }

  /** Every mask in the table is a tetromino: exactly four filled cells. */
  lemma EveryMaskHasFourCells(t: int, r: int)
    requires 0 <= t < 7 && 0 <= r < 4
    ensures Filled(RotationStates(t, r)) == 4
  {
    if t == 0 {
      IBlockHasFourCells(r);
    } else if t == 1 {
      TBlockHasFourCells(r);
    } else if t == 2 {
      OBlockHasFourCells(r);
    } else if t == 3 {
      ZBlockHasFourCells(r);
    } else if t == 4 {
      SBlockHasFourCells(r);
    } else if t == 5 {
      LBlockHasFourCells(r);
    } else {
      JBlockHasFourCells(r);
    }
  }

  /** The O-block looks the same in every rotation state. */
  lemma OBlockIsRotationInvariant(r: int)
    requires 0 <= r < 4
    ensures RotationStates(2, r) == RotationStates(2, 0)
  {
  }

  /** The I-block has only two distinct orientations: 0 = 2 and 1 = 3. */
  lemma IBlockHasTwoOrientations()
    ensures RotationStates(0, 0) == RotationStates(0, 2)
    ensures RotationStates(0, 1) == RotationStates(0, 3)
    ensures RotationStates(0, 0) != RotationStates(0, 1)
  {
  }
}

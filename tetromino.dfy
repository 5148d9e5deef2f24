// The falling piece of src/Tetromino.cpp: a type in 1..7, a rotation state in
// 0..3, a 4x4 shape mask that is always the table entry for (type, rotation),
// an anchor (x, y) on the board and a per-type colour.
module Tetrominoes {
  import opened TetrominoShapes

  /**
   * The colours the engine stores. The seven piece colours stand for the
   * `ngl::Vec4` values of the palette; `Transparent` is `Vec4(0,0,0,0)` and
   * `Unset` is a default-constructed `ngl::Vec4()`, which is not transparent.
   */
  datatype Colour = Blue | Magenta | Violet | Green | Red | Yellow | Cyan | Transparent | Unset

  /** The palette, indexed by piece type minus one (I T O Z S L J). */
  const Colours: seq<Colour> := [Blue, Magenta, Violet, Green, Red, Yellow, Cyan]

  predicate IsPieceColour(c: Colour) {
    c in Colours
  }

  /** The colour of every cell of a piece of type `kind` (1..7). */
  function ColourOf(kind: int): (c: Colour)
    requires 1 <= kind <= 7
    ensures IsPieceColour(c) && c != Transparent && c != Unset
  {
    Colours[kind - 1]
  }

  class Tetromino {
    var kind: int       // the piece type, 1..7
    var shape: seq<seq<int>>
    var x: int
    var y: int
    var colour: Colour
    var rotation: int   // the current rotation state, 0..3

    /** The storage invariant the board relies on: a 4x4 0/1 mask and a palette colour. */
    ghost predicate Wellformed()
      reads this`shape, this`colour
    {
      IsMask(shape) && IsPieceColour(colour)
    }

    /** The class invariant: the mask is the table entry for (kind, rotation) and the colour is the type's. */
    ghost predicate Valid()
      reads this`kind, this`rotation, this`shape, this`colour
      ensures Valid() ==> Wellformed()
    {
      1 <= kind <= 7 && 0 <= rotation < 4 &&
      shape == RotationStates(kind - 1, rotation) &&
      colour == ColourOf(kind)
    }

    /** A new piece: rotation 0, the type's first mask and colour, anchored at (x, y). */
    constructor (kind: int, x: int, y: int)
      requires 1 <= kind <= 7
      ensures Valid()
      ensures this.kind == kind && rotation == 0 && this.x == x && this.y == y
      ensures shape == RotationStates(kind - 1, 0) && colour == ColourOf(kind)
    {
      this.kind := kind;
      this.x := x;
      this.y := y;
      rotation := 0;
      shape := seq(4, _ => seq(4, _ => 0));  // storage not yet filled in
      colour := Unset;
      new;
      InitializeShape();
      InitializeColour();
      SetPosition(x, y);
    }

    /** A copy of `other` (the implicit copy constructor). */
    constructor Copy(other: Tetromino)
      requires other.Valid()
      ensures Valid()
      ensures kind == other.kind && rotation == other.rotation && x == other.x && y == other.y
      ensures shape == other.shape && colour == other.colour
    {
      kind, shape, x, y := other.kind, other.shape, other.x, other.y;
      colour, rotation := other.colour, other.rotation;
    }

    /** Copies the table entry for the current type and rotation into the mask. */
    method InitializeShape()
      requires 1 <= kind <= 7 && 0 <= rotation < 4
      requires |shape| == 4 && forall i :: 0 <= i < 4 ==> |shape[i]| == 4
      modifies this`shape
      ensures shape == RotationStates(kind - 1, rotation)
    {
      ghost var table := RotationStates(kind - 1, rotation);
      for i := 0 to 4
        invariant |shape| == 4 && forall k :: 0 <= k < 4 ==> |shape[k]| == 4
        invariant forall a, b :: 0 <= a < i && 0 <= b < 4 ==> shape[a][b] == table[a][b]
      {
        for j := 0 to 4
          invariant |shape| == 4 && forall k :: 0 <= k < 4 ==> |shape[k]| == 4
          invariant forall a, b :: 0 <= a < i && 0 <= b < 4 ==> shape[a][b] == table[a][b]
          invariant forall b :: 0 <= b < j ==> shape[i][b] == table[i][b]
        {
          shape := shape[i := shape[i][j := RotationStates(kind - 1, rotation)[i][j]]];
        }
      }
      assert forall a :: 0 <= a < 4 ==> shape[a] == table[a];
    }

    /** Sets the colour from the palette. */
    method InitializeColour()
      requires 1 <= kind <= 7
      modifies this`colour
      ensures colour == ColourOf(kind)
    {
      colour := Colours[kind - 1];
    }

    /** Advances the rotation state cyclically and reloads the mask. */
    method Rotate()
      requires Valid()
      modifies this`rotation, this`shape
      ensures Valid()
      ensures rotation == (old(rotation) + 1) % 4
    {
      rotation := (rotation + 1) % 4;
      InitializeShape();
    }

    /** Moves the anchor; no validation. */
    method SetPosition(x: int, y: int)
      modifies this`x, this`y
      ensures this.x == x && this.y == y
    {
      this.x := x;
      this.y := y;
    }

    function GetColour(): Colour
      reads this
    {
      colour
    }

    function GetX(): int
      reads this
    {
      x
    }

    function GetY(): int
      reads this
    {
      y
    }

    /** The raw mask entry; the C++ accessor has no bounds test. */
    function GetBlock(row: int, col: int): (b: int)
      reads this
      requires Wellformed()
      requires 0 <= row < 4 && 0 <= col < 4
      ensures b == 0 || b == 1
      ensures b == 1 <==> IsWithinShape(row, col)
    {
      shape[row][col]
    }

    /** Whether local cell (i, j) is filled; false outside the 4x4 window. */
    function IsWithinShape(i: int, j: int): (w: bool)
      reads this
      requires Wellformed()
      ensures w <==> InMask(shape, i, j)
    {
      if 0 <= i < 4 && 0 <= j < 4 then shape[i][j] == 1 else false
    }
  }

  /** Four rotations bring a piece back to its starting state and mask. */
  method RotateFourTimes(t: Tetromino)
    requires t.Valid()
    modifies t`rotation, t`shape
    ensures t.Valid()
    ensures t.rotation == old(t.rotation) && t.shape == old(t.shape)
    ensures t.kind == old(t.kind) && t.x == old(t.x) && t.y == old(t.y) && t.colour == old(t.colour)
  {
    t.Rotate();
    t.Rotate();
    t.Rotate();
    t.Rotate();
  }

  /** Rotating an O-piece changes its rotation state and nothing else. */
  method RotateOBlock(t: Tetromino)
    requires t.Valid() && t.kind == 3
    modifies t`rotation, t`shape
    ensures t.Valid()
    ensures t.rotation == (old(t.rotation) + 1) % 4 && t.shape == old(t.shape)
  {
    OBlockIsRotationInvariant(t.rotation);
    OBlockIsRotationInvariant((t.rotation + 1) % 4);
    t.Rotate();
  }
}

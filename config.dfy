/** The fixed configuration of the game: board size derived from the window,
    the colours a cell can hold, the piece palette and the seven templates. */
module Config {
  import opened Matrices

  const WindowWidth: int := 800
  const WindowHeight: int := 600
  const BlockDimension: int := 20

  /** Board width and height in cells (800 / 20 and 600 / 20). */
  const Columns: int := WindowWidth / BlockDimension
  const Rows: int := WindowHeight / BlockDimension

  /** Column at which every new piece appears (Columns // 2 - 2). */
  const SpawnColumn: int := Columns / 2 - 2

  /** Points added by every call of the line-clearing step. */
  const ClearBonus: int := 100

  /** Cell colours; Black is the empty-cell sentinel. */
  datatype Color = Black | Cyan | Blue | Magenta | Yellow | Green | Red

  const Palette: seq<Color> := [Cyan, Blue, Magenta, Yellow, Green, Red]

  /** A piece matrix: 1 marks an occupied cell, 0 an empty one. */
  type Shape = seq<seq<int>>

  /** I, T, L, J, O, S and Z, in that order. */
  const Templates: seq<Shape> := [
    [[1, 1, 1, 1]],
    [[1, 1, 1], [0, 1, 0]],
    [[1, 1, 1], [1, 0, 0]],
    [[1, 1, 1], [0, 0, 1]],
    [[1, 1], [1, 1]],
    [[0, 1, 1], [1, 1, 0]],
    [[1, 1, 0], [0, 1, 1]]
  ]

  lemma BoardSize()
    ensures Columns == 40 && Rows == 30 && SpawnColumn == 18
  {
  }

  /** No piece is ever painted with the empty colour. */
  lemma PaletteHasNoBlack()
    ensures forall k :: 0 <= k < |Palette| ==> Palette[k] != Black
  {
  }

  /** Every template is a proper rectangle, so its four orientations close. */
  lemma TemplatesAreRectangular()
    ensures forall k :: 0 <= k < |Templates| ==> Rectangular(Templates[k])
  {
  }
}

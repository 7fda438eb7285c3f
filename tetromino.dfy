/** A falling piece: its position, its four precomputed orientations, its
    colour, and which orientation it currently shows. */
module Pieces {
  import opened Matrices
  import opened Config

  class Tetromino {
    var x: int
    var y: int
    const shape: seq<Shape>
    const color: Color
    var rotationState: int

    /** Four orientations and a state that selects one of them. */
    ghost predicate Valid()
      reads this
    {
      |shape| == 4 && 0 <= rotationState < |shape|
    }

    /** Each orientation turned a quarter turn is the next one, so the four
        are the template turned 0, 1, 2 and 3 times. The shapes never change,
        so this holds for the life of the piece. */
    ghost predicate Turns()
    {
      |shape| == 4 && TurnChain(shape, 0)
    }

    /** The colour, chosen at random by the game, is given by its index in
        the palette. */
    constructor (posX: int, posY: int, shapeMatrix: Shape, colorIndex: nat)
      requires colorIndex < |Palette|
      ensures Valid() && Turns()
      ensures x == posX && y == posY && rotationState == 0
      ensures shape[0] == shapeMatrix && color == Palette[colorIndex]
    {
      x := posX;
      y := posY;
      var turns := [
        shapeMatrix,
        Rotate90(shapeMatrix),
        Rotate90(Rotate90(shapeMatrix)),
        Rotate90(Rotate90(Rotate90(shapeMatrix)))
      ];
      ChainIsOrientations(turns);
      shape := turns;
      color := Palette[colorIndex];
      rotationState := 0;
    }

    /** The matrix the piece shows: its template turned rotationState times. */
    function GetImage(): (img: Shape)
      reads this
      requires Valid()
    {
      shape[rotationState]
    }

    /** The shown matrix is the template turned rotationState times. */
    lemma ImageIsTurnedTemplate()
      requires Valid() && Turns()
      ensures GetImage() == RotateTimes(shape[0], rotationState)
    {
      ChainIsOrientations(shape);
      OrientationsAreTurns(shape[0]);
    }

    /** For a rectangular template, the next orientation in the cycle is the
        shown matrix turned a quarter turn clockwise. */
    lemma NextOrientation()
      requires Valid() && Turns() && Rectangular(shape[0])
      ensures shape[(rotationState + 1) % 4] == Rotate90(GetImage())
    {
      ChainIsOrientations(shape);
      OrientationsCycle(shape[0]);
    }

    /** Advance to the next orientation, wrapping from the last to the first. */
    method Rotate()
      requires Valid()
      modifies this`rotationState
      ensures Valid()
      ensures rotationState == (old(rotationState) + 1) % 4
    {
      rotationState := (rotationState + 1) % |shape|;
    }
  }
}

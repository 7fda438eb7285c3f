/** The board object: the grid, the falling and the next piece, the score and
    the game-over flag, and the rules that change them. */
module Game {
  import opened Matrices
  import opened Config
  import opened Board
  import opened Collisions
  import opened Pieces

  /** p is what generate_new_piece returns for the given random choices. */
  ghost predicate SpawnedAs(p: Tetromino, shapeIndex: nat, colorIndex: nat)
    reads p
    requires shapeIndex < |Templates| && colorIndex < |Palette|
  {
    && p.Valid() && p.Turns() && Rectangular(p.shape[0])
    && p.x == SpawnColumn && p.y == 0 && p.rotationState == 0
    && p.shape[0] == Templates[shapeIndex] && p.color == Palette[colorIndex]
  }

  /** A piece the game can hold: the four turns of a rectangular matrix,
      never above row 0. */
  ghost predicate Playable(p: Tetromino)
    reads p
  {
    p.Valid() && p.Turns() && Rectangular(p.shape[0]) && p.y >= 0
  }

  class TetrisGame {
    var grid: Grid
    var currentPiece: Tetromino
    var nextPiece: Tetromino
    var score: int
    var isGameOver: bool

    ghost predicate Valid()
      reads this, currentPiece, nextPiece
    {
      && WellFormed(grid)
      && currentPiece != nextPiece
      && Playable(currentPiece)
      && Playable(nextPiece)
    }

    /** The random choices of the two first pieces are given by index. */
    constructor (firstShape: nat, firstColor: nat, secondShape: nat, secondColor: nat)
      requires firstShape < |Templates| && firstColor < |Palette|
      requires secondShape < |Templates| && secondColor < |Palette|
      ensures Valid() && fresh(currentPiece) && fresh(nextPiece)
      ensures grid == EmptyGrid() && score == 0 && !isGameOver
      ensures SpawnedAs(currentPiece, firstShape, firstColor)
      ensures SpawnedAs(nextPiece, secondShape, secondColor)
    {
      var first := GenerateNewPiece(firstShape, firstColor);
      var second := GenerateNewPiece(secondShape, secondColor);
      grid := EmptyGrid();
      currentPiece := first;
      nextPiece := second;
      score := 0;
      isGameOver := false;
    }

    /** A new piece at the spawn column on row 0, showing its template. */
    static method GenerateNewPiece(shapeIndex: nat, colorIndex: nat) returns (p: Tetromino)
      requires shapeIndex < |Templates| && colorIndex < |Palette|
      ensures fresh(p) && SpawnedAs(p, shapeIndex, colorIndex)
    {
      TemplatesAreRectangular();
      p := new Tetromino(SpawnColumn, 0, Templates[shapeIndex], colorIndex);
    }

    /** What check_collision(dx, dy) returns in the current state. */
    function Collides(dx: int, dy: int): (r: Outcome<bool>)
      reads this, currentPiece
      requires currentPiece.Valid()
    {
      Collision(grid, currentPiece.GetImage(), currentPiece.x, currentPiece.y, dx, dy)
    }

    /** The collision scan: occupied cells in row-major order, stopping at
        the first that is off the board or over a filled cell, or at a grid
        lookup that raises. */
    method CheckCollision(dx: int, dy: int) returns (r: Outcome<bool>)
      requires Valid()
      ensures r == Collides(dx, dy)
    {
      var img := currentPiece.GetImage();
      var px, py := currentPiece.x, currentPiece.y;
      var cy := 0;
      while cy < |img|
        invariant 0 <= cy <= |img|
        invariant Collision(grid, img, px, py, dx, dy) == ScanRows(grid, img, px, py, dx, dy, cy)
      {
        var row := img[cy];
        var cx := 0;
        while cx < |row|
          invariant 0 <= cx <= |row|
          invariant ScanRow(grid, img, px, py, dx, dy, cy, 0) == ScanRow(grid, img, px, py, dx, dy, cy, cx)
        {
          if row[cx] != 0 {
            if cx + px + dx < 0 || cx + px >= Columns || cy + py + dy >= Rows {
              return Ok(true);
            }
            match PyLookup(grid, cy + py + dy)
            case IndexError =>
              return IndexError;
            case Ok(cells) =>
              match PyLookup(cells, cx + px + dx)
              case IndexError =>
                return IndexError;
              case Ok(cell) =>
                if cell != Black {
                  return Ok(true);
                }
          }
          cx := cx + 1;
        }
        cy := cy + 1;
      }
      return Ok(false);
    }

    /** Tests without a column offset (gravity, rotation, spawn) never raise. */
    lemma StillTestsNeverRaise(dy: int)
      requires Valid() && dy >= 0
      ensures Collides(0, dy) != IndexError
    {
      NoFaultWithoutShift(grid, currentPiece.GetImage(), currentPiece.x, currentPiece.y, dy);
      CollisionWithoutFault(grid, currentPiece.GetImage(), currentPiece.x, currentPiece.y, 0, dy);
    }

    /** Clears every full row (delete it, put an empty row on top, lowest
        index first) and adds the flat bonus, whether or not a row was full. */
    method ClearFilledLines()
      requires Valid()
      modifies this`grid, this`score
      ensures Valid()
      ensures grid == Cleared(old(grid))
      ensures score == old(score) + ClearBonus
    {
      var linesToClear := FullRows(grid);
      ghost var g0 := grid;
      ghost var b := 0;
      var k := 0;
      while k < |linesToClear|
        modifies this`grid
        invariant 0 <= k <= |linesToClear| && b <= |g0|
        invariant k == 0 ==> b == 0
        invariant k > 0 ==> b == linesToClear[k - 1] + 1
        invariant grid == Blanks(k) + Kept(g0[..b]) + g0[b..]
        invariant |Kept(g0[..b])| + k == b
      {
        var i := linesToClear[k];
        ClearStep(g0, linesToClear, k, b);
        grid := grid[..i] + grid[i + 1..];
        grid := [BlankRow()] + grid;
        b := i + 1;
        k := k + 1;
      }
      ClearDone(g0, linesToClear, b);
      ClearedRows(g0);
      score := score + ClearBonus;
    }

    /** Writes the occupied cells of the falling piece into the grid in its
        colour; cells off the board are dropped. */
    method StampPiece()
      requires Valid()
      modifies this`grid
      ensures Valid()
      ensures grid == Stamped(old(grid), currentPiece.GetImage(),
        currentPiece.x, currentPiece.y, currentPiece.color)
    {
      var img := currentPiece.GetImage();
      var px, py, color := currentPiece.x, currentPiece.y, currentPiece.color;
      PartlyStampedStart(grid, img, px, py, color);
      var cy := 0;
      while cy < |img|
        modifies this`grid
        invariant 0 <= cy <= |img|
        invariant grid == PartlyStamped(old(grid), img, px, py, color, cy, 0)
      {
        var row := img[cy];
        var cx := 0;
        while cx < |row|
          modifies this`grid
          invariant 0 <= cx <= |row|
          invariant grid == PartlyStamped(old(grid), img, px, py, color, cy, cx)
        {
          PartlyStampedStep(old(grid), img, px, py, color, cy, cx);
          if row[cx] != 0 {
            var gridY := cy + py;
            var gridX := cx + px;
            if 0 <= gridY < Rows && 0 <= gridX < Columns {
              grid := grid[gridY := grid[gridY][gridX := color]];
            }
          }
          cx := cx + 1;
        }
        PartlyStampedRowEnd(old(grid), img, px, py, color, cy);
        cy := cy + 1;
      }
      PartlyStampedEnd(old(grid), img, px, py, color);
      StampedCells(old(grid), img, px, py, color);
    }

    /** Writes the falling piece into the grid, clears full rows, promotes the
        next piece, draws a new next piece, and ends the game if the promoted
        piece already collides. */
    method LockPiece(shapeIndex: nat, colorIndex: nat)
      requires Valid() && shapeIndex < |Templates| && colorIndex < |Palette|
      modifies this
      ensures Valid()
      ensures grid == Cleared(Stamped(old(grid), old(currentPiece.GetImage()),
        old(currentPiece.x), old(currentPiece.y), old(currentPiece.color)))
      ensures score == old(score) + ClearBonus
      ensures currentPiece == old(nextPiece)
      ensures fresh(nextPiece) && SpawnedAs(nextPiece, shapeIndex, colorIndex)
      ensures isGameOver == (old(isGameOver) || Collides(0, 0) == Ok(true))
    {
      StampPiece();
      ClearFilledLines();
      assert WellFormed(grid);
      var p := GenerateNewPiece(shapeIndex, colorIndex);
      currentPiece, nextPiece := nextPiece, p;
      assert Valid();
      var c := CheckCollision(0, 0);
      if c == Ok(true) {
        isGameOver := true;
      }
    }

    /** Tests the requested column offset but always moves one column right;
        a test that raises leaves the piece where it was. */
    method MovePiece(dx: int) returns (r: Outcome<()>)
      requires Valid()
      modifies currentPiece`x
      ensures Valid()
      ensures r == IndexError <==> old(Collides(dx, 0)) == IndexError
      ensures currentPiece.x ==
        if old(Collides(dx, 0)) == Ok(false) then old(currentPiece.x) + 1 else old(currentPiece.x)
      ensures currentPiece.y == old(currentPiece.y)
      ensures currentPiece.rotationState == old(currentPiece.rotationState)
    {
      var c := CheckCollision(dx, 0);
      match c
      case IndexError =>
        r := IndexError;
      case Ok(hit) =>
        if !hit {
          currentPiece.x := currentPiece.x + 1;
        }
        r := Ok(());
    }

    /** One row down if nothing is in the way, otherwise lock the piece. */
    method DropPiece(shapeIndex: nat, colorIndex: nat)
      requires Valid() && shapeIndex < |Templates| && colorIndex < |Palette|
      modifies this, currentPiece`y
      ensures Valid()
      ensures old(Collides(0, 1)) != IndexError
      ensures old(Collides(0, 1)) == Ok(false) ==>
        && currentPiece == old(currentPiece) && nextPiece == old(nextPiece)
        && currentPiece.y == old(currentPiece.y) + 1
        && grid == old(grid) && score == old(score) && isGameOver == old(isGameOver)
      ensures old(Collides(0, 1)) == Ok(true) ==>
        && grid == Cleared(Stamped(old(grid), old(currentPiece.GetImage()),
             old(currentPiece.x), old(currentPiece.y), old(currentPiece.color)))
        && score == old(score) + ClearBonus
        && currentPiece == old(nextPiece)
        && fresh(nextPiece) && SpawnedAs(nextPiece, shapeIndex, colorIndex)
        && isGameOver == (old(isGameOver) || Collides(0, 0) == Ok(true))
    {
      StillTestsNeverRaise(1);
      var c := CheckCollision(0, 1);
      if c == Ok(false) {
        currentPiece.y := currentPiece.y + 1;
      } else {
        LockPiece(shapeIndex, colorIndex);
      }
    }

    /** Turns the piece a quarter turn, and turns it three more times (back to
        where it was) if the turned piece collides. */
    method RotatePiece()
      requires Valid()
      modifies currentPiece`rotationState
      ensures Valid()
      ensures var turned := Rotate90(old(currentPiece.GetImage()));
        var blocked := Collision(grid, turned, currentPiece.x, currentPiece.y, 0, 0) == Ok(true);
        && currentPiece.rotationState ==
             (if blocked then old(currentPiece.rotationState) else (old(currentPiece.rotationState) + 1) % 4)
        && currentPiece.GetImage() == (if blocked then old(currentPiece.GetImage()) else turned)
      ensures currentPiece.x == old(currentPiece.x) && currentPiece.y == old(currentPiece.y)
    {
      ghost var state := currentPiece.rotationState;
      currentPiece.NextOrientation();
      currentPiece.Rotate();
      var c := CheckCollision(0, 0);
      if c == Ok(true) {
        currentPiece.Rotate();
        currentPiece.Rotate();
        currentPiece.Rotate();
        assert currentPiece.rotationState == state;
      }
    }

    /** The running branch of update_game_status: one gravity step while the
        game is not over; once it is over nothing changes and the session
        ends. */
    method UpdateGameStatus(shapeIndex: nat, colorIndex: nat) returns (running: bool)
      requires Valid() && shapeIndex < |Templates| && colorIndex < |Palette|
      modifies this, currentPiece`y
      ensures Valid()
      ensures running == !old(isGameOver)
      ensures old(isGameOver) ==>
        && isGameOver && grid == old(grid) && score == old(score)
        && currentPiece == old(currentPiece) && nextPiece == old(nextPiece)
        && currentPiece.y == old(currentPiece.y)
      ensures !old(isGameOver) && old(Collides(0, 1)) == Ok(false) ==>
        && currentPiece == old(currentPiece) && nextPiece == old(nextPiece)
        && currentPiece.y == old(currentPiece.y) + 1
        && grid == old(grid) && score == old(score) && !isGameOver
      ensures !old(isGameOver) && old(Collides(0, 1)) == Ok(true) ==>
        && grid == Cleared(Stamped(old(grid), old(currentPiece.GetImage()),
             old(currentPiece.x), old(currentPiece.y), old(currentPiece.color)))
        && score == old(score) + ClearBonus
        && currentPiece == old(nextPiece)
        && fresh(nextPiece) && SpawnedAs(nextPiece, shapeIndex, colorIndex)
        && isGameOver == (Collides(0, 0) == Ok(true))
    {
      if !isGameOver {
        DropPiece(shapeIndex, colorIndex);
        running := true;
      } else {
        running := false;
      }
    }
  }
}

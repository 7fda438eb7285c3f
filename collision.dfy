/** The collision test as written: a row-major scan of the occupied cells of
    the piece image that stops at the first cell that collides, and that can
    raise IndexError because the right-wall test forgets the column offset. */
module Collisions {
  import opened Config
  import opened Board

  /** A value, or the IndexError that Python raises for a bad list index. */
  datatype Outcome<T> = Ok(value: T) | IndexError

  /** Python's s[i]: a negative index counts from the end of the list. */
  function PyLookup<T>(s: seq<T>, i: int): (r: Outcome<T>)
    ensures r.Ok? <==> -|s| <= i < |s|
    ensures 0 <= i < |s| ==> r == Ok(s[i])
  {
    if 0 <= i < |s| then Ok(s[i])
    else if -|s| <= i < 0 then Ok(s[|s| + i])
    else IndexError
  }

  /** What the test of one occupied cell does: report a collision, let the
      scan go on, or raise. */
  datatype Probe = Hit | Pass | Fault

  /** The test of the occupied image cell (cx, cy) of a piece at (x, y)
      shifted by (dx, dy): left wall (with the offset), right wall (without
      it), floor, and then a grid lookup that may raise. */
  function CellProbe(g: Grid, x: int, y: int, dx: int, dy: int, cx: int, cy: int): (p: Probe)
  {
    if x + cx + dx < 0 || x + cx >= Columns || y + cy + dy >= Rows then Hit
    else match PyLookup(g, y + cy + dy)
      case IndexError => Fault
      case Ok(row) =>
        match PyLookup(row, x + cx + dx)
        case IndexError => Fault
        case Ok(cell) => if cell != Black then Hit else Pass
  }

  /** What the scan returns when it stops at a cell with this probe. */
  function Verdict(p: Probe): (r: Outcome<bool>)
  {
    match p
    case Hit => Ok(true)
    case Fault => IndexError
    case Pass => Ok(false)
  }

  /** The scan of row cy of the image from column cx on. */
  function ScanRow(g: Grid, img: Shape, x: int, y: int, dx: int, dy: int, cy: nat, cx: nat): (r: Outcome<bool>)
    requires cy < |img| && cx <= |img[cy]|
    decreases |img[cy]| - cx
  {
    if cx == |img[cy]| then Ok(false)
    else if img[cy][cx] != 0 && CellProbe(g, x, y, dx, dy, cx, cy) != Pass then
      Verdict(CellProbe(g, x, y, dx, dy, cx, cy))
    else ScanRow(g, img, x, y, dx, dy, cy, cx + 1)
  }

  /** The scan of the image from row cy on. */
  function ScanRows(g: Grid, img: Shape, x: int, y: int, dx: int, dy: int, cy: nat): (r: Outcome<bool>)
    requires cy <= |img|
    decreases |img| - cy
  {
    if cy == |img| then Ok(false)
    else
      var r := ScanRow(g, img, x, y, dx, dy, cy, 0);
      if r != Ok(false) then r else ScanRows(g, img, x, y, dx, dy, cy + 1)
  }

  /** check_collision(dx, dy) for a piece showing img at (x, y) over grid g. */
  function Collision(g: Grid, img: Shape, x: int, y: int, dx: int, dy: int): (r: Outcome<bool>)
  {
    ScanRows(g, img, x, y, dx, dy, 0)
  }

  /** The scan of a row passes exactly when every occupied cell still to be
      visited passes; otherwise it returns the verdict of the first one that
      does not. */
  lemma {:induction false} ScanRowMeaning(g: Grid, img: Shape, x: int, y: int, dx: int, dy: int, cy: nat, cx: nat)
    requires cy < |img| && cx <= |img[cy]|
    ensures ScanRow(g, img, x, y, dx, dy, cy, cx) == Ok(false) <==>
      forall k :: cx <= k && Occupied(img, k, cy) ==> CellProbe(g, x, y, dx, dy, k, cy) == Pass
    ensures ScanRow(g, img, x, y, dx, dy, cy, cx) != Ok(false) ==>
      exists k :: cx <= k && Occupied(img, k, cy) &&
        CellProbe(g, x, y, dx, dy, k, cy) != Pass &&
        ScanRow(g, img, x, y, dx, dy, cy, cx) == Verdict(CellProbe(g, x, y, dx, dy, k, cy)) &&
        forall k' :: cx <= k' < k && Occupied(img, k', cy) ==> CellProbe(g, x, y, dx, dy, k', cy) == Pass
    decreases |img[cy]| - cx
  {
    if cx < |img[cy]| {
      ScanRowMeaning(g, img, x, y, dx, dy, cy, cx + 1);
      if img[cy][cx] != 0 && CellProbe(g, x, y, dx, dy, cx, cy) != Pass {
        assert Occupied(img, cx, cy);
      }
    }
  }

  /** The scan from row cy on passes exactly when every occupied cell in those
      rows passes; otherwise it returns the verdict of the first cell, in
      row-major order, that does not. */
  lemma {:induction false} ScanRowsMeaning(g: Grid, img: Shape, x: int, y: int, dx: int, dy: int, cy: nat)
    requires cy <= |img|
    ensures ScanRows(g, img, x, y, dx, dy, cy) == Ok(false) <==>
      forall i, j :: cy <= j && Occupied(img, i, j) ==> CellProbe(g, x, y, dx, dy, i, j) == Pass
    ensures ScanRows(g, img, x, y, dx, dy, cy) != Ok(false) ==>
      exists i, j :: cy <= j && Occupied(img, i, j) &&
        CellProbe(g, x, y, dx, dy, i, j) != Pass &&
        ScanRows(g, img, x, y, dx, dy, cy) == Verdict(CellProbe(g, x, y, dx, dy, i, j)) &&
        forall i', j' :: cy <= j' && Occupied(img, i', j') && Before(i', j', i, j) ==>
          CellProbe(g, x, y, dx, dy, i', j') == Pass
    decreases |img| - cy
  {
    if cy < |img| {
      ScanRowMeaning(g, img, x, y, dx, dy, cy, 0);
      ScanRowsMeaning(g, img, x, y, dx, dy, cy + 1);
      var r := ScanRow(g, img, x, y, dx, dy, cy, 0);
      if r != Ok(false) {
        var k :| 0 <= k && Occupied(img, k, cy) &&
          CellProbe(g, x, y, dx, dy, k, cy) != Pass &&
          r == Verdict(CellProbe(g, x, y, dx, dy, k, cy)) &&
          forall k' :: 0 <= k' < k && Occupied(img, k', cy) ==> CellProbe(g, x, y, dx, dy, k', cy) == Pass;
        assert ScanRows(g, img, x, y, dx, dy, cy) == r;
        forall i', j' | cy <= j' && Occupied(img, i', j') && Before(i', j', k, cy)
          ensures CellProbe(g, x, y, dx, dy, i', j') == Pass
        {
        }
      } else {
        var rest := ScanRows(g, img, x, y, dx, dy, cy + 1);
        assert ScanRows(g, img, x, y, dx, dy, cy) == rest;
        if rest != Ok(false) {
          var i, j :| cy + 1 <= j && Occupied(img, i, j) &&
            CellProbe(g, x, y, dx, dy, i, j) != Pass &&
            rest == Verdict(CellProbe(g, x, y, dx, dy, i, j)) &&
            forall i', j' :: cy + 1 <= j' && Occupied(img, i', j') && Before(i', j', i, j) ==>
              CellProbe(g, x, y, dx, dy, i', j') == Pass;
          forall i', j' | cy <= j' && Occupied(img, i', j') && Before(i', j', i, j)
            ensures CellProbe(g, x, y, dx, dy, i', j') == Pass
          {
          }
        }
      }
    }
  }

  /** check_collision reports no collision exactly when every occupied cell
      passes its test; any other result is the verdict of the first occupied
      cell, in row-major order, whose test does not pass. */
  lemma CollisionMeaning(g: Grid, img: Shape, x: int, y: int, dx: int, dy: int)
    ensures Collision(g, img, x, y, dx, dy) == Ok(false) <==>
      forall i, j :: Occupied(img, i, j) ==> CellProbe(g, x, y, dx, dy, i, j) == Pass
    ensures Collision(g, img, x, y, dx, dy) != Ok(false) ==>
      exists i, j :: Occupied(img, i, j) &&
        CellProbe(g, x, y, dx, dy, i, j) != Pass &&
        Collision(g, img, x, y, dx, dy) == Verdict(CellProbe(g, x, y, dx, dy, i, j)) &&
        forall i', j' :: Occupied(img, i', j') && Before(i', j', i, j) ==>
          CellProbe(g, x, y, dx, dy, i', j') == Pass
  {
    ScanRowsMeaning(g, img, x, y, dx, dy, 0);
  }

  /** When no occupied cell raises, check_collision returns true exactly when
      some occupied cell is left of the board (with the offset), right of it
      (without the offset), below it, or over a non-empty grid cell. */
  lemma CollisionWithoutFault(g: Grid, img: Shape, x: int, y: int, dx: int, dy: int)
    requires forall i, j :: Occupied(img, i, j) ==> CellProbe(g, x, y, dx, dy, i, j) != Fault
    ensures Collision(g, img, x, y, dx, dy) ==
      Ok(exists i, j :: Occupied(img, i, j) && CellProbe(g, x, y, dx, dy, i, j) == Hit)
  {
    CollisionMeaning(g, img, x, y, dx, dy);
  }

  /** On a well-formed grid and at a row the lookup can reach, the test of a
      cell raises exactly when the shifted column is past the right edge
      while the unshifted one is not: the wall test without dx lets it
      through to the lookup. */
  lemma FaultIff(g: Grid, x: int, y: int, dx: int, dy: int, cx: int, cy: int)
    requires WellFormed(g) && y + cy + dy >= -Rows
    ensures CellProbe(g, x, y, dx, dy, cx, cy) == Fault <==>
      x + cx < Columns <= x + cx + dx && y + cy + dy < Rows
  {
  }

  /** Without a column offset nothing can raise: every test that reaches the
      lookup has both indices in range. */
  lemma NoFaultWithoutShift(g: Grid, img: Shape, x: int, y: int, dy: int)
    requires WellFormed(g) && y + dy >= -Rows
    ensures forall i, j :: Occupied(img, i, j) ==> CellProbe(g, x, y, 0, dy, i, j) != Fault
  {
    forall i, j | Occupied(img, i, j)
      ensures CellProbe(g, x, y, 0, dy, i, j) != Fault
    {
      FaultIff(g, x, y, 0, dy, i, j);
    }
  }

  /** An I piece lying flat against the right wall of an empty board, tested
      one column further right, makes the lookup raise IndexError. */
  lemma RightEdgeShiftRaises()
    ensures Collision(EmptyGrid(), [[1, 1, 1, 1]], Columns - 4, 0, 1, 0) == IndexError
  {
    var g, img := EmptyGrid(), [[1, 1, 1, 1]];
    var x := Columns - 4;
    assert g[0] == BlankRow();
    assert CellProbe(g, x, 0, 1, 0, 0, 0) == Pass;
    assert CellProbe(g, x, 0, 1, 0, 1, 0) == Pass;
    assert CellProbe(g, x, 0, 1, 0, 2, 0) == Pass;
    assert CellProbe(g, x, 0, 1, 0, 3, 0) == Fault;
    assert ScanRow(g, img, x, 0, 1, 0, 0, 3) == IndexError;
    assert ScanRow(g, img, x, 0, 1, 0, 0, 2) == IndexError;
    assert ScanRow(g, img, x, 0, 1, 0, 0, 1) == IndexError;
    assert ScanRow(g, img, x, 0, 1, 0, 0, 0) == IndexError;
  }
}

/** The playing field as values: rows of colours, the rows that are full,
    what clearing them leaves behind, and what locking a piece writes. */
module Board {
  import opened Config

  type Row = seq<Color>
  type Grid = seq<Row>

  /** Rows x Columns, the only shape the game ever gives its grid. */
  predicate WellFormed(g: Grid)
  {
    |g| == Rows && forall r :: 0 <= r < |g| ==> |g[r]| == Columns
  }

  /** A fresh row of empty cells. */
  function BlankRow(): (row: Row)
  {
    seq(Columns, _ => Black)
  }

  /** n fresh empty rows. */
  function Blanks(n: nat): (g: Grid)
  {
    seq(n, _ => BlankRow())
  }

  /** The grid a new game starts with. */
  function EmptyGrid(): (g: Grid)
    ensures WellFormed(g)
  {
    Blanks(Rows)
  }

  /** A row is full when none of its cells is empty. */
  predicate IsFull(row: Row)
  {
    forall c :: 0 <= c < |row| ==> row[c] != Black
  }

  /** Cell (cx, cy) of the piece matrix img is occupied. */
  predicate Occupied(img: Shape, cx: int, cy: int)
  {
    0 <= cy < |img| && 0 <= cx < |img[cy]| && img[cy][cx] != 0
  }

  /** Cell (cx', cy') comes before cell (cx, cy) in row-major order. */
  predicate Before(cx': int, cy': int, cx: int, cy: int)
  {
    cy' < cy || (cy' == cy && cx' < cx)
  }

  // ---------------------------------------------------------------------
  // Full rows and clearing them

  /** Indices, from i on and in increasing order, of the full rows of g. */
  function FullRowsFrom(g: Grid, i: nat): (lines: seq<nat>)
    decreases |g| - i
    ensures forall k :: k in lines <==> i <= k < |g| && IsFull(g[k])
    ensures forall p :: 0 <= p < |lines| ==> i <= lines[p]
    ensures forall p, q :: 0 <= p < q < |lines| ==> lines[p] < lines[q]
  {
    if i >= |g| then []
    else if IsFull(g[i]) then [i] + FullRowsFrom(g, i + 1)
    else FullRowsFrom(g, i + 1)
  }

  /** The indices of the rows to clear, lowest first. */
  function FullRows(g: Grid): (lines: seq<nat>)
  {
    FullRowsFrom(g, 0)
  }

  /** The rows that are not full, in their original order. */
  function Kept(g: Grid): (r: Grid)
    ensures |r| <= |g|
  {
    if |g| == 0 then []
    else (if IsFull(g[0]) then [] else [g[0]]) + Kept(g[1..])
  }

  /** The grid after its full rows are cleared: as many empty rows as were
      removed, on top of the surviving rows. */
  function Cleared(g: Grid): (r: Grid)
    ensures |r| == |g|
  {
    Blanks(|g| - |Kept(g)|) + Kept(g)
  }

  lemma {:induction false} KeptConcat(a: Grid, b: Grid)
    ensures Kept(a + b) == Kept(a) + Kept(b)
  {
    if |a| > 0 {
      assert (a + b)[0] == a[0];
      assert (a + b)[1..] == a[1..] + b;
      KeptConcat(a[1..], b);
    } else {
      assert a + b == b;
    }
  }

  lemma {:induction false} KeptOfNoFull(g: Grid)
    requires forall k :: 0 <= k < |g| ==> !IsFull(g[k])
    ensures Kept(g) == g
  {
    if |g| > 0 {
      KeptOfNoFull(g[1..]);
      assert [g[0]] + g[1..] == g;
    }
  }

  /** Every surviving row comes from the grid and is not full. */
  lemma {:induction false} KeptRows(g: Grid)
    ensures forall k :: 0 <= k < |Kept(g)| ==> Kept(g)[k] in g && !IsFull(Kept(g)[k])
  {
    if |g| > 0 {
      KeptRows(g[1..]);
      var head := if IsFull(g[0]) then [] else [g[0]];
      assert Kept(g) == head + Kept(g[1..]);
      forall k | 0 <= k < |Kept(g)|
        ensures Kept(g)[k] in g && !IsFull(Kept(g)[k])
      {
        if k < |head| {
          assert Kept(g)[k] == g[0];
        } else {
          assert Kept(g)[k] == Kept(g[1..])[k - |head|];
          assert Kept(g[1..])[k - |head|] in g[1..];
        }
      }
    }
  }

  /** A row that is not full survives the clearing. */
  lemma {:induction false} NotFullIsKept(g: Grid, k: nat)
    requires k < |g| && !IsFull(g[k])
    ensures g[k] in Kept(g)
  {
    if k > 0 {
      NotFullIsKept(g[1..], k - 1);
    }
  }

  /** Exactly one row is removed per full row: the number of empty rows put
      on top equals the number of indices the clearing step visits. */
  lemma {:induction false} KeptCount(g: Grid, i: nat)
    requires i <= |g|
    ensures |FullRowsFrom(g, i)| + |Kept(g[i..])| == |g| - i
    decreases |g| - i
  {
    if i < |g| {
      KeptCount(g, i + 1);
      assert g[i..][1..] == g[i + 1..];
      assert g[i..][0] == g[i];
    }
  }

  /** Between two consecutive indices of FullRows(g) (or past the last one)
      no row is full. */
  lemma GapNotFull(g: Grid, lines: seq<nat>, k: nat, b: nat, j: nat)
    requires lines == FullRows(g) && k <= |lines|
    requires k == 0 ==> b == 0
    requires k > 0 ==> b == lines[k - 1] + 1
    requires b <= j < |g| && (k < |lines| ==> j < lines[k])
    ensures !IsFull(g[j])
  {
    forall p | 0 <= p < |lines|
      ensures lines[p] != j
    {
      if p < k - 1 {
        assert lines[p] < lines[k - 1];
      } else if p > k {
        assert lines[k] < lines[p];
      }
    }
  }

  /** Removing the full row i, with no full row between b and i, keeps
      exactly the rows of g[b..i] in addition to those kept from g[..b]. */
  lemma KeptThroughFullRow(g: Grid, b: nat, i: nat)
    requires b <= i < |g| && IsFull(g[i])
    requires forall j :: b <= j < i ==> !IsFull(g[j])
    ensures Kept(g[..i + 1]) == Kept(g[..b]) + g[b..i]
  {
    forall j | 0 <= j < |g[b..i]|
      ensures !IsFull(g[b..i][j])
    {
      assert g[b..i][j] == g[b + j];
    }
    KeptOfNoFull(g[b..i]);
    assert g[..i + 1] == g[..b] + g[b..i] + [g[i]];
    KeptConcat(g[..b] + g[b..i], [g[i]]);
    KeptConcat(g[..b], g[b..i]);
    assert Kept([g[i]]) == [] by {
      assert [g[i]][1..] == [];
    }
  }

  /** The index arithmetic of one round: in blanks + kept + rest, where
      blanks and kept together are i - |between| rows long, deleting row i
      and putting a blank row on top deletes rest[|between|]. */
  lemma DeleteInsert(k: nat, kept: Grid, between: Grid, rest: Grid, i: nat)
    requires k + |kept| + |between| == i && |between| < |rest|
    requires rest[..|between|] == between
    ensures var cur := Blanks(k) + kept + rest;
      i < |cur| &&
      [BlankRow()] + (cur[..i] + cur[i + 1..]) == Blanks(k + 1) + (kept + between) + rest[|between| + 1..]
  {
    var cur := Blanks(k) + kept + rest;
    assert cur[..i] == Blanks(k) + kept + between;
    assert cur[i + 1..] == rest[|between| + 1..];
    assert Blanks(k + 1) == [BlankRow()] + Blanks(k);
  }

  /** One round of the clearing loop: with the first k full rows already
      removed (original rows before b), deleting index lines[k] and inserting
      an empty row on top removes the next full row. */
  lemma ClearStep(g: Grid, lines: seq<nat>, k: nat, b: nat)
    requires lines == FullRows(g) && k < |lines| && b <= |g|
    requires k == 0 ==> b == 0
    requires k > 0 ==> b == lines[k - 1] + 1
    requires |Kept(g[..b])| + k == b
    ensures lines[k] < |Blanks(k) + Kept(g[..b]) + g[b..]|
    ensures var cur := Blanks(k) + Kept(g[..b]) + g[b..];
      [BlankRow()] + (cur[..lines[k]] + cur[lines[k] + 1..]) ==
        Blanks(k + 1) + Kept(g[..lines[k] + 1]) + g[lines[k] + 1..]
    ensures |Kept(g[..lines[k] + 1])| + k + 1 == lines[k] + 1
  {
    var i := lines[k];
    assert i in lines;
    assert b <= i by {
      if k > 0 { assert lines[k - 1] < lines[k]; }
    }
    forall j | b <= j < i
      ensures !IsFull(g[j])
    {
      GapNotFull(g, lines, k, b, j);
    }
    KeptThroughFullRow(g, b, i);
    assert g[b..][..i - b] == g[b..i];
    assert g[b..][i - b + 1..] == g[i + 1..];
    DeleteInsert(k, Kept(g[..b]), g[b..i], g[b..], i);
  }

  /** After the clearing loop has visited every full row, the grid is
      Cleared(g). */
  lemma ClearDone(g: Grid, lines: seq<nat>, b: nat)
    requires lines == FullRows(g) && b <= |g|
    requires |lines| == 0 ==> b == 0
    requires |lines| > 0 ==> b == lines[|lines| - 1] + 1
    requires |Kept(g[..b])| + |lines| == b
    ensures Blanks(|lines|) + Kept(g[..b]) + g[b..] == Cleared(g)
  {
    forall j | 0 <= j < |g[b..]|
      ensures !IsFull(g[b..][j])
    {
      GapNotFull(g, lines, |lines|, b, b + j);
    }
    KeptOfNoFull(g[b..]);
    assert g == g[..b] + g[b..];
    KeptConcat(g[..b], g[b..]);
  }

  lemma BlankRowNotFull()
    ensures !IsFull(BlankRow())
  {
    assert BlankRow()[0] == Black;
  }

  /** Clearing keeps the board Rows x Columns and leaves no full row behind. */
  lemma ClearedRows(g: Grid)
    requires WellFormed(g)
    ensures WellFormed(Cleared(g))
    ensures forall r :: 0 <= r < |Cleared(g)| ==> !IsFull(Cleared(g)[r])
  {
    var c := Cleared(g);
    var n := |g| - |Kept(g)|;
    KeptRows(g);
    BlankRowNotFull();
    forall r | 0 <= r < |c|
      ensures |c[r]| == Columns && !IsFull(c[r])
    {
      if r >= n {
        assert c[r] == Kept(g)[r - n];
      }
    }
  }

  /** Clearing a second time changes nothing; the rows that survive sit at the
      bottom in their old order, under one blank row per full row. */
  lemma ClearedShape(g: Grid)
    requires WellFormed(g)
    ensures Cleared(Cleared(g)) == Cleared(g)
    ensures Cleared(g)[|g| - |Kept(g)|..] == Kept(g)
    ensures |FullRows(g)| == |g| - |Kept(g)|
  {
    var c := Cleared(g);
    ClearedRows(g);
    KeptCount(g, 0);
    assert g[0..] == g;
    KeptOfNoFull(c);
    assert Blanks(0) + c == c;
  }

  // ---------------------------------------------------------------------
  // Writing a locked piece into the grid

  /** The occupied cell of the piece image img, placed with its top-left at
      (x, y), that lands on grid row i, column j. */
  predicate Covers(img: Shape, x: int, y: int, i: int, j: int)
  {
    0 <= i - y < |img| && 0 <= j - x < |img[i - y]| && img[i - y][j - x] != 0
  }

  /** The grid after the cells of the piece that fall inside the board are
      painted with its colour; every other cell is untouched. */
  function Stamped(g: Grid, img: Shape, x: int, y: int, color: Color): (r: Grid)
  {
    seq(|g|, i requires 0 <= i < |g| =>
      seq(|g[i]|, j requires 0 <= j < |g[i]| =>
        if Covers(img, x, y, i, j) && i < Rows && j < Columns then color else g[i][j]))
  }

  /** The grid part way through the writing loop: only the piece cells before
      (cx, cy) in row-major order have been painted. */
  function PartlyStamped(g: Grid, img: Shape, x: int, y: int, color: Color, cy: int, cx: int): (r: Grid)
    ensures WellFormed(g) ==> WellFormed(r)
  {
    seq(|g|, i requires 0 <= i < |g| =>
      seq(|g[i]|, j requires 0 <= j < |g[i]| =>
        if Covers(img, x, y, i, j) && i < Rows && j < Columns && Before(j - x, i - y, cx, cy)
        then color else g[i][j]))
  }

  lemma PartlyStampedStart(g: Grid, img: Shape, x: int, y: int, color: Color)
    ensures PartlyStamped(g, img, x, y, color, 0, 0) == g
  {
    var p := PartlyStamped(g, img, x, y, color, 0, 0);
    forall i | 0 <= i < |g|
      ensures p[i] == g[i]
    {
      assert |p[i]| == |g[i]|;
    }
  }

  lemma PartlyStampedRowEnd(g: Grid, img: Shape, x: int, y: int, color: Color, cy: nat)
    requires cy < |img|
    ensures PartlyStamped(g, img, x, y, color, cy, |img[cy]|) ==
      PartlyStamped(g, img, x, y, color, cy + 1, 0)
  {
    var p := PartlyStamped(g, img, x, y, color, cy, |img[cy]|);
    var q := PartlyStamped(g, img, x, y, color, cy + 1, 0);
    forall i | 0 <= i < |g|
      ensures p[i] == q[i]
    {
      assert |p[i]| == |q[i]|;
    }
  }

  lemma PartlyStampedEnd(g: Grid, img: Shape, x: int, y: int, color: Color)
    ensures PartlyStamped(g, img, x, y, color, |img|, 0) == Stamped(g, img, x, y, color)
  {
    var p := PartlyStamped(g, img, x, y, color, |img|, 0);
    var q := Stamped(g, img, x, y, color);
    forall i | 0 <= i < |g|
      ensures p[i] == q[i]
    {
      assert |p[i]| == |q[i]|;
    }
  }

  /** Visiting cell (cx, cy) paints its grid cell when it is occupied and
      inside the board, and changes nothing otherwise. */
  lemma PartlyStampedStep(g: Grid, img: Shape, x: int, y: int, color: Color, cy: nat, cx: nat)
    requires WellFormed(g) && cy < |img| && cx < |img[cy]|
    ensures var before := PartlyStamped(g, img, x, y, color, cy, cx);
      var after := PartlyStamped(g, img, x, y, color, cy, cx + 1);
      if img[cy][cx] != 0 && 0 <= y + cy < Rows && 0 <= x + cx < Columns
      then after == before[y + cy := before[y + cy][x + cx := color]]
      else after == before
  {
    var before := PartlyStamped(g, img, x, y, color, cy, cx);
    var after := PartlyStamped(g, img, x, y, color, cy, cx + 1);
    if img[cy][cx] != 0 && 0 <= y + cy < Rows && 0 <= x + cx < Columns {
      var upd := before[y + cy := before[y + cy][x + cx := color]];
      forall i | 0 <= i < |g|
        ensures after[i] == upd[i]
      {
        assert |after[i]| == |upd[i]|;
        forall j | 0 <= j < |g[i]|
          ensures after[i][j] == upd[i][j]
        {
          if i == y + cy && j == x + cx {
            assert Covers(img, x, y, i, j);
          }
        }
      }
    } else {
      forall i | 0 <= i < |g|
        ensures after[i] == before[i]
      {
        assert |after[i]| == |before[i]|;
      }
    }
  }

  /** The cells of the piece that are inside the board take its colour, no
      other cell changes, and the grid keeps its shape. */
  lemma StampedCells(g: Grid, img: Shape, x: int, y: int, color: Color)
    requires WellFormed(g)
    ensures WellFormed(Stamped(g, img, x, y, color))
    ensures forall cy, cx ::
      (0 <= cy < |img| && 0 <= cx < |img[cy]| && img[cy][cx] != 0 &&
       0 <= y + cy < Rows && 0 <= x + cx < Columns) ==>
        Stamped(g, img, x, y, color)[y + cy][x + cx] == color
    ensures forall i, j :: 0 <= i < Rows && 0 <= j < Columns && !Covers(img, x, y, i, j) ==>
        Stamped(g, img, x, y, color)[i][j] == g[i][j]
  {
    forall cy, cx | 0 <= cy < |img| && 0 <= cx < |img[cy]| && img[cy][cx] != 0 &&
      0 <= y + cy < Rows && 0 <= x + cx < Columns
      ensures Stamped(g, img, x, y, color)[y + cy][x + cx] == color
    {
      assert Covers(img, x, y, y + cy, x + cx);
    }
  }
}

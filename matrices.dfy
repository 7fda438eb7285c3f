/** The quarter turn that the game applies to piece matrices, and the facts
    about it that make the four precomputed orientations of a piece a cycle. */
module Matrices {

  /** The number of tuples that zip(*m) produces: the length of the shortest
      row, and 0 when there are no rows at all. */
  function ZipWidth<T>(m: seq<seq<T>>): (w: nat)
    ensures forall k :: 0 <= k < |m| ==> w <= |m[k]|
    ensures |m| > 0 ==> exists k :: 0 <= k < |m| && w == |m[k]|
    ensures |m| == 0 ==> w == 0
  {
    if |m| == 0 then 0
    else if |m| == 1 then |m[0]|
    else
      var rest := ZipWidth(m[1..]);
      if |m[0]| <= rest then |m[0]| else rest
  }

  /** matrix[::-1]: the rows in reverse order. */
  function Reversed<T>(s: seq<T>): (r: seq<T>)
    ensures |r| == |s|
  {
    if |s| == 0 then [] else Reversed(s[1..]) + [s[0]]
  }

  /** The tuple of zip(*rows) at position i: the i-th cell of every row. */
  function ColumnOf<T>(rows: seq<seq<T>>, i: nat): (col: seq<T>)
    requires forall k :: 0 <= k < |rows| ==> i < |rows[k]|
    ensures |col| == |rows|
  {
    if |rows| == 0 then [] else [rows[0][i]] + ColumnOf(rows[1..], i)
  }

  /** The first w tuples of zip(*rows). */
  function ZipPrefix<T>(rows: seq<seq<T>>, w: nat): (z: seq<seq<T>>)
    requires w <= ZipWidth(rows)
    ensures |z| == w
  {
    if w == 0 then [] else ZipPrefix(rows, w - 1) + [ColumnOf(rows, w - 1)]
  }

  /** [list(t) for t in zip(*rows)]. */
  function Zip<T>(rows: seq<seq<T>>): (z: seq<seq<T>>)
  {
    ZipPrefix(rows, ZipWidth(rows))
  }

  /** rotate_matrix: zip over the row-reversed matrix, which is the
      clockwise quarter turn; a ragged matrix is cut to its shortest row. */
  function Rotate90<T>(m: seq<seq<T>>): (r: seq<seq<T>>)
  {
    Zip(Reversed(m))
  }

  lemma {:induction false} ReversedAt<T>(s: seq<T>, j: nat)
    requires j < |s|
    ensures Reversed(s)[j] == s[|s| - 1 - j]
  {
    if j < |s| - 1 {
      ReversedAt(s[1..], j);
    }
  }

  lemma {:induction false} ColumnOfAt<T>(rows: seq<seq<T>>, i: nat, j: nat)
    requires forall k :: 0 <= k < |rows| ==> i < |rows[k]|
    requires j < |rows|
    ensures ColumnOf(rows, i)[j] == rows[j][i]
  {
    if j > 0 {
      ColumnOfAt(rows[1..], i, j - 1);
    }
  }

  lemma {:induction false} ZipPrefixAt<T>(rows: seq<seq<T>>, w: nat, i: nat)
    requires w <= ZipWidth(rows) && i < w
    ensures ZipPrefix(rows, w)[i] == ColumnOf(rows, i)
  {
    if i < w - 1 {
      ZipPrefixAt(rows, w - 1, i);
    }
  }

  /** m rotated k times. */
  function RotateTimes<T>(m: seq<seq<T>>, k: nat): (r: seq<seq<T>>)
  {
    if k == 0 then m else Rotate90(RotateTimes(m, k - 1))
  }

  /** The four orientations a piece precomputes from its template. */
  function Orientations<T>(m: seq<seq<T>>): (turns: seq<seq<seq<T>>>)
  {
    [m, Rotate90(m), Rotate90(Rotate90(m)), Rotate90(Rotate90(Rotate90(m)))]
  }

  /** From entry k on, every entry but the last turned a quarter turn is the
      entry after it. */
  predicate TurnChain<T(==)>(s: seq<seq<seq<T>>>, k: nat)
    decreases |s| - k
  {
    k + 1 >= |s| || (s[k + 1] == Rotate90(s[k]) && TurnChain(s, k + 1))
  }

  /** Four matrices form a chain of quarter turns exactly when they are the
      four orientations of the first. */
  lemma ChainIsOrientations<T>(s: seq<seq<seq<T>>>)
    requires |s| == 4
    ensures TurnChain(s, 0) <==> s == Orientations(s[0])
  {
    assert TurnChain(s, 3);
    assert TurnChain(s, 2) <==> s[3] == Rotate90(s[2]);
    assert TurnChain(s, 1) <==> s[2] == Rotate90(s[1]) && s[3] == Rotate90(s[2]);
  }

  /** At least one row, at least one column, all rows equally long. */
  predicate Rectangular<T>(m: seq<seq<T>>)
  {
    |m| > 0 && |m[0]| > 0 && forall k :: 0 <= k < |m| ==> |m[k]| == |m[0]|
  }

  /** An r-by-c matrix turns into a c-by-r matrix whose cell (i, j) is the
      cell (r-1-j, i) of the original. */
  lemma RotateRectangle<T>(m: seq<seq<T>>)
    requires Rectangular(m)
    ensures Rectangular(Rotate90(m))
    ensures |Rotate90(m)| == |m[0]| && |Rotate90(m)[0]| == |m|
    ensures forall i, j :: 0 <= i < |m[0]| && 0 <= j < |m| ==>
      Rotate90(m)[i][j] == m[|m| - 1 - j][i]
  {
    var rev := Reversed(m);
    forall j | 0 <= j < |m|
      ensures rev[j] == m[|m| - 1 - j]
    {
      ReversedAt(m, j);
    }
    var w := ZipWidth(rev);
    var k :| 0 <= k < |rev| && w == |rev[k]|;
    assert w == |m[0]|;
    var z := Rotate90(m);
    forall i | 0 <= i < |z|
      ensures |z[i]| == |m|
      ensures forall j :: 0 <= j < |m| ==> z[i][j] == m[|m| - 1 - j][i]
    {
      ZipPrefixAt(rev, w, i);
      forall j | 0 <= j < |m|
        ensures z[i][j] == m[|m| - 1 - j][i]
      {
        ColumnOfAt(rev, i, j);
      }
    }
  }

  /** Two quarter turns make a half turn: cell (i, j) of the result is cell
      (r-1-i, c-1-j) of the original. */
  lemma HalfTurn<T>(m: seq<seq<T>>)
    requires Rectangular(m)
    ensures Rectangular(Rotate90(Rotate90(m)))
    ensures |Rotate90(Rotate90(m))| == |m| && |Rotate90(Rotate90(m))[0]| == |m[0]|
    ensures forall i, j :: 0 <= i < |m| && 0 <= j < |m[0]| ==>
      Rotate90(Rotate90(m))[i][j] == m[|m| - 1 - i][|m[0]| - 1 - j]
  {
    var r, c := |m|, |m[0]|;
    var m1 := Rotate90(m);
    RotateRectangle(m);
    RotateRectangle(m1);
    var m2 := Rotate90(m1);
    forall i, j | 0 <= i < r && 0 <= j < c
      ensures m2[i][j] == m[r - 1 - i][c - 1 - j]
    {
      assert m2[i][j] == m1[c - 1 - j][i];
    }
  }

  /** Two r-by-c matrices with the same cells are equal. */
  lemma SameCells<T>(a: seq<seq<T>>, b: seq<seq<T>>)
    requires Rectangular(a) && Rectangular(b)
    requires |a| == |b| && |a[0]| == |b[0]|
    requires forall i, j :: 0 <= i < |a| && 0 <= j < |a[0]| ==> a[i][j] == b[i][j]
    ensures a == b
  {
    forall i | 0 <= i < |a|
      ensures a[i] == b[i]
    {
    }
  }

  /** Four quarter turns give back the matrix they started from. */
  lemma FourTurnsIdentity<T>(m: seq<seq<T>>)
    requires Rectangular(m)
    ensures RotateTimes(m, 4) == m
  {
    var r, c := |m|, |m[0]|;
    var m2 := Rotate90(Rotate90(m));
    HalfTurn(m);
    var m4 := Rotate90(Rotate90(m2));
    HalfTurn(m2);
    forall i, j | 0 <= i < r && 0 <= j < c
      ensures m4[i][j] == m[i][j]
    {
      assert m4[i][j] == m2[r - 1 - i][c - 1 - j];
    }
    SameCells(m4, m);
    calc {
      RotateTimes(m, 4);
      Rotate90(RotateTimes(m, 3));
      Rotate90(Rotate90(RotateTimes(m, 2)));
      { assert RotateTimes(m, 2) == Rotate90(RotateTimes(m, 1)) == m2; }
      m4;
    }
  }

  /** The k-th precomputed orientation is the template turned k times. */
  lemma OrientationsAreTurns<T>(m: seq<seq<T>>)
    ensures |Orientations(m)| == 4
    ensures forall k :: 0 <= k < 4 ==> Orientations(m)[k] == RotateTimes(m, k)
  {
    assert RotateTimes(m, 1) == Rotate90(m);
    assert RotateTimes(m, 2) == Rotate90(Rotate90(m));
    assert RotateTimes(m, 3) == Rotate90(Rotate90(Rotate90(m)));
  }

  /** The orientations form a closed cycle: every one is the previous one
      turned, and turning the last gives back the first. */
  lemma OrientationsCycle<T>(m: seq<seq<T>>)
    requires Rectangular(m)
    ensures forall k :: 0 <= k < 4 ==>
      Rotate90(Orientations(m)[k]) == Orientations(m)[(k + 1) % 4]
  {
    var o := Orientations(m);
    assert Rotate90(o[3]) == o[0] by {
      FourTurnsIdentity(m);
      OrientationsAreTurns(m);
      assert o[3] == RotateTimes(m, 3);
    }
    forall k | 0 <= k < 4
      ensures Rotate90(o[k]) == o[(k + 1) % 4]
    {
      if k == 0 {
        assert o[1] == Rotate90(o[0]);
      } else if k == 1 {
        assert o[2] == Rotate90(o[1]);
      } else if k == 2 {
        assert o[3] == Rotate90(o[2]);
      }
    }
  }
}

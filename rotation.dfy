/** `rotate`: a quarter turn of a square shape, done in place as a transpose
    followed by reversing every row (clockwise, dir > 0) or reversing the
    order of the rows (counter-clockwise, any other dir). */
module Rotation {
  import opened Arena

  // ---------------------------------------------------------------------
  // The turn on values

  function Transposed(s: Matrix): (t: Matrix)
    requires IsSquare(s)
    ensures |t| == |s| && IsSquare(t)
  {
    seq(|s|, i requires 0 <= i < |s| => seq(|s|, j requires 0 <= j < |s| => s[j][i]))
  }

  function Reverse(row: seq<int>): seq<int>
  {
    seq(|row|, j requires 0 <= j < |row| => row[|row| - 1 - j])
  }

  /** Every row reversed (`matrix.forEach(row => row.reverse())`). */
  function MirrorRows(t: Matrix): Matrix
  {
    seq(|t|, i requires 0 <= i < |t| => Reverse(t[i]))
  }

  /** The order of the rows reversed (`matrix.reverse()`). */
  function FlipRows(t: Matrix): Matrix
  {
    seq(|t|, i requires 0 <= i < |t| => t[|t| - 1 - i])
  }

  /** The shape after `rotate(matrix, dir)`: transpose, then reverse each
      row when dir > 0 or the order of the rows otherwise. */
  function Rotated(s: Matrix, dir: int): (r: Matrix)
    requires IsSquare(s)
    ensures |r| == |s| && IsSquare(r)
  {
    if dir > 0 then MirrorRows(Transposed(s)) else FlipRows(Transposed(s))
  }

  /** Where one cell of the turned shape comes from. */
  lemma RotatedCell(s: Matrix, dir: int, i: int, j: int)
    requires IsSquare(s) && 0 <= i < |s| && 0 <= j < |s|
    ensures Rotated(s, dir)[i][j] == if dir > 0 then s[|s| - 1 - j][i] else s[j][|s| - 1 - i]
  {
    var t := Transposed(s);
    if dir > 0 {
      assert Rotated(s, dir)[i] == Reverse(t[i]);
    } else {
      assert Rotated(s, dir)[i] == t[|s| - 1 - i];
    }
  }

  /** The transpose-and-reverse is a quarter turn: clockwise when dir > 0
      (the cell at row i, column j comes from row n-1-j, column i) and
      counter-clockwise otherwise. */
  lemma RotatedIsQuarterTurn(s: Matrix, dir: int)
    requires IsSquare(s)
    ensures var r := Rotated(s, dir);
            forall i, j :: 0 <= i < |s| && 0 <= j < |s| ==>
              r[i][j] == if dir > 0 then s[|s| - 1 - j][i] else s[j][|s| - 1 - i]
  {
    var r := Rotated(s, dir);
    forall i, j | 0 <= i < |s| && 0 <= j < |s|
      ensures r[i][j] == if dir > 0 then s[|s| - 1 - j][i] else s[j][|s| - 1 - i]
    {
      RotatedCell(s, dir, i, j);
    }
  }

  /** A clockwise turn followed by a counter-clockwise one, in either order,
      gives back the shape. */
  lemma RotateUndo(s: Matrix)
    requires IsSquare(s)
    ensures Rotated(Rotated(s, 1), -1) == s
    ensures Rotated(Rotated(s, -1), 1) == s
  {
    var n := |s|;
    var r1, r2 := Rotated(s, 1), Rotated(s, -1);
    var cw, ccw := Rotated(r1, -1), Rotated(r2, 1);
    forall i, j | 0 <= i < n && 0 <= j < n
      ensures cw[i][j] == s[i][j] && ccw[i][j] == s[i][j]
    {
      RotatedCell(r1, -1, i, j);
      RotatedCell(s, 1, j, n - 1 - i);
      RotatedCell(r2, 1, i, j);
      RotatedCell(s, -1, n - 1 - j, i);
    }
    SameCells(cw, s);
    SameCells(ccw, s);
  }

  /** Two turns in the same direction are a half turn. */
  lemma HalfTurn(s: Matrix, dir: int, i: int, j: int)
    requires IsSquare(s) && 0 <= i < |s| && 0 <= j < |s|
    ensures Rotated(Rotated(s, dir), dir)[i][j] == s[|s| - 1 - i][|s| - 1 - j]
  {
    var n := |s|;
    var r := Rotated(s, dir);
    RotatedCell(r, dir, i, j);
    if dir > 0 {
      RotatedCell(s, dir, n - 1 - j, i);
    } else {
      RotatedCell(s, dir, j, n - 1 - i);
    }
  }

  /** Four turns in one direction give back the shape. */
  lemma RotateFourTimes(s: Matrix, dir: int)
    requires IsSquare(s)
    ensures Rotated(Rotated(Rotated(Rotated(s, dir), dir), dir), dir) == s
  {
    var n := |s|;
    var h := Rotated(Rotated(s, dir), dir);
    var f := Rotated(Rotated(h, dir), dir);
    forall i, j | 0 <= i < n && 0 <= j < n
      ensures f[i][j] == s[i][j]
    {
      HalfTurn(h, dir, i, j);
      HalfTurn(s, dir, n - 1 - i, n - 1 - j);
    }
    SameCells(f, s);
  }

  /** A turn moves every block somewhere inside the square. */
  lemma RotatedHasBlock(s: Matrix, dir: int)
    requires IsSquare(s) && HasBlock(s)
    ensures HasBlock(Rotated(s, dir))
  {
    var n := |s|;
    var r := Rotated(s, dir);
    var i, j :| 0 <= i < n && 0 <= j < |s[i]| && s[i][j] != 0;
    if dir > 0 {
      RotatedCell(s, dir, j, n - 1 - i);
      assert r[j][n - 1 - i] != 0;
    } else {
      RotatedCell(s, dir, n - 1 - j, i);
      assert r[n - 1 - j][i] != 0;
    }
  }

  /** A turn introduces no new cell value. */
  lemma RotatedInRange(s: Matrix, dir: int)
    requires IsSquare(s) && CellsInRange(s)
    ensures CellsInRange(Rotated(s, dir))
  {
    var r := Rotated(s, dir);
    forall i, j | 0 <= i < |r| && 0 <= j < |r[i]|
      ensures 0 <= r[i][j] <= 7
    {
      RotatedCell(s, dir, i, j);
    }
  }

  /** A turn keeps a well-formed shape well-formed: same size, a block
      somewhere, the same colour indices. */
  lemma RotatedIsShape(s: Matrix, dir: int)
    requires IsShape(s)
    ensures IsShape(Rotated(s, dir))
  {
    RotatedHasBlock(s, dir);
    RotatedInRange(s, dir);
  }

  // ---------------------------------------------------------------------
  // The multiset of cell values

  /** All cell values of a matrix, row by row. */
  function Bag(m: Matrix): multiset<int>
  {
    if m == [] then multiset{} else multiset(m[0]) + Bag(m[1..])
  }

  lemma {:induction false} BagAppend(xs: Matrix, ys: Matrix)
    ensures Bag(xs + ys) == Bag(xs) + Bag(ys)
  {
    if xs == [] {
      assert xs + ys == ys;
    } else {
      assert (xs + ys)[0] == xs[0];
      assert (xs + ys)[1..] == xs[1..] + ys;
      BagAppend(xs[1..], ys);
    }
  }

  lemma {:induction false} ReverseSameValues(row: seq<int>)
    ensures multiset(Reverse(row)) == multiset(row)
  {
    if row != [] {
      ReverseSameValues(row[1..]);
      assert Reverse(row) == Reverse(row[1..]) + [row[0]];
      assert row == [row[0]] + row[1..];
    }
  }

  lemma {:induction false} BagMirrorRows(t: Matrix)
    ensures Bag(MirrorRows(t)) == Bag(t)
  {
    if t != [] {
      ReverseSameValues(t[0]);
      assert MirrorRows(t)[1..] == MirrorRows(t[1..]);
      BagMirrorRows(t[1..]);
    }
  }

  lemma {:induction false} BagFlipRows(t: Matrix)
    ensures Bag(FlipRows(t)) == Bag(t)
  {
    if t != [] {
      assert FlipRows(t) == FlipRows(t[1..]) + [t[0]];
      BagAppend(FlipRows(t[1..]), [t[0]]);
      BagFlipRows(t[1..]);
      assert Bag([t[0]]) == multiset(t[0]);
    }
  }

  /** Column j of a matrix, reading 0 in a row too short to have one. */
  function Column(s: Matrix, j: nat): seq<int>
  {
    seq(|s|, i requires 0 <= i < |s| => if j < |s[i]| then s[i][j] else 0)
  }

  /** The values of the first k columns, column by column. */
  function ColumnBag(s: Matrix, k: nat): multiset<int>
  {
    if k == 0 then multiset{} else ColumnBag(s, k - 1) + multiset(Column(s, k - 1))
  }

  lemma {:induction false} ColumnBagOfNoRows(k: nat)
    ensures ColumnBag([], k) == multiset{}
  {
    if k > 0 {
      ColumnBagOfNoRows(k - 1);
    }
  }

  /** Adding a row to a column split: w = p + q with p = h + b and q = x + r
      gives w = (h + x) + (b + r). */
  lemma Regroup(w: multiset<int>, p: multiset<int>, q: multiset<int>, h: multiset<int>,
                b: multiset<int>, x: multiset<int>, r: multiset<int>, hx: multiset<int>, br: multiset<int>)
    requires w == p + q && p == h + b && q == x + r && hx == h + x && br == b + r
    ensures w == hx + br
  {
  }

  lemma ColumnSplit(s: Matrix, j: nat)
    requires |s| > 0 && j < |s[0]|
    ensures multiset(Column(s, j)) == multiset{s[0][j]} + multiset(Column(s[1..], j))
  {
    assert Column(s, j) == [s[0][j]] + Column(s[1..], j);
  }

  lemma PrefixSplit(row: seq<int>, k: nat)
    requires 0 < k <= |row|
    ensures multiset(row[..k]) == multiset(row[..k - 1]) + multiset{row[k - 1]}
  {
    assert row[..k] == row[..k - 1] + [row[k - 1]];
  }

  /** One more column: the step of `ColumnBagFirstRow`. */
  lemma ColumnBagStep(s: Matrix, k: nat)
    requires |s| > 0 && 0 < k <= |s[0]|
    requires ColumnBag(s, k - 1) == multiset(s[0][..k - 1]) + ColumnBag(s[1..], k - 1)
    ensures ColumnBag(s, k) == multiset(s[0][..k]) + ColumnBag(s[1..], k)
  {
    var t := s[1..];
    ColumnSplit(s, k - 1);
    PrefixSplit(s[0], k);
    Regroup(ColumnBag(s, k), ColumnBag(s, k - 1), multiset(Column(s, k - 1)),
            multiset(s[0][..k - 1]), ColumnBag(t, k - 1), multiset{s[0][k - 1]}, multiset(Column(t, k - 1)),
            multiset(s[0][..k]), ColumnBag(t, k));
  }

  /** Taking the first row off the columns. */
  lemma {:induction false} ColumnBagFirstRow(s: Matrix, k: nat)
    requires |s| > 0 && k <= |s[0]|
    ensures ColumnBag(s, k) == multiset(s[0][..k]) + ColumnBag(s[1..], k)
  {
    if k > 0 {
      ColumnBagFirstRow(s, k - 1);
      ColumnBagStep(s, k);
    }
  }

  /** Counted by rows or by columns, a rectangular matrix holds the same values. */
  lemma {:induction false} RowsAndColumnsSameValues(s: Matrix, w: nat)
    requires forall r :: 0 <= r < |s| ==> |s[r]| == w
    ensures Bag(s) == ColumnBag(s, w)
  {
    if s == [] {
      ColumnBagOfNoRows(w);
    } else {
      RowsAndColumnsSameValues(s[1..], w);
      ColumnBagFirstRow(s, w);
      assert s[0][..w] == s[0];
    }
  }

  lemma {:induction false} TransposedRowsAreColumns(s: Matrix, k: nat)
    requires IsSquare(s) && k <= |s|
    ensures Bag(Transposed(s)[..k]) == ColumnBag(s, k)
  {
    var t := Transposed(s);
    if k > 0 {
      TransposedRowsAreColumns(s, k - 1);
      assert t[..k] == t[..k - 1] + [t[k - 1]];
      BagAppend(t[..k - 1], [t[k - 1]]);
      assert t[k - 1] == Column(s, k - 1);
      assert Bag([t[k - 1]]) == multiset(t[k - 1]);
    }
  }

  lemma BagTransposed(s: Matrix)
    requires IsSquare(s)
    ensures Bag(Transposed(s)) == Bag(s)
  {
    var t := Transposed(s);
    TransposedRowsAreColumns(s, |s|);
    assert t[..|s|] == t;
    RowsAndColumnsSameValues(s, |s|);
  }

  /** A turn moves cells without changing what they hold: the multiset of
      cell values is the same before and after. */
  lemma RotatePreservesValues(s: Matrix, dir: int)
    requires IsSquare(s)
    ensures Bag(Rotated(s, dir)) == Bag(s)
  {
    BagTransposed(s);
    if dir > 0 {
      BagMirrorRows(Transposed(s));
    } else {
      BagFlipRows(Transposed(s));
    }
  }

  // ---------------------------------------------------------------------
  // The turn in place

  /** The contents of a two-dimensional array as a list of rows. */
  function Cells(m: array2<int>): (s: Matrix)
    reads m
    ensures |s| == m.Length0
    ensures forall i :: 0 <= i < m.Length0 ==> |s[i]| == m.Length1
    ensures forall i, j :: 0 <= i < m.Length0 && 0 <= j < m.Length1 ==> s[i][j] == m[i, j]
  {
    seq(m.Length0, i requires 0 <= i < m.Length0 reads m =>
      seq(m.Length1, j requires 0 <= j < m.Length1 reads m => m[i, j]))
  }

  /** The first loop of `rotate`: swap each cell below the diagonal with its
      mirror image above it. */
  method Transpose(m: array2<int>)
    requires m.Length0 == m.Length1
    modifies m
    ensures IsSquare(old(Cells(m))) && Cells(m) == Transposed(old(Cells(m)))
  {
    ghost var s := Cells(m);
    var n := m.Length0;
    var y := 0;
    while y < n
      invariant 0 <= y <= n
      invariant forall i, j :: 0 <= i < n && 0 <= j < n ==>
                  m[i, j] == if i < y && j < y then old(m[j, i]) else old(m[i, j])
    {
      var x := 0;
      while x < y
        invariant 0 <= x <= y
        invariant forall i, j :: 0 <= i < n && 0 <= j < n ==>
                    m[i, j] == if (i < y && j < y) || (i == y && j < x) || (j == y && i < x)
                               then old(m[j, i]) else old(m[i, j])
      {
        m[x, y], m[y, x] := m[y, x], m[x, y];
        x := x + 1;
      }
      y := y + 1;
    }
    SameCells(Cells(m), Transposed(s));
  }

  /** `matrix.forEach(row => row.reverse())`: each row reversed in place by
      swapping its ends towards the middle. */
  method ReverseEachRow(m: array2<int>)
    modifies m
    ensures Cells(m) == MirrorRows(old(Cells(m)))
  {
    ghost var s := Cells(m);
    var rows, cols := m.Length0, m.Length1;
    var r := 0;
    while r < rows
      invariant 0 <= r <= rows
      invariant forall i, j :: 0 <= i < rows && 0 <= j < cols ==>
                  m[i, j] == if i < r then old(m[i, cols - 1 - j]) else old(m[i, j])
    {
      var lo, hi := 0, cols - 1;
      while lo < hi
        invariant 0 <= lo && hi == cols - 1 - lo && lo <= hi + 1
        invariant forall i, j :: 0 <= i < rows && 0 <= j < cols ==>
                    m[i, j] == if i < r || (i == r && (j < lo || j > hi))
                               then old(m[i, cols - 1 - j]) else old(m[i, j])
      {
        m[r, lo], m[r, hi] := m[r, hi], m[r, lo];
        lo, hi := lo + 1, hi - 1;
      }
      r := r + 1;
    }
    SameCells(Cells(m), MirrorRows(s));
  }

  /** `matrix.reverse()`: the order of the rows reversed in place by swapping
      the outermost pair of rows towards the middle. */
  method ReverseRowOrder(m: array2<int>)
    modifies m
    ensures Cells(m) == FlipRows(old(Cells(m)))
  {
    ghost var s := Cells(m);
    var rows, cols := m.Length0, m.Length1;
    var lo, hi := 0, rows - 1;
    while lo < hi
      invariant 0 <= lo && hi == rows - 1 - lo && lo <= hi + 1
      invariant forall i, j :: 0 <= i < rows && 0 <= j < cols ==>
                  m[i, j] == if i < lo || i > hi then old(m[rows - 1 - i, j]) else old(m[i, j])
    {
      var c := 0;
      while c < cols
        invariant 0 <= c <= cols
        invariant forall i, j :: 0 <= i < rows && 0 <= j < cols ==>
                    m[i, j] == if i < lo || i > hi || ((i == lo || i == hi) && j < c)
                               then old(m[rows - 1 - i, j]) else old(m[i, j])
      {
        m[lo, c], m[hi, c] := m[hi, c], m[lo, c];
        c := c + 1;
      }
      lo, hi := lo + 1, hi - 1;
    }
    SameCells(Cells(m), FlipRows(s));
  }

  /** `rotate(matrix, dir)` on a square array: afterwards the array holds the
      quarter turn of what it held before. */
  method Rotate(m: array2<int>, dir: int)
    requires m.Length0 == m.Length1
    modifies m
    ensures IsSquare(old(Cells(m))) && Cells(m) == Rotated(old(Cells(m)), dir)
  {
    Transpose(m);
    if dir > 0 {
      ReverseEachRow(m);
    } else {
      ReverseRowOrder(m);
    }
  }

  /** The turn `playerRotate` makes: copy every row of the shape into a
      fresh square array, then rotate the copy in place. */
  method RotatedCopy(current: Matrix, dir: int) returns (rotated: Matrix)
    requires IsSquare(current)
    ensures rotated == Rotated(current, dir)
  {
    var n := |current|;
    var copy := new int[n, n]((i, j) => if 0 <= i < n && 0 <= j < |current[i]| then current[i][j] else 0);
    SameCells(Cells(copy), current);
    Rotate(copy, dir);
    rotated := Cells(copy);
  }
}

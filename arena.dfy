/** The playing field ("arena"): Height rows of Width cells each. A cell holds
    0 when empty, otherwise the colour index 1..7 of the piece that left a
    block there. Rows are listed top to bottom; row 0 is the top edge. */
module Arena {

  const Width: int := 10
  const Height: int := 20

  /** A matrix of cell values, as a list of rows. */
  type Matrix = seq<seq<int>>

  function ZeroRow(w: nat): seq<int>
  {
    seq(w, _ => 0)
  }

  function ZeroRows(k: nat, w: nat): Matrix
  {
    seq(k, _ => ZeroRow(w))
  }

  ghost predicate IsZeroMatrix(m: Matrix, w: nat, h: nat)
  {
    |m| == h && forall r :: 0 <= r < h ==> |m[r]| == w && forall c :: 0 <= c < w ==> m[r][c] == 0
  }

  /** `createMatrix`: h rows of w zeros, pushed one row at a time. */
  method CreateMatrix(w: nat, h: nat) returns (m: Matrix)
    ensures IsZeroMatrix(m, w, h)
    ensures m == ZeroRows(h, w)
  {
    m := [];
    var left := h;
    while left > 0
      invariant 0 <= left <= h
      invariant IsZeroMatrix(m, w, h - left)
      invariant m == ZeroRows(h - left, w)
    {
      m := m + [ZeroRow(w)];
      left := left - 1;
    }
  }

  predicate IsArena(a: Matrix)
  {
    |a| == Height && forall r :: 0 <= r < |a| ==> |a[r]| == Width
  }

  /** Stage change: every row of the arena is filled with zeros in place. */
  method ClearRows(a: Matrix) returns (b: Matrix)
    requires IsArena(a)
    ensures b == ZeroRows(Height, Width)
  {
    b := a;
    var r := 0;
    while r < |b|
      invariant 0 <= r <= |b| == Height
      invariant forall i :: 0 <= i < r ==> b[i] == ZeroRow(Width)
      invariant forall i :: r <= i < |b| ==> b[i] == a[i]
    {
      b := b[r := ZeroRow(|b[r]|)];
      r := r + 1;
    }
  }

  /** Every cell is empty or one of the seven colour indices. */
  ghost predicate CellsInRange(m: Matrix)
  {
    forall r, c :: 0 <= r < |m| && 0 <= c < |m[r]| ==> 0 <= m[r][c] <= 7
  }

  ghost predicate IsSquare(m: Matrix)
  {
    forall r :: 0 <= r < |m| ==> |m[r]| == |m|
  }

  /** The shape holds at least one block. */
  ghost predicate HasBlock(m: Matrix)
  {
    exists r, c :: 0 <= r < |m| && 0 <= c < |m[r]| && m[r][c] != 0
  }

  /** A well-formed piece shape: a non-empty square matrix with a block. */
  ghost predicate IsShape(m: Matrix)
  {
    |m| > 0 && IsSquare(m) && HasBlock(m) && CellsInRange(m)
  }

  /** Two matrices with the same shape and the same cells are equal. */
  lemma SameCells(a: Matrix, b: Matrix)
    requires |a| == |b| && forall i :: 0 <= i < |a| ==> |a[i]| == |b[i]|
    requires forall i, j :: 0 <= i < |a| && 0 <= j < |a[i]| ==> a[i][j] == b[i][j]
    ensures a == b
  {
    forall i | 0 <= i < |a|
      ensures a[i] == b[i]
    {
    }
  }

  // ---------------------------------------------------------------------
  // Collision

  /** Whether a block at absolute position (ax, ay) is illegal: off the
      left, right or bottom edge, or on an occupied cell. A position above
      the top edge (ay < 0) is open whenever its column is inside. */
  predicate Blocked(a: Matrix, ax: int, ay: int)
    requires IsArena(a)
  {
    ax < 0 || ax >= Width || ay >= Height || (0 <= ay && a[ay][ax] != 0)
  }

  /** `isColliding`: scans the shape row by row and stops at the first block
      that is illegal when the shape's top-left corner is at (px, py). */
  function Colliding(a: Matrix, m: Matrix, px: int, py: int): bool
    requires IsArena(a)
  {
    ScanRows(a, m, px, py, 0)
  }

  function ScanRows(a: Matrix, m: Matrix, px: int, py: int, i: nat): bool
    requires IsArena(a) && i <= |m|
    decreases |m| - i
  {
    if i == |m| then false
    else ScanRow(a, m[i], px, py + i, 0) || ScanRows(a, m, px, py, i + 1)
  }

  function ScanRow(a: Matrix, row: seq<int>, px: int, ay: int, j: nat): bool
    requires IsArena(a) && j <= |row|
    decreases |row| - j
  {
    if j == |row| then false
    else (row[j] != 0 && Blocked(a, px + j, ay)) || ScanRow(a, row, px, ay, j + 1)
  }

  /** Some block of the shape lies on an illegal position. */
  ghost predicate HitsBlocked(a: Matrix, m: Matrix, px: int, py: int)
    requires IsArena(a)
  {
    exists i, j :: 0 <= i < |m| && 0 <= j < |m[i]| && m[i][j] != 0 && Blocked(a, px + j, py + i)
  }

  /** The scan reports a collision exactly when some block of the shape is
      on an illegal position. */
  lemma CollidingIff(a: Matrix, m: Matrix, px: int, py: int)
    requires IsArena(a)
    ensures Colliding(a, m, px, py) <==> HitsBlocked(a, m, px, py)
  {
    ScanRowsFinds(a, m, px, py, 0);
  }

  lemma {:induction false} ScanRowsFinds(a: Matrix, m: Matrix, px: int, py: int, i: nat)
    requires IsArena(a) && i <= |m|
    ensures ScanRows(a, m, px, py, i)
            <==> exists i', j :: i <= i' < |m| && 0 <= j < |m[i']| && m[i'][j] != 0 && Blocked(a, px + j, py + i')
    decreases |m| - i
  {
    if i < |m| {
      ScanRowFinds(a, m[i], px, py + i, 0);
      ScanRowsFinds(a, m, px, py, i + 1);
      if ScanRow(a, m[i], px, py + i, 0) {
        var j :| 0 <= j < |m[i]| && m[i][j] != 0 && Blocked(a, px + j, py + i);
      }
    }
  }

  lemma {:induction false} ScanRowFinds(a: Matrix, row: seq<int>, px: int, ay: int, j: nat)
    requires IsArena(a) && j <= |row|
    ensures ScanRow(a, row, px, ay, j) <==> exists j' :: j <= j' < |row| && row[j'] != 0 && Blocked(a, px + j', ay)
    decreases |row| - j
  {
    if j < |row| {
      ScanRowFinds(a, row, px, ay, j + 1);
    }
  }

  /** A shape whose every block lies in a column of the arena and above the
      top edge does not collide, whatever the arena holds. */
  lemma AboveTopNeverCollides(a: Matrix, m: Matrix, px: int, py: int)
    requires IsArena(a)
    requires forall i, j :: 0 <= i < |m| && 0 <= j < |m[i]| && m[i][j] != 0 ==> 0 <= px + j < Width && py + i < 0
    ensures !Colliding(a, m, px, py)
  {
    CollidingIff(a, m, px, py);
  }

  /** A shape with a block collides once its top row is at or below the floor. */
  lemma BelowFloorCollides(a: Matrix, m: Matrix, px: int, py: int)
    requires IsArena(a) && HasBlock(m)
    ensures py >= Height ==> Colliding(a, m, px, py)
  {
    var i, j :| 0 <= i < |m| && 0 <= j < |m[i]| && m[i][j] != 0;
    if py >= Height {
      assert Blocked(a, px + j, py + i);
      CollidingIff(a, m, px, py);
    }
  }

  /** The row at which a shape falling straight down from py first collides:
      the loop of `playerDropHard` stops there. */
  function FirstBlockedRow(a: Matrix, m: Matrix, px: int, py: int): (r: int)
    requires IsArena(a) && HasBlock(m)
    ensures r >= py && Colliding(a, m, px, r)
    ensures forall y :: py <= y < r ==> !Colliding(a, m, px, y)
    decreases Height - py
  {
    if Colliding(a, m, px, py) then py
    else BelowFloorCollides(a, m, px, py); FirstBlockedRow(a, m, px, py + 1)
  }

  /** The fall loop of `playerDropHard`: move down while the shape fits,
      then step back up one row. */
  method LandingRow(a: Matrix, m: Matrix, px: int, py: int) returns (r: int)
    requires IsArena(a) && HasBlock(m)
    ensures r == FirstBlockedRow(a, m, px, py) - 1
  {
    ghost var floor := FirstBlockedRow(a, m, px, py);
    var y := py;
    while !Colliding(a, m, px, y)
      invariant py <= y <= floor
      decreases floor - y
    {
      y := y + 1;
    }
    r := y - 1;
  }

  // ---------------------------------------------------------------------
  // Merge

  /** Whether the shape, with its top-left corner at (px, py), puts a block
      on arena cell (r, c). */
  predicate Covers(m: Matrix, px: int, py: int, r: int, c: int)
  {
    0 <= r - py < |m| && 0 <= c - px < |m[r - py]| && m[r - py][c - px] != 0
  }

  /** The arena after `merge`: every block of the shape that falls inside the
      arena is written into its cell; every other cell keeps its value. */
  function Merged(a: Matrix, m: Matrix, px: int, py: int): (b: Matrix)
    requires IsArena(a)
    ensures IsArena(b)
  {
    seq(Height, r requires 0 <= r < Height =>
      seq(Width, c requires 0 <= c < Width =>
        if Covers(m, px, py, r, c) then m[r - py][c - px] else a[r][c]))
  }

  lemma MergedInRange(a: Matrix, m: Matrix, px: int, py: int)
    requires IsArena(a) && CellsInRange(a) && CellsInRange(m)
    ensures CellsInRange(Merged(a, m, px, py))
  {
    var b := Merged(a, m, px, py);
    forall r, c | 0 <= r < |b| && 0 <= c < |b[r]|
      ensures 0 <= b[r][c] <= 7
    {
      if Covers(m, px, py, r, c) {
        assert b[r][c] == m[r - py][c - px];
      }
    }
  }

  /** Locking a piece at a legal position never overwrites a block: every
      cell it writes was empty, and every block already there survives. */
  lemma MergeFillsOnlyEmptyCells(a: Matrix, m: Matrix, px: int, py: int)
    requires IsArena(a) && !Colliding(a, m, px, py)
    ensures forall r, c :: 0 <= r < Height && 0 <= c < Width && Covers(m, px, py, r, c) ==> a[r][c] == 0
    ensures forall r, c :: 0 <= r < Height && 0 <= c < Width && a[r][c] != 0 ==> Merged(a, m, px, py)[r][c] == a[r][c]
  {
    forall r, c | 0 <= r < Height && 0 <= c < Width && Covers(m, px, py, r, c)
      ensures a[r][c] == 0
    {
      CollidingIff(a, m, px, py);
      var i, j := r - py, c - px;
      assert m[i][j] != 0 && !Blocked(a, px + j, py + i);
    }
  }

  /** Once locked, a piece that had a block inside the arena collides with
      its own blocks at the position where it was locked. */
  lemma MergedPieceCollides(a: Matrix, m: Matrix, px: int, py: int, i: int, j: int)
    requires IsArena(a)
    requires 0 <= i < |m| && 0 <= j < |m[i]| && m[i][j] != 0
    requires 0 <= px + j < Width && 0 <= py + i < Height
    ensures Colliding(Merged(a, m, px, py), m, px, py)
  {
    var b := Merged(a, m, px, py);
    assert Covers(m, px, py, py + i, px + j);
    assert b[py + i][px + j] == m[i][j];
    assert Blocked(b, px + j, py + i);
    CollidingIff(b, m, px, py);
  }

  // ---------------------------------------------------------------------
  // Row sweep

  predicate FullRow(row: seq<int>)
  {
    forall c :: 0 <= c < |row| ==> row[c] != 0
  }

  /** The rows that are not full, in their original order. */
  function NonFullRows(rows: Matrix): (kept: Matrix)
    ensures |kept| <= |rows|
  {
    if rows == [] then []
    else (if FullRow(rows[0]) then [] else [rows[0]]) + NonFullRows(rows[1..])
  }

  function FullRowCount(rows: Matrix): nat
  {
    |rows| - |NonFullRows(rows)|
  }

  /** The arena after `arenaSweep`: the full rows are gone, the others keep
      their order and sink to the bottom, and one empty row per removed row
      is put on top. */
  function Swept(a: Matrix): Matrix
    requires IsArena(a)
  {
    ZeroRows(FullRowCount(a), Width) + NonFullRows(a)
  }

  /** The rows part-way through `arenaSweep`: the rows from p on have been
      examined and `cleared` of them removed, one empty row on top for each. */
  function PartlySwept(rows: Matrix, cleared: nat, p: nat): Matrix
    requires p <= |rows|
  {
    ZeroRows(cleared, Width) + rows[..p] + NonFullRows(rows[p..])
  }

  /** Examining row p - 1, the lowest one not yet examined: it sits at index
      cleared + p - 1; cutting it out when full, or passing over it when not,
      moves on to the next row up. */
  lemma PartlySweptStep(rows: Matrix, cleared: nat, p: nat)
    requires 0 < p <= |rows|
    ensures cleared + p - 1 < |PartlySwept(rows, cleared, p)|
    ensures PartlySwept(rows, cleared, p)[cleared + p - 1] == rows[p - 1]
    ensures FullRow(rows[p - 1]) ==>
              FullRowCount(rows[p - 1..]) == FullRowCount(rows[p..]) + 1 &&
              var a := PartlySwept(rows, cleared, p);
              [ZeroRow(Width)] + a[..cleared + p - 1] + a[cleared + p..] == PartlySwept(rows, cleared + 1, p - 1)
    ensures !FullRow(rows[p - 1]) ==>
              FullRowCount(rows[p - 1..]) == FullRowCount(rows[p..]) &&
              PartlySwept(rows, cleared, p) == PartlySwept(rows, cleared, p - 1)
  {
    var a := PartlySwept(rows, cleared, p);
    var z, kept := ZeroRows(cleared, Width), NonFullRows(rows[p..]);
    assert rows[p - 1..][1..] == rows[p..];
    assert rows[..p] == rows[..p - 1] + [rows[p - 1]];
    assert a == z + rows[..p - 1] + [rows[p - 1]] + kept;
    if FullRow(rows[p - 1]) {
      assert a[..cleared + p - 1] == z + rows[..p - 1];
      assert a[cleared + p..] == kept;
      assert [ZeroRow(Width)] + z == ZeroRows(cleared + 1, Width);
    }
  }

  /** Above the unexamined rows there are only the empty rows put on top. */
  lemma PartlySweptTop(rows: Matrix, cleared: nat, r: nat)
    requires r < cleared
    ensures r < |PartlySwept(rows, cleared, 0)| && !FullRow(PartlySwept(rows, cleared, 0)[r])
  {
    assert PartlySwept(rows, cleared, 0)[r][0] == 0;
  }

  /** Once every row is examined the sweep is complete. */
  lemma PartlySweptDone(rows: Matrix)
    requires IsArena(rows)
    ensures PartlySwept(rows, FullRowCount(rows), 0) == Swept(rows)
  {
    assert rows[..0] == [] && rows[0..] == rows;
  }

  /** The row loop of `arenaSweep`: rows are examined bottom-up; a full row
      is cut out and an emptied row put on top, after which the same index
      is examined again. */
  method SweepRows(rows: Matrix) returns (a: Matrix, cleared: nat)
    requires IsArena(rows)
    ensures a == Swept(rows) && cleared == FullRowCount(rows)
  {
    a := rows;
    cleared := 0;
    var r := Height - 1;
    ghost var p := Height;  // rows[..p] have not been examined yet
    while r >= 0
      invariant 0 <= p <= Height && -1 <= r
      invariant a == PartlySwept(rows, cleared, p)
      invariant cleared == FullRowCount(rows[p..])
      invariant p > 0 ==> r == cleared + p - 1
      invariant p == 0 ==> r < cleared
      decreases r + p + 1
    {
      if p == 0 {
        PartlySweptTop(rows, cleared, r);
      } else {
        PartlySweptStep(rows, cleared, p);
      }
      if FullRow(a[r]) {
        a := [ZeroRow(Width)] + a[..r] + a[r + 1..];
        cleared := cleared + 1;
        p := p - 1;
      } else {
        if p > 0 {
          p := p - 1;
        }
        r := r - 1;
      }
    }
    assert p == 0 && rows[0..] == rows;
    PartlySweptDone(rows);
  }

  /** Exactly the rows that are not full are kept. */
  lemma {:induction false} NonFullRowsMembers(rows: Matrix)
    ensures forall row :: row in NonFullRows(rows) <==> row in rows && !FullRow(row)
  {
    if rows != [] {
      NonFullRowsMembers(rows[1..]);
      assert rows == [rows[0]] + rows[1..];
    }
  }

  /** Filtering commutes with concatenation, so the kept rows keep their
      relative order. */
  lemma {:induction false} NonFullRowsAppend(xs: Matrix, ys: Matrix)
    ensures NonFullRows(xs + ys) == NonFullRows(xs) + NonFullRows(ys)
  {
    if xs == [] {
      assert xs + ys == ys;
    } else {
      assert (xs + ys)[0] == xs[0];
      assert (xs + ys)[1..] == xs[1..] + ys;
      NonFullRowsAppend(xs[1..], ys);
    }
  }

  /** A list of rows none of which is full is left as it is. */
  lemma {:induction false} NonFullRowsNoFull(rows: Matrix)
    requires forall r :: 0 <= r < |rows| ==> !FullRow(rows[r])
    ensures NonFullRows(rows) == rows
  {
    if rows != [] {
      NonFullRowsNoFull(rows[1..]);
      assert rows == [rows[0]] + rows[1..];
    }
  }

  /** The swept arena keeps its dimensions and its cell values. */
  lemma SweptIsArena(a: Matrix)
    requires IsArena(a)
    ensures IsArena(Swept(a))
    ensures CellsInRange(a) ==> CellsInRange(Swept(a))
  {
    var z, kept := ZeroRows(FullRowCount(a), Width), NonFullRows(a);
    NonFullRowsMembers(a);
    assert forall r :: 0 <= r < |kept| ==> kept[r] in a;
    var b := z + kept;
    forall r | 0 <= r < |b|
      ensures |b[r]| == Width
      ensures CellsInRange(a) ==> forall c :: 0 <= c < |b[r]| ==> 0 <= b[r][c] <= 7
    {
      if r >= |z| {
        assert b[r] == kept[r - |z|];
        var k :| 0 <= k < |a| && a[k] == kept[r - |z|];
      }
    }
  }

  /** No full row survives a sweep. */
  lemma SweptHasNoFullRow(a: Matrix)
    requires IsArena(a)
    ensures forall r :: 0 <= r < |Swept(a)| ==> !FullRow(Swept(a)[r])
  {
    var z, kept := ZeroRows(FullRowCount(a), Width), NonFullRows(a);
    NonFullRowsMembers(a);
    forall r | 0 <= r < |z + kept|
      ensures !FullRow((z + kept)[r])
    {
      if r < |z| {
        assert (z + kept)[r][0] == 0;
      } else {
        assert (z + kept)[r] == kept[r - |z|] && kept[r - |z|] in kept;
      }
    }
  }

  /** An arena without full rows is unchanged by a sweep, and no row is
      counted as cleared. */
  lemma SweepWithoutFullRows(a: Matrix)
    requires IsArena(a)
    requires forall r :: 0 <= r < |a| ==> !FullRow(a[r])
    ensures FullRowCount(a) == 0 && Swept(a) == a
  {
    NonFullRowsNoFull(a);
    assert ZeroRows(0, Width) + a == a;
  }

  /** Keeping as many rows as there were means no row was full. */
  lemma {:induction false} NonFullRowsAllKept(rows: Matrix)
    requires |NonFullRows(rows)| == |rows|
    ensures NonFullRows(rows) == rows
  {
    if rows != [] {
      assert |NonFullRows(rows[1..])| <= |rows| - 1;
      assert !FullRow(rows[0]);
      NonFullRowsAllKept(rows[1..]);
      assert rows == [rows[0]] + rows[1..];
    }
  }

  /** A sweep that clears no row leaves the arena as it was. */
  lemma NothingClearedUnchanged(a: Matrix)
    requires IsArena(a) && FullRowCount(a) == 0
    ensures Swept(a) == a
  {
    NonFullRowsAllKept(a);
    assert ZeroRows(0, Width) + a == a;
  }

  /** Sweeping twice is the same as sweeping once. */
  lemma SweepIdempotent(a: Matrix)
    requires IsArena(a)
    ensures IsArena(Swept(a)) && Swept(Swept(a)) == Swept(a)
  {
    SweptIsArena(a);
    SweptHasNoFullRow(a);
    SweepWithoutFullRows(Swept(a));
  }
}

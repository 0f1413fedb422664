/**
 * The mutable state of the Dancing Links solver as a value, and what its operations do to it.
 *
 * A snapshot `Mat` holds everything the solver updates in place: the vertical links of the cell
 * arena (`v`: down/up), the header links (`h`: right/left, node 0 being the column list and node
 * `c + 1` the header of column `c`), the column counts and the cells' detached flags.  The
 * static matrix `M` (columns and rows of the cells) never changes.
 *
 * `Valid(M, m, cs)` is the invariant the search keeps when the columns `cs` have been covered, in
 * that order: present cells are exactly the non-detached ones and are linked into their column
 * rings, the header ring holds exactly the active columns, a cell is detached exactly when its
 * row was hit by a covered column other than the cell's own first-hit column, and each count is
 * the number of present cells of its column.
 */
module DlxState {
  import opened Options
  import opened Rings
  import opened ExactCover

  datatype Mat = Mat(v: Links, h: Links, count: seq<int>, detached: seq<bool>)

  /** Every header node belongs to the ring rooted at the column list, node 0. */
  function HRoot(n: nat): (r: seq<int>)
    ensures |r| == n + 1 && forall i :: 0 <= i < |r| ==> r[i] == 0
  {
    seq(n + 1, _ => 0)
  }

  ghost predicate Shape(M: Matrix, m: Mat)
  {
    WellFormed(M) && Sized(M, m)
  }

  /** The snapshot has one entry per cell, header and column, and its links stay inside their arenas. */
  ghost predicate Sized(M: Matrix, m: Mat)
  {
    && InRange(m.v, |M.col|) && InRange(m.h, M.n + 1)
    && |m.count| == M.n && |m.detached| == |M.col|
  }

  ghost predicate DataCells(M: Matrix, d: seq<int>)
  {
    forall i :: 0 <= i < |d| ==> M.n <= d[i] < |M.col|
  }

  /** The cells currently linked into their column rings. */
  ghost function Present(M: Matrix, m: Mat): set<int>
    requires Shape(M, m)
  {
    set y | 0 <= y < |M.col| && !m.detached[y]
  }

  /** The header nodes linked into the header ring once the columns `cs` are covered. */
  ghost function HPresent(M: Matrix, cs: seq<int>): set<int>
  {
    set x | 0 <= x <= M.n && HeaderActive(M, cs, x)
  }

  /** Header node `x` is the column list or the header of an active column. */
  ghost predicate HeaderActive(M: Matrix, cs: seq<int>, x: int)
  {
    x == 0 || Active(M, cs, x - 1)
  }

  /** The first column of `cs` that row `r` has, or -1 when `r` is not hit. */
  ghost function HitCol(M: Matrix, cs: seq<int>, r: int): int
    requires WellFormed(M) && 0 <= r < |M.cells|
    decreases |cs|
  {
    if cs == [] then -1
    else
      var h := HitCol(M, cs[..|cs| - 1], r);
      if h != -1 then h else if cs[|cs| - 1] in RowCols(M, r) then cs[|cs| - 1] else -1
  }

  /** The number of data cells of column `c` below `hi` that are not detached. */
  ghost function PresentBelow(M: Matrix, det: seq<bool>, c: int, hi: nat): nat
    requires |det| == |M.col| && hi <= |M.col|
  {
    if hi == 0 then 0
    else PresentBelow(M, det, c, hi - 1) + (if M.n <= hi - 1 && M.col[hi - 1] == c && !det[hi - 1] then 1 else 0)
  }

  /** Every count is the number of present data cells of its column. */
  ghost predicate CountsOK(M: Matrix, m: Mat)
    requires Shape(M, m)
  {
    forall c :: 0 <= c < M.n ==> m.count[c] == PresentBelow(M, m.detached, c, |M.col|)
  }

  ghost predicate Valid(M: Matrix, m: Mat, cs: seq<int>)
  {
    && Shape(M, m)
    && (forall i :: 0 <= i < |cs| ==> 0 <= cs[i] < M.n)
    && SameRing(M.col, m.v)
    && Ideal(M.col, Present(M, m), m.v)
    && Ideal(HRoot(M.n), HPresent(M, cs), m.h)
    && (forall y :: 0 <= y < M.n ==> !m.detached[y])
    && Pattern(M, cs, m.detached)
    && CountsOK(M, m)
  }

  /** A data cell is detached exactly when its row was hit, by a column other than its own, first. */
  ghost predicate Pattern(M: Matrix, cs: seq<int>, det: seq<bool>)
    requires WellFormed(M) && |det| == |M.col|
  {
    forall y {:trigger det[y]} :: M.n <= y < |M.col| ==>
      (det[y] <==> HitCol(M, cs, M.row[y]) != -1 && M.col[y] != HitCol(M, cs, M.row[y]))
  }

  // ---------------------------------------------------------------------------
  // Detaching and re-attaching cells

  /**
   * The body of eliminateRow for one cell: unlink it, then decrement its column's count, which
   * throws (None) when the count is already 0; otherwise mark the cell detached.
   */
  ghost function DeleteCell(M: Matrix, m: Mat, z: int): (r: Option<Mat>)
    requires Shape(M, m) && M.n <= z < |M.col|
    ensures r.Some? ==> Shape(M, r.value)
  {
    var c := M.col[z];
    if m.count[c] > 0 then Some(Mat(Unlink(m.v, z), m.h, m.count[c := m.count[c] - 1], m.detached[z := true]))
    else None
  }

  ghost function DeleteCells(M: Matrix, m: Mat, d: seq<int>): (r: Option<Mat>)
    requires Shape(M, m) && DataCells(M, d)
    ensures r.Some? ==> Shape(M, r.value)
    decreases |d|
  {
    if d == [] then Some(m)
    else
      match DeleteCell(M, m, d[0])
      case None => None
      case Some(m1) => DeleteCells(M, m1, d[1..])
  }

  /** The body of reinstateRow for one cell: relink it, increment the count, clear the flag. */
  ghost function RestoreCell(M: Matrix, m: Mat, z: int): (r: Mat)
    requires Shape(M, m) && M.n <= z < |M.col|
    ensures Shape(M, r)
  {
    var c := M.col[z];
    Mat(Relink(m.v, z), m.h, m.count[c := m.count[c] + 1], m.detached[z := false])
  }

  ghost function RestoreCells(M: Matrix, m: Mat, d: seq<int>): (r: Mat)
    requires Shape(M, m) && DataCells(M, d)
    ensures Shape(M, r)
    decreases |d|
  {
    if d == [] then m else RestoreCells(M, RestoreCell(M, m, d[0]), d[1..])
  }

  // ---------------------------------------------------------------------------
  // Which cells a row or a column operation touches

  /** The cells of row `r` from position `k` on that are outside column `skip` and not detached. */
  ghost function LiveFrom(M: Matrix, m: Mat, r: int, skip: int, k: nat): (d: seq<int>)
    requires Shape(M, m) && 0 <= r < |M.cells| && k <= |M.cells[r]|
    ensures DataCells(M, d)
    decreases |M.cells[r]| - k
  {
    if k == |M.cells[r]| then []
    else
      var z := M.cells[r][k];
      (if M.col[z] != skip && !m.detached[z] then [z] else []) + LiveFrom(M, m, r, skip, k + 1)
  }

  /** The cells of row `r` from position `k` on that are detached. */
  ghost function DetachedFrom(M: Matrix, m: Mat, r: int, k: nat): (d: seq<int>)
    requires Shape(M, m) && 0 <= r < |M.cells| && k <= |M.cells[r]|
    ensures DataCells(M, d)
    decreases |M.cells[r]| - k
  {
    if k == |M.cells[r]| then []
    else
      var z := M.cells[r][k];
      (if m.detached[z] then [z] else []) + DetachedFrom(M, m, r, k + 1)
  }

  /** Data cell `y` of column `c` is in that column's ring. */
  ghost predicate InColumn(M: Matrix, m: Mat, c: int, y: int)
    requires Shape(M, m)
  {
    M.n <= y < |M.col| && M.col[y] == c && !m.detached[y]
  }

  /** The cells eliminateColumn(c) detaches for the present cells of column `c` below `hi`. */
  ghost function DelColBelow(M: Matrix, m: Mat, c: int, hi: nat): (d: seq<int>)
    requires Shape(M, m) && hi <= |M.col|
    ensures DataCells(M, d)
  {
    if hi == 0 then []
    else
      DelColBelow(M, m, c, hi - 1)
      + (if InColumn(M, m, c, hi - 1) then LiveFrom(M, m, M.row[hi - 1], c, 0) else [])
  }

  /** The cells reinstateColumn(c) re-attaches for the present cells of column `c` below `hi`. */
  ghost function RelColBelow(M: Matrix, m: Mat, c: int, hi: nat): (d: seq<int>)
    requires Shape(M, m) && hi <= |M.col|
    ensures DataCells(M, d)
  {
    if hi == 0 then []
    else
      RelColBelow(M, m, c, hi - 1)
      + (if InColumn(M, m, c, hi - 1) then DetachedFrom(M, m, M.row[hi - 1], 0) else [])
  }

  /** eliminateColumn(c): every row of the column's ring loses its other cells; then the header leaves the ring. */
  ghost function ElimCol(M: Matrix, m: Mat, c: int): (r: Option<Mat>)
    requires Shape(M, m) && 0 <= c < M.n
    ensures r.Some? ==> Shape(M, r.value)
  {
    match DeleteCells(M, m, DelColBelow(M, m, c, |M.col|))
    case None => None
    case Some(m1) => Some(m1.(h := Unlink(m1.h, c + 1)))
  }

  /** reinstateColumn(c): every row of the column's ring gets its detached cells back; then the header returns. */
  ghost function ReinstCol(M: Matrix, m: Mat, c: int): (r: Mat)
    requires Shape(M, m) && 0 <= c < M.n
    ensures Shape(M, r)
  {
    var m1 := RestoreCells(M, m, RelColBelow(M, m, c, |M.col|));
    m1.(h := Relink(m1.h, c + 1))
  }

  ghost predicate ColsIn(M: Matrix, cols: seq<int>)
  {
    forall i :: 0 <= i < |cols| ==> 0 <= cols[i] < M.n
  }

  /** Eliminating the columns `cols` one after the other. */
  ghost function Cover(M: Matrix, m: Mat, cols: seq<int>): (r: Option<Mat>)
    requires Shape(M, m) && ColsIn(M, cols)
    ensures r.Some? ==> Shape(M, r.value)
    decreases |cols|
  {
    if cols == [] then Some(m)
    else
      match Cover(M, m, cols[..|cols| - 1])
      case None => None
      case Some(m1) => ElimCol(M, m1, cols[|cols| - 1])
  }

  /** Reinstating the columns `cols` one after the other, in the same order. */
  ghost function Uncover(M: Matrix, m: Mat, cols: seq<int>): (r: Mat)
    requires Shape(M, m) && ColsIn(M, cols)
    ensures Shape(M, r)
    decreases |cols|
  {
    if cols == [] then m else ReinstCol(M, Uncover(M, m, cols[..|cols| - 1]), cols[|cols| - 1])
  }

  // ---------------------------------------------------------------------------
  // Counting present cells

  /** Setting one flag changes only its own column's count of present cells, by at most one. */
  lemma {:induction false} PresentFlip(M: Matrix, det: seq<bool>, z: int, b: bool, c: int, hi: int)
    requires 0 <= hi
    requires |det| == |M.col| && hi <= |M.col| && 0 <= z < |M.col|
    ensures PresentBelow(M, det[z := b], c, hi) + (if z < hi && M.n <= z && M.col[z] == c && !det[z] then 1 else 0)
         == PresentBelow(M, det, c, hi) + (if z < hi && M.n <= z && M.col[z] == c && !b then 1 else 0)
  {
    if hi > 0 {
      PresentFlip(M, det, z, b, c, hi - 1);
    }
  }

  /** A present data cell is counted in its column. */
  lemma {:induction false} PresentCounted(M: Matrix, det: seq<bool>, z: int, hi: int)
    requires 0 <= hi
    requires |det| == |M.col| && hi <= |M.col| && M.n <= z < hi && !det[z]
    ensures PresentBelow(M, det, M.col[z], hi) >= 1
  {
    if z < hi - 1 {
      PresentCounted(M, det, z, hi - 1);
    }
  }

  // ---------------------------------------------------------------------------
  // Facts about DeleteCells and RestoreCells

  /** `s` is `m` with the cells `d` unlinked and flagged, and its counts still count the present cells. */
  ghost predicate Detached(M: Matrix, m: Mat, d: seq<int>, s: Mat)
    requires Shape(M, m) && Shape(M, s) && DataCells(M, d)
  {
    && CountsOK(M, s) && s.v == UnlinkAll(m.v, d) && s.h == m.h
    && forall z :: 0 <= z < |M.col| ==> s.detached[z] == (m.detached[z] || z in d)
  }

  /** `s` is `m` with the cells `d` relinked and their flags cleared, and its counts still count the present cells. */
  ghost predicate Attached(M: Matrix, m: Mat, d: seq<int>, s: Mat)
    requires Shape(M, m) && Shape(M, s) && DataCells(M, d)
  {
    && CountsOK(M, s) && s.v == RelinkAll(m.v, d) && s.h == m.h
    && forall z :: 0 <= z < |M.col| ==> s.detached[z] == (m.detached[z] && z !in d)
  }

  lemma {:induction false} DeleteCellsAppend(M: Matrix, m: Mat, d: seq<int>, e: seq<int>)
    requires Shape(M, m) && DataCells(M, d) && DataCells(M, e)
    ensures DataCells(M, d + e)
    ensures DeleteCells(M, m, d + e)
         == match DeleteCells(M, m, d) case None => None case Some(m1) => DeleteCells(M, m1, e)
    decreases |d|
  {
    if d == [] {
      assert d + e == e;
    } else {
      assert (d + e)[0] == d[0] && (d + e)[1..] == d[1..] + e;
      match DeleteCell(M, m, d[0])
      case None =>
      case Some(m1) => DeleteCellsAppend(M, m1, d[1..], e);
    }
  }

  lemma {:induction false} RestoreCellsAppend(M: Matrix, m: Mat, d: seq<int>, e: seq<int>)
    requires Shape(M, m) && DataCells(M, d) && DataCells(M, e)
    ensures DataCells(M, d + e)
    ensures RestoreCells(M, m, d + e) == RestoreCells(M, RestoreCells(M, m, d), e)
    decreases |d|
  {
    if d == [] {
      assert d + e == e;
    } else {
      assert (d + e)[0] == d[0] && (d + e)[1..] == d[1..] + e;
      RestoreCellsAppend(M, RestoreCell(M, m, d[0]), d[1..], e);
    }
  }

  /**
   * Detaching distinct present cells never meets a zero count, keeps every count equal to
   * the number of present cells, unlinks exactly those cells and marks exactly them detached.
   */
  lemma {:induction false} DeletePresent(M: Matrix, m: Mat, d: seq<int>)
    requires Shape(M, m) && CountsOK(M, m) && DataCells(M, d) && Distinct(d)
    requires forall i :: 0 <= i < |d| ==> !m.detached[d[i]]
    ensures DeleteCells(M, m, d).Some? && Detached(M, m, d, DeleteCells(M, m, d).value)
    decreases |d|
  {
    if d != [] {
      DeleteFirst(M, m, d);
      var m1 := DeleteCell(M, m, d[0]).value;
      DeletePresent(M, m1, d[1..]);
      DeleteRest(M, m, d, m1, DeleteCells(M, m1, d[1..]).value);
    }
  }

  /** Detaching the first of distinct present cells meets a positive count and leaves the rest present. */
  lemma DeleteFirst(M: Matrix, m: Mat, d: seq<int>)
    requires Shape(M, m) && CountsOK(M, m) && DataCells(M, d) && Distinct(d) && d != []
    requires forall i :: 0 <= i < |d| ==> !m.detached[d[i]]
    ensures DeleteCell(M, m, d[0]).Some?
    ensures var m1 := DeleteCell(M, m, d[0]).value;
      CountsOK(M, m1) && DataCells(M, d[1..]) && Distinct(d[1..]) && forall i :: 0 <= i < |d[1..]| ==> !m1.detached[d[1..][i]]
  {
    var z := d[0];
    PresentCounted(M, m.detached, z, |M.col|);
    var m1 := DeleteCell(M, m, z).value;
    forall c' | 0 <= c' < M.n
      ensures m1.count[c'] == PresentBelow(M, m1.detached, c', |M.col|)
    {
      PresentFlip(M, m.detached, z, true, c', |M.col|);
    }
    DistinctTail(d);
  }

  /** Detaching the first cell and then the rest is detaching them all. */
  lemma DeleteRest(M: Matrix, m: Mat, d: seq<int>, m1: Mat, r: Mat)
    requires Shape(M, m) && DataCells(M, d) && d != [] && DeleteCell(M, m, d[0]) == Some(m1)
    requires DeleteCells(M, m1, d[1..]) == Some(r) && Detached(M, m1, d[1..], r)
    ensures DeleteCells(M, m, d) == Some(r) && Detached(M, m, d, r)
  {
    HeadTail(d);
  }

  lemma HeadTail(d: seq<int>)
    requires d != []
    ensures forall w :: (w in d) == (w == d[0] || w in d[1..])
  {
    assert d == [d[0]] + d[1..];
  }

  /**
   * Re-attaching distinct detached cells keeps every count equal to the number of present
   * cells, relinks exactly those cells and clears exactly their flags.
   */
  lemma {:induction false} RestoreDetached(M: Matrix, m: Mat, d: seq<int>)
    requires Shape(M, m) && CountsOK(M, m) && DataCells(M, d) && Distinct(d)
    requires forall i :: 0 <= i < |d| ==> m.detached[d[i]]
    ensures Attached(M, m, d, RestoreCells(M, m, d))
    decreases |d|
  {
    if d != [] {
      RestoreFirst(M, m, d);
      var m1 := RestoreCell(M, m, d[0]);
      RestoreDetached(M, m1, d[1..]);
      RestoreRest(M, m, d, m1, RestoreCells(M, m1, d[1..]));
    }
  }

  /** Re-attaching the first of distinct detached cells keeps the counts right and leaves the rest detached. */
  lemma RestoreFirst(M: Matrix, m: Mat, d: seq<int>)
    requires Shape(M, m) && CountsOK(M, m) && DataCells(M, d) && Distinct(d) && d != []
    requires forall i :: 0 <= i < |d| ==> m.detached[d[i]]
    ensures var m1 := RestoreCell(M, m, d[0]);
      CountsOK(M, m1) && DataCells(M, d[1..]) && Distinct(d[1..]) && forall i :: 0 <= i < |d[1..]| ==> m1.detached[d[1..][i]]
  {
    var z := d[0];
    var m1 := RestoreCell(M, m, z);
    forall c' | 0 <= c' < M.n
      ensures m1.count[c'] == PresentBelow(M, m1.detached, c', |M.col|)
    {
      PresentFlip(M, m.detached, z, false, c', |M.col|);
    }
    DistinctTail(d);
  }

  /** Re-attaching the first cell and then the rest is re-attaching them all. */
  lemma RestoreRest(M: Matrix, m: Mat, d: seq<int>, m1: Mat, r: Mat)
    requires Shape(M, m) && DataCells(M, d) && d != [] && RestoreCell(M, m, d[0]) == m1
    requires RestoreCells(M, m1, d[1..]) == r && Attached(M, m1, d[1..], r)
    ensures RestoreCells(M, m, d) == r && Attached(M, m, d, r)
  {
    HeadTail(d);
  }

  /** The rest of a sequence of distinct cells is distinct and avoids its first cell. */
  lemma DistinctTail(d: seq<int>)
    requires Distinct(d) && d != []
    ensures Distinct(d[1..]) && forall i :: 0 <= i < |d[1..]| ==> d[1..][i] == d[i + 1] != d[0]
  {
    forall i, j | 0 <= i < j < |d[1..]| ensures d[1..][i] != d[1..][j] {
      assert d[1..][i] == d[i + 1] && d[1..][j] == d[j + 1];
    }
  }

  /** Detaching cells unlinks exactly them, leaves the header links alone and flags only them. */
  lemma {:induction false} DeleteEffect(M: Matrix, m: Mat, d: seq<int>)
    requires Shape(M, m) && DataCells(M, d) && DeleteCells(M, m, d).Some?
    ensures DeleteCells(M, m, d).value.v == UnlinkAll(m.v, d)
    ensures DeleteCells(M, m, d).value.h == m.h
    ensures forall w :: 0 <= w < |M.col| && w !in d ==> DeleteCells(M, m, d).value.detached[w] == m.detached[w]
    decreases |d|
  {
    if d != [] {
      var m1 := DeleteCell(M, m, d[0]).value;
      DeleteEffect(M, m1, d[1..]);
      forall w | 0 <= w < |M.col| && w !in d
        ensures w != d[0] && w !in d[1..]
      {
        assert d == [d[0]] + d[1..];
      }
    }
  }

  /** Re-attaching cells relinks exactly them, leaves the header links alone and clears only their flags. */
  lemma {:induction false} RestoreEffect(M: Matrix, m: Mat, d: seq<int>)
    requires Shape(M, m) && DataCells(M, d)
    ensures RestoreCells(M, m, d).v == RelinkAll(m.v, d)
    ensures RestoreCells(M, m, d).h == m.h
    ensures forall w :: 0 <= w < |M.col| && w !in d ==> RestoreCells(M, m, d).detached[w] == m.detached[w]
    decreases |d|
  {
    if d != [] {
      var m1 := RestoreCell(M, m, d[0]);
      RestoreEffect(M, m1, d[1..]);
      forall w | 0 <= w < |M.col| && w !in d
        ensures w != d[0] && w !in d[1..]
      {
        assert d == [d[0]] + d[1..];
      }
    }
  }
}

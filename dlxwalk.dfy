/**
 * What the solver's pointer walks see.
 *
 * eliminateColumn, reinstateColumn and search follow `down` links from a column's root cell until
 * they are back at the root.  `ColumnLinked(M, m, c)` says that this walk visits the present data
 * cells of column `c` in increasing order, which is what the value-level functions `DelColBelow`,
 * `RelColBelow` and `LeavesUpTo` scan.  The lemmas here show that every state in which the solver
 * walks a column is column-linked for it, and that one step of a walk extends the scanned prefix
 * by exactly one row.
 */
module DlxWalk {
  import opened Options
  import opened Rings
  import opened ExactCover
  import opened DlxState
  import opened DlxProofs
  import opened DlxCover
  import opened DlxUncover

  /** No data cell of column `c` with index in [lo, hi) is in the ring. */
  ghost predicate NoColumnCellIn(M: Matrix, m: Mat, c: int, lo: int, hi: int)
    requires Shape(M, m)
  {
    forall w :: lo <= w < hi ==> !InColumn(M, m, c, w)
  }

  /** `z` is what follows `y` in the ring of column `c`: the next present data cell, or the root. */
  ghost predicate NextInColumn(M: Matrix, m: Mat, c: int, y: int, z: int)
    requires Shape(M, m)
  {
    || (z == c && NoColumnCellIn(M, m, c, y + 1, |M.col|))
    || (y < z && InColumn(M, m, c, z) && NoColumnCellIn(M, m, c, y + 1, z))
  }

  /** Following `down` from the root of column `c` visits its present cells in increasing order. */
  ghost predicate ColumnLinked(M: Matrix, m: Mat, c: int)
    requires Shape(M, m)
  {
    && 0 <= c < M.n
    && NextInColumn(M, m, c, c, m.v.next[c])
    && forall y :: InColumn(M, m, c, y) ==> NextInColumn(M, m, c, y, m.v.next[y])
  }

  lemma NextFollows(M: Matrix, m: Mat, c: int, y: int)
    requires Shape(M, m) && Ideal(M.col, Present(M, m), m.v) && 0 <= c < M.n && !m.detached[c]
    requires y == c || InColumn(M, m, c, y)
    ensures NextInColumn(M, m, c, y, m.v.next[y])
  {
    var p := Present(M, m);
    assert y in p;
    var z := m.v.next[y];
    assert IsNext(M.col, p, y, z);
    if y < z {
      forall w | y + 1 <= w < z ensures !InColumn(M, m, c, w) {
        if InColumn(M, m, c, w) {
          assert InRing(M.col, p, y, w);
        }
      }
    } else {
      forall w | y + 1 <= w < |M.col| ensures !InColumn(M, m, c, w) {
        if InColumn(M, m, c, w) {
          assert InRing(M.col, p, y, w);
        }
      }
    }
  }

  /** A column whose root is present in an ideally linked state is column-linked. */
  lemma IdealColumnLinked(M: Matrix, m: Mat, c: int)
    requires Shape(M, m) && Ideal(M.col, Present(M, m), m.v) && 0 <= c < M.n && !m.detached[c]
    ensures ColumnLinked(M, m, c)
  {
    NextFollows(M, m, c, c);
    forall y | InColumn(M, m, c, y) ensures NextInColumn(M, m, c, y, m.v.next[y]) {
      NextFollows(M, m, c, y);
    }
  }

  /** Column-linkedness only depends on the flags of the column's cells and on their `down` links. */
  lemma ColumnLinkedTransfer(M: Matrix, m: Mat, u: Mat, c: int)
    requires Shape(M, m) && Shape(M, u) && ColumnLinked(M, m, c) && !m.detached[c]
    requires forall y :: 0 <= y < |M.col| && M.col[y] == c ==> u.detached[y] == m.detached[y]
    requires forall y :: 0 <= y < |M.col| && M.col[y] == c && !m.detached[y] ==> u.v.next[y] == m.v.next[y]
    ensures ColumnLinked(M, u, c)
  {
    assert forall w :: InColumn(M, u, c, w) == InColumn(M, m, c, w);
    assert M.col[c] == c;
  }

  // ---------------------------------------------------------------------------
  // Spans without cells of the column

  lemma {:induction false} DelColSkip(M: Matrix, m: Mat, c: int, lo: int, hi: int)
    requires 0 <= lo && 0 <= hi
    requires Shape(M, m) && lo <= hi <= |M.col| && NoColumnCellIn(M, m, c, lo, hi)
    ensures DelColBelow(M, m, c, hi) == DelColBelow(M, m, c, lo)
    decreases hi
  {
    if hi > lo {
      assert !InColumn(M, m, c, hi - 1);
      DelColSkip(M, m, c, lo, hi - 1);
    }
  }

  lemma {:induction false} RelColSkip(M: Matrix, m: Mat, c: int, lo: int, hi: int)
    requires 0 <= lo && 0 <= hi
    requires Shape(M, m) && lo <= hi <= |M.col| && NoColumnCellIn(M, m, c, lo, hi)
    ensures RelColBelow(M, m, c, hi) == RelColBelow(M, m, c, lo)
    decreases hi
  {
    if hi > lo {
      assert !InColumn(M, m, c, hi - 1);
      RelColSkip(M, m, c, lo, hi - 1);
    }
  }

  /** The walk's first step from the root: nothing of the column lies before the cell it reaches. */
  lemma WalkStart(M: Matrix, m: Mat, c: int, z: int, hi: int)
    requires 0 <= hi
    requires Shape(M, m) && 0 <= c < M.n && NextInColumn(M, m, c, c, z)
    requires hi == if z == c then |M.col| else z
    ensures hi <= |M.col|
    ensures DelColBelow(M, m, c, hi) == [] && RelColBelow(M, m, c, hi) == []
  {
    assert NoColumnCellIn(M, m, c, 0, hi);
    DelColSkip(M, m, c, 0, hi);
    RelColSkip(M, m, c, 0, hi);
  }

  /** The walk's step from a cell `r` to the cell `z` that follows it, as eliminateColumn sees it. */
  lemma WalkNextDel(M: Matrix, m: Mat, c: int, r: int, z: int, hi: int)
    requires 0 <= hi
    requires Shape(M, m) && InColumn(M, m, c, r) && NextInColumn(M, m, c, r, z)
    requires hi == if z == c then |M.col| else z
    ensures r < hi <= |M.col|
    ensures DelColBelow(M, m, c, hi) == DelColBelow(M, m, c, r + 1)
  {
    DelColSkip(M, m, c, r + 1, hi);
  }

  /** The walk's step from a cell `r` to the cell `z` that follows it, as reinstateColumn sees it. */
  lemma WalkNextRel(M: Matrix, m: Mat, c: int, r: int, z: int, hi: int)
    requires 0 <= hi
    requires Shape(M, m) && InColumn(M, m, c, r) && NextInColumn(M, m, c, r, z)
    requires hi == if z == c then |M.col| else z
    ensures r < hi <= |M.col|
    ensures RelColBelow(M, m, c, hi) == RelColBelow(M, m, c, r + 1)
  {
    RelColSkip(M, m, c, r + 1, hi);
  }

  lemma {:induction false} DelColPrefix(M: Matrix, m: Mat, c: int, lo: int, hi: int)
    requires 0 <= lo && 0 <= hi
    requires Shape(M, m) && lo <= hi <= |M.col|
    ensures |DelColBelow(M, m, c, lo)| <= |DelColBelow(M, m, c, hi)|
    ensures DelColBelow(M, m, c, hi) == DelColBelow(M, m, c, lo) + DelColBelow(M, m, c, hi)[|DelColBelow(M, m, c, lo)|..]
    decreases hi
  {
    if hi > lo {
      DelColPrefix(M, m, c, lo, hi - 1);
      var g := if InColumn(M, m, c, hi - 1) then LiveFrom(M, m, M.row[hi - 1], c, 0) else [];
      assert DelColBelow(M, m, c, hi) == DelColBelow(M, m, c, hi - 1) + g;
      PrefixGrows(DelColBelow(M, m, c, lo), DelColBelow(M, m, c, hi - 1), g);
    }
  }

  lemma PrefixGrows<X>(a: seq<X>, p: seq<X>, g: seq<X>)
    requires |a| <= |p| && p == a + p[|a|..]
    ensures |a| <= |p + g| && p + g == a + (p + g)[|a|..]
  {
    assert (p + g)[|a|..] == p[|a|..] + g;
  }

  /** Once deleting the groups of a prefix of the column throws, deleting all of them throws. */
  lemma ElimFails(M: Matrix, m: Mat, c: int, lo: int)
    requires 0 <= lo
    requires Shape(M, m) && lo <= |M.col| && DeleteCells(M, m, DelColBelow(M, m, c, lo)).None?
    ensures DeleteCells(M, m, DelColBelow(M, m, c, |M.col|)).None?
  {
    var a, t := DelColBelow(M, m, c, lo), DelColBelow(M, m, c, |M.col|);
    DelColPrefix(M, m, c, lo, |M.col|);
    DataCellsSuffix(M, t, |a|);
    DeleteCellsPrefixFails(M, m, a, t[|a|..]);
  }

  lemma DataCellsSuffix(M: Matrix, t: seq<int>, k: int)
    requires DataCells(M, t) && 0 <= k <= |t|
    ensures DataCells(M, t[k..])
  {
    forall i | 0 <= i < |t| - k ensures M.n <= t[k..][i] < |M.col| {
      assert t[k..][i] == t[k + i];
    }
  }

  /** Once deleting `d` throws, deleting `d` and then `e` throws. */
  lemma DeleteCellsPrefixFails(M: Matrix, m: Mat, d: seq<int>, e: seq<int>)
    requires Shape(M, m) && DataCells(M, d) && DataCells(M, e) && DeleteCells(M, m, d).None?
    ensures DataCells(M, d + e) && DeleteCells(M, m, d + e).None?
  {
    DeleteCellsAppend(M, m, d, e);
  }

  /** Once deleting the groups of the column's cells up to `r` throws, eliminateColumn throws. */
  lemma ElimColFails(M: Matrix, m: Mat, c: int, r: int)
    requires Shape(M, m) && 0 <= c < M.n && InColumn(M, m, c, r) && DeleteCells(M, m, DelColBelow(M, m, c, r + 1)).None?
    ensures ElimCol(M, m, c).None?
  {
    ElimFails(M, m, c, r + 1);
  }

  // ---------------------------------------------------------------------------
  // One row of the walk

  lemma {:induction false} LiveFromFrame(M: Matrix, m: Mat, m': Mat, r: int, skip: int, k: int)
    requires 0 <= k
    requires Shape(M, m) && Shape(M, m') && 0 <= r < |M.cells| && k <= |M.cells[r]|
    requires forall j :: k <= j < |M.cells[r]| ==> m'.detached[M.cells[r][j]] == m.detached[M.cells[r][j]]
    ensures LiveFrom(M, m', r, skip, k) == LiveFrom(M, m, r, skip, k)
    decreases |M.cells[r]| - k
  {
    if k < |M.cells[r]| {
      LiveFromFrame(M, m, m', r, skip, k + 1);
    }
  }

  lemma {:induction false} DetachedFromFrame(M: Matrix, m: Mat, m': Mat, r: int, k: int)
    requires 0 <= k
    requires Shape(M, m) && Shape(M, m') && 0 <= r < |M.cells| && k <= |M.cells[r]|
    requires forall j :: k <= j < |M.cells[r]| ==> m'.detached[M.cells[r][j]] == m.detached[M.cells[r][j]]
    ensures DetachedFrom(M, m', r, k) == DetachedFrom(M, m, r, k)
    decreases |M.cells[r]| - k
  {
    if k < |M.cells[r]| {
      DetachedFromFrame(M, m, m', r, k + 1);
    }
  }

  /** No cell of the row of `r` belongs to the groups of the column's cells before `r`. */
  lemma RowNotBefore(M: Matrix, m: Mat, c: int, r: int, z: int)
    requires Shape(M, m) && InColumn(M, m, c, r) && M.n <= z < |M.col| && M.row[z] == M.row[r]
    ensures !RowInColumnBelow(M, m, c, M.row[z], r)
  {
    if y :| 0 <= y < r && InColumn(M, m, c, y) && M.row[y] == M.row[z] {
      OneCellPerColumn(M, y, r);
    }
  }

  /** The cells of the row of `r` keep their flags while the groups of earlier cells are deleted. */
  lemma ElimRowSame(M: Matrix, m: Mat, c: int, r: int)
    requires Shape(M, m) && InColumn(M, m, c, r) && DeleteCells(M, m, DelColBelow(M, m, c, r)).Some?
    ensures LiveFrom(M, DeleteCells(M, m, DelColBelow(M, m, c, r)).value, M.row[r], c, 0) == LiveFrom(M, m, M.row[r], c, 0)
  {
    var d := DelColBelow(M, m, c, r);
    var s := DeleteCells(M, m, d).value;
    var rr := M.row[r];
    DeleteEffect(M, m, d);
    DelColMember(M, m, c, r);
    forall j | 0 <= j < |M.cells[rr]| ensures s.detached[M.cells[rr][j]] == m.detached[M.cells[rr][j]] {
      RowNotBefore(M, m, c, r, M.cells[rr][j]);
    }
    LiveFromFrame(M, m, s, rr, c, 0);
  }

  /** Deleting groups of column `c` leaves the ring of `c` alone. */
  lemma ElimKeepsColumn(M: Matrix, m: Mat, c: int, hi: int)
    requires 0 <= hi
    requires Shape(M, m) && SameRing(M.col, m.v) && hi <= |M.col| && DeleteCells(M, m, DelColBelow(M, m, c, hi)).Some?
    ensures forall y :: 0 <= y < |M.col| && M.col[y] == c ==>
              DeleteCells(M, m, DelColBelow(M, m, c, hi)).value.v.next[y] == m.v.next[y]
  {
    var d := DelColBelow(M, m, c, hi);
    DeleteEffect(M, m, d);
    DelColMember(M, m, c, hi);
    assert OutsideRing(M.col, d, c);
    UnlinkAllOutside(M.col, m.v, d, c);
  }

  /** Deleting groups of column `c` keeps the link below cell `y` of the column. */
  lemma ElimKeepsAt(M: Matrix, m: Mat, c: int, hi: int, s': Mat, y: int)
    requires Shape(M, m) && SameRing(M.col, m.v) && 0 <= hi <= |M.col| && DeleteCells(M, m, DelColBelow(M, m, c, hi)) == Some(s')
    requires 0 <= y < |M.col| && M.col[y] == c
    ensures s'.v.next[y] == m.v.next[y]
  {
    ElimKeepsColumn(M, m, c, hi);
  }

  /** eliminateColumn(c) at cell `r`: the next group is the live part of `r`'s row, as it is now. */
  lemma ElimStep(M: Matrix, m: Mat, c: int, r: int)
    requires Shape(M, m) && InColumn(M, m, c, r)
    requires DeleteCells(M, m, DelColBelow(M, m, c, r)).Some?
    ensures DeleteCells(M, m, DelColBelow(M, m, c, r + 1))
         == DeleteCells(M, DeleteCells(M, m, DelColBelow(M, m, c, r)).value, LiveFrom(M, DeleteCells(M, m, DelColBelow(M, m, c, r)).value, M.row[r], c, 0))
  {
    var d := DelColBelow(M, m, c, r);
    var e := LiveFrom(M, m, M.row[r], c, 0);
    assert DelColBelow(M, m, c, r + 1) == d + e;
    ElimRowSame(M, m, c, r);
    DeleteCellsAppend(M, m, d, e);
  }

  /** The cells of the row of `r` keep their flags while the groups of earlier cells are restored. */
  lemma ReinstRowSame(M: Matrix, m: Mat, c: int, r: int)
    requires Shape(M, m) && InColumn(M, m, c, r)
    ensures DetachedFrom(M, RestoreCells(M, m, RelColBelow(M, m, c, r)), M.row[r], 0) == DetachedFrom(M, m, M.row[r], 0)
  {
    var d := RelColBelow(M, m, c, r);
    var s := RestoreCells(M, m, d);
    var rr := M.row[r];
    RestoreEffect(M, m, d);
    RelColMember(M, m, c, r);
    forall j | 0 <= j < |M.cells[rr]| ensures s.detached[M.cells[rr][j]] == m.detached[M.cells[rr][j]] {
      RowNotBefore(M, m, c, r, M.cells[rr][j]);
    }
    DetachedFromFrame(M, m, s, rr, 0);
  }

  /** Restoring groups of column `c` leaves the ring of `c` alone. */
  lemma ReinstKeepsColumn(M: Matrix, m: Mat, c: int, hi: int)
    requires 0 <= hi
    requires Shape(M, m) && SameRing(M.col, m.v) && hi <= |M.col|
    ensures forall y :: 0 <= y < |M.col| && M.col[y] == c ==>
              RestoreCells(M, m, RelColBelow(M, m, c, hi)).v.next[y] == m.v.next[y]
  {
    var d := RelColBelow(M, m, c, hi);
    RestoreEffect(M, m, d);
    RelColMember(M, m, c, hi);
    assert OutsideRing(M.col, d, c) by {
      forall i | 0 <= i < |d| ensures M.col[d[i]] != c {
        var z := d[i];
        assert DetachedCell(M, m, z) && RowInColumnBelow(M, m, c, M.row[z], hi);
        var y :| 0 <= y < hi && InColumn(M, m, c, y) && M.row[y] == M.row[z];
        if M.col[z] == c {
          OneCellPerColumn(M, y, z);
        }
      }
    }
    RelinkAllOutside(M.col, m.v, d, c);
  }

  /** Restoring groups of column `c` keeps the link below cell `y` of the column. */
  lemma ReinstKeepsAt(M: Matrix, m: Mat, c: int, hi: int, u: Mat, y: int)
    requires Shape(M, m) && SameRing(M.col, m.v) && 0 <= hi <= |M.col| && u == RestoreCells(M, m, RelColBelow(M, m, c, hi))
    requires 0 <= y < |M.col| && M.col[y] == c
    ensures u.v.next[y] == m.v.next[y]
  {
    ReinstKeepsColumn(M, m, c, hi);
  }

  /** reinstateColumn(c) at cell `r`: the next group is the detached part of `r`'s row, as it is now. */
  lemma ReinstStep(M: Matrix, m: Mat, c: int, r: int)
    requires Shape(M, m) && InColumn(M, m, c, r)
    ensures RestoreCells(M, m, RelColBelow(M, m, c, r + 1))
         == RestoreCells(M, RestoreCells(M, m, RelColBelow(M, m, c, r)), DetachedFrom(M, RestoreCells(M, m, RelColBelow(M, m, c, r)), M.row[r], 0))
  {
    var d := RelColBelow(M, m, c, r);
    var e := DetachedFrom(M, m, M.row[r], 0);
    assert RelColBelow(M, m, c, r + 1) == d + e;
    ReinstRowSame(M, m, c, r);
    RestoreCellsAppend(M, m, d, e);
  }

  // ---------------------------------------------------------------------------
  // Every state that the search walks is column-linked for the column it walks

  /** The state after covering a prefix of fresh columns is ready to eliminate the next one. */
  lemma CoverReady(M: Matrix, m: Mat, cs: seq<int>, cols: seq<int>, k: int)
    requires 0 <= k
    requires Valid(M, m, cs) && FreshCols(M, cs, cols) && k < |cols|
    ensures ColsIn(M, cols[..k]) && Cover(M, m, cols[..k]).Some?
    ensures SameRing(M.col, Cover(M, m, cols[..k]).value.v)
    ensures ColumnLinked(M, Cover(M, m, cols[..k]).value, cols[k])
  {
    FreshPrefix(M, cs, cols, k);
    CoverValid(M, m, cs, cols[..k]);
    IdealColumnLinked(M, Cover(M, m, cols[..k]).value, cols[k]);
  }

  /** A column that is still covered keeps the flags of its own cells while earlier columns return. */
  lemma ColumnFlagsKept(M: Matrix, mk: Mat, mK: Mat, cs: seq<int>, pre: seq<int>, post: seq<int>, z: int)
    requires Shape(M, mk) && Shape(M, mK) && post != [] && post[0] !in cs + pre
    requires Pattern(M, cs + pre, mk.detached) && Pattern(M, cs + pre + post, mK.detached)
    requires M.n <= z < |M.col| && M.col[z] == post[0]
    ensures mK.detached[z] ==> mk.detached[z]
  {
    var r := M.row[z];
    HitColExtend(M, cs + pre, post, r);
    if HitCol(M, cs + pre, r) == -1 {
      CellColInRow(M, z);
      HitColFirst(M, post, r);
    }
  }

  /** Covering the columns from position `k` on detaches no cell of column `cols[k]`. */
  lemma ColumnFlagsCover(M: Matrix, m: Mat, cs: seq<int>, cols: seq<int>, k: int)
    requires 0 <= k
    requires Valid(M, m, cs) && FreshCols(M, cs, cols) && k < |cols|
    ensures ColsIn(M, cols) && Cover(M, m, cols).Some? && ColsIn(M, cols[..k]) && Cover(M, m, cols[..k]).Some?
    ensures forall z :: M.n <= z < |M.col| && M.col[z] == cols[k] ==>
              (Cover(M, m, cols).value.detached[z] ==> Cover(M, m, cols[..k]).value.detached[z])
  {
    var pre, post := cols[..k], cols[k..];
    assert cs + pre + post == cs + cols by {
      assert pre + post == cols;
    }
    assert post[0] == cols[k];
    FreshPrefix(M, cs, cols, k);
    CoverPattern(M, m, cs, pre);
    CoverPattern(M, m, cs, cols);
    var mk := Cover(M, m, pre).value;
    var mK := Cover(M, m, cols).value;
    forall z | M.n <= z < |M.col| && M.col[z] == cols[k] ensures mK.detached[z] ==> mk.detached[z] {
      ColumnFlagsKept(M, mk, mK, cs, pre, post, z);
    }
  }

  lemma UncoverSameRing(M: Matrix, m: Mat, cs: seq<int>, cols: seq<int>, k: int)
    requires 0 <= k
    requires Valid(M, m, cs) && FreshCols(M, cs, cols) && k < |cols|
    ensures ColsIn(M, cols) && Cover(M, m, cols).Some? && ColsIn(M, cols[..k])
    ensures SameRing(M.col, Uncover(M, Cover(M, m, cols).value, cols[..k]).v)
  {
    FreshTake(M, cs, cols, k);
    CoverValid(M, m, cs, cols);
    var mK := Cover(M, m, cols).value;
    UncoverCells(M, mK, cols[..k]);
    var d := RelAll(M, mK, cols[..k]);
    assert OutsideRing(M.col, d, -1) by {
      forall i | 0 <= i < |d| ensures 0 <= d[i] < |M.col| && M.col[d[i]] != -1 { }
    }
    RelinkAllOutside(M.col, mK.v, d, -1);
  }

  /** While uncovering, the cells of the next column to reinstate have the flags they had at the start. */
  lemma UncoverColumnFlags(M: Matrix, m: Mat, cs: seq<int>, cols: seq<int>, k: int)
    requires 0 <= k
    requires Valid(M, m, cs) && FreshCols(M, cs, cols) && k < |cols|
    ensures ColsIn(M, cols) && Cover(M, m, cols).Some? && ColsIn(M, cols[..k])
    ensures forall z :: 0 <= z < |M.col| && M.col[z] == cols[k] ==>
              Uncover(M, Cover(M, m, cols).value, cols[..k]).detached[z] == m.detached[z]
  {
    UncoverPhaseFlags(M, m, cs, cols, k);
    ColumnFlagsCover(M, m, cs, cols, k);
    CoverFlags(M, m, cs, cols);
  }

  /** The cells still to be relinked after reinstating `cols[..k]` lie outside column `cols[k]`. */
  lemma PendingOutside(M: Matrix, m: Mat, cs: seq<int>, cols: seq<int>, k: int)
    requires 0 <= k
    requires Valid(M, m, cs) && FreshCols(M, cs, cols) && k < |cols|
    ensures ColsIn(M, cols) && Cover(M, m, cols).Some? && ColsIn(M, cols[..k]) && Cover(M, m, cols[..k]).Some?
    ensures |DelAll(M, m, cols[..k])| <= |DelAll(M, m, cols)|
    ensures forall i :: |DelAll(M, m, cols[..k])| <= i < |DelAll(M, m, cols)| ==>
              !m.detached[DelAll(M, m, cols)[i]] && M.col[DelAll(M, m, cols)[i]] != cols[k]
  {
    ColumnFlagsCover(M, m, cs, cols, k);
    DelAllPrefix(M, m, cols, k);
    CoverUnlinkable(M, m, cs, cols);
    CoverFlags(M, m, cs, cols);
    FreshTake(M, cs, cols, k);
    CoverFlags(M, m, cs, cols[..k]);
    var dd := DelAll(M, m, cols);
    var a := DelAll(M, m, cols[..k]);
    PrefixSlice(a, dd);
    var j := |a|;
    forall i | j <= i < |dd| ensures !m.detached[dd[i]] && M.col[dd[i]] != cols[k] {
      assert dd[i] !in dd[..j];
    }
  }

  /** The uncover states, written as a prefix of the relinking of the cells covering unlinked. */
  lemma UncoverLinksAt(M: Matrix, m: Mat, cs: seq<int>, cols: seq<int>, k: int)
    requires 0 <= k
    requires Valid(M, m, cs) && FreshCols(M, cs, cols) && k < |cols|
    ensures ColsIn(M, cols) && Cover(M, m, cols).Some? && ColsIn(M, cols[..k]) && Cover(M, m, cols[..k]).Some?
    ensures |DelAll(M, m, cols[..k])| <= |DelAll(M, m, cols)| && AllIn(DelAll(M, m, cols), |M.col|)
    ensures Unlinkable(M.col, Present(M, m), DelAll(M, m, cols))
    ensures Uncover(M, Cover(M, m, cols).value, cols[..k]).v
         == RelinkAll(UnlinkAll(m.v, DelAll(M, m, cols)), DelAll(M, m, cols)[..|DelAll(M, m, cols[..k])|])
  {
    CoverCells(M, m, cs, cols);
    DelAllPrefix(M, m, cols, k);
    PrefixSlice(DelAll(M, m, cols[..k]), DelAll(M, m, cols));
    RelAllIsDelAll(M, m, cs, cols, k);
    UncoverCells(M, Cover(M, m, cols).value, cols[..k]);
    CoverUnlinkable(M, m, cs, cols);
  }

  /** While uncovering, the present cells of the next column to reinstate link as they did at the start. */
  lemma UncoverColumnLinks(M: Matrix, m: Mat, cs: seq<int>, cols: seq<int>, k: int)
    requires 0 <= k
    requires Valid(M, m, cs) && FreshCols(M, cs, cols) && k < |cols|
    ensures ColsIn(M, cols) && Cover(M, m, cols).Some? && ColsIn(M, cols[..k])
    ensures forall y :: 0 <= y < |M.col| && M.col[y] == cols[k] && !m.detached[y] ==>
              Uncover(M, Cover(M, m, cols).value, cols[..k]).v.next[y] == m.v.next[y]
  {
    UncoverLinksAt(M, m, cs, cols, k);
    PendingOutside(M, m, cs, cols, k);
    ColRooted(M);
    assert Relinkable(M.col, Present(M, m), m.v, DelAll(M, m, cols));
    PendingKept(M, m, DelAll(M, m, cols), |DelAll(M, m, cols[..k])|, cols[k], Uncover(M, Cover(M, m, cols).value, cols[..k]).v);
  }

  /** Relinking a prefix of the unlinked cells restores the links of the present cells of a column none of the rest belong to. */
  lemma PendingKept(M: Matrix, m: Mat, dd: seq<int>, j: int, ck: int, w: Links)
    requires Shape(M, m) && Relinkable(M.col, Present(M, m), m.v, dd) && 0 <= j <= |dd|
    requires w == RelinkAll(UnlinkAll(m.v, dd), dd[..j])
    requires forall i :: j <= i < |dd| ==> M.col[dd[i]] != ck
    ensures forall y :: 0 <= y < |M.col| && M.col[y] == ck && !m.detached[y] ==> w.next[y] == m.v.next[y]
  {
    RelinkKeepsRing(M.col, Present(M, m), m.v, dd, j, ck);
    PresentKept(M, m, ck, w);
  }

  lemma PresentKept(M: Matrix, m: Mat, ck: int, w: Links)
    requires Shape(M, m) && |w.next| == |M.col|
    requires forall y :: 0 <= y < |M.col| && y in Present(M, m) && M.col[y] == ck ==> w.next[y] == m.v.next[y]
    ensures forall y :: 0 <= y < |M.col| && M.col[y] == ck && !m.detached[y] ==> w.next[y] == m.v.next[y]
  {
    forall y | 0 <= y < |M.col| && M.col[y] == ck && !m.detached[y]
      ensures w.next[y] == m.v.next[y]
    {
      assert y in Present(M, m);
    }
  }

  /** The state after reinstating a prefix of the covered columns is ready to reinstate the next one. */
  lemma UncoverReady(M: Matrix, m: Mat, cs: seq<int>, cols: seq<int>, k: int)
    requires 0 <= k
    requires Valid(M, m, cs) && FreshCols(M, cs, cols) && k < |cols|
    ensures ColsIn(M, cols) && Cover(M, m, cols).Some? && ColsIn(M, cols[..k])
    ensures SameRing(M.col, Uncover(M, Cover(M, m, cols).value, cols[..k]).v)
    ensures ColumnLinked(M, Uncover(M, Cover(M, m, cols).value, cols[..k]), cols[k])
  {
    UncoverSameRing(M, m, cs, cols, k);
    UncoverColumnFlags(M, m, cs, cols, k);
    UncoverColumnLinks(M, m, cs, cols, k);
    FreshPrefix(M, cs, cols, k);
    IdealColumnLinked(M, m, cols[k]);
    ColumnLinkedTransfer(M, m, Uncover(M, Cover(M, m, cols).value, cols[..k]), cols[k]);
  }

  // ---------------------------------------------------------------------------
  // The search's walk over the rows of the selected column

  lemma {:induction false} LeavesSkip(M: Matrix, ch: seq<int>, c: int, lo: int, hi: int)
    requires 0 <= lo && 0 <= hi
    requires Branching(M, ch, c) && lo <= hi
    requires forall w :: lo <= w < hi ==> !IsCandidate(M, CoverSeq(M, ch), c, w)
    ensures LeavesUpTo(M, ch, c, hi) == LeavesUpTo(M, ch, c, lo)
    decreases hi
  {
    if hi > lo {
      LeavesSkip(M, ch, c, lo, hi - 1);
    }
  }

  /** The leaves found below a prefix of the column are a prefix of those found below a longer one. */
  lemma {:induction false} LeavesPrefix(M: Matrix, ch: seq<int>, c: int, lo: int, hi: int)
    requires 0 <= lo && 0 <= hi
    requires Branching(M, ch, c) && lo <= hi
    ensures LeavesUpTo(M, ch, c, lo) <= LeavesUpTo(M, ch, c, hi)
    decreases hi
  {
    if hi > lo {
      LeavesPrefix(M, ch, c, lo, hi - 1);
      LeavesGrow(M, ch, c, lo, hi);
    }
  }

  lemma LeavesGrow(M: Matrix, ch: seq<int>, c: int, lo: int, hi: int)
    requires 0 <= lo < hi && Branching(M, ch, c)
    requires LeavesUpTo(M, ch, c, lo) <= LeavesUpTo(M, ch, c, hi - 1)
    ensures LeavesUpTo(M, ch, c, lo) <= LeavesUpTo(M, ch, c, hi)
  {
    var a, b, t := LeavesUpTo(M, ch, c, lo), LeavesUpTo(M, ch, c, hi - 1), LeavesUpTo(M, ch, c, hi);
    assert b <= t;
    PrefixTrans(a, b, t);
  }

  /** Following `right` from header `x` reaches the header of the next active column, or the column list. */
  lemma HeaderNext(M: Matrix, cs: seq<int>, h: Links, x: int)
    requires Ideal(HRoot(M.n), HPresent(M, cs), h) && x in HPresent(M, cs)
    ensures 0 <= x <= M.n
    ensures || (h.next[x] == 0 && forall w :: x <= w < M.n ==> !Active(M, cs, w))
            || (x < h.next[x] <= M.n && Active(M, cs, h.next[x] - 1)
                && forall w :: x <= w < h.next[x] - 1 ==> !Active(M, cs, w))
  {
    var p := HPresent(M, cs);
    var z := h.next[x];
    assert IsNext(HRoot(M.n), p, x, z);
    assert forall w :: Active(M, cs, w) ==> w + 1 in p && InRing(HRoot(M.n), p, x, w + 1);
  }

  /** isColumnListEmpty: the column list is its own successor exactly when no column is active. */
  lemma ColumnListEmpty(M: Matrix, m: Mat, cs: seq<int>)
    requires Valid(M, m, cs)
    ensures m.h.next[0] == 0 <==> NumActive(M, cs, M.n) == 0
  {
    assert 0 in HPresent(M, cs);
    HeaderNext(M, cs, m.h, 0);
    SelectSpec(M, cs, M.n);
  }

  lemma {:induction false} SelectSkip(M: Matrix, cs: seq<int>, lo: int, hi: int)
    requires 0 <= lo && 0 <= hi
    requires WellFormed(M) && lo <= hi && forall w :: lo <= w < hi ==> !Active(M, cs, w)
    ensures SelectUpTo(M, cs, hi) == SelectUpTo(M, cs, lo)
    decreases hi
  {
    if hi > lo {
      SelectSkip(M, cs, lo, hi - 1);
    }
  }

  /** Branching on a candidate cell covers columns that are active and pairwise distinct. */
  lemma CandidateFresh(M: Matrix, cs: seq<int>, c: int, y: int)
    requires WellFormed(M) && IsCandidate(M, cs, c, y)
    ensures FreshCols(M, cs, RowCols(M, M.row[y]))
  {
    var cols := RowCols(M, M.row[y]);
    forall i | 0 <= i < |cols| ensures Active(M, cs, cols[i]) {
      assert cols[i] in cols;
    }
    forall i, j | 0 <= i < j < |cols| ensures cols[i] != cols[j] {
      assert cols[i] < cols[j];
    }
  }

  /** Under the search invariant, the candidate cells of an active column are the cells in its ring. */
  lemma CandidatesInColumn(M: Matrix, m: Mat, cs: seq<int>, c: int)
    requires Valid(M, m, cs) && Active(M, cs, c)
    ensures forall w :: IsCandidate(M, cs, c, w) ==> InColumn(M, m, c, w)
  {
    forall w | IsCandidate(M, cs, c, w) ensures InColumn(M, m, c, w) {
      InColumnIsCandidate(M, m, cs, c, w);
    }
  }

  /** search's first step down the selected column: no branch lies before the cell it reaches. */
  lemma LeavesStart(M: Matrix, m: Mat, ch: seq<int>, c: int, z: int, hi: int)
    requires 0 <= hi
    requires WellFormed(M) && Chosen(M, ch) && Shape(M, m) && Active(M, CoverSeq(M, ch), c)
    requires forall w :: IsCandidate(M, CoverSeq(M, ch), c, w) ==> InColumn(M, m, c, w)
    requires NextInColumn(M, m, c, c, z) && hi == if z == c then |M.col| else z
    ensures hi <= |M.col| && LeavesUpTo(M, ch, c, hi) == []
  {
    LeavesSkip(M, ch, c, 0, hi);
  }

  /** search's step from cell `r` to the cell `z` after it: no branch lies between them. */
  lemma LeavesNext(M: Matrix, m: Mat, ch: seq<int>, c: int, r: int, z: int, hi: int)
    requires 0 <= hi
    requires WellFormed(M) && Chosen(M, ch) && Shape(M, m) && Active(M, CoverSeq(M, ch), c)
    requires forall w :: IsCandidate(M, CoverSeq(M, ch), c, w) ==> InColumn(M, m, c, w)
    requires InColumn(M, m, c, r) && NextInColumn(M, m, c, r, z) && hi == if z == c then |M.col| else z
    ensures r < hi <= |M.col| && LeavesUpTo(M, ch, c, hi) == LeavesUpTo(M, ch, c, r + 1)
  {
    LeavesSkip(M, ch, c, r + 1, hi);
  }
}

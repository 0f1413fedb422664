/**
 * One iteration of each loop of eliminateRow and reinstateRow, stated on values, so that the
 * methods of the DLX class only have to match their field updates against `DeleteCell` and
 * `RestoreCell`.
 */
module DlxSteps {
  import opened Options
  import opened Rings
  import opened ExactCover
  import opened DlxState
  import opened DlxWalk

  /** Cell `k` of row `r` is a data cell with a column, and no later cell of the row is the same. */
  lemma RowCell(M: Matrix, r: int, k: int)
    requires WellFormed(M) && 0 <= r < |M.cells| && 0 <= k < |M.cells[r]|
    ensures M.n <= M.cells[r][k] < |M.col| && 0 <= M.col[M.cells[r][k]] < M.n
    ensures forall j :: k < j < |M.cells[r]| ==> M.cells[r][j] != M.cells[r][k]
  {
  }

  /**
   * The loop invariant of eliminateRow after `k` cells: the cells not yet processed keep their
   * flags, and finishing the row from `s` gives what deleting the live cells from `m0` gives.
   */
  ghost predicate RowDeleting(M: Matrix, m0: Mat, s: Mat, r: int, skip: int, k: nat)
  {
    && Shape(M, m0) && Shape(M, s) && 0 <= r < |M.cells| && k <= |M.cells[r]|
    && (forall j :: k <= j < |M.cells[r]| ==> s.detached[M.cells[r][j]] == m0.detached[M.cells[r][j]])
    && DeleteCells(M, m0, LiveFrom(M, m0, r, skip, 0)) == DeleteCells(M, s, LiveFrom(M, m0, r, skip, k))
  }

  /** The loop invariant of reinstateRow after `k` cells. */
  ghost predicate RowRestoring(M: Matrix, m0: Mat, s: Mat, r: int, k: nat)
  {
    && Shape(M, m0) && Shape(M, s) && 0 <= r < |M.cells| && k <= |M.cells[r]|
    && (forall j :: k <= j < |M.cells[r]| ==> s.detached[M.cells[r][j]] == m0.detached[M.cells[r][j]])
    && RestoreCells(M, m0, DetachedFrom(M, m0, r, 0)) == RestoreCells(M, s, DetachedFrom(M, m0, r, k))
  }

  /** Iteration `k` of eliminateRow on a live cell outside `skip`: it is deleted, or the row throws. */
  lemma DeleteLoopLive(M: Matrix, m0: Mat, s: Mat, r: int, skip: int, k: int)
    requires 0 <= k
    requires RowDeleting(M, m0, s, r, skip, k) && k < |M.cells[r]|
    requires M.col[M.cells[r][k]] != skip && !s.detached[M.cells[r][k]]
    ensures DeleteCell(M, s, M.cells[r][k]).None? ==> DeleteCells(M, m0, LiveFrom(M, m0, r, skip, 0)).None?
    ensures DeleteCell(M, s, M.cells[r][k]).Some? ==> RowDeleting(M, m0, DeleteCell(M, s, M.cells[r][k]).value, r, skip, k + 1)
  {
    var z := M.cells[r][k];
    RowCell(M, r, k);
    var rest := LiveFrom(M, m0, r, skip, k + 1);
    assert m0.detached[z] == s.detached[z];
    assert LiveFrom(M, m0, r, skip, k) == [z] + rest;
    assert ([z] + rest)[1..] == rest;
    if DeleteCell(M, s, z).Some? {
      var s1 := DeleteCell(M, s, z).value;
      assert s1.detached == s.detached[z := true];
      forall j | k + 1 <= j < |M.cells[r]|
        ensures s1.detached[M.cells[r][j]] == m0.detached[M.cells[r][j]]
      {
        assert M.cells[r][j] != z;
      }
    }
  }

  /** Iteration `k` of eliminateRow on a cell it skips. */
  lemma DeleteLoopSkip(M: Matrix, m0: Mat, s: Mat, r: int, skip: int, k: int)
    requires 0 <= k
    requires RowDeleting(M, m0, s, r, skip, k) && k < |M.cells[r]|
    requires M.col[M.cells[r][k]] == skip || s.detached[M.cells[r][k]]
    ensures RowDeleting(M, m0, s, r, skip, k + 1)
  {
    var z := M.cells[r][k];
    assert m0.detached[z] == s.detached[z];
    var rest := LiveFrom(M, m0, r, skip, k + 1);
    assert LiveFrom(M, m0, r, skip, k) == [] + rest;
    assert [] + rest == rest;
    forall j | k + 1 <= j < |M.cells[r]|
      ensures s.detached[M.cells[r][j]] == m0.detached[M.cells[r][j]]
    {
    }
  }

  /** One iteration of eliminateRow keeps its invariant, or meets the throw. */
  lemma DeleteLoopStep(M: Matrix, m0: Mat, s: Mat, r: int, skip: int, k: int)
    requires 0 <= k
    requires RowDeleting(M, m0, s, r, skip, k) && k < |M.cells[r]|
    ensures var z := M.cells[r][k];
      M.n <= z < |M.col| && 0 <= M.col[z] < M.n
      && if M.col[z] != skip && !s.detached[z] then
           if DeleteCell(M, s, z).None? then DeleteCells(M, m0, LiveFrom(M, m0, r, skip, 0)).None?
           else RowDeleting(M, m0, DeleteCell(M, s, z).value, r, skip, k + 1)
         else RowDeleting(M, m0, s, r, skip, k + 1)
  {
    var z := M.cells[r][k];
    RowCell(M, r, k);
    if M.col[z] != skip && !s.detached[z] {
      DeleteLoopLive(M, m0, s, r, skip, k);
    } else {
      DeleteLoopSkip(M, m0, s, r, skip, k);
    }
  }

  lemma DeleteLoopEnd(M: Matrix, m0: Mat, s: Mat, r: int, skip: int)
    requires 0 <= r < |M.cells| && RowDeleting(M, m0, s, r, skip, |M.cells[r]|)
    ensures DeleteCells(M, m0, LiveFrom(M, m0, r, skip, 0)) == Some(s)
  {
  }

  /** Iteration `k` of reinstateRow on a detached cell: it is restored. */
  lemma RestoreLoopDetached(M: Matrix, m0: Mat, s: Mat, r: int, k: int)
    requires 0 <= k
    requires RowRestoring(M, m0, s, r, k) && k < |M.cells[r]| && s.detached[M.cells[r][k]]
    ensures RowRestoring(M, m0, RestoreCell(M, s, M.cells[r][k]), r, k + 1)
  {
    var z := M.cells[r][k];
    RowCell(M, r, k);
    var rest := DetachedFrom(M, m0, r, k + 1);
    assert m0.detached[z] == s.detached[z];
    assert DetachedFrom(M, m0, r, k) == [z] + rest;
    assert ([z] + rest)[1..] == rest;
    var s1 := RestoreCell(M, s, z);
    assert s1.detached == s.detached[z := false];
    forall j | k + 1 <= j < |M.cells[r]|
      ensures s1.detached[M.cells[r][j]] == m0.detached[M.cells[r][j]]
    {
      assert M.cells[r][j] != z;
    }
  }

  /** Iteration `k` of reinstateRow on a cell that is not detached. */
  lemma RestoreLoopKept(M: Matrix, m0: Mat, s: Mat, r: int, k: int)
    requires 0 <= k
    requires RowRestoring(M, m0, s, r, k) && k < |M.cells[r]| && !s.detached[M.cells[r][k]]
    ensures RowRestoring(M, m0, s, r, k + 1)
  {
    var z := M.cells[r][k];
    assert m0.detached[z] == s.detached[z];
    var rest := DetachedFrom(M, m0, r, k + 1);
    assert DetachedFrom(M, m0, r, k) == [] + rest;
    assert [] + rest == rest;
    forall j | k + 1 <= j < |M.cells[r]|
      ensures s.detached[M.cells[r][j]] == m0.detached[M.cells[r][j]]
    {
    }
  }

  lemma RestoreLoopEnd(M: Matrix, m0: Mat, s: Mat, r: int)
    requires 0 <= r < |M.cells| && RowRestoring(M, m0, s, r, |M.cells[r]|)
    ensures RestoreCells(M, m0, DetachedFrom(M, m0, r, 0)) == s
  {
  }

  /** One iteration of the loop of eliminateRow: a live cell outside column `skip` is deleted. */
  ghost function RowStep(M: Matrix, s: Mat, z: int, skip: int): (r: Option<Mat>)
    requires Shape(M, s) && M.n <= z < |M.col|
    ensures r.Some? ==> Shape(M, r.value)
  {
    if M.col[z] != skip && !s.detached[z] then DeleteCell(M, s, z) else Some(s)
  }

  /**
   * The state after the first `k` iterations of the loop of eliminateRow on row `r` from `m0`:
   * None once an iteration threw, and None for arguments that name no row or position.
   */
  ghost function RowRun(M: Matrix, m0: Mat, r: int, skip: int, k: nat): (res: Option<Mat>)
    ensures res.Some? ==> Shape(M, m0) && 0 <= r < |M.cells| && k <= |M.cells[r]| && Shape(M, res.value)
  {
    if !(Shape(M, m0) && 0 <= r < |M.cells| && k <= |M.cells[r]|) then None
    else if k == 0 then Some(m0)
    else
      match RowRun(M, m0, r, skip, k - 1)
      case None => None
      case Some(s) => RowStep(M, s, M.cells[r][k - 1], skip)
  }

  lemma RowRunStart(M: Matrix, m0: Mat, r: int, skip: int)
    ensures Shape(M, m0) && 0 <= r < |M.cells| ==> RowRun(M, m0, r, skip, 0) == Some(m0)
  {
  }

  /** Every prefix of the loop of eliminateRow is on the way to deleting the row's live cells. */
  lemma {:induction false} RowRunDeletes(M: Matrix, m0: Mat, r: int, skip: int, k: int)
    requires 0 <= k
    requires Shape(M, m0) && 0 <= r < |M.cells| && k <= |M.cells[r]|
    ensures match RowRun(M, m0, r, skip, k)
      case Some(s) => RowDeleting(M, m0, s, r, skip, k)
      case None => DeleteCells(M, m0, LiveFrom(M, m0, r, skip, 0)).None?
  {
    if k > 0 {
      RowRunDeletes(M, m0, r, skip, k - 1);
      match RowRun(M, m0, r, skip, k - 1)
      case None =>
      case Some(s) => DeleteLoopStep(M, m0, s, r, skip, k - 1);
    }
  }

  /** The whole loop of eliminateRow deletes the live cells of the row outside `skip`, in order. */
  lemma RowRunEnd(M: Matrix, m0: Mat, r: int, skip: int, k: int, s: Mat)
    requires 0 <= k
    requires RowRun(M, m0, r, skip, k) == Some(s) && k == |M.cells[r]|
    ensures DeleteCells(M, m0, LiveFrom(M, m0, r, skip, 0)) == Some(s)
  {
    RowRunDeletes(M, m0, r, skip, k);
    DeleteLoopEnd(M, m0, s, r, skip);
  }

  /** A throw in iteration `k` of eliminateRow is a throw of the whole row. */
  lemma RowRunFails(M: Matrix, m0: Mat, r: int, skip: int, k: int, s: Mat)
    requires 0 <= k
    requires RowRun(M, m0, r, skip, k) == Some(s) && k < |M.cells[r]| && RowRun(M, m0, r, skip, k + 1).None?
    ensures DeleteCells(M, m0, LiveFrom(M, m0, r, skip, 0)).None?
  {
    RowRunDeletes(M, m0, r, skip, k + 1);
  }

  /** Iteration `k` of eliminateRow. */
  lemma RowRunStep(M: Matrix, m0: Mat, r: int, skip: int, k: int, s: Mat)
    requires 0 <= k
    requires RowRun(M, m0, r, skip, k) == Some(s) && k < |M.cells[r]|
    ensures Shape(M, s) && M.n <= M.cells[r][k] < |M.col| && 0 <= M.col[M.cells[r][k]] < M.n
    ensures RowRun(M, m0, r, skip, k + 1) == RowStep(M, s, M.cells[r][k], skip)
  {
    RowCell(M, r, k);
  }

  /** One iteration of the loop of reinstateRow: a detached cell is restored. */
  ghost function RestoreStep(M: Matrix, s: Mat, z: int): (r: Mat)
    requires Shape(M, s) && M.n <= z < |M.col|
    ensures Shape(M, r)
  {
    if s.detached[z] then RestoreCell(M, s, z) else s
  }

  /**
   * The state after the first `k` iterations of the loop of reinstateRow on row `r` from `m0`;
   * None for arguments that name no row or position.
   */
  ghost function RestoreRun(M: Matrix, m0: Mat, r: int, k: nat): (res: Option<Mat>)
    ensures res.Some? <==> Shape(M, m0) && 0 <= r < |M.cells| && k <= |M.cells[r]|
    ensures res.Some? ==> Shape(M, res.value)
  {
    if !(Shape(M, m0) && 0 <= r < |M.cells| && k <= |M.cells[r]|) then None
    else if k == 0 then Some(m0)
    else Some(RestoreStep(M, RestoreRun(M, m0, r, k - 1).value, M.cells[r][k - 1]))
  }

  lemma RestoreRunStart(M: Matrix, m0: Mat, r: int)
    ensures Shape(M, m0) && 0 <= r < |M.cells| ==> RestoreRun(M, m0, r, 0) == Some(m0)
  {
  }

  lemma {:induction false} RestoreRunRestores(M: Matrix, m0: Mat, r: int, k: int)
    requires 0 <= k
    requires Shape(M, m0) && 0 <= r < |M.cells| && k <= |M.cells[r]|
    ensures RowRestoring(M, m0, RestoreRun(M, m0, r, k).value, r, k)
  {
    if k > 0 {
      RestoreRunRestores(M, m0, r, k - 1);
      var s := RestoreRun(M, m0, r, k - 1).value;
      RowCell(M, r, k - 1);
      if s.detached[M.cells[r][k - 1]] {
        RestoreLoopDetached(M, m0, s, r, k - 1);
      } else {
        RestoreLoopKept(M, m0, s, r, k - 1);
      }
    }
  }

  /** The whole loop of reinstateRow restores the row's detached cells, in order. */
  lemma RestoreRunEnd(M: Matrix, m0: Mat, r: int, k: int, s: Mat)
    requires 0 <= k
    requires RestoreRun(M, m0, r, k) == Some(s) && k == |M.cells[r]|
    ensures RestoreCells(M, m0, DetachedFrom(M, m0, r, 0)) == s
  {
    RestoreRunRestores(M, m0, r, k);
    RestoreLoopEnd(M, m0, s, r);
  }

  /** Iteration `k` of reinstateRow. */
  lemma RestoreRunStep(M: Matrix, m0: Mat, r: int, k: int, s: Mat)
    requires 0 <= k
    requires RestoreRun(M, m0, r, k) == Some(s) && k < |M.cells[r]|
    ensures Shape(M, s) && M.n <= M.cells[r][k] < |M.col| && 0 <= M.col[M.cells[r][k]] < M.n
    ensures RestoreRun(M, m0, r, k + 1) == Some(RestoreStep(M, s, M.cells[r][k]))
  {
    RowCell(M, r, k);
  }

  /** The bound up to which a column walk standing at `r` has processed the column's cells. */
  function WalkBound(M: Matrix, c: int, r: int): int
  {
    if r == c then |M.col| else r
  }

  /** What is left of a column walk standing at `r`: nothing once it is back at the root. */
  function WalkLeft(M: Matrix, c: int, r: int): int
  {
    if r == c then 0 else |M.col| + 1 - r
  }

  /**
   * The loop invariant of eliminateColumn(c) standing at cell `r`: the rows of the column's cells
   * above `r` have been eliminated from `m0`, giving `s`.
   */
  ghost predicate ColumnDeleting(M: Matrix, m0: Mat, s: Mat, c: int, r: int)
  {
    && Shape(M, m0) && SameRing(M.col, m0.v) && ColumnLinked(M, m0, c)
    && (r == c || InColumn(M, m0, c, r))
    && 0 <= WalkBound(M, c, r) <= |M.col|
    && DeleteCells(M, m0, DelColBelow(M, m0, c, WalkBound(M, c, r))) == Some(s)
  }

  /** The loop invariant of reinstateColumn(c) standing at cell `r`. */
  ghost predicate ColumnRestoring(M: Matrix, m0: Mat, s: Mat, c: int, r: int)
  {
    && Shape(M, m0) && SameRing(M.col, m0.v) && ColumnLinked(M, m0, c)
    && (r == c || InColumn(M, m0, c, r))
    && 0 <= WalkBound(M, c, r) <= |M.col|
    && RestoreCells(M, m0, RelColBelow(M, m0, c, WalkBound(M, c, r))) == s
  }

  lemma ColumnDeleteStart(M: Matrix, m0: Mat, c: int)
    requires Shape(M, m0) && SameRing(M.col, m0.v) && ColumnLinked(M, m0, c)
    ensures 0 <= m0.v.next[c] < |M.col| && ColumnDeleting(M, m0, m0, c, m0.v.next[c])
  {
    var z := m0.v.next[c];
    WalkStart(M, m0, c, z, WalkBound(M, c, z));
  }

  lemma ColumnRestoreStart(M: Matrix, m0: Mat, c: int)
    requires Shape(M, m0) && SameRing(M.col, m0.v) && ColumnLinked(M, m0, c)
    ensures 0 <= m0.v.next[c] < |M.col| && ColumnRestoring(M, m0, m0, c, m0.v.next[c])
  {
    var z := m0.v.next[c];
    WalkStart(M, m0, c, z, WalkBound(M, c, z));
  }

  /** Away from the root, the walk of eliminateColumn(c) stands at a present cell of the column. */
  lemma ColumnDeleteCell(M: Matrix, m0: Mat, s: Mat, c: int, r: int)
    requires ColumnDeleting(M, m0, s, c, r) && r != c
    ensures Shape(M, s) && InColumn(M, m0, c, r) && 0 <= M.row[r] < |M.cells|
    ensures DeleteCells(M, m0, DelColBelow(M, m0, c, r)) == Some(s)
  {
  }

  /** Eliminating the row of cell `r` meets the throw only where the whole column does. */
  lemma ColumnDeleteFails(M: Matrix, m0: Mat, s: Mat, c: int, r: int)
    requires Shape(M, m0) && InColumn(M, m0, c, r) && DeleteCells(M, m0, DelColBelow(M, m0, c, r)) == Some(s)
    requires 0 <= c < M.n && DeleteCells(M, s, LiveFrom(M, s, M.row[r], c, 0)).None?
    ensures ElimCol(M, m0, c).None?
  {
    ColumnDeleteAdvanceFails(M, m0, s, c, r);
    ElimColFails(M, m0, c, r);
  }

  /** The groups deleted so far, grown by the row of `r`, throw once the row does. */
  lemma ColumnDeleteAdvanceFails(M: Matrix, m0: Mat, s: Mat, c: int, r: int)
    requires Shape(M, m0) && InColumn(M, m0, c, r) && DeleteCells(M, m0, DelColBelow(M, m0, c, r)) == Some(s)
    requires DeleteCells(M, s, LiveFrom(M, s, M.row[r], c, 0)).None?
    ensures DeleteCells(M, m0, DelColBelow(M, m0, c, r + 1)).None?
  {
    ElimStep(M, m0, c, r);
    ElimRowSame(M, m0, c, r);
  }

  /** Eliminating the row of cell `r` moves the walk on to the next cell of the column. */
  lemma ColumnDeleteStep(M: Matrix, m0: Mat, s: Mat, c: int, r: int, s': Mat)
    requires Shape(M, m0) && SameRing(M.col, m0.v) && ColumnLinked(M, m0, c) && InColumn(M, m0, c, r)
    requires DeleteCells(M, m0, DelColBelow(M, m0, c, r)) == Some(s)
    requires DeleteCells(M, s, LiveFrom(M, s, M.row[r], c, 0)) == Some(s')
    ensures 0 <= s'.v.next[r] < |M.col| && ColumnDeleting(M, m0, s', c, s'.v.next[r])
    ensures WalkLeft(M, c, s'.v.next[r]) < WalkLeft(M, c, r)
  {
    ColumnDeleteAdvance(M, m0, s, c, r, s');
    ColumnDeleteTail(M, m0, c, r, s');
  }

  /** Once the row of `r` is eliminated, the walk goes on from the cell after `r` in the column. */
  lemma ColumnDeleteTail(M: Matrix, m0: Mat, c: int, r: int, s': Mat)
    requires Shape(M, m0) && SameRing(M.col, m0.v) && ColumnLinked(M, m0, c) && InColumn(M, m0, c, r)
    requires DeleteCells(M, m0, DelColBelow(M, m0, c, r + 1)) == Some(s')
    ensures 0 <= s'.v.next[r] < |M.col| && ColumnDeleting(M, m0, s', c, s'.v.next[r])
    ensures WalkLeft(M, c, s'.v.next[r]) < WalkLeft(M, c, r)
  {
    ElimKeepsAt(M, m0, c, r + 1, s', r);
    ColumnDeleteAt(M, m0, c, r, m0.v.next[r], s');
  }

  /** The groups deleted so far grow by the live part of the row of `r`. */
  lemma ColumnDeleteAdvance(M: Matrix, m0: Mat, s: Mat, c: int, r: int, s': Mat)
    requires Shape(M, m0) && InColumn(M, m0, c, r)
    requires DeleteCells(M, m0, DelColBelow(M, m0, c, r)) == Some(s)
    requires DeleteCells(M, s, LiveFrom(M, s, M.row[r], c, 0)) == Some(s')
    ensures DeleteCells(M, m0, DelColBelow(M, m0, c, r + 1)) == Some(s')
  {
    ElimStep(M, m0, c, r);
    ElimRowSame(M, m0, c, r);
  }

  /** The walk of eliminateColumn moves from `r` to the cell `z` that follows it in the column. */
  lemma ColumnDeleteAt(M: Matrix, m0: Mat, c: int, r: int, z: int, s': Mat)
    requires Shape(M, m0) && SameRing(M.col, m0.v) && ColumnLinked(M, m0, c) && InColumn(M, m0, c, r)
    requires z == m0.v.next[r] && DeleteCells(M, m0, DelColBelow(M, m0, c, r + 1)) == Some(s')
    ensures 0 <= z < |M.col| && ColumnDeleting(M, m0, s', c, z)
    ensures WalkLeft(M, c, z) < WalkLeft(M, c, r)
  {
    assert NextInColumn(M, m0, c, r, z);
    WalkNextDel(M, m0, c, r, z, WalkBound(M, c, z));
  }

  lemma ColumnRestoreCell(M: Matrix, m0: Mat, s: Mat, c: int, r: int)
    requires ColumnRestoring(M, m0, s, c, r) && r != c
    ensures Shape(M, s) && M.n <= r < |M.col| && 0 <= M.row[r] < |M.cells|
  {
  }

  /** Reinstating the row of cell `r` moves the walk on to the next cell of the column. */
  lemma ColumnRestoreStep(M: Matrix, m0: Mat, s: Mat, c: int, r: int, u: Mat)
    requires ColumnRestoring(M, m0, s, c, r) && r != c && Shape(M, s) && 0 <= M.row[r] < |M.cells|
    requires u == RestoreCells(M, s, DetachedFrom(M, s, M.row[r], 0))
    ensures 0 <= u.v.next[r] < |M.col| && ColumnRestoring(M, m0, u, c, u.v.next[r])
    ensures WalkLeft(M, c, u.v.next[r]) < WalkLeft(M, c, r)
  {
    ReinstStep(M, m0, c, r);
    ReinstRowSame(M, m0, c, r);
    assert u == RestoreCells(M, m0, RelColBelow(M, m0, c, r + 1));
    ColumnRestoreNext(M, m0, c, r, u);
  }

  lemma ColumnRestoreNext(M: Matrix, m0: Mat, c: int, r: int, u: Mat)
    requires Shape(M, m0) && SameRing(M.col, m0.v) && ColumnLinked(M, m0, c) && InColumn(M, m0, c, r)
    requires u == RestoreCells(M, m0, RelColBelow(M, m0, c, r + 1))
    ensures 0 <= u.v.next[r] < |M.col| && ColumnRestoring(M, m0, u, c, u.v.next[r])
    ensures WalkLeft(M, c, u.v.next[r]) < WalkLeft(M, c, r)
  {
    ReinstKeepsAt(M, m0, c, r + 1, u, r);
    ColumnRestoreAt(M, m0, c, r, m0.v.next[r]);
  }

  lemma ColumnRestoreAt(M: Matrix, m0: Mat, c: int, r: int, z: int)
    requires Shape(M, m0) && SameRing(M.col, m0.v) && ColumnLinked(M, m0, c) && InColumn(M, m0, c, r)
    requires z == m0.v.next[r]
    ensures 0 <= z < |M.col| && ColumnRestoring(M, m0, RestoreCells(M, m0, RelColBelow(M, m0, c, r + 1)), c, z)
    ensures WalkLeft(M, c, z) < WalkLeft(M, c, r)
  {
    assert NextInColumn(M, m0, c, r, z);
    WalkNextRel(M, m0, c, r, z, WalkBound(M, c, z));
  }

  /** One iteration of eliminateColumn: the row of cell `r` is eliminated, or the column throws. */
  lemma ColumnDeleteNext(M: Matrix, m0: Mat, s: Mat, c: int, r: int)
    requires ColumnDeleting(M, m0, s, c, r) && r != c
    ensures Shape(M, s) && M.n <= r < |M.col| && 0 <= M.row[r] < |M.cells|
    ensures match DeleteCells(M, s, LiveFrom(M, s, M.row[r], c, 0))
      case None => ElimCol(M, m0, c).None?
      case Some(s') =>
        && 0 <= s'.v.next[r] < |M.col| && ColumnDeleting(M, m0, s', c, s'.v.next[r])
        && WalkLeft(M, c, s'.v.next[r]) < WalkLeft(M, c, r)
  {
    ColumnDeleteCell(M, m0, s, c, r);
    match DeleteCells(M, s, LiveFrom(M, s, M.row[r], c, 0))
    case None => ColumnDeleteFails(M, m0, s, c, r);
    case Some(s') => ColumnDeleteStep(M, m0, s, c, r, s');
  }

  /** One iteration of reinstateColumn: the row of cell `r` is reinstated. */
  lemma ColumnRestoreNextRow(M: Matrix, m0: Mat, s: Mat, c: int, r: int)
    requires ColumnRestoring(M, m0, s, c, r) && r != c
    ensures Shape(M, s) && M.n <= r < |M.col| && 0 <= M.row[r] < |M.cells|
    ensures var u := RestoreCells(M, s, DetachedFrom(M, s, M.row[r], 0));
      && 0 <= u.v.next[r] < |M.col| && ColumnRestoring(M, m0, u, c, u.v.next[r])
      && WalkLeft(M, c, u.v.next[r]) < WalkLeft(M, c, r)
  {
    ColumnRestoreCell(M, m0, s, c, r);
    ColumnRestoreStep(M, m0, s, c, r, RestoreCells(M, s, DetachedFrom(M, s, M.row[r], 0)));
  }

  /** Back at the root, unlinking the header completes eliminateColumn. */
  lemma ColumnDeleteDone(M: Matrix, m0: Mat, s: Mat, c: int)
    requires ColumnDeleting(M, m0, s, c, c)
    ensures Shape(M, s) && 0 <= c < M.n && ElimCol(M, m0, c) == Some(s.(h := Unlink(s.h, c + 1)))
  {
  }

  /** Back at the root, relinking the header completes reinstateColumn. */
  lemma ColumnRestoreDone(M: Matrix, m0: Mat, s: Mat, c: int)
    requires ColumnRestoring(M, m0, s, c, c)
    ensures Shape(M, s) && 0 <= c < M.n && ReinstCol(M, m0, c) == s.(h := Relink(s.h, c + 1))
  {
  }
}

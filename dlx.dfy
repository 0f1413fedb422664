/**
 * The DLX class: Knuth's Dancing Links over an arena of cells and headers.
 *
 * Object references become indices.  The cells live in one arena: cells 0..n-1 are the roots of
 * the n columns, and the data cells follow in creation order; `up`, `down`, `column`, `row` and
 * `detached` are the fields of class Cell, one entry per cell.  The headers live in a second arena:
 * node 0 is the column list and node c + 1 the header of column c; `left` and `right` are the
 * header fields, and `count[c]` is the count of the header of column c.  `cells[r]` and `info[r]`
 * are the fields of row r.  `partial` and `solutions` are the two arrays search fills: the partial
 * solution it pushes to and pops from, and the list of all solutions (solveAll).
 *
 * Every method is specified against the value-level model: `Mx()` is the fixed matrix and `St()`
 * the snapshot of everything the solver updates in place.
 */
module DancingLinks {
  import opened Options
  import opened Rings
  import opened ExactCover
  import opened DlxState
  import opened DlxProofs
  import opened DlxCover
  import opened DlxUncover
  import opened DlxWalk
  import opened DlxBuild
  import opened DlxSteps
  import opened DlxSearch
  import opened DlxResults

  /** What a method that may throw leaves behind: its new state, or None where the source throws. */
  function Outcome(ok: bool, s: Mat): (o: Option<Mat>)
    ensures o.Some? == ok && (ok ==> o.value == s)
  {
    if ok then Some(s) else None
  }

  class DLX<T> {
    const numColumns: nat
    // the cell arena
    var up: seq<int>
    var down: seq<int>
    const column: seq<int>
    const row: seq<int>
    var detached: seq<bool>
    // the header arena and the column counts
    var left: seq<int>
    var right: seq<int>
    var count: seq<int>
    // the rows
    const cells: seq<seq<int>>
    const info: seq<T>
    // the partial solution and the list of all solutions search is given
    var partial: seq<T>
    var solutions: seq<seq<T>>

    ghost function Mx(): Matrix
    {
      Matrix(numColumns, column, row, cells)
    }

    ghost function St(): Mat
      reads this`down, this`up, this`right, this`left, this`count, this`detached
    {
      Mat(Links(down, up), Links(right, left), count, detached)
    }

    /**
     * The body of eliminateRow's loop for a live cell: unlink it from its column, then decrement
     * the column's count, which throws (`ok` false) when the count is already 0; otherwise mark
     * the cell detached.
     */
    method DetachCell(cell: int) returns (ok: bool)
      requires Shape(Mx(), St()) && numColumns <= cell < |column|
      modifies this`down, this`up, this`count, this`detached
      ensures Outcome(ok, St()) == DeleteCell(Mx(), old(St()), cell)
    {
      var down' := down[up[cell] := down[cell]];
      up, down := up[down'[cell] := up[cell]], down';
      if count[column[cell]] > 0 {
        count := count[column[cell] := count[column[cell]] - 1];
      } else {
        return false;
      }
      detached := detached[cell := true];
      return true;
    }

    /** One iteration of eliminateRow's loop, on the row's `k`th cell. */
    method EliminateRowCell(ghost M: Matrix, ghost m0: Mat, r: int, skip: int, k: nat) returns (ok: bool)
      requires M == Mx() && RowRun(M, m0, r, skip, k) == Some(St()) && k < |cells[r]|
      modifies this`down, this`up, this`count, this`detached
      ensures ok ==> RowRun(M, m0, r, skip, k + 1) == Some(St())
      ensures !ok ==> DeleteCells(M, m0, LiveFrom(M, m0, r, skip, 0)).None?
    {
      var cell := cells[r][k];
      ghost var s := St();
      RowRunStep(M, m0, r, skip, k, s);
      ok := true;
      if column[cell] != skip && !detached[cell] {
        ok := DetachCell(cell);
        if !ok {
          RowRunFails(M, m0, r, skip, k, s);
        }
      }
    }

    /**
     * eliminateRow: detach every cell of the row outside column `skip` that is not detached yet.
     * `ok` is false where the source throws because a count would drop below zero.
     */
    method EliminateRow(r: int, skip: int) returns (ok: bool)
      requires Shape(Mx(), St()) && 0 <= r < |cells|
      modifies this`down, this`up, this`count, this`detached
      ensures Outcome(ok, St()) == DeleteCells(Mx(), old(St()), LiveFrom(Mx(), old(St()), r, skip, 0))
    {
      ghost var M, m0 := Mx(), St();
      RowRunStart(M, m0, r, skip);
      for k := 0 to |cells[r]|
        invariant RowRun(M, m0, r, skip, k) == Some(St())
      {
        ok := EliminateRowCell(M, m0, r, skip, k);
        if !ok {
          return;
        }
      }
      RowRunEnd(M, m0, r, skip, |cells[r]|, St());
      return true;
    }

    /** The body of reinstateRow's loop for a detached cell: relink it, count it, clear its flag. */
    method AttachCell(cell: int)
      requires Shape(Mx(), St()) && numColumns <= cell < |column|
      modifies this`down, this`up, this`count, this`detached
      ensures St() == RestoreCell(Mx(), old(St()), cell)
    {
      var down' := down[up[cell] := cell];
      up, down := up[down'[cell] := cell], down';
      count := count[column[cell] := count[column[cell]] + 1];
      detached := detached[cell := false];
    }

    /** One iteration of reinstateRow's loop, on the row's `k`th cell. */
    method ReinstateRowCell(ghost M: Matrix, ghost m0: Mat, r: int, k: nat)
      requires M == Mx() && RestoreRun(M, m0, r, k) == Some(St()) && k < |cells[r]|
      modifies this`down, this`up, this`count, this`detached
      ensures RestoreRun(M, m0, r, k + 1) == Some(St())
    {
      var cell := cells[r][k];
      RestoreRunStep(M, m0, r, k, St());
      if detached[cell] {
        AttachCell(cell);
      }
    }

    /** reinstateRow: re-attach every detached cell of the row. */
    method ReinstateRow(r: int)
      requires Shape(Mx(), St()) && 0 <= r < |cells|
      modifies this`down, this`up, this`count, this`detached
      ensures St() == RestoreCells(Mx(), old(St()), DetachedFrom(Mx(), old(St()), r, 0))
    {
      ghost var M, m0 := Mx(), St();
      RestoreRunStart(M, m0, r);
      for k := 0 to |cells[r]|
        invariant RestoreRun(M, m0, r, k) == Some(St())
      {
        ReinstateRowCell(M, m0, r, k);
      }
      RestoreRunEnd(M, m0, r, |cells[r]|, St());
    }

    /** `x.left.right = x.right; x.right.left = x.left` on header node `x`. */
    method UnlinkHeader(x: int)
      requires Shape(Mx(), St()) && 0 <= x <= numColumns
      modifies this`right, this`left
      ensures St() == old(St()).(h := Unlink(old(St()).h, x))
    {
      var right' := right[left[x] := right[x]];
      left, right := left[right'[x] := left[x]], right';
    }

    /** `x.left.right = x; x.right.left = x` on header node `x`. */
    method RelinkHeader(x: int)
      requires Shape(Mx(), St()) && 0 <= x <= numColumns
      modifies this`right, this`left
      ensures St() == old(St()).(h := Relink(old(St()).h, x))
    {
      var right' := right[left[x] := x];
      left, right := left[right'[x] := x], right';
    }

    /**
     * eliminateColumn: walk the column's ring downwards and eliminate each row, skipping this
     * column; then take the header out of the header ring.
     */
    method EliminateColumn(c: int) returns (ok: bool)
      requires Shape(Mx(), St()) && SameRing(column, St().v) && ColumnLinked(Mx(), St(), c)
      modifies this`down, this`up, this`count, this`detached, this`right, this`left
      ensures Outcome(ok, St()) == ElimCol(Mx(), old(St()), c)
    {
      ghost var M, m0 := Mx(), St();
      ColumnDeleteStart(M, m0, c);
      var r := down[c];
      while r != c
        invariant ColumnDeleting(M, m0, St(), c, r)
        decreases WalkLeft(M, c, r)
      {
        ColumnDeleteNext(M, m0, St(), c, r);
        ok := EliminateRow(row[r], c);
        if !ok {
          return;
        }
        r := down[r];
      }
      ColumnDeleteDone(M, m0, St(), c);
      UnlinkHeader(c + 1);
      ok := true;
    }

    /**
     * reinstateColumn: walk the column's ring downwards and reinstate each row; then put the
     * header back into the header ring.
     */
    method ReinstateColumn(c: int)
      requires Shape(Mx(), St()) && SameRing(column, St().v) && ColumnLinked(Mx(), St(), c)
      modifies this`down, this`up, this`count, this`detached, this`right, this`left
      ensures St() == ReinstCol(Mx(), old(St()), c)
    {
      ghost var M, m0 := Mx(), St();
      ColumnRestoreStart(M, m0, c);
      var r := down[c];
      while r != c
        invariant ColumnRestoring(M, m0, St(), c, r)
        decreases WalkLeft(M, c, r)
      {
        ColumnRestoreNextRow(M, m0, St(), c, r);
        ReinstateRow(row[r]);
        r := down[r];
      }
      ColumnRestoreDone(M, m0, St(), c);
      RelinkHeader(c + 1);
    }
    /** The fixed part of the solver: a well-formed matrix with one info per row. */
    ghost predicate Prepared()
    {
      WellFormed(Mx()) && |info| == |cells|
    }

    /** isColumnListEmpty: the column list is its own right neighbour exactly when no column is active. */
    method IsColumnListEmpty(ghost cs: seq<int>) returns (empty: bool)
      requires Valid(Mx(), St(), cs)
      ensures empty <==> NumActive(Mx(), cs, numColumns) == 0
    {
      ColumnListEmpty(Mx(), St(), cs);
      empty := right[0] == 0;
    }

    /**
     * selectColumn: scan the header ring keeping the first column of least count, or -1 (the
     * source's null) when the ring holds no column.
     */
    method SelectColumn(ghost cs: seq<int>) returns (c: int)
      requires Valid(Mx(), St(), cs)
      ensures c == SelectUpTo(Mx(), cs, numColumns)
      ensures c == -1 <==> NumActive(Mx(), cs, numColumns) == 0
    {
      ghost var M, m := Mx(), St();
      SelectSpec(M, cs, M.n);
      var empty := IsColumnListEmpty(cs);
      if empty {
        return -1;
      }
      SelectStart(M, m, cs);
      var best := right[0];
      var x := right[best];
      while x != 0
        invariant Scanning(M, cs, best, x)
        decreases if x == 0 then 0 else numColumns + 1 - x
      {
        SelectStep(M, m, cs, best, x);
        if count[x - 1] < count[best - 1] {
          best := x;
        }
        x := right[x];
      }
      return best - 1;
    }

    /** The covering half of search's branch on row `r`: eliminateColumn on each of its cells' columns. */
    method CoverRow(ghost cs: seq<int>, r: int)
      requires Valid(Mx(), St(), cs) && 0 <= r < |cells| && FreshCols(Mx(), cs, RowCols(Mx(), r))
      modifies this`down, this`up, this`count, this`detached, this`right, this`left
      ensures Cover(Mx(), old(St()), RowCols(Mx(), r)) == Some(St())
    {
      ghost var M, m0 := Mx(), St();
      ghost var cols := RowCols(M, r);
      for k := 0 to |cells[r]|
        invariant Cover(M, m0, cols[..k]) == Some(St())
      {
        CoverRowStep(M, m0, cs, cols, k);
        var ok := EliminateColumn(column[cells[r][k]]);
      }
      assert cols[..|cells[r]|] == cols;
    }

    /** The uncovering half: reinstateColumn on the same columns, in the same order, restores state `m`. */
    method UncoverRow(ghost m: Mat, ghost cs: seq<int>, r: int)
      requires Valid(Mx(), m, cs) && 0 <= r < |cells| && FreshCols(Mx(), cs, RowCols(Mx(), r))
      requires Cover(Mx(), m, RowCols(Mx(), r)) == Some(St())
      modifies this`down, this`up, this`count, this`detached, this`right, this`left
      ensures St() == m
    {
      ghost var M, mK := Mx(), St();
      ghost var cols := RowCols(M, r);
      for k := 0 to |cells[r]|
        invariant St() == Uncover(M, mK, cols[..k])
      {
        UncoverRowStep(M, m, cs, cols, k);
        ReinstateColumn(column[cells[r][k]]);
      }
      assert cols[..|cells[r]|] == cols;
      UncoverRestores(M, m, cs, cols);
    }

    /** The start of search's turn on row `r`: push its info onto the partial solution and cover its columns. */
    method Choose(ghost ch: seq<int>, r: int)
      requires Prepared() && Chosen(Mx(), ch) && 0 <= r < |cells| && !Hit(Mx(), CoverSeq(Mx(), ch), r)
      requires Valid(Mx(), St(), CoverSeq(Mx(), ch)) && FreshCols(Mx(), CoverSeq(Mx(), ch), RowCols(Mx(), r))
      requires partial == InfosOf(info, ch)
      modifies this`down, this`up, this`count, this`detached, this`right, this`left, this`partial
      ensures Chosen(Mx(), ch + [r])
      ensures Cover(Mx(), old(St()), RowCols(Mx(), r)) == Some(St())
      ensures Valid(Mx(), St(), CoverSeq(Mx(), ch + [r]))
      ensures partial == old(partial) + [info[r]] == InfosOf(info, ch + [r])
    {
      ghost var M, m0, cs := Mx(), St(), CoverSeq(Mx(), ch);
      ChosenExtend(M, ch, r);
      InfosPush(info, ch, r);
      partial := partial + [info[r]];
      CoverRow(cs, r);
      CoverValid(M, m0, cs, RowCols(M, r));
    }

    /** The end of search's turn on row `r`: reinstate its columns and pop its info off the partial solution. */
    method Backtrack(ghost m: Mat, ghost cs: seq<int>, r: int)
      requires Valid(Mx(), m, cs) && 0 <= r < |cells| && FreshCols(Mx(), cs, RowCols(Mx(), r))
      requires Cover(Mx(), m, RowCols(Mx(), r)) == Some(St()) && partial != []
      modifies this`down, this`up, this`count, this`detached, this`right, this`left, this`partial
      ensures St() == m && partial == old(partial)[..|old(partial)| - 1]
    {
      UncoverRow(m, cs, r);
      partial := partial[..|partial| - 1];
    }

    /**
     * search: at a choice `ch` that leaves no column active, return the partial solution itself;
     * otherwise branch on each row of the selected column in turn.  With `collect` (solveAll) every
     * solution below a branch is appended to `solutions` and the state is restored; without it the
     * first solution is returned as soon as it is found, leaving the state as it then is.
     */
    method Search(ghost ch: seq<int>, collect: bool) returns (res: Option<seq<T>>)
      requires Prepared() && Chosen(Mx(), ch)
      requires Valid(Mx(), St(), CoverSeq(Mx(), ch)) && partial == InfosOf(info, ch)
      modifies this`down, this`up, this`count, this`detached, this`right, this`left
      modifies this`partial, this`solutions
      ensures collect || res.None? ==> St() == old(St()) && partial == old(partial)
      ensures collect ==> res == (if Complete(Mx(), ch) then Some(old(partial)) else None)
      ensures collect ==> solutions == old(solutions) + (if Complete(Mx(), ch) then [] else Found(info, Mx(), Leaves(Mx(), ch)))
      ensures !collect ==> res == FirstFound(info, Mx(), Leaves(Mx(), ch)) && solutions == old(solutions)
      decreases NumActive(Mx(), CoverSeq(Mx(), ch), numColumns), 1
    {
      ghost var M, m0, p0, s0 := Mx(), St(), partial, solutions;
      ghost var cs := CoverSeq(M, ch);
      var empty := IsColumnListEmpty(cs);
      if empty {
        LeafFound(info, M, ch);
        return Some(partial);
      }
      var c := SelectColumn(cs);
      SearchStart(M, m0, ch, c);
      var x := down[c];
      while x != c
        invariant x == c || InColumn(M, m0, c, x)
        invariant St() == m0 && partial == p0
        invariant collect ==> solutions == s0 + Found(info, M, LeavesUpTo(M, ch, c, WalkBound(M, c, x)))
        invariant !collect ==> solutions == s0 && LeavesUpTo(M, ch, c, WalkBound(M, c, x)) == []
        decreases WalkLeft(M, c, x)
      {
        SearchStep(M, m0, ch, c, x);
        ghost var z, s1 := down[x], solutions;
        res := Branch(ch, c, x, collect);
        if res.Some? {
          SearchFound(info, M, ch, c, WalkBound(M, c, z));
          return;
        }
        SearchNext(info, M, ch, c, x, z, collect, s0, s1, solutions, res);
        x := down[x];
      }
      SearchEnd(M, ch, c);
      return None;
    }

    /**
     * One turn of search's loop, on cell `x` of the selected column `c`: choose its row, cover its
     * columns, search below, then (unless a first solution was found) uncover and pop.
     */
    method Branch(ghost ch: seq<int>, ghost c: int, x: int, collect: bool) returns (res: Option<seq<T>>)
      requires Prepared() && Chosen(Mx(), ch)
      requires Valid(Mx(), St(), CoverSeq(Mx(), ch)) && partial == InfosOf(info, ch)
      requires Active(Mx(), CoverSeq(Mx(), ch), c) && IsCandidate(Mx(), CoverSeq(Mx(), ch), c, x)
      requires Chosen(Mx(), ch + [row[x]])
      modifies this`down, this`up, this`count, this`detached, this`right, this`left
      modifies this`partial, this`solutions
      ensures collect || res.None? ==> St() == old(St()) && partial == old(partial)
      ensures collect ==> res.None? && solutions == old(solutions) + Found(info, Mx(), Leaves(Mx(), ch + [row[x]]))
      ensures !collect ==> res == FirstFound(info, Mx(), Leaves(Mx(), ch + [row[x]])) && solutions == old(solutions)
      decreases NumActive(Mx(), CoverSeq(Mx(), ch), numColumns), 0
    {
      ghost var M, m0, p0 := Mx(), St(), partial;
      ghost var cs := CoverSeq(M, ch);
      var r := row[x];
      BranchReady(M, m0, ch, c, x);
      Choose(ch, r);
      DropLast(p0, info[r]);
      ghost var p1, s0 := partial, solutions;
      var sol := Search(ch + [r], collect);
      if collect {
        CollectBranch(info, M, ch + [r], p1, s0, solutions, sol);
      }
      if sol.Some? {
        if collect {
          solutions := solutions + [sol.value];
        } else {
          return sol;
        }
      }
      Backtrack(m0, cs, r);
      return None;
    }

    /**
     * createHeaders: the column list alone in its ring, then for each column `i` a header (node
     * `i + 1`) appended at the tail of the header ring, whose root cell `i` links to itself and
     * whose count is 0.
     */
    static method CreateHeaders(n: nat) returns (right: seq<int>, left: seq<int>, down: seq<int>, up: seq<int>,
                                                 count: seq<int>, detached: seq<bool>)
      ensures Links(right, left) == Links(HeaderRight(n), HeaderLeft(n))
      ensures Ideal(HRoot(n), AllBelow(n + 1), Links(right, left))
      ensures down == seq(n, y => y) && up == seq(n, y => y)
      ensures count == seq(n, _ => 0) && detached == seq(n, _ => false)
    {
      right, left := [0], [0];
      down, up, count, detached := [], [], [], [];
      for i := 0 to n
        invariant Links(right, left) == Links(HeaderRight(i), HeaderLeft(i))
        invariant down == seq(i, y => y) && up == seq(i, y => y)
        invariant count == seq(i, _ => 0) && detached == seq(i, _ => false)
      {
        HeaderAppend(i);
        var h, t := i + 1, left[0];
        right, left := right + [0], left + [t];
        right := right[t := h];
        left := left[0 := h];
        down, up, count, detached := down + [i], up + [i], count + [0], detached + [false];
      }
      HeaderRingIdeal(n);
    }

    /**
     * createRows: drop the absent infos, then for each info in turn and each column it occupies,
     * in increasing order, append a new cell of its row at the tail of that column's ring and
     * count it.
     */
    static method CreateRows(rowInfo: seq<Option<T>>, n: nat, occ: (T, int) -> bool,
                             down0: seq<int>, up0: seq<int>, count0: seq<int>, detached0: seq<bool>)
      returns (infos: seq<T>, column: seq<int>, row: seq<int>, cells: seq<seq<int>>,
               down: seq<int>, up: seq<int>, count: seq<int>, detached: seq<bool>)
      requires down0 == seq(n, y => y) && up0 == seq(n, y => y)
      requires count0 == seq(n, _ => 0) && detached0 == seq(n, _ => false)
      ensures infos == Truthy(rowInfo)
      ensures Matrix(n, column, row, cells) == Layout(n, infos, occ)
      ensures Ideal(column, AllBelow(|column|), Links(down, up))
      ensures |count| == n && forall c :: 0 <= c < n ==> count[c] == Occupying(infos, occ, c)
      ensures detached == seq(|column|, _ => false)
    {
      infos := Truthy(rowInfo);
      column, row, cells := seq(n, y => y), seq(n, _ => -1), [];
      down, up, count, detached := down0, up0, count0, detached0;
      BuiltStart(n, infos, occ);
      for i := 0 to |infos|
        invariant Built(n, infos, occ, i, column, row, cells, Links(down, up), count, detached)
      {
        BuildingStart(n, infos, occ, i, column, row, cells, Links(down, up), count, detached);
        var rowCells: seq<int> := [];
        for c := 0 to n
          invariant Building(n, infos, occ, i, c, column, row, cells, rowCells, Links(down, up), count, detached)
        {
          if occ(infos[i], c) {
            column, row, down, up, count, detached, rowCells :=
              AddCell(n, infos, occ, i, c, column, row, cells, rowCells, down, up, count, detached);
          } else {
            BuildingSkip(n, infos, occ, i, c, column, row, cells, rowCells, Links(down, up), count, detached);
          }
        }
        BuildingEnd(n, infos, occ, i, column, row, cells, rowCells, Links(down, up), count, detached);
        cells := cells + [rowCells];
      }
      BuiltEnd(n, infos, occ, column, row, cells, Links(down, up), count, detached);
    }

    /**
     * One cell of createRows: a new cell of row `i` in column `c`, appended at the tail of the
     * column's ring (its up is the old tail, its down the root), and the column's count bumped.
     */
    static method AddCell(n: nat, infos: seq<T>, occ: (T, int) -> bool, i: int, c: int,
                          column: seq<int>, row: seq<int>, cells: seq<seq<int>>, rowCells: seq<int>,
                          down: seq<int>, up: seq<int>, count: seq<int>, detached: seq<bool>)
      returns (column': seq<int>, row': seq<int>, down': seq<int>, up': seq<int>, count': seq<int>,
               detached': seq<bool>, rowCells': seq<int>)
      requires Building(n, infos, occ, i, c, column, row, cells, rowCells, Links(down, up), count, detached)
      requires c < n && occ(infos[i], c)
      ensures Building(n, infos, occ, i, c + 1, column', row', cells, rowCells', Links(down', up'), count', detached')
    {
      BuildingCell(n, infos, occ, i, c, column, row, cells, rowCells, Links(down, up), count, detached);
      var x, t := |column|, up[c];
      column', row' := column + [c], row + [|cells|];
      down', up' := down + [c], up + [t];
      down' := down'[t := x];
      up' := up'[c := x];
      count' := count[c := count[c] + 1];
      detached' := detached + [false];
      rowCells' := rowCells + [x];
      assert Links(down', up') == Append(Links(down, up), c);
    }

    /**
     * The constructor: createHeaders, then createRows.  It leaves every column active and every
     * cell linked, with each count the number of rows occupying its column.
     */
    constructor(rowInfo: seq<Option<T>>, n: nat, occ: (T, int) -> bool)
      ensures numColumns == n && info == Truthy(rowInfo) && Mx() == Problem(rowInfo, n, occ)
      ensures |count| == n && forall c :: 0 <= c < n ==> count[c] == Occupying(info, occ, c)
      ensures Prepared() && Valid(Mx(), St(), [])
      ensures partial == [] && solutions == []
    {
      var r0, l0, d0, u0, k0, f0 := CreateHeaders(n);
      var infos, col, rw, cls, d1, u1, k1, f1 := CreateRows(rowInfo, n, occ, d0, u0, k0, f0);
      numColumns, column, row, cells, info := n, col, rw, cls, infos;
      down, up, right, left, count, detached := d1, u1, r0, l0, k1, f1;
      partial, solutions := [], [];
      new;
      LayoutWellFormed(n, infos, occ);
      forall c | 0 <= c < n ensures count[c] == PresentBelow(Mx(), detached, c, |column|) {
        LayoutCount(n, infos, occ, c);
      }
      InitialValid(Mx(), St());
    }

    /** solve: the first solution the search finds, or None. */
    static method Solve(rowInfo: seq<Option<T>>, n: nat, occ: (T, int) -> bool) returns (res: Option<seq<T>>)
      ensures res == FirstSolution(rowInfo, n, occ)
    {
      var dlx := new DLX(rowInfo, n, occ);
      res := dlx.Search([], false);
    }

    /** solveAll: every solution the search finds, in order. */
    static method SolveAll(rowInfo: seq<Option<T>>, n: nat, occ: (T, int) -> bool) returns (sols: seq<seq<T>>)
      ensures sols == AllSolutions(rowInfo, n, occ)
    {
      var dlx := new DLX(rowInfo, n, occ);
      var _ := dlx.Search([], true);
      EmptyComplete(dlx.Mx());
      sols := dlx.solutions;
    }
  }
}

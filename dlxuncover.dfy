/**
 * Reinstating covered columns in the order they were covered restores the state exactly.
 *
 * With `m` the starting state, `mi` the state after covering the first `i` columns and `mK` the
 * state after covering all of them, the state `u` after reinstating the first `i` columns again
 * has a cell detached exactly when it was detached in `m`, or detached by one of the columns
 * still covered.  reinstateColumn(cols[i]) then re-attaches exactly the group of cells that
 * eliminateColumn(cols[i]) detached, so the relinking follows the unlinking group by group.
 */
module DlxUncover {
  import opened Options
  import opened Rings
  import opened ExactCover
  import opened DlxState
  import opened DlxProofs
  import opened DlxCover

  /** A row that has the first column of `e` is first hit by it. */
  lemma HitColFirst(M: Matrix, e: seq<int>, r: int)
    requires WellFormed(M) && 0 <= r < |M.cells| && e != [] && e[0] in RowCols(M, r)
    ensures HitCol(M, e, r) == e[0]
  {
    assert e == [e[0]] + e[1..];
    HitColExtend(M, [e[0]], e[1..], r);
    assert [e[0]][..0] == [];
  }

  /** A row whose cells from `k` on are all attached reinstates nothing from `k` on. */
  lemma {:induction false} DetachedNone(M: Matrix, u: Mat, r: int, k: int)
    requires 0 <= k
    requires Shape(M, u) && 0 <= r < |M.cells| && k <= |M.cells[r]|
    requires forall j :: k <= j < |M.cells[r]| ==> !u.detached[M.cells[r][j]]
    ensures DetachedFrom(M, u, r, k) == []
    decreases |M.cells[r]| - k
  {
    if k < |M.cells[r]| {
      DetachedNone(M, u, r, k + 1);
    }
  }

  /**
   * When the cells of row `r` detached in `u` are exactly those outside `c` attached in `mi`,
   * reinstateRow in `u` re-attaches, in order, the cells eliminateRow(r, c) detaches in `mi`.
   */
  lemma {:induction false} FilterSame(M: Matrix, u: Mat, mi: Mat, r: int, c: int, k: int)
    requires 0 <= k
    requires Shape(M, u) && Shape(M, mi) && 0 <= r < |M.cells| && k <= |M.cells[r]|
    requires forall j :: k <= j < |M.cells[r]| ==>
               u.detached[M.cells[r][j]] == (M.col[M.cells[r][j]] != c && !mi.detached[M.cells[r][j]])
    ensures DetachedFrom(M, u, r, k) == LiveFrom(M, mi, r, c, k)
    decreases |M.cells[r]| - k
  {
    if k < |M.cells[r]| {
      FilterSame(M, u, mi, r, c, k + 1);
    }
  }

  /** How a cell `y` of column `c` contributes to reinstating `c` in `u` and to eliminating it in `mi`. */
  ghost predicate ColumnCase(M: Matrix, u: Mat, mi: Mat, c: int, y: int)
    requires Shape(M, u) && Shape(M, mi) && M.n <= y < |M.col|
  {
    || (!InColumn(M, u, c, y) && !InColumn(M, mi, c, y))
    || (InColumn(M, u, c, y) && !InColumn(M, mi, c, y) && DetachedFrom(M, u, M.row[y], 0) == [])
    || (InColumn(M, u, c, y) && InColumn(M, mi, c, y)
        && DetachedFrom(M, u, M.row[y], 0) == LiveFrom(M, mi, M.row[y], c, 0))
  }

  /** When every cell of column `c` contributes alike, reinstating `c` in `u` re-attaches what eliminating it in `mi` detaches. */
  lemma {:induction false} RelColMatches(M: Matrix, u: Mat, mi: Mat, c: int, hi: int)
    requires 0 <= hi
    requires Shape(M, u) && Shape(M, mi) && hi <= |M.col|
    requires forall y :: M.n <= y < |M.col| && M.col[y] == c ==> ColumnCase(M, u, mi, c, y)
    ensures RelColBelow(M, u, c, hi) == DelColBelow(M, mi, c, hi)
    decreases hi
  {
    if hi > 0 {
      RelColMatches(M, u, mi, c, hi - 1);
      var y := hi - 1;
      if M.n <= y && M.col[y] == c {
        assert ColumnCase(M, u, mi, c, y);
      }
    }
  }

  /** The flags of the state after reinstating the first `i` of the covered columns. */
  ghost predicate UncoverFlags(M: Matrix, m: Mat, mi: Mat, mK: Mat, u: Mat)
    requires Shape(M, m) && Shape(M, mi) && Shape(M, mK) && Shape(M, u)
  {
    forall z :: 0 <= z < |M.col| ==> u.detached[z] == (m.detached[z] || (mK.detached[z] && !mi.detached[z]))
  }

  /**
   * Cell `y` of column `c` contributes alike to reinstating `c` after the columns `pre` were
   * reinstated and to eliminating `c` after `pre` was covered; `post` starts with `c`.
   */
  lemma RowCase(M: Matrix, m: Mat, mi: Mat, mK: Mat, u: Mat, cs: seq<int>, pre: seq<int>, post: seq<int>, y: int)
    requires Shape(M, m) && Shape(M, mi) && Shape(M, mK) && Shape(M, u)
    requires post != [] && post[0] !in cs && post[0] !in pre
    requires Pattern(M, cs, m.detached) && Pattern(M, cs + pre, mi.detached)
    requires Pattern(M, cs + pre + post, mK.detached)
    requires UncoverFlags(M, m, mi, mK, u)
    requires M.n <= y < |M.col| && M.col[y] == post[0]
    ensures ColumnCase(M, u, mi, post[0], y)
  {
    var c, r := post[0], M.row[y];
    CellColInRow(M, y);
    HitColSpec(M, cs, r);
    HitColSpec(M, pre, r);
    HitColExtend(M, cs, pre, r);
    HitColExtend(M, cs + pre, post, r);
    HitColFirst(M, post, r);
    var h0, ha := HitCol(M, cs, r), HitCol(M, cs + pre, r);
    assert m.detached[y] <==> h0 != -1 && c != h0;
    assert mi.detached[y] <==> ha != -1 && c != ha;
    assert mK.detached[y] <==> HitCol(M, cs + pre + post, r) != -1 && c != HitCol(M, cs + pre + post, r);
    if h0 == -1 && ha != -1 {
      forall j | 0 <= j < |M.cells[r]| ensures !u.detached[M.cells[r][j]] {
        var z := M.cells[r][j];
        assert mK.detached[z] == mi.detached[z];
      }
      DetachedNone(M, u, r, 0);
    } else if h0 == -1 {
      forall j | 0 <= j < |M.cells[r]|
        ensures u.detached[M.cells[r][j]] == (M.col[M.cells[r][j]] != c && !mi.detached[M.cells[r][j]])
      {
        var z := M.cells[r][j];
        assert !m.detached[z] && !mi.detached[z];
      }
      FilterSame(M, u, mi, r, c, 0);
    }
  }

  lemma AllRowCases(M: Matrix, m: Mat, mi: Mat, mK: Mat, u: Mat, cs: seq<int>, pre: seq<int>, post: seq<int>)
    requires Shape(M, m) && Shape(M, mi) && Shape(M, mK) && Shape(M, u)
    requires post != [] && post[0] !in cs && post[0] !in pre
    requires Pattern(M, cs, m.detached) && Pattern(M, cs + pre, mi.detached)
    requires Pattern(M, cs + pre + post, mK.detached)
    requires UncoverFlags(M, m, mi, mK, u)
    ensures forall y :: M.n <= y < |M.col| && M.col[y] == post[0] ==> ColumnCase(M, u, mi, post[0], y)
  {
    forall y | M.n <= y < |M.col| && M.col[y] == post[0] ensures ColumnCase(M, u, mi, post[0], y) {
      RowCase(M, m, mi, mK, u, cs, pre, post, y);
    }
  }

  /** After covering fresh columns the detached pattern is that of the longer cover sequence. */
  lemma CoverPattern(M: Matrix, m: Mat, cs: seq<int>, cols: seq<int>)
    requires Valid(M, m, cs) && FreshCols(M, cs, cols)
    ensures ColsIn(M, cols) && Cover(M, m, cols).Some?
    ensures Shape(M, Cover(M, m, cols).value)
    ensures Pattern(M, cs + cols, Cover(M, m, cols).value.detached)
  {
    CoverValid(M, m, cs, cols);
  }

  /** reinstateColumn(cols[i]) re-attaches the group of cells eliminateColumn(cols[i]) detached. */
  lemma UncoverGroup(M: Matrix, m: Mat, cs: seq<int>, cols: seq<int>, i: int, mi: Mat, mK: Mat, u: Mat)
    requires 0 <= i
    requires Shape(M, m) && Shape(M, mi) && Shape(M, mK) && Shape(M, u) && i < |cols|
    requires Active(M, cs + cols[..i], cols[i])
    requires Pattern(M, cs, m.detached) && Pattern(M, cs + cols[..i], mi.detached)
    requires Pattern(M, cs + cols, mK.detached)
    requires UncoverFlags(M, m, mi, mK, u)
    ensures RelColBelow(M, u, cols[i], |M.col|) == DelColBelow(M, mi, cols[i], |M.col|)
  {
    var c, pre, post := cols[i], cols[..i], cols[i..];
    assert cs + cols == cs + pre + post by {
      assert cols == pre + post;
    }
    AllRowCases(M, m, mi, mK, u, cs, pre, post);
    RelColMatches(M, u, mi, c, |M.col|);
  }

  /** The group eliminateColumn(cols[i]) detaches: distinct cells attached until then. */
  lemma GroupCells(M: Matrix, m: Mat, cs: seq<int>, cols: seq<int>, i: int, mi: Mat)
    requires 0 <= i
    requires Valid(M, m, cs) && FreshCols(M, cs, cols) && ColsIn(M, cols) && i < |cols|
    requires Cover(M, m, cols[..i]) == Some(mi)
    ensures Distinct(DelColBelow(M, mi, cols[i], |M.col|))
    ensures forall z :: z in DelColBelow(M, mi, cols[i], |M.col|) ==> !mi.detached[z]
    ensures forall z :: 0 <= z < |M.col| && m.detached[z] ==> mi.detached[z]
  {
    FreshPrefix(M, cs, cols, i);
    FreshTake(M, cs, cols, i);
    CoverValid(M, m, cs, cols[..i]);
    ElimColCells(M, mi, cs + cols[..i], cols[i]);
    CoverFlags(M, m, cs, cols[..i]);
  }

  /** After eliminateColumn(cols[i]) its group is detached, and stays so while the later columns are covered. */
  lemma GroupDetached(M: Matrix, m: Mat, cs: seq<int>, cols: seq<int>, i: int, mi: Mat, mi1: Mat, mK: Mat)
    requires 0 <= i
    requires Valid(M, m, cs) && FreshCols(M, cs, cols) && ColsIn(M, cols) && i < |cols|
    requires Cover(M, m, cols[..i]) == Some(mi) && Cover(M, m, cols[..i + 1]) == Some(mi1)
    requires Cover(M, m, cols) == Some(mK)
    ensures forall z :: 0 <= z < |M.col| ==>
              mi1.detached[z] == (mi.detached[z] || z in DelColBelow(M, mi, cols[i], |M.col|))
    ensures forall z :: 0 <= z < |M.col| && mi1.detached[z] ==> mK.detached[z]
  {
    assert cols[..i + 1][..i] == cols[..i] && cols[..i + 1][i] == cols[i];
    FreshPrefix(M, cs, cols, i);
    FreshTake(M, cs, cols, i);
    assert ElimCol(M, mi, cols[i]) == Some(mi1);
    assert Valid(M, mi, cs + cols[..i]) by {
      CoverValid(M, m, cs, cols[..i]);
    }
    ElimColEffect(M, mi, cs + cols[..i], cols[i]);
    CoverGrows(M, m, cs, cols, i + 1);
  }

  /** Re-attaching a group that was detached going from `mi` to `mi1` turns the flags for `mi` into those for `mi1`. */
  lemma ReattachGroup(M: Matrix, m: Mat, mi: Mat, mi1: Mat, mK: Mat, u: Mat, g: seq<int>)
    requires Shape(M, m) && Shape(M, mi) && Shape(M, mi1) && Shape(M, mK) && Shape(M, u) && DataCells(M, g)
    requires Distinct(g) && CountsOK(M, u) && UncoverFlags(M, m, mi, mK, u)
    requires forall z :: z in g ==> !mi.detached[z]
    requires forall z :: 0 <= z < |M.col| && m.detached[z] ==> mi.detached[z]
    requires forall z :: 0 <= z < |M.col| ==> mi1.detached[z] == (mi.detached[z] || z in g)
    requires forall z :: 0 <= z < |M.col| && mi1.detached[z] ==> mK.detached[z]
    ensures CountsOK(M, RestoreCells(M, u, g))
    ensures UncoverFlags(M, m, mi1, mK, RestoreCells(M, u, g))
    ensures RestoreCells(M, u, g).v == RelinkAll(u.v, g) && RestoreCells(M, u, g).h == u.h
  {
    assert forall k :: 0 <= k < |g| ==> u.detached[g[k]];
    RestoreDetached(M, u, g);
  }

  /** Reinstating cols[i] after cols[..i] were reinstated re-attaches its group and keeps the counts right. */
  lemma UncoverStep(M: Matrix, m: Mat, cs: seq<int>, cols: seq<int>, i: int, mi: Mat, mi1: Mat, mK: Mat, u: Mat)
    requires 0 <= i
    requires Valid(M, m, cs) && FreshCols(M, cs, cols) && ColsIn(M, cols) && i < |cols|
    requires Cover(M, m, cols[..i]) == Some(mi) && Cover(M, m, cols[..i + 1]) == Some(mi1)
    requires Cover(M, m, cols) == Some(mK)
    requires Shape(M, u) && CountsOK(M, u) && UncoverFlags(M, m, mi, mK, u)
    ensures RelColBelow(M, u, cols[i], |M.col|) == DelColBelow(M, mi, cols[i], |M.col|)
    ensures UncoverFlags(M, m, mi1, mK, ReinstCol(M, u, cols[i]))
    ensures CountsOK(M, ReinstCol(M, u, cols[i]))
    ensures ReinstCol(M, u, cols[i]).v == RelinkAll(u.v, DelColBelow(M, mi, cols[i], |M.col|))
    ensures ReinstCol(M, u, cols[i]).h == Relink(u.h, cols[i] + 1)
  {
    FreshPrefix(M, cs, cols, i);
    CoverPattern(M, m, cs, cols[..i]);
    CoverPattern(M, m, cs, cols);
    UncoverGroup(M, m, cs, cols, i, mi, mK, u);
    GroupCells(M, m, cs, cols, i, mi);
    GroupDetached(M, m, cs, cols, i, mi, mi1, mK);
    ReattachGroup(M, m, mi, mi1, mK, u, DelColBelow(M, mi, cols[i], |M.col|));
  }

  /** The flags and counts after reinstating the first `i` covered columns, in the order they were covered. */
  lemma {:induction false} UncoverPhaseFlags(M: Matrix, m: Mat, cs: seq<int>, cols: seq<int>, i: int)
    requires 0 <= i
    requires Valid(M, m, cs) && FreshCols(M, cs, cols) && i <= |cols|
    ensures ColsIn(M, cols) && Cover(M, m, cols).Some? && ColsIn(M, cols[..i]) && Cover(M, m, cols[..i]).Some?
    ensures CountsOK(M, Uncover(M, Cover(M, m, cols).value, cols[..i]))
    ensures UncoverFlags(M, m, Cover(M, m, cols[..i]).value, Cover(M, m, cols).value,
                         Uncover(M, Cover(M, m, cols).value, cols[..i]))
    decreases i
  {
    if i == 0 {
      assert cols[..0] == [];
      CoverValid(M, m, cs, cols);
      CoverGrows(M, m, cs, cols, 0);
    } else {
      UncoverPhaseFlags(M, m, cs, cols, i - 1);
      UncoverPhaseFlagsNext(M, m, cs, cols, i);
    }
  }

  lemma UncoverPhaseFlagsNext(M: Matrix, m: Mat, cs: seq<int>, cols: seq<int>, i: int)
    requires 0 < i <= |cols| && Valid(M, m, cs) && FreshCols(M, cs, cols)
    requires ColsIn(M, cols) && Cover(M, m, cols).Some? && ColsIn(M, cols[..i - 1]) && Cover(M, m, cols[..i - 1]).Some?
    requires CountsOK(M, Uncover(M, Cover(M, m, cols).value, cols[..i - 1]))
    requires UncoverFlags(M, m, Cover(M, m, cols[..i - 1]).value, Cover(M, m, cols).value,
                          Uncover(M, Cover(M, m, cols).value, cols[..i - 1]))
    ensures ColsIn(M, cols[..i]) && Cover(M, m, cols[..i]).Some?
    ensures CountsOK(M, Uncover(M, Cover(M, m, cols).value, cols[..i]))
    ensures UncoverFlags(M, m, Cover(M, m, cols[..i]).value, Cover(M, m, cols).value,
                         Uncover(M, Cover(M, m, cols).value, cols[..i]))
  {
    var a, b := cols[..i - 1], cols[..i];
    assert b[..i - 1] == a && b[i - 1] == cols[i - 1];
    CoverPrefixSome(M, m, cols, i);
    var mK := Cover(M, m, cols).value;
    UncoverStep(M, m, cs, cols, i - 1, Cover(M, m, a).value, Cover(M, m, b).value, mK, Uncover(M, mK, a));
  }

  /** The cells re-attached, in order, while reinstating the columns `cols` starting from `mK`. */
  ghost function RelAll(M: Matrix, mK: Mat, cols: seq<int>): (d: seq<int>)
    requires Shape(M, mK) && ColsIn(M, cols)
    ensures DataCells(M, d)
    decreases |cols|
  {
    if cols == [] then []
    else
      var p := cols[..|cols| - 1];
      RelAll(M, mK, p) + RelColBelow(M, Uncover(M, mK, p), cols[|cols| - 1], |M.col|)
  }

  /** Reinstating columns relinks the cells of `RelAll`, in order. */
  lemma {:induction false} UncoverCells(M: Matrix, mK: Mat, cols: seq<int>)
    requires Shape(M, mK) && ColsIn(M, cols)
    ensures Uncover(M, mK, cols).v == RelinkAll(mK.v, RelAll(M, mK, cols))
    decreases |cols|
  {
    if cols != [] {
      var p := cols[..|cols| - 1];
      var u := Uncover(M, mK, p);
      var g := RelColBelow(M, u, cols[|cols| - 1], |M.col|);
      UncoverCells(M, mK, p);
      RestoreEffect(M, u, g);
      RelinkAllAppend(mK.v, RelAll(M, mK, p), g);
    }
  }

  /** Reinstating columns relinks their headers, in order. */
  lemma {:induction false} UncoverHeaders(M: Matrix, mK: Mat, cols: seq<int>)
    requires Shape(M, mK) && ColsIn(M, cols)
    ensures AllIn(HeaderNodes(cols), M.n + 1)
    ensures Uncover(M, mK, cols).h == RelinkAll(mK.h, HeaderNodes(cols))
    decreases |cols|
  {
    if cols != [] {
      var p := cols[..|cols| - 1];
      var c := cols[|cols| - 1];
      assert HeaderNodes(cols) == HeaderNodes(p) + [c + 1];
      var u := Uncover(M, mK, p);
      UncoverHeaders(M, mK, p);
      RestoreEffect(M, u, RelColBelow(M, u, c, |M.col|));
      RelinkAllAppend(mK.h, HeaderNodes(p), [c + 1]);
      RelinkAllOne(u.h, c + 1);
    }
  }

  /** reinstateColumn(cols[i]), once cols[..i] are reinstated, re-attaches the group eliminateColumn(cols[i]) detached. */
  lemma UncoverGroupAt(M: Matrix, m: Mat, cs: seq<int>, cols: seq<int>, i: int)
    requires 0 <= i
    requires Valid(M, m, cs) && FreshCols(M, cs, cols) && i < |cols|
    ensures ColsIn(M, cols) && Cover(M, m, cols).Some? && ColsIn(M, cols[..i]) && Cover(M, m, cols[..i]).Some?
    ensures RelColBelow(M, Uncover(M, Cover(M, m, cols).value, cols[..i]), cols[i], |M.col|)
         == DelColBelow(M, Cover(M, m, cols[..i]).value, cols[i], |M.col|)
  {
    CoverValid(M, m, cs, cols);
    CoverPrefixSome(M, m, cols, i + 1);
    UncoverPhaseFlags(M, m, cs, cols, i);
    var mK := Cover(M, m, cols).value;
    UncoverStep(M, m, cs, cols, i, Cover(M, m, cols[..i]).value, Cover(M, m, cols[..i + 1]).value,
                mK, Uncover(M, mK, cols[..i]));
  }

  /** Reinstating the covered columns in the same order re-attaches the cells covering detached, in the same order. */
  lemma {:induction false} RelAllIsDelAll(M: Matrix, m: Mat, cs: seq<int>, cols: seq<int>, i: int)
    requires 0 <= i
    requires Valid(M, m, cs) && FreshCols(M, cs, cols) && i <= |cols|
    ensures ColsIn(M, cols) && Cover(M, m, cols).Some? && ColsIn(M, cols[..i]) && Cover(M, m, cols[..i]).Some?
    ensures RelAll(M, Cover(M, m, cols).value, cols[..i]) == DelAll(M, m, cols[..i])
    decreases i
  {
    if i == 0 {
      CoverValid(M, m, cs, cols);
      CoverPrefixSome(M, m, cols, i);
      assert cols[..0] == [];
    } else {
      RelAllIsDelAll(M, m, cs, cols, i - 1);
      RelAllIsDelAllNext(M, m, cs, cols, i);
    }
  }

  lemma RelAllIsDelAllNext(M: Matrix, m: Mat, cs: seq<int>, cols: seq<int>, i: int)
    requires 0 < i <= |cols| && Valid(M, m, cs) && FreshCols(M, cs, cols)
    requires ColsIn(M, cols) && Cover(M, m, cols).Some? && ColsIn(M, cols[..i - 1]) && Cover(M, m, cols[..i - 1]).Some?
    requires RelAll(M, Cover(M, m, cols).value, cols[..i - 1]) == DelAll(M, m, cols[..i - 1])
    ensures ColsIn(M, cols[..i]) && Cover(M, m, cols[..i]).Some?
    ensures RelAll(M, Cover(M, m, cols).value, cols[..i]) == DelAll(M, m, cols[..i])
  {
    var a, b := cols[..i - 1], cols[..i];
    assert b[..i - 1] == a && b[i - 1] == cols[i - 1];
    CoverPrefixSome(M, m, cols, i);
    UncoverGroupAt(M, m, cs, cols, i - 1);
  }

  lemma UncoverRestoresCells(M: Matrix, m: Mat, cs: seq<int>, cols: seq<int>)
    requires Valid(M, m, cs) && FreshCols(M, cs, cols)
    ensures ColsIn(M, cols) && Cover(M, m, cols).Some?
    ensures Uncover(M, Cover(M, m, cols).value, cols).v == m.v
  {
    assert cols[..|cols|] == cols;
    CoverCells(M, m, cs, cols);
    CoverUnlinkable(M, m, cs, cols);
    var mK := Cover(M, m, cols).value;
    UncoverCells(M, mK, cols);
    RelAllIsDelAll(M, m, cs, cols, |cols|);
    ColRooted(M);
    RelinkInSameOrderRestores(M.col, Present(M, m), m.v, DelAll(M, m, cols));
  }

  lemma UncoverRestoresHeaders(M: Matrix, m: Mat, cs: seq<int>, cols: seq<int>)
    requires Valid(M, m, cs) && FreshCols(M, cs, cols)
    ensures ColsIn(M, cols) && Cover(M, m, cols).Some?
    ensures Uncover(M, Cover(M, m, cols).value, cols).h == m.h
  {
    CoverHeaders(M, m, cs, cols);
    CoverHeadersUnlinkable(M, cs, cols);
    UncoverHeaders(M, Cover(M, m, cols).value, cols);
    ColRooted(M);
    RelinkInSameOrderRestores(HRoot(M.n), HPresent(M, cs), m.h, HeaderNodes(cols));
  }

  lemma UncoverRestoresFlags(M: Matrix, m: Mat, cs: seq<int>, cols: seq<int>)
    requires Valid(M, m, cs) && FreshCols(M, cs, cols)
    ensures ColsIn(M, cols) && Cover(M, m, cols).Some?
    ensures Uncover(M, Cover(M, m, cols).value, cols).detached == m.detached
    ensures Uncover(M, Cover(M, m, cols).value, cols).count == m.count
  {
    assert cols[..|cols|] == cols;
    UncoverPhaseFlags(M, m, cs, cols, |cols|);
    var u := Uncover(M, Cover(M, m, cols).value, cols);
    assert u.detached == m.detached;
    forall c | 0 <= c < M.n ensures u.count[c] == m.count[c] {
    }
  }

  /**
   * Covering fresh columns one after the other and then reinstating them in the same order gives
   * back exactly the state one started from: links, header ring, counts and flags.
   */
  lemma UncoverRestores(M: Matrix, m: Mat, cs: seq<int>, cols: seq<int>)
    requires Valid(M, m, cs) && FreshCols(M, cs, cols)
    ensures ColsIn(M, cols) && Cover(M, m, cols).Some?
    ensures Uncover(M, Cover(M, m, cols).value, cols) == m
  {
    UncoverRestoresCells(M, m, cs, cols);
    UncoverRestoresHeaders(M, m, cs, cols);
    UncoverRestoresFlags(M, m, cs, cols);
  }
}

/**
 * What eliminating and reinstating columns does to a valid solver state.
 *
 * `ElimColValid` shows that covering an active column never meets the zero-count error and
 * leads to the valid state for one more covered column; `UncoverRestores` shows that
 * reinstating the columns of a chosen row in the same order they were eliminated gives back
 * exactly the state before the row was chosen.
 */
module DlxProofs {
  import opened Options
  import opened Rings
  import opened ExactCover
  import opened DlxState

  // ---------------------------------------------------------------------------
  // Rows and cells

  /** A row has at most one cell in each column, stated without preconditions for use in a proof by cases. */
  lemma OneCellPerColumnIf(M: Matrix, y: int, y': int)
    requires WellFormed(M)
    ensures M.n <= y < |M.col| && M.n <= y' < |M.col| && M.row[y] == M.row[y'] && M.col[y] == M.col[y'] ==> y == y'
  {
    if M.n <= y < |M.col| && M.n <= y' < |M.col| && M.row[y] == M.row[y'] && M.col[y] == M.col[y'] {
      OneCellPerColumn(M, y, y');
    }
  }

  /** A row has at most one cell in each column. */
  lemma OneCellPerColumn(M: Matrix, y: int, y': int)
    requires WellFormed(M) && M.n <= y < |M.col| && M.n <= y' < |M.col|
    requires M.row[y] == M.row[y'] && M.col[y] == M.col[y']
    ensures y == y'
  {
    var r := M.row[y];
    assert InOwnRow(M, y) && InOwnRow(M, y');
    var k :| 0 <= k < |M.cells[r]| && M.cells[r][k] == y;
    var k' :| 0 <= k' < |M.cells[r]| && M.cells[r][k'] == y';
    assert M.col[M.cells[r][k]] == M.col[M.cells[r][k']];
  }

  /** A column of row `r` is the column of one of its cells. */
  lemma CellOfColumn(M: Matrix, r: int, c: int) returns (y: int)
    requires WellFormed(M) && 0 <= r < |M.cells| && c in RowCols(M, r)
    ensures M.n <= y < |M.col| && M.row[y] == r && M.col[y] == c
  {
    var k :| 0 <= k < |RowCols(M, r)| && RowCols(M, r)[k] == c;
    y := M.cells[r][k];
  }

  lemma DistinctConcat(a: seq<int>, b: seq<int>)
    requires Distinct(a) && Distinct(b) && forall z :: z in a ==> z !in b
    ensures Distinct(a + b)
  {
    forall i, j | 0 <= i < j < |a + b| ensures (a + b)[i] != (a + b)[j] {
      if j < |a| {
      } else if i >= |a| {
        assert (a + b)[i] == b[i - |a|] && (a + b)[j] == b[j - |a|];
      } else {
        assert (a + b)[i] in a && (a + b)[j] == b[j - |a|];
      }
    }
  }

  /** Cell `z` is a cell of row `r` that eliminateRow(r, skip) would detach. */
  ghost predicate LiveCell(M: Matrix, m: Mat, z: int, skip: int)
    requires Shape(M, m)
  {
    M.n <= z < |M.col| && M.col[z] != skip && !m.detached[z]
  }

  lemma {:induction false} LiveFromMember(M: Matrix, m: Mat, r: int, skip: int, k: int)
    requires 0 <= k
    requires Shape(M, m) && 0 <= r < |M.cells| && k <= |M.cells[r]|
    ensures Distinct(LiveFrom(M, m, r, skip, k))
    ensures forall z :: z in LiveFrom(M, m, r, skip, k) <==> z in M.cells[r][k..] && LiveCell(M, m, z, skip)
    decreases |M.cells[r]| - k
  {
    if k < |M.cells[r]| {
      LiveFromMember(M, m, r, skip, k + 1);
      var z := M.cells[r][k];
      assert M.cells[r][k..] == [z] + M.cells[r][k + 1..];
      assert z !in M.cells[r][k + 1..];
      DistinctConcat(if M.col[z] != skip && !m.detached[z] then [z] else [], LiveFrom(M, m, r, skip, k + 1));
    }
  }

  /** eliminateRow(r, skip) detaches exactly the live cells of `r` outside `skip`, each once. */
  lemma LiveMember(M: Matrix, m: Mat, r: int, skip: int)
    requires Shape(M, m) && 0 <= r < |M.cells|
    ensures Distinct(LiveFrom(M, m, r, skip, 0))
    ensures forall z :: z in LiveFrom(M, m, r, skip, 0) <==> LiveCell(M, m, z, skip) && M.row[z] == r
  {
    LiveFromMember(M, m, r, skip, 0);
    assert M.cells[r][0..] == M.cells[r];
    forall z | LiveCell(M, m, z, skip) && M.row[z] == r ensures z in M.cells[r] {
      assert InOwnRow(M, z);
    }
  }

  lemma {:induction false} DetachedFromMember(M: Matrix, m: Mat, r: int, k: int)
    requires 0 <= k
    requires Shape(M, m) && 0 <= r < |M.cells| && k <= |M.cells[r]|
    ensures Distinct(DetachedFrom(M, m, r, k))
    ensures forall z :: z in DetachedFrom(M, m, r, k) <==> z in M.cells[r][k..] && m.detached[z]
    decreases |M.cells[r]| - k
  {
    if k < |M.cells[r]| {
      DetachedFromMember(M, m, r, k + 1);
      var z := M.cells[r][k];
      assert M.cells[r][k..] == [z] + M.cells[r][k + 1..];
      assert z !in M.cells[r][k + 1..];
      DistinctConcat(if m.detached[z] then [z] else [], DetachedFrom(M, m, r, k + 1));
    }
  }

  /** reinstateRow(r) re-attaches exactly the detached cells of `r`, each once. */
  lemma DetachedMember(M: Matrix, m: Mat, r: int)
    requires Shape(M, m) && 0 <= r < |M.cells|
    ensures Distinct(DetachedFrom(M, m, r, 0))
    ensures forall z :: z in DetachedFrom(M, m, r, 0) <==> M.n <= z < |M.col| && m.detached[z] && M.row[z] == r
  {
    DetachedFromMember(M, m, r, 0);
    assert M.cells[r][0..] == M.cells[r];
    forall z | M.n <= z < |M.col| && m.detached[z] && M.row[z] == r ensures z in M.cells[r] {
      assert InOwnRow(M, z);
    }
  }

  // ---------------------------------------------------------------------------
  // Which cells the column operations touch

  /** Some present data cell of column `c` below `hi` lies in row `r`. */
  ghost predicate RowInColumnBelow(M: Matrix, m: Mat, c: int, r: int, hi: nat)
    requires Shape(M, m)
  {
    exists y :: 0 <= y < hi && InColumn(M, m, c, y) && M.row[y] == r
  }

  /** eliminateColumn(c) detaches each live cell outside `c` of each row in `c`'s ring, once. */
  lemma {:induction false} DelColMember(M: Matrix, m: Mat, c: int, hi: int)
    requires 0 <= hi
    requires Shape(M, m) && hi <= |M.col|
    ensures Distinct(DelColBelow(M, m, c, hi))
    ensures forall z :: z in DelColBelow(M, m, c, hi) <==> LiveCell(M, m, z, c) && RowInColumnBelow(M, m, c, M.row[z], hi)
    decreases hi
  {
    if hi > 0 {
      var y := hi - 1;
      DelColMember(M, m, c, hi - 1);
      var a := DelColBelow(M, m, c, hi - 1);
      var b := if InColumn(M, m, c, y) then LiveFrom(M, m, M.row[y], c, 0) else [];
      if InColumn(M, m, c, y) {
        LiveMember(M, m, M.row[y], c);
      }
      forall z | z in a ensures z !in b {
        var y' :| 0 <= y' < hi - 1 && InColumn(M, m, c, y') && M.row[y'] == M.row[z];
        OneCellPerColumnIf(M, y', y);
      }
      DistinctConcat(a, b);
      forall z ensures z in a + b <==> LiveCell(M, m, z, c) && RowInColumnBelow(M, m, c, M.row[z], hi) {
        if LiveCell(M, m, z, c) && RowInColumnBelow(M, m, c, M.row[z], hi) {
          var y' :| 0 <= y' < hi && InColumn(M, m, c, y') && M.row[y'] == M.row[z];
          if y' < hi - 1 {
            assert RowInColumnBelow(M, m, c, M.row[z], hi - 1);
          }
        }
        if z in a {
          var y' :| 0 <= y' < hi - 1 && InColumn(M, m, c, y') && M.row[y'] == M.row[z];
        }
      }
    }
  }

  /** A detached data cell. */
  ghost predicate DetachedCell(M: Matrix, m: Mat, z: int)
    requires Shape(M, m)
  {
    M.n <= z < |M.col| && m.detached[z]
  }

  /** reinstateColumn(c) re-attaches each detached cell of each row in `c`'s ring, once. */
  lemma {:induction false} RelColMember(M: Matrix, m: Mat, c: int, hi: int)
    requires 0 <= hi
    requires Shape(M, m) && hi <= |M.col|
    ensures Distinct(RelColBelow(M, m, c, hi))
    ensures forall z :: z in RelColBelow(M, m, c, hi) <==> DetachedCell(M, m, z) && RowInColumnBelow(M, m, c, M.row[z], hi)
    decreases hi
  {
    if hi > 0 {
      var y := hi - 1;
      RelColMember(M, m, c, hi - 1);
      var a := RelColBelow(M, m, c, hi - 1);
      var b := if InColumn(M, m, c, y) then DetachedFrom(M, m, M.row[y], 0) else [];
      if InColumn(M, m, c, y) {
        DetachedMember(M, m, M.row[y]);
      }
      forall z | z in a ensures z !in b {
        var y' :| 0 <= y' < hi - 1 && InColumn(M, m, c, y') && M.row[y'] == M.row[z];
        OneCellPerColumnIf(M, y', y);
      }
      DistinctConcat(a, b);
      forall z ensures z in a + b <==> DetachedCell(M, m, z) && RowInColumnBelow(M, m, c, M.row[z], hi) {
        if DetachedCell(M, m, z) && RowInColumnBelow(M, m, c, M.row[z], hi) {
          var y' :| 0 <= y' < hi && InColumn(M, m, c, y') && M.row[y'] == M.row[z];
          if y' < hi - 1 {
            assert RowInColumnBelow(M, m, c, M.row[z], hi - 1);
          }
        }
        if z in a {
          var y' :| 0 <= y' < hi - 1 && InColumn(M, m, c, y') && M.row[y'] == M.row[z];
        }
      }
    }
  }

  // ---------------------------------------------------------------------------
  // The first hit column

  lemma {:induction false} HitColSpec(M: Matrix, cs: seq<int>, r: int)
    requires WellFormed(M) && 0 <= r < |M.cells|
    ensures HitCol(M, cs, r) == -1 <==> !Hit(M, cs, r)
    ensures HitCol(M, cs, r) != -1 ==> HitCol(M, cs, r) in cs && HitCol(M, cs, r) in RowCols(M, r)
    decreases |cs|
  {
    if cs != [] {
      var p, l := cs[..|cs| - 1], cs[|cs| - 1];
      HitColSpec(M, p, r);
      assert cs == p + [l];
      if Hit(M, cs, r) {
        var c :| c in RowCols(M, r) && c in cs;
        if c != l {
          assert c in p;
        }
      }
    }
  }

  /** Covering more columns never changes the first hit column of a row already hit. */
  lemma {:induction false} HitColExtend(M: Matrix, cs: seq<int>, e: seq<int>, r: int)
    requires WellFormed(M) && 0 <= r < |M.cells|
    ensures HitCol(M, cs + e, r) == if HitCol(M, cs, r) != -1 then HitCol(M, cs, r) else HitCol(M, e, r)
    decreases |e|
  {
    if e == [] {
      assert cs + e == cs;
    } else {
      var p := e[..|e| - 1];
      assert (cs + e)[..|cs + e| - 1] == cs + p;
      HitColExtend(M, cs, p, r);
    }
  }

  // ---------------------------------------------------------------------------
  // A valid state seen from the search

  /** In a valid state, the present cells of an active column are exactly its candidates. */
  lemma InColumnIsCandidate(M: Matrix, m: Mat, cs: seq<int>, c: int, y: int)
    requires Valid(M, m, cs) && Active(M, cs, c)
    ensures InColumn(M, m, c, y) <==> IsCandidate(M, cs, c, y)
  {
    if M.n <= y < |M.col| {
      HitColSpec(M, cs, M.row[y]);
    }
  }

  lemma {:induction false} CountBelow(M: Matrix, m: Mat, cs: seq<int>, c: int, hi: int)
    requires 0 <= hi
    requires Valid(M, m, cs) && Active(M, cs, c) && hi <= |M.col|
    ensures PresentBelow(M, m.detached, c, hi) == CountUpTo(M, cs, c, hi)
  {
    if hi > 0 {
      CountBelow(M, m, cs, c, hi - 1);
      InColumnIsCandidate(M, m, cs, c, hi - 1);
    }
  }

  /** In a valid state the count of an active column is the number of rows that can still cover it. */
  lemma CountMatches(M: Matrix, m: Mat, cs: seq<int>, c: int)
    requires Valid(M, m, cs) && Active(M, cs, c)
    ensures m.count[c] == Count(M, cs, c)
  {
    CountBelow(M, m, cs, c, |M.col|);
  }

  /** In a valid state, eliminateColumn(c) detaches the cells outside `c` of the uncovered rows that have `c`. */
  lemma DelColValid(M: Matrix, m: Mat, cs: seq<int>, c: int)
    requires Valid(M, m, cs) && Active(M, cs, c)
    ensures Distinct(DelColBelow(M, m, c, |M.col|))
    ensures forall z :: z in DelColBelow(M, m, c, |M.col|) <==>
              M.n <= z < |M.col| && M.col[z] != c && !Hit(M, cs, M.row[z]) && c in RowCols(M, M.row[z])
  {
    DelColMember(M, m, c, |M.col|);
    forall z ensures z in DelColBelow(M, m, c, |M.col|) <==>
              M.n <= z < |M.col| && M.col[z] != c && !Hit(M, cs, M.row[z]) && c in RowCols(M, M.row[z])
    {
      if M.n <= z < |M.col| {
        var r := M.row[z];
        HitColSpec(M, cs, r);
        if RowInColumnBelow(M, m, c, r, |M.col|) {
          var y :| 0 <= y < |M.col| && InColumn(M, m, c, y) && M.row[y] == r;
          InColumnIsCandidate(M, m, cs, c, y);
          CellColInRow(M, y);
        }
        if !Hit(M, cs, r) && c in RowCols(M, r) {
          var y := CellOfColumn(M, r, c);
          InColumnIsCandidate(M, m, cs, c, y);
          assert RowInColumnBelow(M, m, c, r, |M.col|);
        }
      }
    }
  }

  // ---------------------------------------------------------------------------
  // Eliminating one column

  lemma ColRooted(M: Matrix)
    requires WellFormed(M)
    ensures Rooted(M.col) && Rooted(HRoot(M.n))
  {
  }

  lemma HPresentCover(M: Matrix, cs: seq<int>, c: int)
    requires Active(M, cs, c)
    ensures c + 1 in HPresent(M, cs)
    ensures HPresent(M, cs) - {c + 1} == HPresent(M, cs + [c])
  {
  }

  /** The detached pattern of a valid state after eliminating column `c`. */
  lemma PatternAfterElim(M: Matrix, m: Mat, cs: seq<int>, c: int, det: seq<bool>)
    requires Valid(M, m, cs) && Active(M, cs, c) && |det| == |M.col|
    requires forall z :: 0 <= z < |M.col| ==> det[z] == (m.detached[z] || z in DelColBelow(M, m, c, |M.col|))
    ensures Pattern(M, cs + [c], det)
  {
    DelColValid(M, m, cs, c);
    forall y | M.n <= y < |M.col|
      ensures det[y] <==> HitCol(M, cs + [c], M.row[y]) != -1 && M.col[y] != HitCol(M, cs + [c], M.row[y])
    {
      var r := M.row[y];
      HitColSpec(M, cs, r);
      HitColExtend(M, cs, [c], r);
      assert [c][..0] == [];
    }
  }

  /** The cells eliminateColumn(c) detaches in a valid state are present, so detaching them meets no zero count. */
  lemma ElimColCells(M: Matrix, m: Mat, cs: seq<int>, c: int)
    requires Valid(M, m, cs) && Active(M, cs, c)
    ensures var d := DelColBelow(M, m, c, |M.col|);
      DeleteCells(M, m, d).Some? && Detached(M, m, d, DeleteCells(M, m, d).value) && Unlinkable(M.col, Present(M, m), d)
  {
    var d := DelColBelow(M, m, c, |M.col|);
    DelColValid(M, m, cs, c);
    UnhitPresent(M, cs, m.detached, d);
    DeletePresent(M, m, d);
  }

  /** Cells of rows no covered column hits are not detached. */
  lemma UnhitPresent(M: Matrix, cs: seq<int>, det: seq<bool>, d: seq<int>)
    requires WellFormed(M) && |det| == |M.col| && Pattern(M, cs, det) && DataCells(M, d)
    requires forall z :: z in d ==> M.n <= z < |M.col| && !Hit(M, cs, M.row[z])
    ensures forall i :: 0 <= i < |d| ==> !det[d[i]]
  {
    forall i | 0 <= i < |d| ensures !det[d[i]] {
      assert d[i] in d;
      HitColSpec(M, cs, M.row[d[i]]);
    }
  }

  /** Unlinking the present cells `d` leaves the rings ideal for the cells that remain. */
  lemma CellRingsAfter(M: Matrix, m: Mat, d: seq<int>, m2: Mat)
    requires Shape(M, m) && Shape(M, m2) && SameRing(M.col, m.v) && Ideal(M.col, Present(M, m), m.v)
    requires Unlinkable(M.col, Present(M, m), d) && AllIn(d, |M.col|)
    requires m2.v == UnlinkAll(m.v, d)
    requires forall z :: 0 <= z < |M.col| ==> m2.detached[z] == (m.detached[z] || z in d)
    ensures SameRing(M.col, m2.v) && Ideal(M.col, Present(M, m2), m2.v)
  {
    ColRooted(M);
    UnlinkAllIdeal(M.col, Present(M, m), m.v, d);
    assert Present(M, m2) == Present(M, m) - (set y | y in d);
    UnlinkAllOutside(M.col, m.v, d, -1);
  }

  /** Taking column `c`'s header out of the header ring leaves exactly the active columns of `cs + [c]` linked. */
  lemma HeaderAfterElim(M: Matrix, cs: seq<int>, c: int, h: Links)
    requires WellFormed(M) && Active(M, cs, c) && InRange(h, M.n + 1)
    requires Ideal(HRoot(M.n), HPresent(M, cs), h)
    ensures Ideal(HRoot(M.n), HPresent(M, cs + [c]), Unlink(h, c + 1))
  {
    ColRooted(M);
    HPresentCover(M, cs, c);
    UnlinkIdeal(HRoot(M.n), HPresent(M, cs), h, c + 1);
  }

  /** The state after eliminateColumn(c), described by its parts, is valid for one more covered column. */
  lemma ValidAfterElim(M: Matrix, m: Mat, cs: seq<int>, c: int, m2: Mat)
    requires Valid(M, m, cs) && Active(M, cs, c) && Shape(M, m2)
    requires CountsOK(M, m2)
    requires m2.h == Unlink(m.h, c + 1)
    requires forall z :: 0 <= z < |M.col| ==> m2.detached[z] == (m.detached[z] || z in DelColBelow(M, m, c, |M.col|))
    requires SameRing(M.col, m2.v) && Ideal(M.col, Present(M, m2), m2.v)
    ensures Valid(M, m2, cs + [c])
  {
    HeaderAfterElim(M, cs, c, m.h);
    PatternAfterElim(M, m, cs, c, m2.detached);
  }

  /**
   * In a valid state, eliminating an active column never meets the zero-count error, and gives
   * the valid state for one more covered column: the links with the column's detached cells
   * unlinked and its header taken out of the header ring.
   */
  lemma ElimColValid(M: Matrix, m: Mat, cs: seq<int>, c: int)
    requires Valid(M, m, cs) && Active(M, cs, c)
    ensures ElimCol(M, m, c).Some?
    ensures Valid(M, ElimCol(M, m, c).value, cs + [c])
    ensures ElimCol(M, m, c).value.v == UnlinkAll(m.v, DelColBelow(M, m, c, |M.col|))
    ensures ElimCol(M, m, c).value.h == Unlink(m.h, c + 1)
    ensures forall z :: 0 <= z < |M.col| ==>
              ElimCol(M, m, c).value.detached[z] == (m.detached[z] || z in DelColBelow(M, m, c, |M.col|))
  {
    var d := DelColBelow(M, m, c, |M.col|);
    ElimColCells(M, m, cs, c);
    var m1 := DeleteCells(M, m, d).value;
    var m2 := m1.(h := Unlink(m1.h, c + 1));
    assert ElimCol(M, m, c) == Some(m2);
    assert SameRing(M.col, m2.v) && Ideal(M.col, Present(M, m2), m2.v) by {
      CellRingsAfter(M, m, d, m2);
    }
    ValidAfterElim(M, m, cs, c, m2);
  }
}

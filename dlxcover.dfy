/**
 * Covering a row's columns one after the other and reinstating them in the same order gives back
 * the state one started from.
 *
 * The cells detached while covering `cols` form the sequence `DelAll`: the concatenation of the
 * groups each eliminateColumn detaches.  Covering unlinks them in that order; reinstating the
 * columns in the same order relinks the groups in the same order, so the Rings lemma on
 * unlinking and relinking in the same order brings every link back.
 */
module DlxCover {
  import opened Options
  import opened Rings
  import opened ExactCover
  import opened DlxState
  import opened DlxProofs

  /** Columns that are all active, and pairwise different, once `cs` is covered. */
  ghost predicate FreshCols(M: Matrix, cs: seq<int>, cols: seq<int>)
  {
    && (forall i :: 0 <= i < |cols| ==> Active(M, cs, cols[i]))
    && Distinct(cols)
  }

  lemma FreshPrefix(M: Matrix, cs: seq<int>, cols: seq<int>, i: int)
    requires 0 <= i
    requires FreshCols(M, cs, cols) && i < |cols|
    ensures ColsIn(M, cols) && FreshCols(M, cs, cols[..i])
    ensures Active(M, cs + cols[..i], cols[i])
  {
    assert cols[i] !in cols[..i] by {
      forall k | 0 <= k < i ensures cols[..i][k] != cols[i] {
        assert cols[..i][k] == cols[k];
      }
    }
  }

  lemma FreshTake(M: Matrix, cs: seq<int>, cols: seq<int>, j: int)
    requires 0 <= j
    requires FreshCols(M, cs, cols) && j <= |cols|
    ensures ColsIn(M, cols) && FreshCols(M, cs, cols[..j])
  {
    assert forall k :: 0 <= k < j ==> cols[..j][k] == cols[k];
  }

  /** The cells detached, in order, while covering the columns `cols`. */
  ghost function DelAll(M: Matrix, m: Mat, cols: seq<int>): (d: seq<int>)
    requires Shape(M, m) && ColsIn(M, cols) && Cover(M, m, cols).Some?
    ensures DataCells(M, d)
    decreases |cols|
  {
    if cols == [] then []
    else
      var p := cols[..|cols| - 1];
      DelAll(M, m, p) + DelColBelow(M, Cover(M, m, p).value, cols[|cols| - 1], |M.col|)
  }

  /** The header nodes of the columns `cols`. */
  function HeaderNodes(cols: seq<int>): (d: seq<int>)
    ensures |d| == |cols| && forall i :: 0 <= i < |cols| ==> d[i] == cols[i] + 1
  {
    seq(|cols|, i requires 0 <= i < |cols| => cols[i] + 1)
  }

  /** Covering fresh columns one after the other never fails and keeps the state valid. */
  lemma {:induction false} CoverValid(M: Matrix, m: Mat, cs: seq<int>, cols: seq<int>)
    requires Valid(M, m, cs) && FreshCols(M, cs, cols)
    ensures ColsIn(M, cols) && Cover(M, m, cols).Some?
    ensures Valid(M, Cover(M, m, cols).value, cs + cols)
    decreases |cols|
  {
    if cols == [] {
      assert cs + cols == cs;
    } else {
      var k := |cols| - 1;
      var p := cols[..k];
      assert cs + p + [cols[k]] == cs + cols by {
        assert p + [cols[k]] == cols;
      }
      FreshPrefix(M, cs, cols, k);
      CoverValid(M, m, cs, p);
      ElimColValid(M, Cover(M, m, p).value, cs + p, cols[k]);
    }
  }

  /** What eliminateColumn does to the links and flags of a valid state. */
  lemma ElimColEffect(M: Matrix, m: Mat, cs: seq<int>, c: int)
    requires Valid(M, m, cs) && Active(M, cs, c)
    ensures ElimCol(M, m, c).Some?
    ensures ElimCol(M, m, c).value.v == UnlinkAll(m.v, DelColBelow(M, m, c, |M.col|))
    ensures ElimCol(M, m, c).value.h == Unlink(m.h, c + 1)
    ensures forall z :: 0 <= z < |M.col| ==>
              ElimCol(M, m, c).value.detached[z] == (m.detached[z] || z in DelColBelow(M, m, c, |M.col|))
  {
    ElimColValid(M, m, cs, c);
  }

  /** Covering fresh columns unlinks the cells of `DelAll`, in order. */
  lemma {:induction false} CoverCells(M: Matrix, m: Mat, cs: seq<int>, cols: seq<int>)
    requires Valid(M, m, cs) && FreshCols(M, cs, cols)
    ensures ColsIn(M, cols) && Cover(M, m, cols).Some?
    ensures Cover(M, m, cols).value.v == UnlinkAll(m.v, DelAll(M, m, cols))
    decreases |cols|
  {
    CoverValid(M, m, cs, cols);
    if cols != [] {
      var k := |cols| - 1;
      var p := cols[..k];
      FreshPrefix(M, cs, cols, k);
      CoverCells(M, m, cs, p);
      CoverValid(M, m, cs, p);
      var mp := Cover(M, m, p).value;
      ElimColEffect(M, mp, cs + p, cols[k]);
      var g := DelColBelow(M, mp, cols[k], |M.col|);
      assert DelAll(M, m, cols) == DelAll(M, m, p) + g;
      UnlinkAllAppend(m.v, DelAll(M, m, p), g);
    }
  }

  /** Covering fresh columns unlinks their headers, in order. */
  lemma {:induction false} CoverHeaders(M: Matrix, m: Mat, cs: seq<int>, cols: seq<int>)
    requires Valid(M, m, cs) && FreshCols(M, cs, cols)
    ensures ColsIn(M, cols) && Cover(M, m, cols).Some?
    ensures AllIn(HeaderNodes(cols), M.n + 1)
    ensures Cover(M, m, cols).value.h == UnlinkAll(m.h, HeaderNodes(cols))
    decreases |cols|
  {
    if cols == [] {
      CoverValid(M, m, cs, cols);
    } else {
      var k := |cols| - 1;
      var p := cols[..k];
      var c := cols[k];
      assert HeaderNodes(cols) == HeaderNodes(p) + [c + 1];
      CoverValid(M, m, cs, cols);
      FreshPrefix(M, cs, cols, k);
      CoverHeaders(M, m, cs, p);
      CoverValid(M, m, cs, p);
      var mp := Cover(M, m, p).value;
      ElimColEffect(M, mp, cs + p, c);
      UnlinkAllAppend(m.h, HeaderNodes(p), [c + 1]);
      UnlinkAllOne(mp.h, c + 1);
    }
  }

  /** Covering fresh columns detaches exactly the cells of `DelAll`. */
  lemma {:induction false} CoverFlags(M: Matrix, m: Mat, cs: seq<int>, cols: seq<int>)
    requires Valid(M, m, cs) && FreshCols(M, cs, cols)
    ensures ColsIn(M, cols) && Cover(M, m, cols).Some?
    ensures forall z :: 0 <= z < |M.col| ==>
              Cover(M, m, cols).value.detached[z] == (m.detached[z] || z in DelAll(M, m, cols))
    decreases |cols|
  {
    CoverValid(M, m, cs, cols);
    if cols != [] {
      var k := |cols| - 1;
      var p := cols[..k];
      var c := cols[k];
      FreshPrefix(M, cs, cols, k);
      CoverFlags(M, m, cs, p);
      CoverValid(M, m, cs, p);
      var mp := Cover(M, m, p).value;
      ElimColValid(M, mp, cs + p, c);
      var g := DelColBelow(M, mp, c, |M.col|);
      assert DelAll(M, m, cols) == DelAll(M, m, p) + g;
    }
  }

  /** Appending cells present after detaching `a` keeps the sequence unlinkable from the start. */
  lemma UnlinkableAppend(M: Matrix, m: Mat, mp: Mat, a: seq<int>, g: seq<int>)
    requires Shape(M, m) && Shape(M, mp)
    requires Unlinkable(M.col, Present(M, m), a) && Unlinkable(M.col, Present(M, mp), g)
    requires forall z :: 0 <= z < |M.col| ==> mp.detached[z] == (m.detached[z] || z in a)
    ensures Unlinkable(M.col, Present(M, m), a + g)
  {
    assert forall z :: z in g ==> z in Present(M, mp);
    assert forall z :: z in a ==> z !in g;
    DistinctConcat(a, g);
  }

  /** The cells covering detaches are distinct cells present at the start, none a column root. */
  lemma {:induction false} CoverUnlinkable(M: Matrix, m: Mat, cs: seq<int>, cols: seq<int>)
    requires Valid(M, m, cs) && FreshCols(M, cs, cols)
    ensures ColsIn(M, cols) && Cover(M, m, cols).Some?
    ensures Unlinkable(M.col, Present(M, m), DelAll(M, m, cols))
    decreases |cols|
  {
    CoverValid(M, m, cs, cols);
    if cols != [] {
      var k := |cols| - 1;
      var p := cols[..k];
      FreshPrefix(M, cs, cols, k);
      CoverValid(M, m, cs, p);
      var mp := Cover(M, m, p).value;
      var g := DelColBelow(M, mp, cols[k], |M.col|);
      assert DelAll(M, m, cols) == DelAll(M, m, p) + g;
      CoverUnlinkable(M, m, cs, p);
      CoverFlags(M, m, cs, p);
      ElimColCells(M, mp, cs + p, cols[k]);
      UnlinkableAppend(M, m, mp, DelAll(M, m, p), g);
    }
  }

  /** The headers covering takes out are distinct headers of active columns, none the column list. */
  lemma CoverHeadersUnlinkable(M: Matrix, cs: seq<int>, cols: seq<int>)
    requires FreshCols(M, cs, cols)
    ensures Unlinkable(HRoot(M.n), HPresent(M, cs), HeaderNodes(cols))
  {
    var d := HeaderNodes(cols);
    forall i | 0 <= i < |d| ensures d[i] in HPresent(M, cs) {
      assert HeaderActive(M, cs, d[i]);
    }
  }

  lemma {:induction false} CoverPrefixSome(M: Matrix, m: Mat, cols: seq<int>, j: int)
    requires 0 <= j
    requires Shape(M, m) && ColsIn(M, cols) && Cover(M, m, cols).Some? && j <= |cols|
    ensures ColsIn(M, cols[..j]) && Cover(M, m, cols[..j]).Some?
    decreases |cols|
  {
    if j < |cols| {
      var p := cols[..|cols| - 1];
      assert cols[..j] == p[..j];
      CoverPrefixSome(M, m, p, j);
    } else {
      assert cols[..j] == cols;
    }
  }

  /** The cells detached while covering a prefix of `cols` are a prefix of those detached while covering `cols`. */
  lemma {:induction false} DelAllPrefix(M: Matrix, m: Mat, cols: seq<int>, j: int)
    requires 0 <= j
    requires Shape(M, m) && ColsIn(M, cols) && Cover(M, m, cols).Some? && j <= |cols|
    ensures ColsIn(M, cols[..j]) && Cover(M, m, cols[..j]).Some?
    ensures DelAll(M, m, cols[..j]) <= DelAll(M, m, cols)
    decreases |cols|
  {
    CoverPrefixSome(M, m, cols, j);
    if j < |cols| {
      var p := cols[..|cols| - 1];
      assert cols[..j] == p[..j];
      DelAllPrefix(M, m, p, j);
      var a := DelAll(M, m, p);
      var g := DelColBelow(M, Cover(M, m, p).value, cols[|cols| - 1], |M.col|);
      assert DelAll(M, m, cols) == a + g;
      PrefixTrans(DelAll(M, m, p[..j]), a, a + g);
    } else {
      assert cols[..j] == cols;
    }
  }

  lemma PrefixSlice<X>(a: seq<X>, b: seq<X>)
    requires a <= b
    ensures |a| <= |b| && b[..|a|] == a
  {
  }

  lemma PrefixTrans<X>(a: seq<X>, b: seq<X>, t: seq<X>)
    requires a <= b && b <= t
    ensures a <= t
  {
    assert forall i :: 0 <= i < |a| ==> a[i] == b[i] == t[i];
  }

  /** Covering more columns only detaches more cells. */
  lemma CoverGrows(M: Matrix, m: Mat, cs: seq<int>, cols: seq<int>, j: int)
    requires 0 <= j
    requires Valid(M, m, cs) && FreshCols(M, cs, cols) && j <= |cols|
    ensures ColsIn(M, cols) && Cover(M, m, cols).Some? && Cover(M, m, cols[..j]).Some?
    ensures forall z :: 0 <= z < |M.col| && Cover(M, m, cols[..j]).value.detached[z] ==> Cover(M, m, cols).value.detached[z]
  {
    FreshTake(M, cs, cols, j);
    CoverFlags(M, m, cs, cols[..j]);
    CoverFlags(M, m, cs, cols);
    DelAllPrefix(M, m, cols, j);
    var a := DelAll(M, m, cols[..j]);
    forall z | z in a ensures z in DelAll(M, m, cols) {
      var k :| 0 <= k < |a| && a[k] == z;
      assert DelAll(M, m, cols)[k] == z;
    }
  }
}

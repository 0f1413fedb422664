/**
 * What selectColumn and search compute, step by step, against the value-level search tree.
 *
 * selectColumn follows the header ring from the column list; `Scanning` says what its running
 * minimum is when it stands on a header.  search walks the ring of the selected column; the
 * leaves it has reached when it stands on a cell are `LeavesUpTo` of the cells before it.
 * `Found` and `FirstFound` turn leaves (choices of rows) into the solutions search hands out:
 * the row infos of the chosen rows, in the order they were chosen.
 */
module DlxSearch {
  import opened Options
  import opened Rings
  import opened ExactCover
  import opened DlxState
  import opened DlxProofs
  import opened DlxCover
  import opened DlxUncover
  import opened DlxWalk
  import opened DlxSteps

  /** The infos of the chosen rows `ch`, in order. */
  function InfosOf<T>(info: seq<T>, ch: seq<int>): (s: seq<T>)
    requires forall i :: 0 <= i < |ch| ==> 0 <= ch[i] < |info|
    ensures |s| == |ch|
  {
    if ch == [] then [] else InfosOf(info, ch[..|ch| - 1]) + [info[ch[|ch| - 1]]]
  }

  /** The `i`th info of the partial solution is the info of the `i`th chosen row. */
  lemma {:induction false} InfosAt<T>(info: seq<T>, ch: seq<int>, i: int)
    requires forall j :: 0 <= j < |ch| ==> 0 <= ch[j] < |info|
    requires 0 <= i < |ch|
    ensures InfosOf(info, ch)[i] == info[ch[i]]
    decreases |ch|
  {
    if i < |ch| - 1 {
      InfosAt(info, ch[..|ch| - 1], i);
    }
  }

  /** Pushing a row's info onto the partial solution is choosing that row. */
  lemma InfosPush<T>(info: seq<T>, ch: seq<int>, r: int)
    requires forall i :: 0 <= i < |ch| ==> 0 <= ch[i] < |info|
    requires 0 <= r < |info|
    ensures InfosOf(info, ch + [r]) == InfosOf(info, ch) + [info[r]]
  {
    assert (ch + [r])[..|ch|] == ch;
  }

  /** The solutions the complete choices `ls` stand for, in order. */
  ghost function Found<T>(info: seq<T>, M: Matrix, ls: seq<seq<int>>): (s: seq<seq<T>>)
    requires WellFormed(M) && |info| == |M.cells|
    requires forall l :: l in ls ==> Complete(M, l)
    ensures |s| == |ls|
  {
    if ls == [] then []
    else
      assert ls[0] in ls;
      assert Complete(M, ls[0]);
      [InfosOf(info, ls[0])] + Found(info, M, ls[1..])
  }

  /** The solution search returns in first-solution mode: that of the first leaf, if any. */
  ghost function FirstFound<T>(info: seq<T>, M: Matrix, ls: seq<seq<int>>): (s: Option<seq<T>>)
    requires WellFormed(M) && |info| == |M.cells|
    requires forall l :: l in ls ==> Complete(M, l)
    ensures s.None? <==> ls == []
  {
    if ls == [] then None
    else
      assert ls[0] in ls;
      assert Complete(M, ls[0]);
      Some(InfosOf(info, ls[0]))
  }

  lemma {:induction false} FoundAppend<T>(info: seq<T>, M: Matrix, a: seq<seq<int>>, b: seq<seq<int>>)
    requires WellFormed(M) && |info| == |M.cells|
    requires forall l :: l in a ==> Complete(M, l)
    requires forall l :: l in b ==> Complete(M, l)
    ensures forall l :: l in a + b ==> Complete(M, l)
    ensures Found(info, M, a + b) == Found(info, M, a) + Found(info, M, b)
    decreases |a|
  {
    if a != [] {
      var ab := a + b;
      assert a[0] in a && Complete(M, a[0]);
      assert ab[0] == a[0] && ab[1..] == a[1..] + b;
      FoundAppend(info, M, a[1..], b);
      assert Found(info, M, ab) == [InfosOf(info, a[0])] + Found(info, M, a[1..] + b);
      assert Found(info, M, a) == [InfosOf(info, a[0])] + Found(info, M, a[1..]);
    } else {
      assert a + b == b;
    }
  }

  /** The first solution of a sequence of leaves is that of any non-empty prefix of it. */
  lemma FirstOfPrefix<T>(info: seq<T>, M: Matrix, a: seq<seq<int>>, b: seq<seq<int>>)
    requires WellFormed(M) && |info| == |M.cells|
    requires forall l :: l in b ==> Complete(M, l)
    requires a != [] && a <= b
    ensures forall l :: l in a ==> Complete(M, l)
    ensures FirstFound(info, M, a) == FirstFound(info, M, b)
  {
    assert a[0] == b[0];
    assert forall l :: l in a ==> l in b;
  }

  /** A complete choice is its own one leaf. */
  lemma LeafFound<T>(info: seq<T>, M: Matrix, ch: seq<int>)
    requires WellFormed(M) && |info| == |M.cells| && Complete(M, ch)
    ensures Leaves(M, ch) == [ch]
    ensures RowsIn(M, ch)
    ensures Found(info, M, [ch]) == [InfosOf(info, ch)]
    ensures FirstFound(info, M, [ch]) == Some(InfosOf(info, ch))
  {
    SelectSpec(M, CoverSeq(M, ch), M.n);
    assert [ch][1..] == [];
  }

  // ---------------------------------------------------------------------------
  // selectColumn's scan of the header ring

  /** The columns the scan has passed when it stands on header node `x`: all of them at the column list. */
  function ScanBound(n: nat, x: nat): nat
  {
    if x == 0 then n else x - 1
  }

  /** selectColumn stands on header `x` with the header `best` of the first least count seen so far. */
  ghost predicate Scanning(M: Matrix, cs: seq<int>, best: int, x: int)
    requires WellFormed(M)
  {
    x in HPresent(M, cs) && 1 <= best <= M.n && best - 1 == SelectUpTo(M, cs, ScanBound(M.n, x))
  }

  /** Stepping right from an active column's header passes only inactive columns. */
  lemma ScanNext(M: Matrix, cs: seq<int>, h: Links, x: int)
    requires WellFormed(M) && Ideal(HRoot(M.n), HPresent(M, cs), h) && x in HPresent(M, cs) && x != 0
    ensures h.next[x] in HPresent(M, cs) && (h.next[x] == 0 || x < h.next[x])
    ensures SelectUpTo(M, cs, ScanBound(M.n, h.next[x])) == SelectUpTo(M, cs, x)
  {
    HeaderNext(M, cs, h, x);
    if h.next[x] == 0 {
      SelectSkip(M, cs, x, M.n);
    } else {
      SelectSkip(M, cs, x, h.next[x] - 1);
    }
  }

  /** `min = columnList.right; col = min.right`: the scan starts on the first active column. */
  lemma SelectStart(M: Matrix, m: Mat, cs: seq<int>)
    requires Valid(M, m, cs) && NumActive(M, cs, M.n) != 0
    ensures m.h.next[0] != 0 && Scanning(M, cs, m.h.next[0], m.h.next[m.h.next[0]])
  {
    ColumnListEmpty(M, m, cs);
    var x := m.h.next[0];
    assert 0 in HPresent(M, cs);
    HeaderNext(M, cs, m.h, 0);
    SelectSkip(M, cs, 0, x - 1);
    assert x in HPresent(M, cs);
    ScanNext(M, cs, m.h, x);
  }

  /** One step of the scan: a strictly smaller count replaces the minimum, then move right. */
  lemma SelectStep(M: Matrix, m: Mat, cs: seq<int>, best: int, x: int)
    requires Valid(M, m, cs) && Scanning(M, cs, best, x) && x != 0
    ensures m.h.next[x] == 0 || x < m.h.next[x]
    ensures Scanning(M, cs, if m.count[x - 1] < m.count[best - 1] then x else best, m.h.next[x])
  {
    SelectSpec(M, cs, x - 1);
    CountMatches(M, m, cs, x - 1);
    CountMatches(M, m, cs, best - 1);
    ScanNext(M, cs, m.h, x);
  }

  // ---------------------------------------------------------------------------
  // Covering and uncovering the columns of a row, one column at a time

  /** The state after covering the first `k` columns of a row is ready for the next one. */
  lemma CoverRowStep(M: Matrix, m: Mat, cs: seq<int>, cols: seq<int>, k: int)
    requires 0 <= k
    requires Valid(M, m, cs) && FreshCols(M, cs, cols) && k < |cols|
    ensures ColsIn(M, cols[..k]) && Cover(M, m, cols[..k]).Some?
    ensures SameRing(M.col, Cover(M, m, cols[..k]).value.v)
    ensures ColumnLinked(M, Cover(M, m, cols[..k]).value, cols[k])
    ensures ColsIn(M, cols[..k + 1])
    ensures Cover(M, m, cols[..k + 1]) == ElimCol(M, Cover(M, m, cols[..k]).value, cols[k])
    ensures Cover(M, m, cols[..k + 1]).Some?
  {
    CoverReady(M, m, cs, cols, k);
    FreshTake(M, cs, cols, k + 1);
    CoverValid(M, m, cs, cols[..k + 1]);
    assert cols[..k + 1][..k] == cols[..k];
  }

  /** The state after reinstating the first `k` columns of a row is ready for the next one. */
  lemma UncoverRowStep(M: Matrix, m: Mat, cs: seq<int>, cols: seq<int>, k: int)
    requires 0 <= k
    requires Valid(M, m, cs) && FreshCols(M, cs, cols) && k < |cols|
    ensures ColsIn(M, cols) && Cover(M, m, cols).Some? && ColsIn(M, cols[..k])
    ensures SameRing(M.col, Uncover(M, Cover(M, m, cols).value, cols[..k]).v)
    ensures ColumnLinked(M, Uncover(M, Cover(M, m, cols).value, cols[..k]), cols[k])
    ensures ColsIn(M, cols[..k + 1])
    ensures Uncover(M, Cover(M, m, cols).value, cols[..k + 1])
         == ReinstCol(M, Uncover(M, Cover(M, m, cols).value, cols[..k]), cols[k])
  {
    UncoverReady(M, m, cs, cols, k);
    assert cols[..k + 1][..k] == cols[..k];
  }

  // ---------------------------------------------------------------------------
  // search's walk down the selected column

  /** The state search branches in: the chosen rows, the covered columns and column `c` to branch on. */
  ghost predicate Branches(M: Matrix, m: Mat, ch: seq<int>, c: int)
  {
    WellFormed(M) && Chosen(M, ch) && Valid(M, m, CoverSeq(M, ch)) && Active(M, CoverSeq(M, ch), c)
  }

  /** Having selected column `c`, search starts on the first cell of its ring, with no leaf yet. */
  lemma SearchStart(M: Matrix, m: Mat, ch: seq<int>, c: int)
    requires WellFormed(M) && Chosen(M, ch) && Valid(M, m, CoverSeq(M, ch))
    requires NumActive(M, CoverSeq(M, ch), M.n) != 0 && c == SelectUpTo(M, CoverSeq(M, ch), M.n)
    ensures Branches(M, m, ch, c) && Branching(M, ch, c)
    ensures m.v.next[c] == c || InColumn(M, m, c, m.v.next[c])
    ensures LeavesUpTo(M, ch, c, WalkBound(M, c, m.v.next[c])) == []
  {
    var cs := CoverSeq(M, ch);
    SelectSpec(M, cs, M.n);
    IdealColumnLinked(M, m, c);
    CandidatesInColumn(M, m, cs, c);
    LeavesStart(M, m, ch, c, m.v.next[c], WalkBound(M, c, m.v.next[c]));
  }

  /** The cell search stands on is a candidate; the leaves below the next cell add those of its branch. */
  lemma SearchStep(M: Matrix, m: Mat, ch: seq<int>, c: int, x: int)
    requires Branches(M, m, ch, c) && InColumn(M, m, c, x)
    ensures Branching(M, ch, c) && IsCandidate(M, CoverSeq(M, ch), c, x) && Chosen(M, ch + [M.row[x]])
    ensures m.v.next[x] == c || InColumn(M, m, c, m.v.next[x])
    ensures WalkLeft(M, c, m.v.next[x]) < WalkLeft(M, c, x)
    ensures LeavesUpTo(M, ch, c, WalkBound(M, c, m.v.next[x]))
         == LeavesUpTo(M, ch, c, WalkBound(M, c, x)) + Leaves(M, ch + [M.row[x]])
  {
    var cs := CoverSeq(M, ch);
    InColumnIsCandidate(M, m, cs, c, x);
    ChildProgress(M, ch, c, x);
    IdealColumnLinked(M, m, c);
    CandidatesInColumn(M, m, cs, c);
    LeavesNext(M, m, ch, c, x, m.v.next[x], WalkBound(M, c, m.v.next[x]));
  }

  /** Branching on cell `x` of column `c` chooses its row, whose columns are fresh, and makes progress. */
  lemma BranchReady(M: Matrix, m: Mat, ch: seq<int>, c: int, x: int)
    requires WellFormed(M) && Chosen(M, ch) && Active(M, CoverSeq(M, ch), c)
    requires IsCandidate(M, CoverSeq(M, ch), c, x)
    ensures 0 <= M.row[x] < |M.cells| && FreshCols(M, CoverSeq(M, ch), RowCols(M, M.row[x]))
    ensures Chosen(M, ch + [M.row[x]])
    ensures CoverSeq(M, ch + [M.row[x]]) == CoverSeq(M, ch) + RowCols(M, M.row[x])
    ensures NumActive(M, CoverSeq(M, ch + [M.row[x]]), M.n) < NumActive(M, CoverSeq(M, ch), M.n)
  {
    CandidateFresh(M, CoverSeq(M, ch), c, x);
    ChildProgress(M, ch, c, x);
    ChosenExtend(M, ch, M.row[x]);
  }

  /** Once the walk is back at the root, it has reached every leaf below the choice. */
  lemma SearchEnd(M: Matrix, ch: seq<int>, c: int)
    requires WellFormed(M) && Chosen(M, ch) && c == SelectUpTo(M, CoverSeq(M, ch), M.n) && c != -1
    ensures !Complete(M, ch) && Branching(M, ch, c)
    ensures Leaves(M, ch) == LeavesUpTo(M, ch, c, |M.col|)
  {
    SelectSpec(M, CoverSeq(M, ch), M.n);
  }

  /** In first-solution mode, the first leaf found below some cell is the first leaf of the choice. */
  lemma SearchFound<T>(info: seq<T>, M: Matrix, ch: seq<int>, c: int, hi: int)
    requires 0 <= hi <= |M.col| && |info| == |M.cells|
    requires WellFormed(M) && Chosen(M, ch) && c == SelectUpTo(M, CoverSeq(M, ch), M.n) && c != -1
    requires Branching(M, ch, c) && LeavesUpTo(M, ch, c, hi) != []
    ensures FirstFound(info, M, LeavesUpTo(M, ch, c, hi)) == FirstFound(info, M, Leaves(M, ch))
  {
    SearchEnd(M, ch, c);
    LeavesPrefix(M, ch, c, hi, |M.col|);
    FirstOfPrefix(info, M, LeavesUpTo(M, ch, c, hi), Leaves(M, ch));
  }

  /** After a branch that found no first solution, the walk's account of the solutions moves on to the next cell. */
  lemma SearchNext<T>(info: seq<T>, M: Matrix, ch: seq<int>, c: int, x: int, z: int, collect: bool,
                      s0: seq<seq<T>>, s1: seq<seq<T>>, s2: seq<seq<T>>, res: Option<seq<T>>)
    requires 0 <= x && 0 <= z && |info| == |M.cells|
    requires Branching(M, ch, c) && IsCandidate(M, CoverSeq(M, ch), c, x) && Chosen(M, ch + [M.row[x]])
    requires LeavesUpTo(M, ch, c, WalkBound(M, c, z))
          == LeavesUpTo(M, ch, c, WalkBound(M, c, x)) + Leaves(M, ch + [M.row[x]])
    requires collect ==> s1 == s0 + Found(info, M, LeavesUpTo(M, ch, c, WalkBound(M, c, x)))
    requires !collect ==> s1 == s0 && LeavesUpTo(M, ch, c, WalkBound(M, c, x)) == []
    requires collect ==> s2 == s1 + Found(info, M, Leaves(M, ch + [M.row[x]]))
    requires !collect ==> res == FirstFound(info, M, Leaves(M, ch + [M.row[x]])) && s2 == s1
    requires res.None?
    ensures collect ==> s2 == s0 + Found(info, M, LeavesUpTo(M, ch, c, WalkBound(M, c, z)))
    ensures !collect ==> s2 == s0 && LeavesUpTo(M, ch, c, WalkBound(M, c, z)) == []
  {
    var a, b := LeavesUpTo(M, ch, c, WalkBound(M, c, x)), Leaves(M, ch + [M.row[x]]);
    FoundAppend(info, M, a, b);
    if collect {
      AppendAssoc(s0, Found(info, M, a), Found(info, M, b));
    } else {
      assert a + b == [];
    }
  }

  /**
   * What solveAll's branch adds to the solutions: the recursive search's own additions, plus the
   * partial solution it returns when the choice is already complete.
   */
  lemma CollectBranch<T>(info: seq<T>, M: Matrix, ch: seq<int>, p: seq<T>,
                         s0: seq<seq<T>>, s1: seq<seq<T>>, sol: Option<seq<T>>)
    requires WellFormed(M) && |info| == |M.cells| && Chosen(M, ch) && p == InfosOf(info, ch)
    requires sol == (if Complete(M, ch) then Some(p) else None)
    requires s1 == s0 + (if Complete(M, ch) then [] else Found(info, M, Leaves(M, ch)))
    ensures (if sol.Some? then s1 + [sol.value] else s1) == s0 + Found(info, M, Leaves(M, ch))
  {
    if Complete(M, ch) {
      LeafFound(info, M, ch);
      assert s1 == s0;
    }
  }

  /** Popping what was pushed. */
  lemma DropLast<X>(a: seq<X>, v: X)
    ensures (a + [v])[..|a|] == a && |a + [v]| - 1 == |a|
  {
  }

  lemma AppendAssoc<X>(a: seq<X>, b: seq<X>, c: seq<X>)
    ensures (a + b) + c == a + (b + c)
  {
  }
}

/**
 * The exact-cover problem as the solver stores it, and the search it performs, stated on values.
 *
 * Cells 0..n-1 are the column roots; every other cell belongs to one column (`col`) and one row
 * (`row`), and `cells[r]` lists the cells of row `r` in increasing column order.  A search state is
 * the sequence `ch` of rows chosen so far; the columns they cover, in the order the solver
 * covers them, are `CoverSeq(M, ch)`.  `Leaves(M, ch)` is the sequence of complete choices that
 * Algorithm X reaches from `ch`, in the order it reaches them, when it always branches on the
 * first active column of least count and tries that column's rows in cell order.
 */
module ExactCover {

  datatype Matrix = Matrix(n: nat, col: seq<int>, row: seq<int>, cells: seq<seq<int>>)

  /** The arena describes a matrix: see CellLayout and RowLayout. */
  ghost predicate WellFormed(M: Matrix)
  {
    CellLayout(M) && RowLayout(M)
  }

  /** The roots come first, each in its own column, and every data cell names a column and a row that lists it. */
  ghost predicate CellLayout(M: Matrix)
  {
    && M.n <= |M.col| && |M.row| == |M.col|
    && (forall y :: 0 <= y < M.n ==> M.col[y] == y)
    && (forall y :: M.n <= y < |M.col| ==> 0 <= M.col[y] < M.n && 0 <= M.row[y] < |M.cells|)
    && (forall y :: M.n <= y < |M.col| ==> InOwnRow(M, y))
  }

  /** Each row lists data cells of its own in ascending order, with ascending columns. */
  ghost predicate RowLayout(M: Matrix)
    requires CellLayout(M)
  {
    && (forall r, k :: 0 <= r < |M.cells| && 0 <= k < |M.cells[r]|
          ==> M.n <= M.cells[r][k] < |M.col| && M.row[M.cells[r][k]] == r)
    && (forall r, k, l :: 0 <= r < |M.cells| && 0 <= k < l < |M.cells[r]|
          ==> M.cells[r][k] < M.cells[r][l] && M.col[M.cells[r][k]] < M.col[M.cells[r][l]])
  }

  /** Data cell `y` is listed among the cells of its own row. */
  ghost predicate InOwnRow(M: Matrix, y: int)
    requires 0 <= y < |M.row| && 0 <= M.row[y] < |M.cells|
  {
    y in M.cells[M.row[y]]
  }

  /** The columns of row `r`, in the order of its cells. */
  ghost function RowCols(M: Matrix, r: int): (cs: seq<int>)
    requires WellFormed(M) && 0 <= r < |M.cells|
    ensures |cs| == |M.cells[r]|
    ensures forall k :: 0 <= k < |cs| ==> cs[k] == M.col[M.cells[r][k]] && 0 <= cs[k] < M.n
  {
    seq(|M.cells[r]|, k requires 0 <= k < |M.cells[r]| => M.col[M.cells[r][k]])
  }

  ghost predicate RowsIn(M: Matrix, ch: seq<int>)
  {
    forall i :: 0 <= i < |ch| ==> 0 <= ch[i] < |M.cells|
  }

  /** The columns covered by choosing the rows `ch` one after the other. */
  ghost function CoverSeq(M: Matrix, ch: seq<int>): seq<int>
    requires WellFormed(M) && RowsIn(M, ch)
    decreases |ch|
  {
    if ch == [] then [] else CoverSeq(M, ch[..|ch| - 1]) + RowCols(M, ch[|ch| - 1])
  }

  /** Row `r` shares a column with the covered columns `cs`. */
  ghost predicate Hit(M: Matrix, cs: seq<int>, r: int)
    requires WellFormed(M) && 0 <= r < |M.cells|
  {
    exists c :: c in RowCols(M, r) && c in cs
  }

  /** Every chosen row was disjoint from the rows chosen before it. */
  ghost predicate Chosen(M: Matrix, ch: seq<int>)
    requires WellFormed(M)
  {
    && RowsIn(M, ch)
    && forall i :: 0 <= i < |ch| ==> !Hit(M, CoverSeq(M, ch[..i]), ch[i])
  }

  ghost predicate Active(M: Matrix, cs: seq<int>, c: int)
  {
    0 <= c < M.n && c !in cs
  }

  /** The number of active columns below `hi`. */
  ghost function NumActive(M: Matrix, cs: seq<int>, hi: nat): nat
  {
    if hi == 0 then 0 else NumActive(M, cs, hi - 1) + (if Active(M, cs, hi - 1) then 1 else 0)
  }

  /** Cell `y` is a data cell of column `c` whose row is not hit. */
  ghost predicate IsCandidate(M: Matrix, cs: seq<int>, c: int, y: int)
    requires WellFormed(M)
  {
    M.n <= y < |M.col| && M.col[y] == c && !Hit(M, cs, M.row[y])
  }

  /** The number of candidate cells of column `c` below `hi`. */
  ghost function CountUpTo(M: Matrix, cs: seq<int>, c: int, hi: nat): nat
    requires WellFormed(M)
  {
    if hi == 0 then 0 else CountUpTo(M, cs, c, hi - 1) + (if IsCandidate(M, cs, c, hi - 1) then 1 else 0)
  }

  /** The count of column `c`: how many rows can still cover it. */
  ghost function Count(M: Matrix, cs: seq<int>, c: int): nat
    requires WellFormed(M)
  {
    CountUpTo(M, cs, c, |M.col|)
  }

  /**
   * The active column below `hi` that a left-to-right scan keeping the running minimum picks:
   * the first one of least count, or -1 when there is none.
   */
  ghost function SelectUpTo(M: Matrix, cs: seq<int>, hi: nat): int
    requires WellFormed(M)
  {
    if hi == 0 then -1
    else
      var b := SelectUpTo(M, cs, hi - 1);
      if Active(M, cs, hi - 1) && (b == -1 || Count(M, cs, hi - 1) < Count(M, cs, b)) then hi - 1 else b
  }

  // ---------------------------------------------------------------------------
  // What the auxiliary functions mean

  lemma {:induction false} SelectSpec(M: Matrix, cs: seq<int>, hi: int)
    requires 0 <= hi
    requires WellFormed(M)
    ensures SelectUpTo(M, cs, hi) == -1 <==> NumActive(M, cs, hi) == 0
    ensures NumActive(M, cs, hi) == 0 <==> forall c :: 0 <= c < hi ==> !Active(M, cs, c)
    ensures SelectUpTo(M, cs, hi) != -1 ==>
      var s := SelectUpTo(M, cs, hi);
      && s < hi && Active(M, cs, s)
      && (forall c :: 0 <= c < hi && Active(M, cs, c) ==> Count(M, cs, s) <= Count(M, cs, c))
      && (forall c :: 0 <= c < s && Active(M, cs, c) ==> Count(M, cs, s) < Count(M, cs, c))
  {
    if hi > 0 {
      SelectSpec(M, cs, hi - 1);
    }
  }

  /** Covering more columns, one of them active, leaves fewer active columns. */
  lemma {:induction false} ActiveShrinks(M: Matrix, cs: seq<int>, cs': seq<int>, hi: int, c: int)
    requires 0 <= hi
    requires forall x :: x in cs ==> x in cs'
    requires 0 <= c < hi && Active(M, cs, c) && c in cs'
    ensures NumActive(M, cs', hi) < NumActive(M, cs, hi)
  {
    if c < hi - 1 {
      ActiveShrinks(M, cs, cs', hi - 1, c);
    } else {
      ActiveNoGrow(M, cs, cs', hi - 1);
    }
  }

  lemma {:induction false} ActiveNoGrow(M: Matrix, cs: seq<int>, cs': seq<int>, hi: int)
    requires 0 <= hi
    requires forall x :: x in cs ==> x in cs'
    ensures NumActive(M, cs', hi) <= NumActive(M, cs, hi)
  {
    if hi > 0 {
      ActiveNoGrow(M, cs, cs', hi - 1);
    }
  }

  lemma {:induction false} CoverSeqMember(M: Matrix, ch: seq<int>, c: int)
    requires WellFormed(M) && RowsIn(M, ch)
    ensures c in CoverSeq(M, ch) <==> exists i :: 0 <= i < |ch| && c in RowCols(M, ch[i])
    decreases |ch|
  {
    if ch != [] {
      var p, r := ch[..|ch| - 1], ch[|ch| - 1];
      CoverSeqMember(M, p, c);
      assert forall i :: 0 <= i < |p| ==> p[i] == ch[i];
      if c in RowCols(M, r) {
        assert ch[|ch| - 1] == r;
      }
    }
  }

  /** A cell's column is a column of its row. */
  lemma CellColInRow(M: Matrix, y: int)
    requires WellFormed(M) && M.n <= y < |M.col|
    ensures M.col[y] in RowCols(M, M.row[y])
  {
    assert InOwnRow(M, y);
    var k :| 0 <= k < |M.cells[M.row[y]]| && M.cells[M.row[y]][k] == y;
    assert RowCols(M, M.row[y])[k] == M.col[y];
  }

  /** Choosing a row that is not hit extends a valid choice. */
  lemma ChosenExtend(M: Matrix, ch: seq<int>, r: int)
    requires WellFormed(M) && Chosen(M, ch) && 0 <= r < |M.cells| && !Hit(M, CoverSeq(M, ch), r)
    ensures Chosen(M, ch + [r])
    ensures CoverSeq(M, ch + [r]) == CoverSeq(M, ch) + RowCols(M, r)
  {
    var ch' := ch + [r];
    assert ch'[..|ch|] == ch;
    forall i | 0 <= i < |ch'|
      ensures !Hit(M, CoverSeq(M, ch'[..i]), ch'[i])
    {
      if i < |ch| {
        assert ch'[..i] == ch[..i];
      }
    }
  }

  // ---------------------------------------------------------------------------
  // The search tree

  /** A choice of rows that leaves no column active. */
  ghost predicate Complete(M: Matrix, sol: seq<int>)
    requires WellFormed(M)
  {
    Chosen(M, sol) && NumActive(M, CoverSeq(M, sol), M.n) == 0
  }

  /** The complete choices reached from `ch`, in the order the search reaches them. */
  ghost function Leaves(M: Matrix, ch: seq<int>): (ls: seq<seq<int>>)
    requires WellFormed(M) && Chosen(M, ch)
    ensures forall l :: l in ls ==> Complete(M, l) && |ch| <= |l| && l[..|ch|] == ch
    decreases NumActive(M, CoverSeq(M, ch), M.n), 1, 0
  {
    var cs := CoverSeq(M, ch);
    var c := SelectUpTo(M, cs, M.n);
    SelectSpec(M, cs, M.n);
    if c == -1 then [ch] else LeavesUpTo(M, ch, c, |M.col|)
  }

  /** The search state `ch` is valid and branches on the active column `c`. */
  ghost predicate Branching(M: Matrix, ch: seq<int>, c: int)
  {
    WellFormed(M) && Chosen(M, ch) && Active(M, CoverSeq(M, ch), c)
  }

  /** The leaves reached by branching on the candidate cells of column `c` below `hi`, in order. */
  ghost function LeavesUpTo(M: Matrix, ch: seq<int>, c: int, hi: nat): (ls: seq<seq<int>>)
    requires Branching(M, ch, c)
    ensures forall l :: l in ls ==> Complete(M, l) && |ch| <= |l| && l[..|ch|] == ch
    decreases NumActive(M, CoverSeq(M, ch), M.n), 0, hi
  {
    if hi == 0 then []
    else
      var y := hi - 1;
      var before := LeavesUpTo(M, ch, c, hi - 1);
      if IsCandidate(M, CoverSeq(M, ch), c, y) then
        ChildProgress(M, ch, c, y);
        var here := Leaves(M, ch + [M.row[y]]);
        PrefixOfExtension(ch, M.row[y], here);
        before + here
      else
        before
  }

  /** Branching on a candidate cell chooses its row validly and covers at least one more column. */
  lemma ChildProgress(M: Matrix, ch: seq<int>, c: int, y: int)
    requires WellFormed(M) && Chosen(M, ch) && IsCandidate(M, CoverSeq(M, ch), c, y)
    requires Active(M, CoverSeq(M, ch), c)
    ensures Chosen(M, ch + [M.row[y]])
    ensures NumActive(M, CoverSeq(M, ch + [M.row[y]]), M.n) < NumActive(M, CoverSeq(M, ch), M.n)
  {
    var cs := CoverSeq(M, ch);
    CellColInRow(M, y);
    ChosenExtend(M, ch, M.row[y]);
    ActiveShrinks(M, cs, CoverSeq(M, ch + [M.row[y]]), M.n, c);
  }

  lemma PrefixOfExtension(ch: seq<int>, r: int, ls: seq<seq<int>>)
    requires forall l :: l in ls ==> |ch| + 1 <= |l| && l[..|ch| + 1] == ch + [r]
    ensures forall l :: l in ls ==> l[..|ch|] == ch
  {
    forall l | l in ls ensures l[..|ch|] == ch {
      assert l[..|ch|] == l[..|ch| + 1][..|ch|];
    }
  }

  // ---------------------------------------------------------------------------
  // Leaves are exact covers

  ghost predicate Disjoint(a: seq<int>, b: seq<int>)
  {
    forall c :: c in a ==> c !in b
  }

  /** The rows of `sol` are pairwise distinct and column-disjoint, and together cover every column. */
  ghost predicate IsExactCover(M: Matrix, sol: seq<int>)
    requires WellFormed(M)
  {
    && RowsIn(M, sol)
    && (forall i, j :: 0 <= i < j < |sol| ==> sol[i] != sol[j])
    && (forall i, j :: 0 <= i < j < |sol| ==> Disjoint(RowCols(M, sol[i]), RowCols(M, sol[j])))
    && (forall c :: 0 <= c < M.n ==> CoveredBy(M, sol, c))
  }

  /** Some row of `sol` has column `c`. */
  ghost predicate CoveredBy(M: Matrix, sol: seq<int>, c: int)
    requires WellFormed(M) && RowsIn(M, sol)
  {
    exists i :: 0 <= i < |sol| && c in RowCols(M, sol[i])
  }

  /** Every chosen row has at least one cell: the search only chooses rows met in some column. */
  ghost predicate NonEmptyRows(M: Matrix, ch: seq<int>)
    requires RowsIn(M, ch)
  {
    forall i :: 0 <= i < |ch| ==> |M.cells[ch[i]]| > 0
  }

  /** Every choice in `ls` picks only non-empty rows. */
  ghost predicate AllNonEmpty(M: Matrix, ls: seq<seq<int>>)
  {
    forall l :: l in ls ==> RowsIn(M, l) && NonEmptyRows(M, l)
  }

  lemma AllNonEmptyAppend(M: Matrix, a: seq<seq<int>>, b: seq<seq<int>>)
    requires AllNonEmpty(M, a) && AllNonEmpty(M, b)
    ensures AllNonEmpty(M, a + b)
  {
    forall l | l in a + b ensures RowsIn(M, l) && NonEmptyRows(M, l) {
      if l !in a {
        assert l in b;
      }
    }
  }

  /** Every leaf reached from a choice of non-empty rows chooses only non-empty rows. */
  lemma {:induction false} LeavesNonEmpty(M: Matrix, ch: seq<int>)
    requires WellFormed(M) && Chosen(M, ch) && NonEmptyRows(M, ch)
    ensures AllNonEmpty(M, Leaves(M, ch))
    decreases NumActive(M, CoverSeq(M, ch), M.n), 1, 0
  {
    var cs := CoverSeq(M, ch);
    var c := SelectUpTo(M, cs, M.n);
    SelectSpec(M, cs, M.n);
    if c != -1 {
      LeavesUpToNonEmpty(M, ch, c, |M.col|);
    }
  }

  lemma {:induction false} LeavesUpToNonEmpty(M: Matrix, ch: seq<int>, c: int, hi: nat)
    requires Branching(M, ch, c) && NonEmptyRows(M, ch)
    ensures AllNonEmpty(M, LeavesUpTo(M, ch, c, hi))
    decreases NumActive(M, CoverSeq(M, ch), M.n), 0, hi
  {
    if hi > 0 {
      var y := hi - 1;
      var before := LeavesUpTo(M, ch, c, hi - 1);
      LeavesUpToNonEmpty(M, ch, c, hi - 1);
      if IsCandidate(M, CoverSeq(M, ch), c, y) {
        ChildProgress(M, ch, c, y);
        var ch' := ch + [M.row[y]];
        ChosenNonEmpty(M, ch, y);
        LeavesNonEmpty(M, ch');
        AllNonEmptyAppend(M, before, Leaves(M, ch'));
        assert LeavesUpTo(M, ch, c, hi) == before + Leaves(M, ch');
      } else {
        assert LeavesUpTo(M, ch, c, hi) == before;
      }
    } else {
      assert LeavesUpTo(M, ch, c, hi) == [];
    }
  }

  /** Choosing the row of a data cell keeps every chosen row non-empty. */
  lemma ChosenNonEmpty(M: Matrix, ch: seq<int>, y: int)
    requires WellFormed(M) && RowsIn(M, ch) && NonEmptyRows(M, ch) && M.n <= y < |M.col|
    ensures RowsIn(M, ch + [M.row[y]]) && NonEmptyRows(M, ch + [M.row[y]])
  {
    assert InOwnRow(M, y);
    var ch' := ch + [M.row[y]];
    assert forall i :: 0 <= i < |ch| ==> ch'[i] == ch[i];
  }

  lemma CompleteIsExactCover(M: Matrix, sol: seq<int>)
    requires WellFormed(M) && Complete(M, sol) && NonEmptyRows(M, sol)
    ensures IsExactCover(M, sol)
  {
    forall i, j | 0 <= i < j < |sol|
      ensures Disjoint(RowCols(M, sol[i]), RowCols(M, sol[j]))
    {
      assert sol[..j][i] == sol[i];
      forall c | c in RowCols(M, sol[i]) ensures c !in RowCols(M, sol[j]) {
        CoverSeqMember(M, sol[..j], c);
      }
    }
    forall i, j | 0 <= i < j < |sol|
      ensures sol[i] != sol[j]
    {
      assert RowCols(M, sol[i])[0] in RowCols(M, sol[i]);
    }
    SelectSpec(M, CoverSeq(M, sol), M.n);
    forall c | 0 <= c < M.n
      ensures CoveredBy(M, sol, c)
    {
      assert !Active(M, CoverSeq(M, sol), c);
      CoverSeqMember(M, sol, c);
    }
  }

  /** Every leaf of the search from the empty choice is an exact cover. */
  lemma LeavesAreExactCovers(M: Matrix)
    requires WellFormed(M)
    ensures Chosen(M, [])
    ensures forall l :: l in Leaves(M, []) ==> IsExactCover(M, l)
  {
    LeavesNonEmpty(M, []);
    forall l | l in Leaves(M, []) ensures IsExactCover(M, l) {
      assert RowsIn(M, l) && NonEmptyRows(M, l);
      CompleteIsExactCover(M, l);
    }
  }
}

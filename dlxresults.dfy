/**
 * What solve and solveAll return, stated on the row infos themselves.
 *
 * `Problem` is the matrix the constructor lays out from the row infos.  solveAll returns the
 * infos of every complete choice of rows the search reaches, in the order it reaches them, and
 * nothing at all when there are no columns (the search then returns the empty partial solution
 * at the top, which solveAll does not record); solve returns the first of them, or the empty
 * solution when there are no columns.  Every such list picks rows whose occupied columns are
 * pairwise disjoint and together cover every column.
 */
module DlxResults {
  import opened Options
  import opened ExactCover
  import opened DlxBuild
  import opened DlxSearch

  /** The matrix the constructor builds: one row per present info, in order. */
  ghost function Problem<T>(rowInfo: seq<Option<T>>, n: nat, occ: (T, int) -> bool): (M: Matrix)
    ensures WellFormed(M) && M.n == n && |M.cells| == |Truthy(rowInfo)| && Chosen(M, [])
  {
    LayoutWellFormed(n, Truthy(rowInfo), occ);
    Layout(n, Truthy(rowInfo), occ)
  }

  /** What solveAll returns. */
  ghost function AllSolutions<T>(rowInfo: seq<Option<T>>, n: nat, occ: (T, int) -> bool): seq<seq<T>>
  {
    var M := Problem(rowInfo, n, occ);
    if n == 0 then [] else Found(Truthy(rowInfo), M, Leaves(M, []))
  }

  /** What solve returns. */
  ghost function FirstSolution<T>(rowInfo: seq<Option<T>>, n: nat, occ: (T, int) -> bool): Option<seq<T>>
  {
    var M := Problem(rowInfo, n, occ);
    FirstFound(Truthy(rowInfo), M, Leaves(M, []))
  }

  /**
   * The rows `sol` of `infos` solve the exact cover problem over the columns 0..n-1: no row is
   * chosen twice, no two of them occupy a common column, and every column is occupied by one of them.
   */
  ghost predicate CoverOf<T>(infos: seq<T>, n: nat, occ: (T, int) -> bool, sol: seq<int>)
  {
    && (forall i :: 0 <= i < |sol| ==> 0 <= sol[i] < |infos|)
    && (forall i, j :: 0 <= i < j < |sol| ==> sol[i] != sol[j])
    && (forall i, j, c :: 0 <= i < j < |sol| && 0 <= c < n && occ(infos[sol[i]], c) ==> !occ(infos[sol[j]], c))
    && (forall c :: 0 <= c < n ==> CoveredIn(infos, occ, sol, c))
  }

  /** Some row of `sol` occupies column `c`. */
  ghost predicate CoveredIn<T>(infos: seq<T>, occ: (T, int) -> bool, sol: seq<int>, c: int)
    requires forall i :: 0 <= i < |sol| ==> 0 <= sol[i] < |infos|
  {
    exists i :: 0 <= i < |sol| && occ(infos[sol[i]], c)
  }

  // ---------------------------------------------------------------------------
  // The empty problem

  /** With no covered column, every column is active. */
  lemma {:induction false} NumActiveNone(M: Matrix, hi: int)
    requires 0 <= hi <= M.n
    ensures NumActive(M, [], hi) == hi
    decreases hi
  {
    if hi > 0 {
      NumActiveNone(M, hi - 1);
    }
  }

  /** The empty choice is complete exactly when there are no columns. */
  lemma EmptyComplete(M: Matrix)
    requires WellFormed(M)
    ensures Complete(M, []) <==> M.n == 0
  {
    NumActiveNone(M, M.n);
  }

  /** Edge case: with no columns, solve returns the empty solution and solveAll returns none. */
  lemma NoColumns<T>(rowInfo: seq<Option<T>>, occ: (T, int) -> bool)
    ensures FirstSolution(rowInfo, 0, occ) == Some([])
    ensures AllSolutions(rowInfo, 0, occ) == []
  {
    var M := Problem(rowInfo, 0, occ);
    EmptyComplete(M);
    LeafFound(Truthy(rowInfo), M, []);
  }

  // ---------------------------------------------------------------------------
  // solve and solveAll agree

  lemma {:induction false} FirstOfFound<T>(info: seq<T>, M: Matrix, ls: seq<seq<int>>)
    requires WellFormed(M) && |info| == |M.cells|
    requires forall l :: l in ls ==> Complete(M, l)
    ensures FirstFound(info, M, ls) == if ls == [] then None else Some(Found(info, M, ls)[0])
  {
    if ls != [] {
      assert ls[0] in ls;
    }
  }

  /** With at least one column, solve returns the first solution solveAll returns, and None when it returns none. */
  lemma SolveIsFirst<T>(rowInfo: seq<Option<T>>, n: nat, occ: (T, int) -> bool)
    requires n > 0
    ensures FirstSolution(rowInfo, n, occ)
         == if AllSolutions(rowInfo, n, occ) == [] then None else Some(AllSolutions(rowInfo, n, occ)[0])
  {
    var M := Problem(rowInfo, n, occ);
    FirstOfFound(Truthy(rowInfo), M, Leaves(M, []));
  }

  // ---------------------------------------------------------------------------
  // Every solution solves the exact cover problem

  /** Every member of `Found(info, M, ls)` is the infos of one of the choices `ls`. */
  lemma {:induction false} FoundMember<T>(info: seq<T>, M: Matrix, ls: seq<seq<int>>, s: seq<T>)
    requires WellFormed(M) && |info| == |M.cells|
    requires forall l :: l in ls ==> Complete(M, l)
    requires s in Found(info, M, ls)
    ensures exists l :: l in ls && RowsIn(M, l) && s == InfosOf(info, l)
    decreases |ls|
  {
    assert ls[0] in ls;
    if s != InfosOf(info, ls[0]) {
      FoundMember(info, M, ls[1..], s);
      var l :| l in ls[1..] && RowsIn(M, l) && s == InfosOf(info, l);
      assert l in ls;
    }
  }

  /** An exact cover of the layout is a cover of the infos' occupied columns. */
  lemma ExactCoverIsCover<T>(infos: seq<T>, n: nat, occ: (T, int) -> bool, sol: seq<int>)
    requires WellFormed(Layout(n, infos, occ)) && IsExactCover(Layout(n, infos, occ), sol)
    ensures CoverOf(infos, n, occ, sol)
  {
    var M := Layout(n, infos, occ);
    LayoutWellFormed(n, infos, occ);
    forall i | 0 <= i < |sol| ensures RowCols(M, sol[i]) == Occupied(infos[sol[i]], occ, n) {
      LayoutRowCols(n, infos, occ, sol[i]);
    }
    forall i, j, c | 0 <= i < j < |sol| && 0 <= c < n && occ(infos[sol[i]], c)
      ensures !occ(infos[sol[j]], c)
    {
      assert c in RowCols(M, sol[i]);
      assert Disjoint(RowCols(M, sol[i]), RowCols(M, sol[j]));
    }
    forall c | 0 <= c < n ensures CoveredIn(infos, occ, sol, c) {
      assert CoveredBy(M, sol, c);
      var i :| 0 <= i < |sol| && c in RowCols(M, sol[i]);
      assert occ(infos[sol[i]], c);
    }
  }

  /** Every list solveAll returns picks the infos of rows that solve the exact cover problem. */
  lemma AllSolutionsCover<T>(rowInfo: seq<Option<T>>, n: nat, occ: (T, int) -> bool, s: seq<T>)
    requires s in AllSolutions(rowInfo, n, occ)
    ensures exists sol :: CoverOf(Truthy(rowInfo), n, occ, sol) && RowsIn(Problem(rowInfo, n, occ), sol)
                          && s == InfosOf(Truthy(rowInfo), sol)
  {
    var M, infos := Problem(rowInfo, n, occ), Truthy(rowInfo);
    FoundMember(infos, M, Leaves(M, []), s);
    var l :| l in Leaves(M, []) && RowsIn(M, l) && s == InfosOf(infos, l);
    LeavesAreExactCovers(M);
    ExactCoverIsCover(infos, n, occ, l);
  }

  /** The list solve returns, when it returns one, picks the infos of rows that solve the problem. */
  lemma FirstSolutionCovers<T>(rowInfo: seq<Option<T>>, n: nat, occ: (T, int) -> bool)
    requires FirstSolution(rowInfo, n, occ).Some?
    ensures exists sol :: CoverOf(Truthy(rowInfo), n, occ, sol) && RowsIn(Problem(rowInfo, n, occ), sol)
                          && FirstSolution(rowInfo, n, occ).value == InfosOf(Truthy(rowInfo), sol)
  {
    var M, infos := Problem(rowInfo, n, occ), Truthy(rowInfo);
    var ls := Leaves(M, []);
    assert ls[0] in ls;
    LeavesAreExactCovers(M);
    ExactCoverIsCover(infos, n, occ, ls[0]);
  }
}

/**
 * What the DLX constructor builds, stated on values.
 *
 * createHeaders makes the header ring 0 -> 1 -> ... -> n -> 0 (node 0 being the column list) and
 * one self-linked root cell per column; createRows drops the falsy row infos and, row by row and
 * column by column, appends a cell at the tail of each occupied column's ring.  `Layout` is the
 * resulting matrix: cell ids grow in creation order, so each column's ring lists its cells in row
 * order.
 */
module DlxBuild {
  import opened Options
  import opened Rings
  import opened ExactCover
  import opened DlxState
  import opened DlxProofs

  /** `rowInfo.filter(x => x)`: the infos that are present, in order. */
  function Truthy<T>(xs: seq<Option<T>>): seq<T>
    decreases |xs|
  {
    if xs == [] then []
    else Truthy(xs[..|xs| - 1]) + (match xs[|xs| - 1] case Some(v) => [v] case None => [])
  }

  lemma {:induction false} TruthyMember<T>(xs: seq<Option<T>>, v: T)
    ensures v in Truthy(xs) <==> Some(v) in xs
    decreases |xs|
  {
    if xs != [] {
      var p := xs[..|xs| - 1];
      TruthyMember(p, v);
      assert xs == p + [xs[|xs| - 1]];
    }
  }

  /** The columns below `hi` that `info` occupies, in increasing order. */
  function Occupied<T>(info: T, occ: (T, int) -> bool, hi: nat): (cs: seq<int>)
    ensures forall c :: c in cs <==> 0 <= c < hi && occ(info, c)
    ensures forall i :: 0 <= i < |cs| ==> 0 <= cs[i] < hi
    ensures forall i, j :: 0 <= i < j < |cs| ==> cs[i] < cs[j]
    decreases hi
  {
    if hi == 0 then [] else Occupied(info, occ, hi - 1) + (if occ(info, hi - 1) then [hi - 1] else [])
  }

  /** The number of infos that occupy column `c`. */
  function Occupying<T>(infos: seq<T>, occ: (T, int) -> bool, c: int): nat
    decreases |infos|
  {
    if infos == [] then 0
    else Occupying(infos[..|infos| - 1], occ, c) + (if occ(infos[|infos| - 1], c) then 1 else 0)
  }

  /** The matrix right after createHeaders: the n column roots and no rows. */
  function Roots(n: nat): Matrix
  {
    Matrix(n, seq(n, y => y), seq(n, _ => -1), [])
  }

  /** The matrix after appending one row whose cells lie in the columns `cols`, in that order. */
  function AddRow(M: Matrix, cols: seq<int>): Matrix
  {
    Matrix(M.n, M.col + cols, M.row + seq(|cols|, _ => |M.cells|), M.cells + [seq(|cols|, k => |M.col| + k)])
  }

  /** The matrix createRows builds from the (already filtered) infos. */
  function Layout<T>(n: nat, infos: seq<T>, occ: (T, int) -> bool): Matrix
    decreases |infos|
  {
    if infos == [] then Roots(n)
    else AddRow(Layout(n, infos[..|infos| - 1], occ), Occupied(infos[|infos| - 1], occ, n))
  }

  // ---------------------------------------------------------------------------
  // The layout is a well-formed matrix whose rows have the occupied columns

  /** The new row's columns are increasing columns of the matrix. */
  ghost predicate RowShape(M: Matrix, cols: seq<int>)
  {
    && (forall i :: 0 <= i < |cols| ==> 0 <= cols[i] < M.n)
    && (forall i, j :: 0 <= i < j < |cols| ==> cols[i] < cols[j])
  }

  lemma AddRowCells(M: Matrix, cols: seq<int>)
    requires WellFormed(M) && RowShape(M, cols)
    ensures var M' := AddRow(M, cols);
      forall y :: M.n <= y < |M'.col| ==> 0 <= M'.col[y] < M.n && 0 <= M'.row[y] < |M'.cells| && InOwnRow(M', y)
  {
    var M' := AddRow(M, cols);
    var base := |M.col|;
    var added := seq(|cols|, k => base + k);
    assert M'.cells[|M.cells|] == added;
    forall y | M.n <= y < |M'.col|
      ensures 0 <= M'.col[y] < M.n && 0 <= M'.row[y] < |M'.cells| && InOwnRow(M', y)
    {
      if y >= base {
        assert M'.col[y] == cols[y - base] && M'.row[y] == |M.cells| && added[y - base] == y;
      } else {
        assert InOwnRow(M, y);
        assert M'.col[y] == M.col[y] && M'.row[y] == M.row[y] && M'.cells[M.row[y]] == M.cells[M.row[y]];
      }
    }
  }

  lemma AddRowRows(M: Matrix, cols: seq<int>)
    requires WellFormed(M) && RowShape(M, cols)
    ensures var M' := AddRow(M, cols);
      forall r, k :: 0 <= r < |M'.cells| && 0 <= k < |M'.cells[r]|
        ==> M.n <= M'.cells[r][k] < |M'.col| && M'.row[M'.cells[r][k]] == r
  {
    var M' := AddRow(M, cols);
    forall r, k | 0 <= r < |M'.cells| && 0 <= k < |M'.cells[r]|
      ensures M.n <= M'.cells[r][k] < |M'.col| && M'.row[M'.cells[r][k]] == r
    {
      if r < |M.cells| {
        assert M'.cells[r] == M.cells[r];
        assert M'.row[M.cells[r][k]] == M.row[M.cells[r][k]];
      } else {
        assert M'.cells[r][k] == |M.col| + k;
      }
    }
  }

  lemma AddRowOrder(M: Matrix, cols: seq<int>)
    requires WellFormed(M) && RowShape(M, cols)
    ensures var M' := AddRow(M, cols);
      forall r, k, l :: 0 <= r < |M'.cells| && 0 <= k < l < |M'.cells[r]|
        ==> M'.cells[r][k] < M'.cells[r][l] && M'.col[M'.cells[r][k]] < M'.col[M'.cells[r][l]]
  {
    var M' := AddRow(M, cols);
    forall r, k, l | 0 <= r < |M'.cells| && 0 <= k < l < |M'.cells[r]|
      ensures M'.cells[r][k] < M'.cells[r][l] && M'.col[M'.cells[r][k]] < M'.col[M'.cells[r][l]]
    {
      if r < |M.cells| {
        assert M'.cells[r] == M.cells[r];
        assert M'.col[M.cells[r][k]] == M.col[M.cells[r][k]];
        assert M'.col[M.cells[r][l]] == M.col[M.cells[r][l]];
      } else {
        assert M'.cells[r][k] == |M.col| + k && M'.cells[r][l] == |M.col| + l;
        assert M'.col[|M.col| + k] == cols[k] && M'.col[|M.col| + l] == cols[l];
      }
    }
  }

  lemma AddRowWellFormed(M: Matrix, cols: seq<int>)
    requires WellFormed(M) && RowShape(M, cols)
    ensures WellFormed(AddRow(M, cols))
  {
    var M' := AddRow(M, cols);
    AddRowCells(M, cols);
    AddRowRows(M, cols);
    AddRowOrder(M, cols);
    assert forall y :: 0 <= y < M.n ==> M'.col[y] == M.col[y];
  }

  lemma AddRowOldCols(M: Matrix, cols: seq<int>, r: int)
    requires WellFormed(M) && WellFormed(AddRow(M, cols)) && 0 <= r < |M.cells|
    ensures RowCols(AddRow(M, cols), r) == RowCols(M, r)
  {
    var M' := AddRow(M, cols);
    assert M'.cells[r] == M.cells[r];
    forall k | 0 <= k < |M.cells[r]| ensures RowCols(M', r)[k] == RowCols(M, r)[k] {
      assert M'.col[M.cells[r][k]] == M.col[M.cells[r][k]];
    }
  }

  lemma AddRowNewCols(M: Matrix, cols: seq<int>)
    requires WellFormed(M) && WellFormed(AddRow(M, cols))
    ensures RowCols(AddRow(M, cols), |M.cells|) == cols
  {
    var M' := AddRow(M, cols);
    forall k | 0 <= k < |cols| ensures RowCols(M', |M.cells|)[k] == cols[k] {
      assert M'.cells[|M.cells|][k] == |M.col| + k;
    }
  }

  lemma {:induction false} LayoutWellFormed<T>(n: int, infos: seq<T>, occ: (T, int) -> bool)
    requires 0 <= n
    ensures WellFormed(Layout(n, infos, occ))
    ensures Layout(n, infos, occ).n == n && |Layout(n, infos, occ).cells| == |infos|
    decreases |infos|
  {
    if infos != [] {
      var p := infos[..|infos| - 1];
      LayoutWellFormed(n, p, occ);
      AddRowWellFormed(Layout(n, p, occ), Occupied(infos[|infos| - 1], occ, n));
    }
  }

  /** Row `r` of the layout has exactly the columns below `n` that `infos[r]` occupies. */
  lemma {:induction false} LayoutRowCols<T>(n: int, infos: seq<T>, occ: (T, int) -> bool, r: int)
    requires 0 <= n
    requires 0 <= r < |infos|
    ensures WellFormed(Layout(n, infos, occ)) && |Layout(n, infos, occ).cells| == |infos|
    ensures RowCols(Layout(n, infos, occ), r) == Occupied(infos[r], occ, n)
    decreases |infos|
  {
    LayoutWellFormed(n, infos, occ);
    var p := infos[..|infos| - 1];
    LayoutWellFormed(n, p, occ);
    var cols := Occupied(infos[|infos| - 1], occ, n);
    AddRowWellFormed(Layout(n, p, occ), cols);
    if r < |p| {
      LayoutRowCols(n, p, occ, r);
      AddRowOldCols(Layout(n, p, occ), cols, r);
      assert infos[r] == p[r];
    } else {
      AddRowNewCols(Layout(n, p, occ), cols);
    }
  }

  /** The nodes 0..k-1. */
  function AllBelow(k: nat): (p: set<int>)
    ensures forall y :: y in p <==> 0 <= y < k
    decreases k
  {
    if k == 0 then {} else AllBelow(k - 1) + {k - 1}
  }

  /** The header ring in index order. */
  function HeaderRight(n: nat): (r: seq<int>)
    ensures |r| == n + 1
  {
    seq(n + 1, x => if x == n then 0 else x + 1)
  }

  function HeaderLeft(n: nat): (r: seq<int>)
    ensures |r| == n + 1
  {
    seq(n + 1, x => if x == 0 then n else x - 1)
  }

  lemma HeaderNextAt(n: int, y: int)
    requires 0 <= n
    requires 0 <= y <= n
    ensures IsNext(HRoot(n), AllBelow(n + 1), y, HeaderRight(n)[y])
  {
    var root, p := HRoot(n), AllBelow(n + 1);
    if y == n {
      assert forall w :: InRing(root, p, y, w) ==> w <= y;
    }
  }

  lemma HeaderPrevAt(n: int, y: int)
    requires 0 <= n
    requires 0 <= y <= n
    ensures IsNext(HRoot(n), AllBelow(n + 1), HeaderLeft(n)[y], y)
  {
    var root, p := HRoot(n), AllBelow(n + 1);
    if y == 0 {
      assert forall w :: InRing(root, p, n, w) ==> w <= n;
    }
  }

  /** The header ring of createHeaders links every header, in index order. */
  lemma HeaderRingIdeal(n: int)
    requires 0 <= n
    ensures Ideal(HRoot(n), AllBelow(n + 1), Links(HeaderRight(n), HeaderLeft(n)))
  {
    var s := Links(HeaderRight(n), HeaderLeft(n));
    assert InRange(s, n + 1);
    forall y | y in AllBelow(n + 1) ensures IsNext(HRoot(n), AllBelow(n + 1), y, s.next[y]) {
      HeaderNextAt(n, y);
    }
    forall y | y in AllBelow(n + 1) ensures IsNext(HRoot(n), AllBelow(n + 1), s.prev[y], y) {
      HeaderPrevAt(n, y);
    }
  }

  /** Every ring of self-linked roots is ideal. */
  lemma RootRingsIdeal(n: int)
    requires 0 <= n
    ensures Rooted(seq(n, y => y))
    ensures Ideal(seq(n, y => y), AllBelow(n), Links(seq(n, y => y), seq(n, y => y)))
  {
    var root := seq(n, y => y);
    var p := AllBelow(n);
    forall y | y in p ensures IsNext(root, p, y, y) {
      assert forall w :: InRing(root, p, y, w) ==> w == y;
    }
  }

  /** A ring family with every node present keeps each link inside its ring. */
  lemma IdealAllSameRing(root: seq<int>, s: Links)
    requires Ideal(root, AllBelow(|root|), s)
    ensures SameRing(root, s)
  {
    var p := AllBelow(|root|);
    forall y | 0 <= y < |root| ensures root[s.next[y]] == root[y] && root[s.prev[y]] == root[y] {
      assert y in p;
      assert IsNext(root, p, y, s.next[y]) && IsNext(root, p, s.prev[y], y);
    }
  }

  lemma {:induction false} PresentBelowPrefix(M: Matrix, M': Matrix, det: seq<bool>, det': seq<bool>, c: int, hi: int)
    requires 0 <= hi
    requires M'.n == M.n && hi <= |M.col| <= |M'.col| && |det| == |M.col| && |det'| == |M'.col|
    requires M'.col[..|M.col|] == M.col && det'[..|det|] == det
    ensures PresentBelow(M', det', c, hi) == PresentBelow(M, det, c, hi)
    decreases hi
  {
    if hi > 0 {
      PresentBelowPrefix(M, M', det, det', c, hi - 1);
      assert M'.col[hi - 1] == M'.col[..|M.col|][hi - 1];
      assert det'[hi - 1] == det'[..|det|][hi - 1];
    }
  }

  /** The state the constructor leaves satisfies the search invariant with nothing covered. */
  lemma InitialValid(M: Matrix, m: Mat)
    requires WellFormed(M) && |m.count| == M.n && |m.detached| == |M.col|
    requires Ideal(M.col, AllBelow(|M.col|), m.v)
    requires m.h == Links(HeaderRight(M.n), HeaderLeft(M.n))
    requires forall y :: 0 <= y < |M.col| ==> !m.detached[y]
    requires forall c :: 0 <= c < M.n ==> m.count[c] == PresentBelow(M, m.detached, c, |M.col|)
    ensures Valid(M, m, [])
  {
    HeaderRingIdeal(M.n);
    assert HPresent(M, []) == AllBelow(M.n + 1);
    assert Present(M, m) == AllBelow(|M.col|);
    IdealAllSameRing(M.col, m.v);
    assert InRange(m.h, M.n + 1);
  }

  // ---------------------------------------------------------------------------
  // The constructor's loops

  /** createHeaders' loop body appends header `i + 1` at the tail of the header ring. */
  lemma HeaderAppend(i: int)
    requires 0 <= i
    ensures Append(Links(HeaderRight(i), HeaderLeft(i)), 0) == Links(HeaderRight(i + 1), HeaderLeft(i + 1))
  {
    var r := Append(Links(HeaderRight(i), HeaderLeft(i)), 0);
    assert HeaderLeft(i)[0] == i;
    assert r.next == HeaderRight(i + 1);
    assert r.prev == HeaderLeft(i + 1);
  }

  /** The number of occurrences of `c` in `s`. */
  function Tally(s: seq<int>, c: int): nat
    decreases |s|
  {
    if s == [] then 0 else Tally(s[..|s| - 1], c) + (if s[|s| - 1] == c then 1 else 0)
  }

  lemma TallySnoc(s: seq<int>, v: int, c: int)
    ensures Tally(s + [v], c) == Tally(s, c) + (if v == c then 1 else 0)
  {
    assert (s + [v])[..|s|] == s;
  }

  /** A strictly increasing sequence holds each value at most once. */
  lemma {:induction false} TallyIncreasing(s: seq<int>, c: int)
    requires forall i, j :: 0 <= i < j < |s| ==> s[i] < s[j]
    ensures Tally(s, c) == if c in s then 1 else 0
    decreases |s|
  {
    if s != [] {
      var p, v := s[..|s| - 1], s[|s| - 1];
      assert s == p + [v];
      TallyIncreasing(p, c);
      assert c in s <==> c in p || c == v;
      if c == v {
        assert c !in p by {
          forall i | 0 <= i < |p| ensures p[i] != c {
            assert s[i] < s[|s| - 1];
          }
        }
      }
    }
  }

  /** An info's row holds a cell in column `c` exactly when the info occupies `c`. */
  lemma TallyOccupied<T>(info: T, occ: (T, int) -> bool, hi: int, c: int)
    requires 0 <= hi
    ensures Tally(Occupied(info, occ, hi), c) == if 0 <= c < hi && occ(info, c) then 1 else 0
  {
    TallyIncreasing(Occupied(info, occ, hi), c);
  }

  /** The cells of an appended row below `|M.col| + j` add the occurrences of `c` among its first `j` columns. */
  lemma {:induction false} PresentBelowAddRow(M: Matrix, cols: seq<int>, c: int, j: int)
    requires WellFormed(M) && 0 <= j <= |cols|
    ensures PresentBelow(AddRow(M, cols), seq(|M.col| + |cols|, _ => false), c, |M.col| + j)
         == PresentBelow(M, seq(|M.col|, _ => false), c, |M.col|) + Tally(cols[..j], c)
    decreases j
  {
    var A := AddRow(M, cols);
    var F, F' := seq(|M.col|, _ => false), seq(|M.col| + |cols|, _ => false);
    if j == 0 {
      assert A.col[..|M.col|] == M.col && F'[..|F|] == F;
      PresentBelowPrefix(M, A, F, F', c, |M.col|);
      assert cols[..0] == [];
    } else {
      PresentBelowAddRow(M, cols, c, j - 1);
      assert A.col[|M.col| + j - 1] == cols[j - 1];
      assert PresentBelow(A, F', c, |M.col| + j)
          == PresentBelow(A, F', c, |M.col| + j - 1) + (if cols[j - 1] == c then 1 else 0);
      assert cols[..j] == cols[..j - 1] + [cols[j - 1]];
      TallySnoc(cols[..j - 1], cols[j - 1], c);
    }
  }

  /** Each column of the layout has one data cell per info that occupies it. */
  lemma {:induction false} LayoutCount<T>(n: int, infos: seq<T>, occ: (T, int) -> bool, c: int)
    requires 0 <= n
    ensures PresentBelow(Layout(n, infos, occ), seq(|Layout(n, infos, occ).col|, _ => false), c, |Layout(n, infos, occ).col|)
         == if 0 <= c < n then Occupying(infos, occ, c) else 0
    decreases |infos|
  {
    var M := Layout(n, infos, occ);
    if infos == [] {
      assert PresentBelow(M, seq(n, _ => false), c, n) == 0 by {
        ZeroBelowRoots(M, seq(n, _ => false), c, n);
      }
    } else {
      var p := infos[..|infos| - 1];
      var cols := Occupied(infos[|infos| - 1], occ, n);
      LayoutWellFormed(n, p, occ);
      LayoutCount(n, p, occ, c);
      PresentBelowAddRow(Layout(n, p, occ), cols, c, |cols|);
      assert cols[..|cols|] == cols;
      TallyOccupied(infos[|infos| - 1], occ, n, c);
    }
  }

  /** No data cell lies below the roots. */
  lemma {:induction false} ZeroBelowRoots(M: Matrix, det: seq<bool>, c: int, hi: int)
    requires |det| == |M.col| && 0 <= hi <= |M.col| && hi <= M.n
    ensures PresentBelow(M, det, c, hi) == 0
    decreases hi
  {
    if hi > 0 {
      ZeroBelowRoots(M, det, c, hi - 1);
    }
  }

  /**
   * createRows after its first `i` rows: the arena is the layout of those rows, every column ring
   * links its cells in creation order, each count is the number of those rows occupying its
   * column, and no cell is detached.
   */
  ghost predicate Built<T>(n: nat, infos: seq<T>, occ: (T, int) -> bool, i: int,
                           col: seq<int>, row: seq<int>, cells: seq<seq<int>>,
                           v: Links, count: seq<int>, det: seq<bool>)
  {
    && 0 <= i <= |infos|
    && Matrix(n, col, row, cells) == Layout(n, infos[..i], occ)
    && Rooted(col) && Ideal(col, AllBelow(|col|), v)
    && |count| == n && (forall k :: 0 <= k < n ==> count[k] == Occupying(infos[..i], occ, k))
    && det == seq(|col|, _ => false)
  }

  /**
   * createRows inside row `i`, once the columns below `c` are scanned: the new row's cells so far
   * (`rowCells`) are those of its occupied columns below `c`, each appended to its column.
   */
  ghost predicate Building<T>(n: nat, infos: seq<T>, occ: (T, int) -> bool, i: int, c: int,
                              col: seq<int>, row: seq<int>, cells: seq<seq<int>>, rowCells: seq<int>,
                              v: Links, count: seq<int>, det: seq<bool>)
  {
    && 0 <= i < |infos| && 0 <= c <= n
    && cells == Layout(n, infos[..i], occ).cells
    && Matrix(n, col, row, cells + [rowCells]) == AddRow(Layout(n, infos[..i], occ), Occupied(infos[i], occ, c))
    && Rooted(col) && Ideal(col, AllBelow(|col|), v)
    && |count| == n
    && (forall k :: 0 <= k < n ==> count[k] == Occupying(infos[..i], occ, k) + (if k < c && occ(infos[i], k) then 1 else 0))
    && det == seq(|col|, _ => false)
  }

  /** Before the first row: the roots the headers own, each a ring of its own, with count 0. */
  lemma BuiltStart<T>(n: nat, infos: seq<T>, occ: (T, int) -> bool)
    ensures Built(n, infos, occ, 0, seq(n, y => y), seq(n, _ => -1), [],
                  Links(seq(n, y => y), seq(n, y => y)), seq(n, _ => 0), seq(n, _ => false))
  {
    assert infos[..0] == [];
    RootRingsIdeal(n);
  }

  lemma BuildingStart<T>(n: nat, infos: seq<T>, occ: (T, int) -> bool, i: int,
                         col: seq<int>, row: seq<int>, cells: seq<seq<int>>,
                         v: Links, count: seq<int>, det: seq<bool>)
    requires Built(n, infos, occ, i, col, row, cells, v, count, det) && i < |infos|
    ensures Building(n, infos, occ, i, 0, col, row, cells, [], v, count, det)
  {
    var L := Layout(n, infos[..i], occ);
    assert Occupied(infos[i], occ, 0) == [];
    assert AddRow(L, []).col == L.col && AddRow(L, []).row == L.row;
    assert |AddRow(L, []).cells[|L.cells|]| == 0;
    assert AddRow(L, []).cells == L.cells + [[]];
  }

  /** A column the row does not occupy adds nothing. */
  lemma BuildingSkip<T>(n: nat, infos: seq<T>, occ: (T, int) -> bool, i: int, c: int,
                        col: seq<int>, row: seq<int>, cells: seq<seq<int>>, rowCells: seq<int>,
                        v: Links, count: seq<int>, det: seq<bool>)
    requires Building(n, infos, occ, i, c, col, row, cells, rowCells, v, count, det)
    requires c < n && !occ(infos[i], c)
    ensures Building(n, infos, occ, i, c + 1, col, row, cells, rowCells, v, count, det)
  {
    assert Occupied(infos[i], occ, c + 1) == Occupied(infos[i], occ, c) + [];
  }

  /** `AddRow` with one more column: one more cell, in that column and in the new row. */
  lemma AddRowSnoc(L: Matrix, cols: seq<int>, c: int, col: seq<int>, row: seq<int>, rowCells: seq<int>)
    requires Matrix(L.n, col, row, L.cells + [rowCells]) == AddRow(L, cols)
    ensures Matrix(L.n, col + [c], row + [|L.cells|], L.cells + [rowCells + [|col|]]) == AddRow(L, cols + [c])
  {
    var A, A' := AddRow(L, cols), AddRow(L, cols + [c]);
    assert A.cells[|L.cells|] == rowCells;
    assert A'.col == col + [c];
    assert A'.row == row + [|L.cells|];
    assert A'.cells[|L.cells|] == rowCells + [|col|];
    assert A'.cells == L.cells + [rowCells + [|col|]];
  }

  /** An occupied column gets a new cell at the tail of its ring and one more in its count. */
  lemma BuildingCell<T>(n: nat, infos: seq<T>, occ: (T, int) -> bool, i: int, c: int,
                        col: seq<int>, row: seq<int>, cells: seq<seq<int>>, rowCells: seq<int>,
                        v: Links, count: seq<int>, det: seq<bool>)
    requires Building(n, infos, occ, i, c, col, row, cells, rowCells, v, count, det)
    requires c < n && occ(infos[i], c)
    ensures c < |col| && c < |v.prev| && 0 <= v.prev[c] < |v.next|
    ensures Building(n, infos, occ, i, c + 1, col + [c], row + [|cells|], cells, rowCells + [|col|],
                     Append(v, c), count[c := count[c] + 1], det + [false])
  {
    var L := Layout(n, infos[..i], occ);
    var cols := Occupied(infos[i], occ, c);
    LayoutWellFormed(n, infos[..i], occ);
    assert Occupied(infos[i], occ, c + 1) == cols + [c];
    AddRowSnoc(L, cols, c, col, row, rowCells);
    assert col[c] == c by {
      AddRowWellFormed(L, cols);
    }
    RingAppend(col, v, c);
    FalsesSnoc(col, det, c);
    CountBump(n, infos, occ, i, c, count);
  }

  /** The count step of createRows: the occupied column `c` counts the new row. */
  lemma CountBump<T>(n: nat, infos: seq<T>, occ: (T, int) -> bool, i: int, c: int, count: seq<int>)
    requires 0 <= i < |infos| && 0 <= c < n && occ(infos[i], c) && |count| == n
    requires forall k :: 0 <= k < n ==> count[k] == Occupying(infos[..i], occ, k) + (if k < c && occ(infos[i], k) then 1 else 0)
    ensures forall k :: 0 <= k < n ==>
      count[c := count[c] + 1][k] == Occupying(infos[..i], occ, k) + (if k < c + 1 && occ(infos[i], k) then 1 else 0)
  {
  }

  /** The ring step of createRows: a new cell at the tail of the ring of root `c`. */
  lemma RingAppend(col: seq<int>, v: Links, c: int)
    requires Rooted(col) && Ideal(col, AllBelow(|col|), v) && 0 <= c < |col| && col[c] == c
    ensures Rooted(col + [c]) && Ideal(col + [c], AllBelow(|col + [c]|), Append(v, c))
  {
    AppendIdeal(col, AllBelow(|col|), v, c);
    assert AllBelow(|col|) + {|col|} == AllBelow(|col + [c]|);
  }

  lemma FalsesSnoc(col: seq<int>, det: seq<bool>, c: int)
    requires det == seq(|col|, _ => false)
    ensures det + [false] == seq(|col + [c]|, _ => false)
  {
  }

  /** The end of a row: it joins the rows, and the layout grows by it. */
  lemma BuildingEnd<T>(n: nat, infos: seq<T>, occ: (T, int) -> bool, i: int,
                       col: seq<int>, row: seq<int>, cells: seq<seq<int>>, rowCells: seq<int>,
                       v: Links, count: seq<int>, det: seq<bool>)
    requires Building(n, infos, occ, i, n, col, row, cells, rowCells, v, count, det)
    ensures Built(n, infos, occ, i + 1, col, row, cells + [rowCells], v, count, det)
  {
    assert infos[..i + 1][..i] == infos[..i] && infos[..i + 1][i] == infos[i];
    forall k | 0 <= k < n ensures count[k] == Occupying(infos[..i + 1], occ, k) { }
  }

  /** After the last row: the layout of all rows. */
  lemma BuiltEnd<T>(n: nat, infos: seq<T>, occ: (T, int) -> bool,
                    col: seq<int>, row: seq<int>, cells: seq<seq<int>>,
                    v: Links, count: seq<int>, det: seq<bool>)
    requires Built(n, infos, occ, |infos|, col, row, cells, v, count, det)
    ensures Matrix(n, col, row, cells) == Layout(n, infos, occ)
    ensures forall k :: 0 <= k < n ==> count[k] == Occupying(infos, occ, k)
  {
    assert infos[..|infos|] == infos;
  }
}

/**
 * The Kanoodle class: a puzzle as an exact cover problem, and its solutions.
 *
 * findSolution and findAllSolutions build one Piece per description, every placement of the
 * pieces on a `W` x `H` grid (createSearchRows), and hand the placements to the exact cover
 * solver over `W * H + P` columns for `P` pieces: one column per grid cell, then one per piece.
 * A solution therefore covers every cell exactly once and uses every piece exactly once.
 * findSolution renders the first solution with formatGrid, or answers "No solution found".
 */
module Kanoodle {
  import opened Options
  import opened Geometry
  import opened Placements
  import opened SearchRows
  import opened Rendering
  import opened DlxBuild
  import opened DlxSearch
  import opened DlxResults
  import opened DancingLinks

  /** The pieces createPieces makes: description `i` becomes piece `i`. */
  function PiecesOf(descs: seq<PieceDescription>, w: nat, h: nat): seq<Piece>
  {
    seq(|descs|, i requires 0 <= i < |descs| => MakePiece(descs[i], i, w, h))
  }

  /** createPieces(pieceDescriptions, gridWidth, gridHeight). */
  method CreatePieces(descs: seq<PieceDescription>, w: nat, h: nat) returns (pieces: seq<Piece>)
    ensures pieces == PiecesOf(descs, w, h)
    ensures |pieces| == |descs|
    ensures forall i :: 0 <= i < |pieces| ==>
              && pieces[i].index == i && pieces[i].symbol == descs[i].symbol
              && pieces[i].gridWidth == w && pieces[i].gridHeight == h
  {
    pieces := [];
    for i := 0 to |descs|
      invariant pieces == PiecesOf(descs[..i], w, h)
    {
      var p := NewPiece(descs[i], i, w, h);
      pieces := pieces + [p];
    }
    assert descs[..|descs|] == descs;
  }

  /** The placements as the solver's row infos; every placement is an object, so none is falsy. */
  function Present(rows: seq<SearchRow>): (r: seq<Option<SearchRow>>)
    ensures |r| == |rows| && forall i :: 0 <= i < |rows| ==> r[i] == Some(rows[i])
  {
    seq(|rows|, i requires 0 <= i < |rows| => Some(rows[i]))
  }

  lemma {:induction false} TruthyPresent(rows: seq<SearchRow>)
    ensures Truthy(Present(rows)) == rows
    decreases |rows|
  {
    if rows != [] {
      var p := rows[..|rows| - 1];
      assert Present(rows)[..|rows| - 1] == Present(p);
      TruthyPresent(p);
    }
  }

  /** The number of exact cover columns: one per grid cell, one per piece. */
  function Columns(descs: seq<PieceDescription>, w: nat, h: nat): nat
  {
    w * h + |descs|
  }

  /** The row infos findSolution and findAllSolutions hand to the solver. */
  ghost function Placed(descs: seq<PieceDescription>, w: nat, h: nat, pins: seq<InitialPiece>): seq<Option<SearchRow>>
  {
    Present(SearchRowsOf(PiecesOf(descs, w, h), w, h, pins))
  }

  /**
   * Every pin row createSearchRows keeps (its symbol names a piece and its signature is new) lies
   * inside the grid.  Pins the loop drops never reach formatGrid and need not fit.
   */
  ghost predicate PinsFit(descs: seq<PieceDescription>, w: nat, h: nat, pins: seq<InitialPiece>)
  {
    var kept := PinsFold(PiecesOf(descs, w, h), pins).rows;
    forall k :: 0 <= k < |kept| ==> Fits(kept[k], w, h)
  }

  /** In particular the pins fit when every pin whose symbol names a piece lies inside the grid. */
  lemma EveryPinFits(descs: seq<PieceDescription>, w: nat, h: nat, pins: seq<InitialPiece>)
    requires forall j :: 0 <= j < |pins| && FindPiece(PiecesOf(descs, w, h), pins[j].symbol).Some? ==>
               Fits(PinRow(FindPiece(PiecesOf(descs, w, h), pins[j].symbol).value, pins[j]), w, h)
    ensures PinsFit(descs, w, h, pins)
  {
    var pieces := PiecesOf(descs, w, h);
    var a := PinsFold(pieces, pins);
    PinsFoldRows(pieces, pins);
    var js :| |js| == |a.rows| && PinOrigins(pieces, pins, a.rows, js);
  }

  /** findSolution(pieceDescriptions, gridWidth, gridHeight, initialPieces). */
  method FindSolution(descs: seq<PieceDescription>, w: nat, h: nat, pins: seq<InitialPiece>) returns (text: string)
    requires PinsFit(descs, w, h, pins)
    ensures FirstSolution(Placed(descs, w, h, pins), Columns(descs, w, h), IsColumnOccupied).None? ==>
              text == "No solution found"
    ensures FirstSolution(Placed(descs, w, h, pins), Columns(descs, w, h), IsColumnOccupied).Some? ==>
              text == Render(FirstSolution(Placed(descs, w, h, pins), Columns(descs, w, h), IsColumnOccupied).value, w, h)
  {
    var pieces := CreatePieces(descs, w, h);
    var rows := CreateSearchRows(pieces, w, h, pins);
    var n := w * h + |pieces|;
    assert Present(rows) == Placed(descs, w, h, pins) && n == Columns(descs, w, h);
    var solution := DLX<SearchRow>.Solve(Present(rows), n, IsColumnOccupied);
    if solution.Some? {
      SolutionFits(descs, w, h, pins);
      text := FormatGrid(solution.value, w, h);
    } else {
      text := "No solution found";
    }
  }

  /** findAllSolutions(pieceDescriptions, gridWidth, gridHeight, initialPieces). */
  method FindAllSolutions(descs: seq<PieceDescription>, w: nat, h: nat, pins: seq<InitialPiece>)
    returns (solutions: seq<seq<SearchRow>>)
    ensures solutions == AllSolutions(Placed(descs, w, h, pins), Columns(descs, w, h), IsColumnOccupied)
  {
    var pieces := CreatePieces(descs, w, h);
    var rows := CreateSearchRows(pieces, w, h, pins);
    var n := w * h + |pieces|;
    assert Present(rows) == Placed(descs, w, h, pins) && n == Columns(descs, w, h);
    solutions := DLX<SearchRow>.SolveAll(Present(rows), n, IsColumnOccupied);
  }

  // ---------------------------------------------------------------------------
  // What a solution is

  /**
   * The placements `s` solve the puzzle on a `w` x `h` grid with `count` pieces: every cell has a
   * tile of exactly one placement, and every piece is placed exactly once.
   */
  ghost predicate Tiling(s: seq<SearchRow>, w: nat, h: nat, count: nat)
  {
    && (forall x, y :: 0 <= x < w && 0 <= y < h ==> CellCovered(s, x, y))
    && (forall x, y, i, j :: 0 <= x < w && 0 <= y < h && 0 <= i < j < |s| && RowTileAt(s[i], x, y) ==>
          !RowTileAt(s[j], x, y))
    && (forall p :: 0 <= p < count ==> PieceUsed(s, p))
    && (forall i :: 0 <= i < |s| ==> 0 <= s[i].piece.index < count)
    && (forall i, j :: 0 <= i < j < |s| ==> s[i].piece.index != s[j].piece.index)
  }

  /** Some placement of `s` has a tile on cell (x, y). */
  ghost predicate CellCovered(s: seq<SearchRow>, x: int, y: int)
  {
    exists i :: 0 <= i < |s| && RowTileAt(s[i], x, y)
  }

  /** Some placement of `s` places piece `p`. */
  ghost predicate PieceUsed(s: seq<SearchRow>, p: int)
  {
    exists i :: 0 <= i < |s| && s[i].piece.index == p
  }

  /** Every row belongs to a piece made for the `w` x `h` grid, with one of the `count` piece indices. */
  ghost predicate OnGrid(rows: seq<SearchRow>, w: nat, h: nat, count: nat)
  {
    forall k :: 0 <= k < |rows| ==>
      rows[k].piece.gridWidth == w && rows[k].piece.gridHeight == h && 0 <= rows[k].piece.index < count
  }

  lemma InfosRows(rows: seq<SearchRow>, sol: seq<int>)
    requires forall i :: 0 <= i < |sol| ==> 0 <= sol[i] < |rows|
    ensures forall i :: 0 <= i < |sol| ==> InfosOf(rows, sol)[i] == rows[sol[i]]
  {
    forall i | 0 <= i < |sol| ensures InfosOf(rows, sol)[i] == rows[sol[i]] {
      InfosAt(rows, sol, i);
    }
  }

  /** Every cell column is covered, so every cell has a tile of some chosen placement. */
  lemma CellsCovered(rows: seq<SearchRow>, w: nat, h: nat, count: nat, sol: seq<int>)
    requires OnGrid(rows, w, h, count) && CoverOf(rows, w * h + count, IsColumnOccupied, sol)
    ensures forall x, y :: 0 <= x < w && 0 <= y < h ==> CellCovered(InfosOf(rows, sol), x, y)
  {
    var s := InfosOf(rows, sol);
    InfosRows(rows, sol);
    forall x, y | 0 <= x < w && 0 <= y < h ensures CellCovered(s, x, y) {
      CellBelowPieces(w, h, x, y);
      var c := CellColumn(w, x, y);
      assert CoveredIn(rows, IsColumnOccupied, sol, c);
      var i :| 0 <= i < |sol| && IsColumnOccupied(rows[sol[i]], c);
      CellColumnOccupied(s[i], x, y);
    }
  }

  /** No cell column is covered twice, so no cell has tiles of two chosen placements. */
  lemma CellsOnce(rows: seq<SearchRow>, w: nat, h: nat, count: nat, sol: seq<int>)
    requires OnGrid(rows, w, h, count) && CoverOf(rows, w * h + count, IsColumnOccupied, sol)
    ensures var s := InfosOf(rows, sol);
            forall x, y, i, j :: 0 <= x < w && 0 <= y < h && 0 <= i < j < |s| && RowTileAt(s[i], x, y) ==>
              !RowTileAt(s[j], x, y)
  {
    var s := InfosOf(rows, sol);
    InfosRows(rows, sol);
    forall x, y, i, j | 0 <= x < w && 0 <= y < h && 0 <= i < j < |s| && RowTileAt(s[i], x, y)
      ensures !RowTileAt(s[j], x, y)
    {
      CellBelowPieces(w, h, x, y);
      CellColumnOccupied(s[i], x, y);
      CellColumnOccupied(s[j], x, y);
    }
  }

  /** Every piece column is covered, so every piece is placed. */
  lemma PiecesUsed(rows: seq<SearchRow>, w: nat, h: nat, count: nat, sol: seq<int>)
    requires OnGrid(rows, w, h, count) && CoverOf(rows, w * h + count, IsColumnOccupied, sol)
    ensures forall p :: 0 <= p < count ==> PieceUsed(InfosOf(rows, sol), p)
  {
    var s := InfosOf(rows, sol);
    InfosRows(rows, sol);
    forall p | 0 <= p < count ensures PieceUsed(s, p) {
      var c := w * h + p;
      assert CoveredIn(rows, IsColumnOccupied, sol, c);
      var i :| 0 <= i < |sol| && IsColumnOccupied(rows[sol[i]], c);
      PieceColumn(s[i], c);
    }
  }

  /** No piece column is covered twice, so no piece is placed twice. */
  lemma PiecesOnce(rows: seq<SearchRow>, w: nat, h: nat, count: nat, sol: seq<int>)
    requires OnGrid(rows, w, h, count) && CoverOf(rows, w * h + count, IsColumnOccupied, sol)
    ensures var s := InfosOf(rows, sol);
            && (forall i :: 0 <= i < |s| ==> 0 <= s[i].piece.index < count)
            && (forall i, j :: 0 <= i < j < |s| ==> s[i].piece.index != s[j].piece.index)
  {
    var s := InfosOf(rows, sol);
    InfosRows(rows, sol);
    forall i, j | 0 <= i < j < |s| ensures s[i].piece.index != s[j].piece.index {
      var c := w * h + s[i].piece.index;
      PieceColumn(s[i], c);
      PieceColumn(s[j], c);
    }
  }

  /** The placements the solver picks for an exact cover of the columns tile the grid with all the pieces. */
  lemma CoverTiles(rows: seq<SearchRow>, w: nat, h: nat, count: nat, sol: seq<int>)
    requires OnGrid(rows, w, h, count) && CoverOf(rows, w * h + count, IsColumnOccupied, sol)
    ensures Tiling(InfosOf(rows, sol), w, h, count)
  {
    CellsCovered(rows, w, h, count, sol);
    CellsOnce(rows, w, h, count, sol);
    PiecesUsed(rows, w, h, count, sol);
    PiecesOnce(rows, w, h, count, sol);
  }

  /** The search rows of the pieces createPieces makes are all on the grid. */
  lemma RowsOnGrid(descs: seq<PieceDescription>, w: nat, h: nat, pins: seq<InitialPiece>)
    ensures OnGrid(SearchRowsOf(PiecesOf(descs, w, h), w, h, pins), w, h, |descs|)
  {
    RowsFromPieces(PiecesOf(descs, w, h), w, h, pins);
  }

  /** The placements of an exact cover of the rows on the grid tile it, and are taken from the rows. */
  lemma PickedTiles(rows: seq<SearchRow>, w: nat, h: nat, count: nat, s: seq<SearchRow>)
    requires OnGrid(rows, w, h, count)
    requires exists sol :: CoverOf(rows, w * h + count, IsColumnOccupied, sol) && s == InfosOf(rows, sol)
    ensures Tiling(s, w, h, count) && forall i :: 0 <= i < |s| ==> s[i] in rows
  {
    var sol :| CoverOf(rows, w * h + count, IsColumnOccupied, sol) && s == InfosOf(rows, sol);
    CoverTiles(rows, w, h, count, sol);
    InfosRows(rows, sol);
  }

  /** Every list findAllSolutions returns tiles the grid with all the pieces. */
  lemma AllSolutionsTile(descs: seq<PieceDescription>, w: nat, h: nat, pins: seq<InitialPiece>, s: seq<SearchRow>)
    requires s in AllSolutions(Placed(descs, w, h, pins), Columns(descs, w, h), IsColumnOccupied)
    ensures Tiling(s, w, h, |descs|)
  {
    var rows := SearchRowsOf(PiecesOf(descs, w, h), w, h, pins);
    var n := Columns(descs, w, h);
    assert Placed(descs, w, h, pins) == Present(rows) && n == w * h + |descs|;
    AllSolutionsCover(Present(rows), n, IsColumnOccupied, s);
    TruthyPresent(rows);
    RowsOnGrid(descs, w, h, pins);
    PickedTiles(rows, w, h, |descs|, s);
  }

  /** The solution findSolution renders tiles the grid with all the pieces, and fits it when the pins do. */
  lemma SolutionFits(descs: seq<PieceDescription>, w: nat, h: nat, pins: seq<InitialPiece>)
    requires FirstSolution(Placed(descs, w, h, pins), Columns(descs, w, h), IsColumnOccupied).Some?
    ensures var s := FirstSolution(Placed(descs, w, h, pins), Columns(descs, w, h), IsColumnOccupied).value;
            && Tiling(s, w, h, |descs|)
            && (forall i :: 0 <= i < |s| ==> s[i].piece in PiecesOf(descs, w, h))
            && (PinsFit(descs, w, h, pins) ==> forall i :: 0 <= i < |s| ==> Fits(s[i], w, h))
  {
    var pieces := PiecesOf(descs, w, h);
    var rows := SearchRowsOf(pieces, w, h, pins);
    var n := Columns(descs, w, h);
    assert Placed(descs, w, h, pins) == Present(rows) && n == w * h + |descs|;
    var s := FirstSolution(Present(rows), n, IsColumnOccupied).value;
    FirstSolutionCovers(Present(rows), n, IsColumnOccupied);
    TruthyPresent(rows);
    RowsOnGrid(descs, w, h, pins);
    PickedTiles(rows, w, h, |descs|, s);
    RowsFromPieces(pieces, w, h, pins);
    if PinsFit(descs, w, h, pins) {
      RowsFit(pieces, w, h, pins);
    }
  }

  /**
   * The text of a tiling: a newline, then `H` lines of `W` characters each followed by a newline,
   * the character of cell (x, y) being the symbol of the placement whose tile covers it.
   */
  lemma TilingText(s: seq<SearchRow>, w: nat, h: nat, count: nat)
    requires Tiling(s, w, h, count) && SingleChars(s)
    ensures var t := Render(s, w, h);
            && |t| == 1 + h * (w + 1) && t[0] == '\n'
            && (forall y :: 0 <= y < h ==> Offset(w, w, y) < |t| && t[Offset(w, w, y)] == '\n')
            && (forall x, y :: 0 <= x < w && 0 <= y < h ==>
                  && Offset(w, x, y) < |t|
                  && exists i :: 0 <= i < |s| && RowTileAt(s[i], x, y)
                                 && t[Offset(w, x, y) .. Offset(w, x, y) + 1] == s[i].piece.symbol)
  {
    var t := Render(s, w, h);
    RenderLength(s, w, h);
    forall y | 0 <= y < h ensures Offset(w, w, y) < |t| && t[Offset(w, w, y)] == '\n' {
      RenderAt(s, w, h, w, y);
    }
    forall x, y | 0 <= x < w && 0 <= y < h
      ensures && Offset(w, x, y) < |t|
              && exists i :: 0 <= i < |s| && RowTileAt(s[i], x, y)
                             && t[Offset(w, x, y) .. Offset(w, x, y) + 1] == s[i].piece.symbol
    {
      assert CellCovered(s, x, y);
      var i :| 0 <= i < |s| && RowTileAt(s[i], x, y);
      LastCoverWins(s, x, y, i);
      RenderAt(s, w, h, x, y);
    }
  }

  /** Every piece symbol is one character, as in the piece table. */
  ghost predicate SingleSymbols(descs: seq<PieceDescription>)
  {
    forall i :: 0 <= i < |descs| ==> |descs[i].symbol| == 1
  }

  lemma PieceSymbol(descs: seq<PieceDescription>, w: nat, h: nat, p: Piece)
    requires p in PiecesOf(descs, w, h)
    ensures 0 <= p.index < |descs| && p.symbol == descs[p.index].symbol
  {
  }

  /** When there is a solution, findSolution's text shows the tiling it found. */
  lemma SolutionText(descs: seq<PieceDescription>, w: nat, h: nat, pins: seq<InitialPiece>)
    requires FirstSolution(Placed(descs, w, h, pins), Columns(descs, w, h), IsColumnOccupied).Some?
    requires SingleSymbols(descs)
    ensures var s := FirstSolution(Placed(descs, w, h, pins), Columns(descs, w, h), IsColumnOccupied).value;
            Tiling(s, w, h, |descs|) && SingleChars(s)
  {
    var s := FirstSolution(Placed(descs, w, h, pins), Columns(descs, w, h), IsColumnOccupied).value;
    SolutionFits(descs, w, h, pins);
    forall i | 0 <= i < |s| ensures |s[i].piece.symbol| == 1 {
      PieceSymbol(descs, w, h, s[i].piece);
    }
  }
}

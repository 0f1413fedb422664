/**
 * Kanoodle.createSearchRows: the rows of the exact cover problem.
 *
 * First one row per pinned placement, in input order; then, for every piece no pin names, each
 * of its eight orientations (rotations in enum order, unflipped before flipped) whose signature
 * has not been seen yet, one row per position of its box in the grid, in row-major order.  A
 * single set of seen signatures serves the pins and all the pieces, so an orientation whose
 * tiles coincide with those of an earlier one, of the same piece or of another, adds no rows.
 *
 * The specification functions fold over the same loops: `Acc` is the state the loops update,
 * the rows pushed so far and the signatures seen so far.
 */
module SearchRows {
  import opened Options
  import opened Geometry
  import opened Placements

  /** A pinned placement, as the caller passes it. */
  datatype InitialPiece = InitialPiece(symbol: string, rotation: Rotation, flipState: bool, col: int, row: int)

  datatype Acc = Acc(rows: seq<SearchRow>, seen: set<set<int>>)

  /** The flip states in the order createSearchRows visits them. */
  const Flips: seq<bool> := [false, true]

  /** `pieces.find(piece => piece.symbol === symbol)`: the first piece with that symbol. */
  function FindPiece(pieces: seq<Piece>, symbol: string): (r: Option<Piece>)
    ensures r.None? <==> forall i :: 0 <= i < |pieces| ==> pieces[i].symbol != symbol
    ensures r.Some? ==> exists i :: 0 <= i < |pieces| && pieces[i] == r.value && r.value.symbol == symbol
                                    && forall j :: 0 <= j < i ==> pieces[j].symbol != symbol
  {
    if pieces == [] then None
    else if pieces[0].symbol == symbol then
      assert pieces[0] == pieces[0];
      Some(pieces[0])
    else
      var r := FindPiece(pieces[1..], symbol);
      assert forall i :: 1 <= i < |pieces| ==> pieces[i] == pieces[1..][i - 1];
      if r.Some? then
        var i :| 0 <= i < |pieces[1..]| && pieces[1..][i] == r.value && r.value.symbol == symbol
                 && forall j :: 0 <= j < i ==> pieces[1..][j].symbol != symbol;
        assert pieces[i + 1] == r.value;
        r
      else
        r
  }

  /** The row a pin stands for, once its piece is found. */
  function PinRow(p: Piece, pin: InitialPiece): SearchRow
  {
    SearchRow(p, pin.rotation, pin.col, pin.row, pin.flipState)
  }

  /** One pin: skipped when no piece has its symbol or its orientation's signature was seen. */
  ghost function PinStep(pieces: seq<Piece>, a: Acc, pin: InitialPiece): Acc
  {
    match FindPiece(pieces, pin.symbol)
    case None => a
    case Some(p) =>
      var sig := Signature(p, pin.rotation, pin.flipState);
      if sig in a.seen then a else Acc(a.rows + [PinRow(p, pin)], a.seen + {sig})
  }

  /** The state after the loop over the pins. */
  ghost function PinsFold(pieces: seq<Piece>, pins: seq<InitialPiece>): Acc
    decreases |pins|
  {
    if pins == [] then Acc([], {})
    else PinStep(pieces, PinsFold(pieces, pins[..|pins| - 1]), pins[|pins| - 1])
  }

  /** Some pin names the symbol. */
  predicate Pinned(pins: seq<InitialPiece>, symbol: string)
  {
    exists j :: 0 <= j < |pins| && pins[j].symbol == symbol
  }

  /** `piecesWithoutInitialPieces`: the pieces no pin names, in order. */
  function Unpinned(pieces: seq<Piece>, pins: seq<InitialPiece>): (r: seq<Piece>)
    ensures forall p :: p in r <==> p in pieces && !Pinned(pins, p.symbol)
    decreases |pieces|
  {
    if pieces == [] then []
    else
      var q := Unpinned(pieces[..|pieces| - 1], pins);
      var p := pieces[|pieces| - 1];
      assert pieces == pieces[..|pieces| - 1] + [p];
      q + (if Pinned(pins, p.symbol) then [] else [p])
  }

  /** The rows of one grid row of positions, columns 0..maxCol. */
  function RowPositions(p: Piece, rotation: Rotation, flip: bool, maxCol: int, row: int): seq<SearchRow>
  {
    seq(if maxCol >= 0 then maxCol + 1 else 0, c => SearchRow(p, rotation, c, row, flip))
  }

  /** The rows of the positions in grid rows 0..n-1, in row-major order. */
  function Positions(p: Piece, rotation: Rotation, flip: bool, maxCol: int, n: int): seq<SearchRow>
    decreases n
  {
    if n <= 0 then [] else Positions(p, rotation, flip, maxCol, n - 1) + RowPositions(p, rotation, flip, maxCol, n - 1)
  }

  /** One orientation of a free piece: skipped when its signature was seen, else every position of its box. */
  ghost function OrientStep(a: Acc, p: Piece, w: int, h: int, rotation: Rotation, flip: bool): Acc
  {
    var sig := Signature(p, rotation, flip);
    if sig in a.seen then a
    else Acc(a.rows + Positions(p, rotation, flip, w - Width(p, Some(rotation)), h - Height(p, Some(rotation)) + 1),
             a.seen + {sig})
  }

  /** The first `k` of the eight orientations of a free piece: orientation `i` is rotation `i / 2`, flip `i % 2`. */
  ghost function PieceFold(a: Acc, p: Piece, w: int, h: int, k: int): Acc
    requires 0 <= k <= 8
    decreases k
  {
    if k == 0 then a
    else OrientStep(PieceFold(a, p, w, h, k - 1), p, w, h, Rotations[(k - 1) / 2], Flips[(k - 1) % 2])
  }

  lemma PieceFoldNext(a: Acc, p: Piece, w: int, h: int, ri: int, fi: int)
    requires 0 <= ri < 4 && 0 <= fi < 2
    ensures PieceFold(a, p, w, h, 2 * ri + fi + 1) == OrientStep(PieceFold(a, p, w, h, 2 * ri + fi), p, w, h, Rotations[ri], Flips[fi])
  {
    assert (2 * ri + fi) / 2 == ri && (2 * ri + fi) % 2 == fi;
  }

  /** The free pieces, one after the other. */
  ghost function FreeFold(a: Acc, ps: seq<Piece>, w: int, h: int): Acc
    decreases |ps|
  {
    if ps == [] then a
    else PieceFold(FreeFold(a, ps[..|ps| - 1], w, h), ps[|ps| - 1], w, h, 8)
  }

  /** What createSearchRows returns. */
  ghost function SearchRowsOf(pieces: seq<Piece>, w: int, h: int, pins: seq<InitialPiece>): seq<SearchRow>
  {
    FreeFold(PinsFold(pieces, pins), Unpinned(pieces, pins), w, h).rows
  }

  // ---------------------------------------------------------------------------
  // The method

  /** The nested position loops: push one row per position, row by row. */
  method AddPositions(rows0: seq<SearchRow>, p: Piece, rotation: Rotation, flip: bool, maxCol: int, maxRow: int)
    returns (rows: seq<SearchRow>)
    ensures rows == rows0 + Positions(p, rotation, flip, maxCol, maxRow + 1)
  {
    rows := rows0;
    var row := 0;
    while row <= maxRow
      invariant 0 <= row && (maxRow < 0 ==> row == 0) && (maxRow >= 0 ==> row <= maxRow + 1)
      invariant rows == rows0 + Positions(p, rotation, flip, maxCol, row)
      decreases maxRow - row
    {
      var col := 0;
      while col <= maxCol
        invariant 0 <= col && (maxCol < 0 ==> col == 0) && (maxCol >= 0 ==> col <= maxCol + 1)
        invariant rows == rows0 + Positions(p, rotation, flip, maxCol, row) + RowPositions(p, rotation, flip, maxCol, row)[..col]
        decreases maxCol - col
      {
        assert RowPositions(p, rotation, flip, maxCol, row)[..col + 1]
            == RowPositions(p, rotation, flip, maxCol, row)[..col] + [SearchRow(p, rotation, col, row, flip)];
        rows := rows + [SearchRow(p, rotation, col, row, flip)];
        col := col + 1;
      }
      assert RowPositions(p, rotation, flip, maxCol, row)[..col] == RowPositions(p, rotation, flip, maxCol, row);
      row := row + 1;
    }
  }

  /** One orientation of a free piece: its positions, unless its signature was seen. */
  method AddOrientation(rows0: seq<SearchRow>, seen0: set<set<int>>, piece: Piece, w: int, h: int, rotation: Rotation, flip: bool)
    returns (rows: seq<SearchRow>, seen: set<set<int>>)
    ensures Acc(rows, seen) == OrientStep(Acc(rows0, seen0), piece, w, h, rotation, flip)
  {
    rows, seen := rows0, seen0;
    var signature := GetSignature(piece, rotation, flip);
    if signature !in seen {
      seen := seen + {signature};
      var maxCol := w - Width(piece, Some(rotation));
      var maxRow := h - Height(piece, Some(rotation));
      rows := AddPositions(rows, piece, rotation, flip, maxCol, maxRow);
    }
  }

  /** One pin: its row, unless no piece has its symbol or its signature was seen. */
  method AddPin(pieces: seq<Piece>, rows0: seq<SearchRow>, seen0: set<set<int>>, pin: InitialPiece)
    returns (rows: seq<SearchRow>, seen: set<set<int>>)
    ensures Acc(rows, seen) == PinStep(pieces, Acc(rows0, seen0), pin)
  {
    rows, seen := rows0, seen0;
    var found := FindPiece(pieces, pin.symbol);
    if found.Some? {
      var signature := GetSignature(found.value, pin.rotation, pin.flipState);
      if signature !in seen {
        seen := seen + {signature};
        rows := rows + [SearchRow(found.value, pin.rotation, pin.col, pin.row, pin.flipState)];
      }
    }
  }

  /** One free piece: its eight orientations in turn. */
  method AddPiece(rows0: seq<SearchRow>, seen0: set<set<int>>, piece: Piece, w: int, h: int)
    returns (rows: seq<SearchRow>, seen: set<set<int>>)
    ensures Acc(rows, seen) == PieceFold(Acc(rows0, seen0), piece, w, h, 8)
  {
    rows, seen := rows0, seen0;
    for ri := 0 to 4
      invariant Acc(rows, seen) == PieceFold(Acc(rows0, seen0), piece, w, h, 2 * ri)
    {
      var rotation := Rotations[ri];
      for fi := 0 to 2
        invariant Acc(rows, seen) == PieceFold(Acc(rows0, seen0), piece, w, h, 2 * ri + fi)
      {
        var flip := Flips[fi];
        PieceFoldNext(Acc(rows0, seen0), piece, w, h, ri, fi);
        rows, seen := AddOrientation(rows, seen, piece, w, h, rotation, flip);
      }
    }
  }

  /** createSearchRows(pieces, gridWidth, gridHeight, initalPieces). */
  method CreateSearchRows(pieces: seq<Piece>, w: int, h: int, pins: seq<InitialPiece>) returns (rows: seq<SearchRow>)
    ensures rows == SearchRowsOf(pieces, w, h, pins)
  {
    rows := [];
    var seen: set<set<int>> := {};
    for i := 0 to |pins|
      invariant Acc(rows, seen) == PinsFold(pieces, pins[..i])
    {
      assert pins[..i + 1][..i] == pins[..i];
      rows, seen := AddPin(pieces, rows, seen, pins[i]);
    }
    assert pins[..|pins|] == pins;
    ghost var a0 := Acc(rows, seen);
    var free := Unpinned(pieces, pins);
    for i := 0 to |free|
      invariant Acc(rows, seen) == FreeFold(a0, free[..i], w, h)
    {
      assert free[..i + 1][..i] == free[..i];
      rows, seen := AddPiece(rows, seen, free[i], w, h);
    }
    assert free[..|free|] == free;
  }

  // ---------------------------------------------------------------------------
  // How many rows an orientation emits, and in which order

  lemma {:induction false} PositionsCount(p: Piece, rotation: Rotation, flip: bool, maxCol: int, n: int)
    ensures |Positions(p, rotation, flip, maxCol, n)| == if maxCol >= 0 && n >= 0 then (maxCol + 1) * n else 0
    decreases n
  {
    if n > 0 {
      PositionsCount(p, rotation, flip, maxCol, n - 1);
      assert (maxCol + 1) * (n - 1) + (maxCol + 1) == (maxCol + 1) * n;
    }
  }

  /** Each orientation kept emits one row per position of its box: (W - w + 1) * (H - h + 1) when both factors are positive, none otherwise. */
  lemma OrientationRowCount(p: Piece, rotation: Rotation, flip: bool, w: int, h: int)
    ensures var maxCol, maxRow := w - Width(p, Some(rotation)), h - Height(p, Some(rotation));
            |Positions(p, rotation, flip, maxCol, maxRow + 1)| == if maxCol >= 0 && maxRow >= 0 then (maxCol + 1) * (maxRow + 1) else 0
  {
    PositionsCount(p, rotation, flip, w - Width(p, Some(rotation)), h - Height(p, Some(rotation)) + 1);
  }

  /** The rows come in row-major order: position (c, r) is row number `r * (maxCol + 1) + c`. */
  lemma {:induction false} PositionsAt(p: Piece, rotation: Rotation, flip: bool, maxCol: int, n: int, c: int, r: int)
    requires 0 <= c <= maxCol && 0 <= r < n
    ensures r * (maxCol + 1) + c < |Positions(p, rotation, flip, maxCol, n)|
    ensures Positions(p, rotation, flip, maxCol, n)[r * (maxCol + 1) + c] == SearchRow(p, rotation, c, r, flip)
    decreases n
  {
    PositionsCount(p, rotation, flip, maxCol, n - 1);
    if r < n - 1 {
      PositionsAt(p, rotation, flip, maxCol, n - 1, c, r);
    } else {
      assert r * (maxCol + 1) + c == (maxCol + 1) * (n - 1) + c;
    }
  }

  /** Every row of a block of positions has the piece and orientation of the block, and a box inside the grid. */
  lemma {:induction false} PositionsInGrid(p: Piece, rotation: Rotation, flip: bool, maxCol: int, n: int, k: int)
    requires 0 <= k < |Positions(p, rotation, flip, maxCol, n)|
    ensures var s := Positions(p, rotation, flip, maxCol, n)[k];
            s.piece == p && s.rotation == rotation && s.flipped == flip && 0 <= s.col <= maxCol && 0 <= s.row < n
    decreases n
  {
    var q := Positions(p, rotation, flip, maxCol, n - 1);
    if k < |q| {
      PositionsInGrid(p, rotation, flip, maxCol, n - 1, k);
    }
  }

  // ---------------------------------------------------------------------------
  // Pinned rows first; what the free pieces add

  /** Signature of a row's orientation. */
  ghost function Sig(s: SearchRow): set<int>
  {
    Signature(s.piece, s.rotation, s.flipped)
  }

  /**
   * The rows from `base` on were added by the free pieces `ps`: each has a piece of `ps`, a box
   * inside the grid, and a signature the rows before it did not have unless they share its
   * orientation; every row's signature has been seen.
   */
  ghost predicate FreeRows(a: Acc, base: int, ps: seq<Piece>, w: int, h: int)
  {
    && 0 <= base <= |a.rows|
    && (forall k :: 0 <= k < |a.rows| ==> Sig(a.rows[k]) in a.seen)
    && (forall k :: base <= k < |a.rows| ==>
          && a.rows[k].piece in ps
          && 0 <= a.rows[k].col <= w - Width(a.rows[k].piece, Some(a.rows[k].rotation))
          && 0 <= a.rows[k].row <= h - Height(a.rows[k].piece, Some(a.rows[k].rotation)))
    && (forall i, j :: 0 <= i < j < |a.rows| && Sig(a.rows[i]) == Sig(a.rows[j]) ==>
          base <= i && a.rows[i].piece == a.rows[j].piece && a.rows[i].rotation == a.rows[j].rotation
          && a.rows[i].flipped == a.rows[j].flipped)
  }

  lemma OrientStepRows(a: Acc, base: int, ps: seq<Piece>, p: Piece, w: int, h: int, rotation: Rotation, flip: bool)
    requires FreeRows(a, base, ps, w, h) && p in ps
    ensures a.rows <= OrientStep(a, p, w, h, rotation, flip).rows
    ensures FreeRows(OrientStep(a, p, w, h, rotation, flip), base, ps, w, h)
  {
    var sig := Signature(p, rotation, flip);
    if sig !in a.seen {
      var maxCol, n := w - Width(p, Some(rotation)), h - Height(p, Some(rotation)) + 1;
      var block := Positions(p, rotation, flip, maxCol, n);
      var b := OrientStep(a, p, w, h, rotation, flip);
      assert b.rows == a.rows + block;
      forall k | |a.rows| <= k < |b.rows|
        ensures var s := b.rows[k];
                  s.piece == p && s.rotation == rotation && s.flipped == flip && 0 <= s.col <= maxCol && 0 <= s.row < n
      {
        PositionsInGrid(p, rotation, flip, maxCol, n, k - |a.rows|);
      }
    }
  }

  lemma {:induction false} PieceFoldRows(a: Acc, base: int, ps: seq<Piece>, p: Piece, w: int, h: int, k: int)
    requires FreeRows(a, base, ps, w, h) && p in ps && 0 <= k <= 8
    ensures a.rows <= PieceFold(a, p, w, h, k).rows
    ensures FreeRows(PieceFold(a, p, w, h, k), base, ps, w, h)
    decreases k
  {
    if k > 0 {
      PieceFoldRows(a, base, ps, p, w, h, k - 1);
      OrientStepRows(PieceFold(a, p, w, h, k - 1), base, ps, p, w, h, Rotations[(k - 1) / 2], Flips[(k - 1) % 2]);
    }
  }

  lemma {:induction false} FreeFoldRows(a: Acc, base: int, ps: seq<Piece>, qs: seq<Piece>, w: int, h: int)
    requires FreeRows(a, base, ps, w, h) && forall q :: q in qs ==> q in ps
    ensures a.rows <= FreeFold(a, qs, w, h).rows
    ensures FreeRows(FreeFold(a, qs, w, h), base, ps, w, h)
    decreases |qs|
  {
    if qs != [] {
      var qs' := qs[..|qs| - 1];
      FreeFoldRows(a, base, ps, qs', w, h);
      PieceFoldRows(FreeFold(a, qs', w, h), base, ps, qs[|qs| - 1], w, h, 8);
    }
  }

  /** The pins' rows: each is the placement of one pin, later pins giving later rows, no two with one signature. */
  ghost predicate PinRows(pieces: seq<Piece>, pins: seq<InitialPiece>, a: Acc)
  {
    && (forall k :: 0 <= k < |a.rows| ==> Sig(a.rows[k]) in a.seen)
    && (forall i, j :: 0 <= i < j < |a.rows| ==> Sig(a.rows[i]) != Sig(a.rows[j]))
    && exists js: seq<int> :: |js| == |a.rows| && PinOrigins(pieces, pins, a.rows, js)
  }

  /** Row `k` is the placement of pin `js[k]`, and `js` is increasing. */
  ghost predicate PinOrigins(pieces: seq<Piece>, pins: seq<InitialPiece>, rows: seq<SearchRow>, js: seq<int>)
    requires |js| == |rows|
  {
    && (forall k :: 0 <= k < |js| ==>
          && 0 <= js[k] < |pins| && FindPiece(pieces, pins[js[k]].symbol).Some?
          && rows[k] == PinRow(FindPiece(pieces, pins[js[k]].symbol).value, pins[js[k]]))
    && (forall k, l :: 0 <= k < l < |js| ==> js[k] < js[l])
  }

  lemma PinOriginsPrefix(pieces: seq<Piece>, pins: seq<InitialPiece>, rows: seq<SearchRow>, js: seq<int>)
    requires pins != [] && |js| == |rows| && PinOrigins(pieces, pins[..|pins| - 1], rows, js)
    ensures PinOrigins(pieces, pins, rows, js)
  {
    assert forall k :: 0 <= k < |js| ==> pins[..|pins| - 1][js[k]] == pins[js[k]];
  }

  lemma PinOriginsSnoc(pieces: seq<Piece>, pins: seq<InitialPiece>, rows: seq<SearchRow>, js: seq<int>)
    requires pins != [] && |js| == |rows| && PinOrigins(pieces, pins[..|pins| - 1], rows, js)
    requires FindPiece(pieces, pins[|pins| - 1].symbol).Some?
    ensures PinOrigins(pieces, pins, rows + [PinRow(FindPiece(pieces, pins[|pins| - 1].symbol).value, pins[|pins| - 1])],
                       js + [|pins| - 1])
  {
    PinOriginsPrefix(pieces, pins, rows, js);
  }

  lemma {:induction false} PinsFoldRows(pieces: seq<Piece>, pins: seq<InitialPiece>)
    ensures PinRows(pieces, pins, PinsFold(pieces, pins))
    decreases |pins|
  {
    if pins != [] {
      var pins' := pins[..|pins| - 1];
      var a := PinsFold(pieces, pins');
      PinsFoldRows(pieces, pins');
      var js :| |js| == |a.rows| && PinOrigins(pieces, pins', a.rows, js);
      var pin := pins[|pins| - 1];
      var b := PinsFold(pieces, pins);
      var found := FindPiece(pieces, pin.symbol);
      if found.Some? && Signature(found.value, pin.rotation, pin.flipState) !in a.seen {
        var sig := Signature(found.value, pin.rotation, pin.flipState);
        assert b.rows == a.rows + [PinRow(found.value, pin)] && b.seen == a.seen + {sig};
        assert Sig(b.rows[|a.rows|]) == sig;
        assert forall k :: 0 <= k < |a.rows| ==> b.rows[k] == a.rows[k];
        PinOriginsSnoc(pieces, pins, a.rows, js);
        assert PinOrigins(pieces, pins, b.rows, js + [|pins| - 1]);
      } else {
        assert b == a;
        PinOriginsPrefix(pieces, pins, a.rows, js);
        assert PinOrigins(pieces, pins, b.rows, js);
      }
    }
  }

  /**
   * createSearchRows: the pins' rows come first, each the placement of one pin in input order,
   * no two with the same signature; the rows after them are placements of pieces no pin names,
   * each with its box inside the grid; and two rows with the same signature have the same piece,
   * rotation and flip and both come from a free piece.
   */
  lemma SearchRowsShape(pieces: seq<Piece>, w: int, h: int, pins: seq<InitialPiece>)
    ensures var a, rows := PinsFold(pieces, pins), SearchRowsOf(pieces, w, h, pins);
            && a.rows <= rows
            && PinRows(pieces, pins, a)
            && (forall k :: |a.rows| <= k < |rows| ==>
                  && rows[k].piece in pieces && !Pinned(pins, rows[k].piece.symbol)
                  && 0 <= rows[k].col <= w - Width(rows[k].piece, Some(rows[k].rotation))
                  && 0 <= rows[k].row <= h - Height(rows[k].piece, Some(rows[k].rotation)))
            && (forall i, j :: 0 <= i < j < |rows| && Sig(rows[i]) == Sig(rows[j]) ==>
                  |a.rows| <= i && rows[i].piece == rows[j].piece && rows[i].rotation == rows[j].rotation
                  && rows[i].flipped == rows[j].flipped)
  {
    var a, free := PinsFold(pieces, pins), Unpinned(pieces, pins);
    PinsFoldRows(pieces, pins);
    assert FreeRows(a, |a.rows|, free, w, h);
    FreeFoldRows(a, |a.rows|, free, free, w, h);
  }

  /** Every row fits the grid when every pin row the pin loop keeps fits it: the free pieces' rows always do. */
  lemma RowsFit(pieces: seq<Piece>, w: int, h: int, pins: seq<InitialPiece>)
    requires forall k :: 0 <= k < |PinsFold(pieces, pins).rows| ==> Fits(PinsFold(pieces, pins).rows[k], w, h)
    ensures forall k :: 0 <= k < |SearchRowsOf(pieces, w, h, pins)| ==> Fits(SearchRowsOf(pieces, w, h, pins)[k], w, h)
  {
    var a, rows := PinsFold(pieces, pins), SearchRowsOf(pieces, w, h, pins);
    SearchRowsShape(pieces, w, h, pins);
    forall k | 0 <= k < |rows| ensures Fits(rows[k], w, h) {
      if k < |a.rows| {
        assert rows[k] == a.rows[k];
      } else {
        BoxInGridFits(rows[k], w, h);
      }
    }
  }

  /** Every row places one of the pieces. */
  lemma RowsFromPieces(pieces: seq<Piece>, w: int, h: int, pins: seq<InitialPiece>)
    ensures forall k :: 0 <= k < |SearchRowsOf(pieces, w, h, pins)| ==> SearchRowsOf(pieces, w, h, pins)[k].piece in pieces
  {
    var a, rows := PinsFold(pieces, pins), SearchRowsOf(pieces, w, h, pins);
    SearchRowsShape(pieces, w, h, pins);
    var js :| |js| == |a.rows| && PinOrigins(pieces, pins, a.rows, js);
    forall k | 0 <= k < |a.rows| ensures rows[k].piece in pieces {
      assert rows[k] == a.rows[k];
    }
  }
}

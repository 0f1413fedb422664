/**
 * A placement of a piece on the grid (`SearchRow` in kanoodle.class.ts): the piece, its
 * orientation and the grid cell of its box's top-left corner.  As a row of the exact cover
 * problem it occupies one column per covered grid cell, cell (x, y) being column `y * W + x`,
 * and after the `W * H` cell columns one column per piece, column `W * H + index`.
 */
module Placements {
  import opened Options
  import opened Geometry

  datatype SearchRow = SearchRow(piece: Piece, rotation: Rotation, col: int, row: int, flipped: bool)

  /** SearchRow.isTileAt(c, r): the placed piece has a tile on grid cell (c, r). */
  predicate RowTileAt(s: SearchRow, c: int, r: int)
  {
    TileAt(s.piece, c - s.col, r - s.row, s.rotation, s.flipped)
  }

  /** JavaScript's `%` for a positive divisor: the remainder takes the sign of the dividend. */
  function JsRem(a: int, b: int): int
    requires b > 0
  {
    if a >= 0 then a % b else -((-a) % b)
  }

  /**
   * SearchRow.isColumnOccupied(col).  `Math.floor(col / W)` is Dafny's division for a positive
   * `W`; with `W == 0` every column below `W * H` is negative and JavaScript computes NaN
   * coordinates, at which no tile is found.
   */
  predicate IsColumnOccupied(s: SearchRow, col: int)
  {
    var w, h := s.piece.gridWidth, s.piece.gridHeight;
    if col >= w * h then s.piece.index == col - w * h
    else if w == 0 then false
    else RowTileAt(s, JsRem(col, w), col / w)
  }

  /** The column of grid cell (x, y). */
  function CellColumn(w: nat, x: int, y: int): int
  {
    y * w + x
  }

  lemma {:induction false} MulMono(a: int, b: int, w: nat)
    requires a <= b
    ensures a * w <= b * w
    decreases b - a
  {
    if a < b {
      MulMono(a, b - 1, w);
      assert (b - 1) * w + w == b * w;
    }
  }

  lemma DivModCell(w: nat, x: int, y: int)
    requires 0 <= x < w && 0 <= y
    ensures (y * w + x) / w == y && (y * w + x) % w == x
  {
    var q, r := (y * w + x) / w, (y * w + x) % w;
    assert q * w + r == y * w + x && 0 <= r < w;
    if q < y {
      MulMono(q + 1, y, w);
    } else if q > y {
      MulMono(y + 1, q, w);
    }
  }

  lemma CellBelowPieces(w: nat, h: nat, x: int, y: int)
    requires 0 <= x < w && 0 <= y < h
    ensures 0 <= y * w + x < w * h
  {
    MulMono(y + 1, h, w);
    assert (y + 1) * w == y * w + w && h * w == w * h;
  }

  /** The piece columns: a placement occupies exactly the column of its own piece among them. */
  lemma PieceColumn(s: SearchRow, col: int)
    requires col >= s.piece.gridWidth * s.piece.gridHeight
    ensures IsColumnOccupied(s, col) <==> col == s.piece.gridWidth * s.piece.gridHeight + s.piece.index
  {
  }

  /** The cell columns: the column of cell (x, y) is occupied exactly when the placement has a tile there. */
  lemma CellColumnOccupied(s: SearchRow, x: int, y: int)
    requires 0 <= x < s.piece.gridWidth && 0 <= y < s.piece.gridHeight
    ensures IsColumnOccupied(s, CellColumn(s.piece.gridWidth, x, y)) <==> RowTileAt(s, x, y)
  {
    var w, h := s.piece.gridWidth, s.piece.gridHeight;
    CellBelowPieces(w, h, x, y);
    DivModCell(w, x, y);
  }

  /** The placement only puts tiles on cells of a `w` x `h` grid. */
  ghost predicate Fits(s: SearchRow, w: int, h: int)
  {
    forall c, r :: TileAt(s.piece, c, r, s.rotation, s.flipped) ==> 0 <= s.col + c < w && 0 <= s.row + r < h
  }

  /** A placement whose rotated box lies in the grid fits it. */
  lemma BoxInGridFits(s: SearchRow, w: int, h: int)
    requires 0 <= s.col <= w - Width(s.piece, Some(s.rotation))
    requires 0 <= s.row <= h - Height(s.piece, Some(s.rotation))
    ensures Fits(s, w, h)
  {
    TileInRotatedBox(s.piece, s.rotation, s.flipped);
  }
}

/**
 * The geometry of one Kanoodle piece (`Piece` in kanoodle.class.ts).
 *
 * A piece keeps its tiles in a bitfield, tile (col, row) at bit `row * 8 + col`; the bitfield is
 * an unbounded BigInt, modelled as the set of the indices of its one bits.  `isTileAt` maps a
 * coordinate of an oriented piece back into the canonical box (`dimensions.col` wide,
 * `dimensions.row` high) and tests the bit there; `getSignature` collects the 8 x 8 occupancy
 * of one orientation.
 */
module Geometry {
  import opened Options

  /** The four quarter turns. */
  datatype Rotation = R0 | R90 | R180 | R270

  /** The rotations in enum order, as createSearchRows visits them. */
  const Rotations: seq<Rotation> := [R0, R90, R180, R270]

  /** A cell (col, row); also the dimensions (width, height) of a piece's box. */
  datatype Tile = Tile(col: int, row: int)

  /** One entry of the piece table. */
  datatype PieceDescription = PieceDescription(symbol: string, tiles: seq<Tile>, dimensions: Tile, color: string)

  datatype Piece = Piece(index: int, symbol: string, gridWidth: nat, gridHeight: nat, color: string,
                         dimensions: Tile, bitfield: set<int>, tiles: seq<Tile>)

  // ---------------------------------------------------------------------------
  // buildBitfield

  /** The bit of a tile. */
  function BitIndex(t: Tile): int
  {
    t.row * 8 + t.col
  }

  /**
   * The one bits of `OR of 1n << BigInt(row * 8 + col)` over the tiles.  A BigInt shift by a
   * negative amount shifts right, so a tile with a negative index sets no bit.
   */
  function BitsOf(tiles: seq<Tile>): set<int>
  {
    set i | 0 <= i < |tiles| && BitIndex(tiles[i]) >= 0 :: BitIndex(tiles[i])
  }

  /** buildBitfield: OR the bit of each tile into an accumulator. */
  method BuildBitfield(tiles: seq<Tile>) returns (bits: set<int>)
    ensures bits == BitsOf(tiles)
  {
    bits := {};
    for i := 0 to |tiles|
      invariant bits == BitsOf(tiles[..i])
    {
      var k := tiles[i].row * 8 + tiles[i].col;
      if k >= 0 {
        bits := bits + {k};
      }
      assert tiles[..i + 1] == tiles[..i] + [tiles[i]];
      assert BitsOf(tiles[..i + 1]) == BitsOf(tiles[..i]) + (if k >= 0 then {k} else {}) by {
        var s := tiles[..i + 1];
        forall b | b in BitsOf(s) ensures b in BitsOf(tiles[..i]) + (if k >= 0 then {k} else {}) {
          var j :| 0 <= j < |s| && BitIndex(s[j]) >= 0 && b == BitIndex(s[j]);
          if j < i {
            assert s[j] == tiles[..i][j];
          }
        }
        forall b | b in BitsOf(tiles[..i]) ensures b in BitsOf(s) {
          var j :| 0 <= j < i && BitIndex(tiles[..i][j]) >= 0 && b == BitIndex(tiles[..i][j]);
          assert s[j] == tiles[..i][j];
        }
        if k >= 0 {
          assert BitIndex(s[i]) == k;
        }
      }
    }
    assert tiles[..|tiles|] == tiles;
  }

  /** The Piece constructor's fields. */
  function MakePiece(d: PieceDescription, index: int, gridWidth: nat, gridHeight: nat): Piece
  {
    Piece(index, d.symbol, gridWidth, gridHeight, d.color, d.dimensions, BitsOf(d.tiles), d.tiles)
  }

  /** The Piece constructor. */
  method NewPiece(d: PieceDescription, index: int, gridWidth: nat, gridHeight: nat) returns (p: Piece)
    ensures p == MakePiece(d, index, gridWidth, gridHeight)
  {
    var bits := BuildBitfield(d.tiles);
    p := Piece(index, d.symbol, gridWidth, gridHeight, d.color, d.dimensions, bits, d.tiles);
  }

  /** Every tile of the description lies in its box, and the box fits the 8 x 8 addressable space. */
  ghost predicate TilesInBox(d: PieceDescription)
  {
    && 0 <= d.dimensions.col <= 8 && 0 <= d.dimensions.row <= 8
    && forall i :: 0 <= i < |d.tiles| ==>
         0 <= d.tiles[i].col < d.dimensions.col && 0 <= d.tiles[i].row < d.dimensions.row
  }

  /** Within one 8-wide row, the bit of (c, r) is determined by and determines (c, r). */
  lemma BitIndexInjective(c: int, r: int, c': int, r': int)
    requires 0 <= c < 8 && 0 <= c' < 8
    ensures r * 8 + c == r' * 8 + c' <==> c == c' && r == r'
  {
  }

  /** With every tile in a box of at most 8 x 8, a cell's bit is set exactly when the cell is a tile. */
  lemma BitsOfTiles(d: PieceDescription, c: int, r: int)
    requires TilesInBox(d) && 0 <= c < 8
    ensures r * 8 + c in BitsOf(d.tiles) <==> Tile(c, r) in d.tiles
  {
    if r * 8 + c in BitsOf(d.tiles) {
      var i :| 0 <= i < |d.tiles| && BitIndex(d.tiles[i]) >= 0 && r * 8 + c == BitIndex(d.tiles[i]);
      BitIndexInjective(c, r, d.tiles[i].col, d.tiles[i].row);
      assert d.tiles[i] == Tile(c, r);
    }
    if Tile(c, r) in d.tiles {
      var i :| 0 <= i < |d.tiles| && d.tiles[i] == Tile(c, r);
      assert BitIndex(d.tiles[i]) == r * 8 + c;
    }
  }

  // ---------------------------------------------------------------------------
  // getWidth, getHeight

  /** getWidth(r): the box's width under rotation `r`; `None` is the call without a rotation. */
  function Width(p: Piece, r: Option<Rotation>): int
  {
    match r
    case None => p.dimensions.col
    case Some(R0) => p.dimensions.col
    case Some(R180) => p.dimensions.col
    case Some(_) => p.dimensions.row
  }

  /** getHeight(r). */
  function Height(p: Piece, r: Option<Rotation>): int
  {
    match r
    case None => p.dimensions.row
    case Some(R0) => p.dimensions.row
    case Some(R180) => p.dimensions.row
    case Some(_) => p.dimensions.col
  }

  /** A quarter turn clockwise. */
  function Turn(r: Rotation): Rotation
  {
    match r
    case R0 => R90
    case R90 => R180
    case R180 => R270
    case R270 => R0
  }

  /**
   * The box of a piece with no rotation is its stored box; a quarter turn swaps width and height,
   * and a half turn leaves them as they were.
   */
  lemma WidthHeightTurn(p: Piece, r: Rotation)
    ensures Width(p, None) == p.dimensions.col && Height(p, None) == p.dimensions.row
    ensures Width(p, Some(R0)) == Width(p, None) && Height(p, Some(R0)) == Height(p, None)
    ensures Width(p, Some(Turn(r))) == Height(p, Some(r)) && Height(p, Some(Turn(r))) == Width(p, Some(r))
    ensures Width(p, Some(Turn(Turn(r)))) == Width(p, Some(r))
  {
  }

  // ---------------------------------------------------------------------------
  // isTileAt

  /** The canonical coordinate isTileAt tests for (col, row) of the oriented piece. */
  function Local(p: Piece, rotation: Rotation, flipped: bool, col: int, row: int): Tile
  {
    var w, h := Width(p, None), Height(p, None);
    match rotation
    case R0 => Tile(if flipped then w - 1 - col else col, row)
    case R90 =>
      var lr := h - 1 - col;
      Tile(row, if flipped then h - 1 - lr else lr)
    case R180 => Tile(if !flipped then w - 1 - col else col, h - 1 - row)
    case R270 =>
      var lr := col;
      Tile(w - 1 - row, if flipped then h - 1 - lr else lr)
  }

  /** The cell lies in the canonical box. */
  predicate InCanonicalBox(p: Piece, t: Tile)
  {
    0 <= t.col && 0 <= t.row && t.col < Width(p, None) && t.row < Height(p, None)
  }

  /** isTileAt(col, row, rotation, flipped). */
  predicate TileAt(p: Piece, col: int, row: int, rotation: Rotation, flipped: bool)
  {
    var t := Local(p, rotation, flipped, col, row);
    InCanonicalBox(p, t) && BitIndex(t) in p.bitfield
  }

  /** The cell lies in the box of the piece under `rotation`. */
  predicate InRotatedBox(p: Piece, rotation: Rotation, col: int, row: int)
  {
    0 <= col < Width(p, Some(rotation)) && 0 <= row < Height(p, Some(rotation))
  }

  /** The inverse of `Local`: the oriented coordinate that maps onto canonical cell `t`. */
  function Unmap(p: Piece, rotation: Rotation, flipped: bool, t: Tile): Tile
  {
    var w, h := Width(p, None), Height(p, None);
    match rotation
    case R0 => Tile(if flipped then w - 1 - t.col else t.col, t.row)
    case R90 => Tile(if flipped then t.row else h - 1 - t.row, t.col)
    case R180 => Tile(if !flipped then w - 1 - t.col else t.col, h - 1 - t.row)
    case R270 => Tile(if flipped then h - 1 - t.row else t.row, w - 1 - t.col)
  }

  /**
   * For each of the eight orientations, `Local` maps the rotated box one to one onto the canonical
   * box, and `Unmap` is its inverse.
   */
  lemma LocalBijection(p: Piece, rotation: Rotation, flipped: bool, col: int, row: int, t: Tile)
    ensures InRotatedBox(p, rotation, col, row) <==> InCanonicalBox(p, Local(p, rotation, flipped, col, row))
    ensures InCanonicalBox(p, t) <==> InRotatedBox(p, rotation, Unmap(p, rotation, flipped, t).col, Unmap(p, rotation, flipped, t).row)
    ensures Unmap(p, rotation, flipped, Local(p, rotation, flipped, col, row)) == Tile(col, row)
    ensures Local(p, rotation, flipped, Unmap(p, rotation, flipped, t).col, Unmap(p, rotation, flipped, t).row) == t
  {
  }

  /** isTileAt is false outside the rotated box, whatever the bitfield holds. */
  lemma TileInRotatedBox(p: Piece, rotation: Rotation, flipped: bool)
    ensures forall col, row :: TileAt(p, col, row, rotation, flipped) ==> InRotatedBox(p, rotation, col, row)
  {
    forall col, row | TileAt(p, col, row, rotation, flipped)
      ensures InRotatedBox(p, rotation, col, row)
    {
      LocalBijection(p, rotation, flipped, col, row, Tile(0, 0));
    }
  }

  /** Unrotated and unflipped, a piece built from a well-formed description shows exactly its listed tiles. */
  lemma TileAtUnrotated(d: PieceDescription, index: int, gridWidth: nat, gridHeight: nat, col: int, row: int)
    requires TilesInBox(d)
    ensures TileAt(MakePiece(d, index, gridWidth, gridHeight), col, row, R0, false) <==> Tile(col, row) in d.tiles
  {
    var p := MakePiece(d, index, gridWidth, gridHeight);
    if 0 <= col < 8 {
      BitsOfTiles(d, col, row);
    }
    if Tile(col, row) in d.tiles {
      var i :| 0 <= i < |d.tiles| && d.tiles[i] == Tile(col, row);
    }
  }

  // ---------------------------------------------------------------------------
  // Every orientation shows the same tiles

  /** The cells of a `w` x `h` box. */
  ghost function BoxCells(w: int, h: int): set<Tile>
  {
    set col: int, row: int | 0 <= col < w && 0 <= row < h :: Tile(col, row)
  }

  lemma BoxCellsMember(w: int, h: int, t: Tile)
    ensures t in BoxCells(w, h) <==> 0 <= t.col < w && 0 <= t.row < h
  {
    if 0 <= t.col < w && 0 <= t.row < h {
      assert t == Tile(t.col, t.row);
    }
  }

  /** The cells of the canonical box whose bit is set. */
  ghost function CanonicalTiles(p: Piece): set<Tile>
  {
    set t | t in BoxCells(Width(p, None), Height(p, None)) && BitIndex(t) in p.bitfield
  }

  /** The cells of the rotated box at which the oriented piece has a tile. */
  ghost function OrientedTiles(p: Piece, rotation: Rotation, flipped: bool): set<Tile>
  {
    set t | t in BoxCells(Width(p, Some(rotation)), Height(p, Some(rotation))) && TileAt(p, t.col, t.row, rotation, flipped)
  }

  /** The image of a set of canonical cells under `Unmap`, which is one to one, has as many elements as the set. */
  lemma {:induction false} UnmapImage(p: Piece, rotation: Rotation, flipped: bool, s: set<Tile>)
    ensures |set x | x in s :: Unmap(p, rotation, flipped, x)| == |s|
    decreases |s|
  {
    if s != {} {
      var x :| x in s;
      var s' := s - {x};
      UnmapImage(p, rotation, flipped, s');
      var img, img' := set y | y in s :: Unmap(p, rotation, flipped, y), set y | y in s' :: Unmap(p, rotation, flipped, y);
      assert img == img' + {Unmap(p, rotation, flipped, x)};
      assert Unmap(p, rotation, flipped, x) !in img' by {
        forall y | y in s' ensures Unmap(p, rotation, flipped, y) != Unmap(p, rotation, flipped, x) {
          LocalBijection(p, rotation, flipped, 0, 0, x);
          LocalBijection(p, rotation, flipped, 0, 0, y);
        }
      }
    }
  }

  /** Every orientation of a piece shows as many tiles as its canonical box holds. */
  lemma OrientedTileCount(p: Piece, rotation: Rotation, flipped: bool)
    ensures |OrientedTiles(p, rotation, flipped)| == |CanonicalTiles(p)|
  {
    var C, O := CanonicalTiles(p), OrientedTiles(p, rotation, flipped);
    var w, h := Width(p, Some(rotation)), Height(p, Some(rotation));
    UnmapImage(p, rotation, flipped, C);
    var img := set x | x in C :: Unmap(p, rotation, flipped, x);
    forall u | u in O ensures u in img {
      var t := Local(p, rotation, flipped, u.col, u.row);
      BoxCellsMember(w, h, u);
      LocalBijection(p, rotation, flipped, u.col, u.row, t);
      BoxCellsMember(Width(p, None), Height(p, None), t);
      assert t in C;
    }
    forall x | x in C ensures Unmap(p, rotation, flipped, x) in O {
      var u := Unmap(p, rotation, flipped, x);
      BoxCellsMember(Width(p, None), Height(p, None), x);
      LocalBijection(p, rotation, flipped, 0, 0, x);
      BoxCellsMember(w, h, u);
    }
    assert O == img;
  }

  // ---------------------------------------------------------------------------
  // getSignature

  /** The bits below `bound` of an orientation's signature: bit k for cell (k % 8, k / 8). */
  ghost function SignatureBelow(p: Piece, rotation: Rotation, flipped: bool, bound: int): set<int>
  {
    set k | 0 <= k < bound && TileAt(p, k % 8, k / 8, rotation, flipped)
  }

  /** getSignature(rotation, flipped): the 8 x 8 occupancy mask of one orientation. */
  ghost function Signature(p: Piece, rotation: Rotation, flipped: bool): set<int>
  {
    SignatureBelow(p, rotation, flipped, 64)
  }

  lemma DivModEight(r: int, c: int)
    requires 0 <= c < 8
    ensures (r * 8 + c) / 8 == r && (r * 8 + c) % 8 == c
  {
  }

  /** getSignature: test each cell of the 8 x 8 space in row-major order and OR in its bit. */
  method GetSignature(p: Piece, rotation: Rotation, flipped: bool) returns (signature: set<int>)
    ensures signature == Signature(p, rotation, flipped)
  {
    signature := {};
    for r := 0 to 8
      invariant signature == SignatureBelow(p, rotation, flipped, r * 8)
    {
      for c := 0 to 8
        invariant signature == SignatureBelow(p, rotation, flipped, r * 8 + c)
      {
        DivModEight(r, c);
        if TileAt(p, c, r, rotation, flipped) {
          signature := signature + {r * 8 + c};
        }
        assert SignatureBelow(p, rotation, flipped, r * 8 + c + 1)
            == SignatureBelow(p, rotation, flipped, r * 8 + c) + (if TileAt(p, c, r, rotation, flipped) then {r * 8 + c} else {});
      }
    }
  }

  /** Bit `r * 8 + c` of the signature is set exactly when isTileAt(c, r) holds; no bit outside 0..63 is set. */
  lemma SignatureBits(p: Piece, rotation: Rotation, flipped: bool, c: int, r: int, k: int)
    ensures k in Signature(p, rotation, flipped) ==> 0 <= k < 64
    ensures 0 <= c < 8 && 0 <= r < 8 ==> (r * 8 + c in Signature(p, rotation, flipped) <==> TileAt(p, c, r, rotation, flipped))
  {
    if 0 <= c < 8 {
      DivModEight(r, c);
    }
  }

  /**
   * When both boxes fit in 8 x 8, two orientations with the same signature have their tiles at the
   * same cells: they are interchangeable.
   */
  lemma SameSignatureSameTiles(p: Piece, rp: Rotation, fp: bool, q: Piece, rq: Rotation, fq: bool, c: int, r: int)
    requires Width(p, Some(rp)) <= 8 && Height(p, Some(rp)) <= 8
    requires Width(q, Some(rq)) <= 8 && Height(q, Some(rq)) <= 8
    requires Signature(p, rp, fp) == Signature(q, rq, fq)
    ensures TileAt(p, c, r, rp, fp) <==> TileAt(q, c, r, rq, fq)
  {
    TileInRotatedBox(p, rp, fp);
    TileInRotatedBox(q, rq, fq);
    if 0 <= c < 8 && 0 <= r < 8 {
      SignatureBits(p, rp, fp, c, r, 0);
      SignatureBits(q, rq, fq, c, r, 0);
    }
  }
}

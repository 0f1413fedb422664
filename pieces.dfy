/**
 * The piece table: the twelve Kanoodle pieces, each a symbol, its tiles as (col, row) cells of
 * its bounding box, the box's dimensions as (width, height), and a display color.
 *
 * Pieces store their tiles as bits `row * 8 + col` of one number, and pins find their piece by
 * symbol; both rely on the table being well formed: tiles inside a box of at most 8 x 8, no tile
 * twice, and no symbol twice.  The table's 55 tiles are exactly the cells of the 11 x 5 grid the
 * service solves on.
 */
module PieceTable {
  import opened Geometry
  import opened Options
  import opened SearchRows
  import opened Kanoodle

  const PieceDescriptions: seq<PieceDescription> := [
      PieceDescription("A", [Tile(0, 0), Tile(2, 0), Tile(0, 1), Tile(1, 1), Tile(2, 1)], Tile(3, 2), "#e4240d"),
      PieceDescription("B", [Tile(1, 0), Tile(1, 1), Tile(0, 2), Tile(1, 2), Tile(0, 3)], Tile(2, 4), "#ee69a3"),
      PieceDescription("C", [Tile(1, 0), Tile(0, 1), Tile(1, 1), Tile(1, 2), Tile(2, 2)], Tile(3, 3), "#f5a4c8"),
      PieceDescription("D", [Tile(0, 0), Tile(1, 0), Tile(2, 0), Tile(1, 1)], Tile(3, 2), "#179ad9"),
      PieceDescription("E", [Tile(1, 0), Tile(1, 1), Tile(0, 2), Tile(1, 2), Tile(1, 3)], Tile(2, 4), "#fee83a"),
      PieceDescription("F", [Tile(1, 0), Tile(0, 1), Tile(1, 1), Tile(0, 2), Tile(1, 2)], Tile(2, 3), "#b96bae"),
      PieceDescription("G", [Tile(1, 0), Tile(2, 0), Tile(0, 1), Tile(1, 1)], Tile(3, 2), "#8e58a5"),
      PieceDescription("H", [Tile(1, 0), Tile(1, 1), Tile(0, 2), Tile(1, 2)], Tile(2, 3), "#65bc68"),
      PieceDescription("I", [Tile(2, 0), Tile(2, 1), Tile(0, 2), Tile(1, 2), Tile(2, 2)], Tile(3, 3), "#f3742b"),
      PieceDescription("J", [Tile(1, 0), Tile(1, 1), Tile(1, 2), Tile(0, 3), Tile(1, 3)], Tile(2, 4), "#1b8841"),
      PieceDescription("K", [Tile(0, 0), Tile(0, 1), Tile(1, 1)], Tile(2, 2), "#edb02e"),
      PieceDescription("L", [Tile(2, 0), Tile(1, 1), Tile(2, 1), Tile(0, 2), Tile(1, 2)], Tile(3, 3), "#89c8ec")
  ]

  /** The grid the service solves on. */
  const GridWidth: nat := 11
  const GridHeight: nat := 5

  /** No tile of the description is listed twice. */
  ghost predicate DistinctTiles(d: PieceDescription)
  {
    forall i, j :: 0 <= i < j < |d.tiles| ==> d.tiles[i] != d.tiles[j]
  }

  /** The number of tiles of all the pieces. */
  function TotalTiles(descs: seq<PieceDescription>): nat
  {
    if descs == [] then 0 else |descs[0].tiles| + TotalTiles(descs[1..])
  }

  /** The sum of the first `n` numbers. */
  function Sum(xs: seq<int>, n: int): int
    requires n <= |xs|
  {
    if n <= 0 then 0 else Sum(xs, n - 1) + xs[n - 1]
  }

  /** The total tile count is the sum of the per-entry counts. */
  lemma {:induction false} TotalTilesOf(descs: seq<PieceDescription>, counts: seq<int>)
    requires |counts| == |descs| && forall k :: 0 <= k < |descs| ==> |descs[k].tiles| == counts[k]
    ensures TotalTiles(descs) == Sum(counts, |counts|)
    decreases |descs|
  {
    if descs != [] {
      TotalTilesOf(descs[1..], counts[1..]);
      SumFront(counts, |counts|);
    }
  }

  lemma {:induction false} SumFront(xs: seq<int>, n: int)
    requires 0 < n <= |xs|
    ensures Sum(xs, n) == xs[0] + Sum(xs[1..], n - 1)
    decreases n
  {
    if n > 1 {
      SumFront(xs, n - 1);
    }
  }

  /** Tiles inside a box of at most 8 x 8, none listed twice, set distinct bits below 64. */
  lemma DistinctBits(d: PieceDescription)
    requires TilesInBox(d) && DistinctTiles(d)
    ensures forall i :: 0 <= i < |d.tiles| ==> 0 <= BitIndex(d.tiles[i]) < 64
    ensures forall i, j :: 0 <= i < j < |d.tiles| ==> BitIndex(d.tiles[i]) != BitIndex(d.tiles[j])
  {
    forall i, j | 0 <= i < j < |d.tiles| ensures BitIndex(d.tiles[i]) != BitIndex(d.tiles[j]) {
      BitIndexInjective(d.tiles[i].col, d.tiles[i].row, d.tiles[j].col, d.tiles[j].row);
    }
  }

  /** Every entry of the table has a one-character symbol, its tiles inside its box of at most 8 x 8, and no tile twice. */
  lemma TableWellFormed()
    ensures SingleSymbols(PieceDescriptions)
    ensures forall k :: 0 <= k < |PieceDescriptions| ==>
              TilesInBox(PieceDescriptions[k]) && DistinctTiles(PieceDescriptions[k])
  {
  }

  /** The bits buildBitfield sets for a table entry are distinct and below 64: one bit per tile. */
  lemma TableBits(k: int)
    requires 0 <= k < |PieceDescriptions|
    ensures var tiles := PieceDescriptions[k].tiles;
            && (forall i :: 0 <= i < |tiles| ==> 0 <= BitIndex(tiles[i]) < 64)
            && (forall i, j :: 0 <= i < j < |tiles| ==> BitIndex(tiles[i]) != BitIndex(tiles[j]))
  {
    TableWellFormed();
    DistinctBits(PieceDescriptions[k]);
  }

  /** The symbols are "A" to "L" in order, so no two entries share one. */
  lemma TableSymbols()
    ensures |PieceDescriptions| == 12
    ensures forall k :: 0 <= k < 12 ==> PieceDescriptions[k].symbol == ["ABCDEFGHIJKL"[k]]
    ensures forall i, j :: 0 <= i < j < |PieceDescriptions| ==> PieceDescriptions[i].symbol != PieceDescriptions[j].symbol
  {
  }

  /** A pin naming the symbol of entry `k` resolves to piece `k`. */
  lemma PinResolves(w: nat, h: nat, k: int)
    requires 0 <= k < |PieceDescriptions|
    ensures FindPiece(PiecesOf(PieceDescriptions, w, h), PieceDescriptions[k].symbol) == Some(MakePiece(PieceDescriptions[k], k, w, h))
  {
    var pieces := PiecesOf(PieceDescriptions, w, h);
    TableSymbols();
    var r := FindPiece(pieces, PieceDescriptions[k].symbol);
    assert pieces[k].symbol == PieceDescriptions[k].symbol;
    var i :| 0 <= i < |pieces| && pieces[i] == r.value && r.value.symbol == PieceDescriptions[k].symbol
             && forall j :: 0 <= j < i ==> pieces[j].symbol != PieceDescriptions[k].symbol;
    assert i == k;
  }

  lemma CountsSum()
    ensures Sum([5, 5, 5, 4, 5, 5, 4, 4, 5, 5, 3, 5], 12) == 55
  {
    var xs := [5, 5, 5, 4, 5, 5, 4, 4, 5, 5, 3, 5];
    assert Sum(xs, 1) == 5;
    assert Sum(xs, 2) == 10;
    assert Sum(xs, 3) == 15;
    assert Sum(xs, 4) == 19;
    assert Sum(xs, 5) == 24;
    assert Sum(xs, 6) == 29;
    assert Sum(xs, 7) == 33;
    assert Sum(xs, 8) == 37;
    assert Sum(xs, 9) == 42;
    assert Sum(xs, 10) == 47;
    assert Sum(xs, 11) == 50;
    assert Sum(xs, 12) == 55;
  }

  /** The table has 55 tiles, exactly the cells of the 11 x 5 grid. */
  lemma TableArea()
    ensures TotalTiles(PieceDescriptions) == 55 == GridWidth * GridHeight
  {
    assert forall k :: 0 <= k < 12 ==> |PieceDescriptions[k].tiles| == [5, 5, 5, 4, 5, 5, 4, 4, 5, 5, 3, 5][k];
    TotalTilesOf(PieceDescriptions, [5, 5, 5, 4, 5, 5, 4, 4, 5, 5, 3, 5]);
    CountsSum();
  }
}

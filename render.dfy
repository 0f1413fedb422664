/**
 * Kanoodle.formatGrid: a solution as text.
 *
 * The grid starts as `H` rows of `W` blanks; each placement in turn writes its symbol on every
 * cell it has a tile on, so where placements overlap the last one wins.  The text is a newline,
 * then each grid row joined into one line and followed by a newline.
 */
module Rendering {
  import opened Options
  import opened Geometry
  import opened Placements

  /** What grid cell (x, y) holds after the placements of `sol`: the symbol of the last one covering it, or a blank. */
  function CellAt(sol: seq<SearchRow>, x: int, y: int): string
    decreases |sol|
  {
    if sol == [] then " "
    else if RowTileAt(sol[|sol| - 1], x, y) then sol[|sol| - 1].piece.symbol
    else CellAt(sol[..|sol| - 1], x, y)
  }

  /** The first `n` cells of grid row `y`, joined. */
  function Line(sol: seq<SearchRow>, y: int, n: int): string
    decreases n
  {
    if n <= 0 then "" else Line(sol, y, n - 1) + CellAt(sol, n - 1, y)
  }

  /** The first `m` grid rows of width `w`, each followed by a newline. */
  function Lines(sol: seq<SearchRow>, w: int, m: int): string
    decreases m
  {
    if m <= 0 then "" else Lines(sol, w, m - 1) + Line(sol, m - 1, w) + "\n"
  }

  /** What formatGrid returns. */
  function Render(sol: seq<SearchRow>, w: int, h: int): string
  {
    "\n" + Lines(sol, w, h)
  }

  // ---------------------------------------------------------------------------
  // The method

  /** Cell (x, y) while placement `k` is being painted, its rows before `r` and row `r` before column `c` done. */
  ghost function Partial(sol: seq<SearchRow>, k: int, r: int, c: int, x: int, y: int): string
    requires 0 <= k < |sol|
  {
    var s := sol[k];
    var lc, lr := x - s.col, y - s.row;
    if (lr < r || (lr == r && lc < c)) && TileAt(s.piece, lc, lr, s.rotation, s.flipped) then s.piece.symbol
    else CellAt(sol[..k], x, y)
  }

  /** The two nested loops of formatGrid for one placement. */
  method Paint(grid: array2<string>, sol: seq<SearchRow>, k: int)
    requires 0 <= k < |sol| && Fits(sol[k], grid.Length1, grid.Length0)
    requires forall y, x :: 0 <= y < grid.Length0 && 0 <= x < grid.Length1 ==> grid[y, x] == CellAt(sol[..k], x, y)
    modifies grid
    ensures forall y, x :: 0 <= y < grid.Length0 && 0 <= x < grid.Length1 ==> grid[y, x] == CellAt(sol[..k + 1], x, y)
  {
    var s := sol[k];
    var h := Height(s.piece, Some(s.rotation));
    var w := Width(s.piece, Some(s.rotation));
    TileInRotatedBox(s.piece, s.rotation, s.flipped);
    var r := 0;
    while r < h
      invariant 0 <= r && (h >= 0 ==> r <= h) && (h < 0 ==> r == 0)
      invariant forall y, x :: 0 <= y < grid.Length0 && 0 <= x < grid.Length1 ==> grid[y, x] == Partial(sol, k, r, 0, x, y)
    {
      var c := 0;
      while c < w
        invariant 0 <= c && (w >= 0 ==> c <= w) && (w < 0 ==> c == 0)
        invariant forall y, x :: 0 <= y < grid.Length0 && 0 <= x < grid.Length1 ==> grid[y, x] == Partial(sol, k, r, c, x, y)
      {
        if TileAt(s.piece, c, r, s.rotation, s.flipped) {
          grid[s.row + r, s.col + c] := s.piece.symbol;
        }
        c := c + 1;
      }
      r := r + 1;
    }
    assert sol[..k + 1][..k] == sol[..k];
  }

  /** formatGrid(solution, gridWidth, gridHeight). */
  method FormatGrid(solution: seq<SearchRow>, w: nat, h: nat) returns (text: string)
    requires forall i :: 0 <= i < |solution| ==> Fits(solution[i], w, h)
    ensures text == Render(solution, w, h)
  {
    var grid := new string[h, w]((_, _) => " ");
    for k := 0 to |solution|
      invariant forall y, x :: 0 <= y < h && 0 <= x < w ==> grid[y, x] == CellAt(solution[..k], x, y)
    {
      Paint(grid, solution, k);
    }
    assert solution[..|solution|] == solution;
    text := Join(grid, solution);
  }

  /** The second half of formatGrid: the grid's rows joined, each followed by a newline, after a leading newline. */
  method Join(grid: array2<string>, solution: seq<SearchRow>) returns (text: string)
    requires forall y, x :: 0 <= y < grid.Length0 && 0 <= x < grid.Length1 ==> grid[y, x] == CellAt(solution, x, y)
    ensures text == Render(solution, grid.Length1, grid.Length0)
  {
    var w, h := grid.Length1, grid.Length0;
    text := "\n";
    for y := 0 to h
      invariant text == "\n" + Lines(solution, w, y)
    {
      var line := "";
      for x := 0 to w
        invariant line == Line(solution, y, x)
      {
        line := line + grid[y, x];
      }
      assert Lines(solution, w, y + 1) == Lines(solution, w, y) + line + "\n";
      text := text + line + "\n";
    }
  }

  // ---------------------------------------------------------------------------
  // What the text shows

  /** A cell no placement covers stays blank. */
  lemma {:induction false} Uncovered(sol: seq<SearchRow>, x: int, y: int)
    requires forall i :: 0 <= i < |sol| ==> !RowTileAt(sol[i], x, y)
    ensures CellAt(sol, x, y) == " "
    decreases |sol|
  {
    if sol != [] {
      var p := sol[..|sol| - 1];
      assert forall i :: 0 <= i < |p| ==> p[i] == sol[i];
      Uncovered(p, x, y);
    }
  }

  /** A covered cell holds the symbol of the last placement covering it. */
  lemma {:induction false} LastCoverWins(sol: seq<SearchRow>, x: int, y: int, i: int)
    requires 0 <= i < |sol| && RowTileAt(sol[i], x, y)
    requires forall j :: i < j < |sol| ==> !RowTileAt(sol[j], x, y)
    ensures CellAt(sol, x, y) == sol[i].piece.symbol
    decreases |sol|
  {
    if i < |sol| - 1 {
      var p := sol[..|sol| - 1];
      assert forall j :: 0 <= j < |p| ==> p[j] == sol[j];
      LastCoverWins(p, x, y, i);
    }
  }

  /** Every placement's symbol is one character, as in the piece table. */
  ghost predicate SingleChars(sol: seq<SearchRow>)
  {
    forall i :: 0 <= i < |sol| ==> |sol[i].piece.symbol| == 1
  }

  lemma {:induction false} CellAtLength(sol: seq<SearchRow>, x: int, y: int)
    requires SingleChars(sol)
    ensures |CellAt(sol, x, y)| == 1
    decreases |sol|
  {
    if sol != [] && !RowTileAt(sol[|sol| - 1], x, y) {
      var p := sol[..|sol| - 1];
      assert forall j :: 0 <= j < |p| ==> p[j] == sol[j];
      CellAtLength(p, x, y);
    }
  }

  /** Character `x` of a line is the cell's one character. */
  lemma {:induction false} LineAt(sol: seq<SearchRow>, y: int, n: int, x: int)
    requires SingleChars(sol) && 0 <= x < n
    ensures |Line(sol, y, n)| == n && |CellAt(sol, x, y)| == 1 && Line(sol, y, n)[x] == CellAt(sol, x, y)[0]
    decreases n
  {
    CellAtLength(sol, n - 1, y);
    if x < n - 1 {
      LineAt(sol, y, n - 1, x);
    } else if n - 1 > 0 {
      LineAt(sol, y, n - 1, 0);
    }
  }

  lemma {:induction false} LinesLength(sol: seq<SearchRow>, w: nat, m: nat)
    requires SingleChars(sol)
    ensures |Lines(sol, w, m)| == m * (w + 1)
    decreases m
  {
    if m > 0 {
      LinesLength(sol, w, m - 1);
      if w > 0 {
        LineAt(sol, m - 1, w, 0);
      }
      assert (m - 1) * (w + 1) + w + 1 == m * (w + 1);
    }
  }

  lemma {:induction false} LineLength(sol: seq<SearchRow>, y: int, n: nat)
    requires SingleChars(sol)
    ensures |Line(sol, y, n)| == n
    decreases n
  {
    if n > 0 {
      LineLength(sol, y, n - 1);
      CellAtLength(sol, n - 1, y);
    }
  }

  /** Line `y` of the first `m` lines starts where the first `y` lines end: its cells, then a newline. */
  lemma {:induction false} LinesAt(sol: seq<SearchRow>, w: nat, m: nat, y: nat, x: nat)
    requires SingleChars(sol) && y < m && x <= w
    ensures |Lines(sol, w, y)| + x < |Lines(sol, w, m)|
    ensures x < w ==> Lines(sol, w, m)[|Lines(sol, w, y)| + x .. |Lines(sol, w, y)| + x + 1] == CellAt(sol, x, y)
    ensures x == w ==> Lines(sol, w, m)[|Lines(sol, w, y)| + x] == '\n'
    decreases m
  {
    var k := |Lines(sol, w, y)| + x;
    var L, L' := Lines(sol, w, m), Lines(sol, w, m - 1);
    LineLength(sol, m - 1, w);
    assert L == L' + Line(sol, m - 1, w) + "\n";
    if y < m - 1 {
      LinesAt(sol, w, m - 1, y, x);
      PrefixAt(L', Line(sol, m - 1, w) + "\n", k);
      assert L == L' + (Line(sol, m - 1, w) + "\n");
    } else if x < w {
      LastLineAt(L', Line(sol, y, w), x);
      LineAt(sol, y, w, x);
      assert L[k..k + 1] == [Line(sol, y, w)[x]];
    }
  }

  lemma PrefixAt(a: string, b: string, k: nat)
    requires k < |a|
    ensures (a + b)[k] == a[k] && (a + b)[k..k + 1] == a[k..k + 1]
  {
  }

  lemma ShiftAt(t: string, i: nat)
    requires i < |t|
    ensures 1 + i < |"\n" + t| && ("\n" + t)[1 + i] == t[i] && ("\n" + t)[1 + i .. 1 + i + 1] == t[i .. i + 1]
  {
  }

  lemma LastLineAt(a: string, line: string, x: nat)
    requires x < |line|
    ensures (a + line + "\n")[|a| + x .. |a| + x + 1] == [line[x]]
  {
    var t := a + line + "\n";
    assert t[|a| + x] == line[x];
  }

  /** formatGrid's text is a newline and `H` lines of `W` characters, each followed by a newline: `1 + H * (W + 1)` characters. */
  lemma RenderLength(sol: seq<SearchRow>, w: nat, h: nat)
    requires SingleChars(sol)
    ensures |Render(sol, w, h)| == 1 + h * (w + 1) && Render(sol, w, h)[0] == '\n'
  {
    LinesLength(sol, w, h);
  }

  /** Where cell (x, y) of a grid `w` wide sits in formatGrid's text: after the leading newline and `y` lines of `w + 1` characters. */
  function Offset(w: int, x: int, y: int): int
  {
    1 + y * (w + 1) + x
  }

  /** In formatGrid's text, cell (x, y) is the character at `Offset(W, x, y)`, and a newline ends each line. */
  lemma RenderAt(sol: seq<SearchRow>, w: nat, h: nat, x: nat, y: nat)
    requires SingleChars(sol) && y < h && x <= w
    ensures Offset(w, x, y) < |Render(sol, w, h)|
    ensures x < w ==> Render(sol, w, h)[Offset(w, x, y) .. Offset(w, x, y) + 1] == CellAt(sol, x, y)
    ensures x == w ==> Render(sol, w, h)[Offset(w, x, y)] == '\n'
  {
    LinesLength(sol, w, y);
    LinesAt(sol, w, h, y, x);
    var i := |Lines(sol, w, y)| + x;
    assert 1 + i == Offset(w, x, y);
    ShiftAt(Lines(sol, w, h), i);
  }
}

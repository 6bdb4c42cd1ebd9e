/**
 * The solving loop of BinaryPuzzleSolver.js run on the puzzle object: each
 * method performs its part of the loop through `setEntry`, `rows` and
 * `columns` and is proved to leave the grid as the matching function of
 * Solver says.
 */
module Driver {
  import opened Wrappers
  import opened Cells
  import opened Grid
  import opened LineRules
  import opened Solver

  /** Row `line` with its first `x` cells replaced by `b`'s. */
  ghost function PartialRow(line: seq<Cell>, b: seq<Bit>, x: nat): (r: seq<Cell>)
    requires x <= |b| == |line|
    ensures |r| == |line|
  {
    seq(|line|, k requires 0 <= k < |line| => if k < x then Num(b[k]) else line[k])
  }

  /** The grid with the cells of column `x` in its first `j` rows replaced by `b`'s. */
  ghost function PartialColumn(g: seq<seq<Cell>>, x: nat, b: seq<Bit>, j: nat): (h: seq<seq<Cell>>)
    requires IsSquare(g) && x < |g| && j <= |b| == |g|
    ensures |h| == |g| && IsSquare(h)
  {
    seq(|g|, i requires 0 <= i < |g| => if i < j then g[i][x := Num(b[i])] else g[i])
  }

  /** Writes the only row candidate into row `y`, one `setEntry` per cell, left to right. */
  method FillRow(p: BinaryPuzzle, y: nat, b: seq<Bit>)
    requires p.Valid() && y < p.size && |b| == p.size
    modifies p`grid
    ensures p.Valid()
    ensures p.grid == WriteRow(old(p.grid), y, b)
  {
    ghost var g0 := p.grid;
    assert PartialRow(g0[y], b, 0) == g0[y];
    var x := 0;
    while x < |b|
      invariant 0 <= x <= |b|
      invariant p.Valid()
      invariant p.grid == g0[y := PartialRow(g0[y], b, x)]
    {
      var r := p.SetEntry(x, y, Num(b[x]));
      assert r.Pass?;
      assert PartialRow(g0[y], b, x)[x := Num(b[x])] == PartialRow(g0[y], b, x + 1);
      x := x + 1;
    }
    assert PartialRow(g0[y], b, |b|) == Lift(b);
  }

  /** Writes the only column candidate into column `x`, one `setEntry` per cell, top to bottom. */
  method FillColumn(p: BinaryPuzzle, x: nat, b: seq<Bit>)
    requires p.Valid() && x < p.size && |b| == p.size
    modifies p`grid
    ensures p.Valid()
    ensures p.grid == WriteColumn(old(p.grid), x, b)
  {
    ghost var g0 := p.grid;
    var j := 0;
    while j < |b|
      invariant 0 <= j <= |b|
      invariant p.Valid()
      invariant p.grid == PartialColumn(g0, x, b, j)
    {
      var r := p.SetEntry(x, j, Num(b[j]));
      assert r.Pass?;
      assert PartialColumn(g0, x, b, j)[j := g0[j][x := Num(b[j])]] == PartialColumn(g0, x, b, j + 1);
      j := j + 1;
    }
  }

  /**
   * Iteration `x` of the column loop in row `y`, with the row candidates
   * computed before the loop.
   */
  method SolveCell(p: BinaryPuzzle, y: nat, x: nat, rowPossibilities: seq<seq<Bit>>)
    requires p.Valid() && y < p.size && x < p.size && LinesOf(rowPossibilities, p.size)
    modifies p`grid
    ensures p.Valid()
    ensures p.grid == CellStep(old(p.grid), y, x, rowPossibilities)
  {
    var columns := p.Columns();
    var columnPossibilities := GetRowPossibilities(columns, x);
    assert columnPossibilities == ColumnCandidates(p.grid, x);
    if |columnPossibilities| == 1 {
      FillColumn(p, x, columnPossibilities[0]);
      return;
    }
    var columnNumsOnCoord := CommonValue(columnPossibilities, y);
    var rowNumsOnCoord := CommonValue(rowPossibilities, x);
    if columnNumsOnCoord.Some? {
      var r := p.SetEntry(x, y, Num(columnNumsOnCoord.value));
      assert r.Pass?;
    } else if rowNumsOnCoord.Some? {
      var r := p.SetEntry(x, y, Num(rowNumsOnCoord.value));
      assert r.Pass?;
    }
  }

  /** The column loop of row `y`: one column iteration per column, left to right. */
  method SolveCells(p: BinaryPuzzle, y: nat, rowPossibilities: seq<seq<Bit>>)
    requires p.Valid() && y < p.size && LinesOf(rowPossibilities, p.size)
    modifies p`grid
    ensures p.Valid()
    ensures p.grid == RowCells(old(p.grid), y, p.size, rowPossibilities)
  {
    ghost var g0 := p.grid;
    var x := 0;
    while x < p.size
      invariant 0 <= x <= p.size
      invariant p.Valid() && p.size == |g0|
      invariant p.grid == RowCells(g0, y, x, rowPossibilities)
    {
      SolveCell(p, y, x, rowPossibilities);
      x := x + 1;
    }
  }

  /** Iteration `y` of the row loop. */
  method SolveRow(p: BinaryPuzzle, y: nat)
    requires p.Valid() && y < p.size
    modifies p`grid
    ensures p.Valid()
    ensures p.grid == RowStep(old(p.grid), y)
  {
    var rows := p.Rows();
    var emptySpots := EmptySpots(rows[y]);
    if emptySpots == 0 {
      return;
    }
    var rowPossibilities := GetRowPossibilities(rows, y);
    CandidatesSound(rows, y);
    if |rowPossibilities| == 1 {
      FillRow(p, y, rowPossibilities[0]);
    } else {
      SolveCells(p, y, rowPossibilities);
    }
  }

  /** One pass of the `while` loop: every row, top to bottom. */
  method SolvePass(p: BinaryPuzzle)
    requires p.Valid()
    modifies p`grid
    ensures p.Valid()
    ensures p.grid == OnePass(old(p.grid))
  {
    ghost var g0 := p.grid;
    var y := 0;
    while y < p.size
      invariant 0 <= y <= p.size
      invariant p.Valid() && p.size == |g0|
      invariant PassFrom(p.grid, y) == PassFrom(g0, 0)
    {
      SolveRow(p, y);
      y := y + 1;
    }
  }

  /**
   * The driver loop, passes while the grid is not solved, for at most `fuel` passes: the grid is what
   * SolveFrom gives, refines the starting grid, and `solved` says whether
   * `solved()` now holds.
   */
  method Solve(p: BinaryPuzzle, fuel: nat) returns (solved: bool)
    requires p.Valid()
    modifies p`grid
    ensures p.Valid()
    ensures p.grid == SolveFrom(old(p.grid), fuel)
    ensures Refines(old(p.grid), p.grid)
    ensures solved <==> SolvedGrid(p.grid)
  {
    ghost var g0 := p.grid;
    var left := fuel;
    while !p.Solved() && left > 0
      invariant p.Valid() && p.size == |g0|
      invariant SolveFrom(p.grid, left) == SolveFrom(g0, fuel)
      decreases left
    {
      SolvePass(p);
      left := left - 1;
    }
    solved := p.Solved();
    SolveFromRefines(g0, fuel);
  }
}

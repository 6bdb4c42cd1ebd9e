/**
 * One solving pass of BinaryPuzzleSolver.js (the body of its `while` loop):
 * rows top to bottom; a finished row is skipped, a row with one candidate is
 * written whole, and otherwise each column in turn is written whole when it has
 * one candidate, or its cell in the current row is written when the column
 * candidates, or failing that the row candidates, agree on it.
 *
 * The pass is specified by pure functions that follow the loops step by step
 * (CellStep, RowCells, RowStep, PassFrom); the methods are proved to compute
 * them on the puzzle object, and the lemmas state what a pass guarantees.
 */
module Solver {
  import opened Wrappers
  import opened Cells
  import opened Grid
  import opened LineRules
  import opened Rules

  // ---------------------------------------------------------------------------
  // The common value of a set of candidates
  // ---------------------------------------------------------------------------

  /** Every candidate has an entry at `k`. */
  predicate HasEntry(cands: seq<seq<Bit>>, k: nat) {
    forall j :: 0 <= j < |cands| ==> k < |cands[j]|
  }

  /** The set of values the candidates take at index `k`. */
  function ValuesAt(cands: seq<seq<Bit>>, k: nat): set<Bit>
    requires HasEntry(cands, k)
  {
    set j | 0 <= j < |cands| :: cands[j][k]
  }

  /** Candidates that agree at `k` take exactly one value there. */
  lemma AgreeingValues(cands: seq<seq<Bit>>, k: nat)
    requires HasEntry(cands, k)
    ensures (|cands| > 0 && forall j :: 0 <= j < |cands| ==> cands[j][k] == cands[0][k]) ==> ValuesAt(cands, k) == {cands[0][k]}
  {
  }

  /** A set with one element holds nothing else. */
  lemma SingletonMember(s: set<Bit>, a: Bit, b: Bit)
    requires |s| == 1 && a in s && b in s
    ensures a == b
  {
    var rest := s - {a};
    assert |rest| == 0;
    assert b !in rest;
  }

  /**
   * The set of the candidates' values at `k` having one element: its only
   * element, which is the first candidate's value at `k`.
   */
  function CommonValue(cands: seq<seq<Bit>>, k: nat): (r: Option<Bit>)
    requires HasEntry(cands, k)
    ensures r.Some? <==> |cands| > 0 && forall j :: 0 <= j < |cands| ==> cands[j][k] == cands[0][k]
    ensures r.Some? ==> forall j :: 0 <= j < |cands| ==> cands[j][k] == r.value
  {
    var values := ValuesAt(cands, k);
    AgreeingValues(cands, k);
    if |values| == 1 then
      assert forall j :: 0 <= j < |cands| ==> cands[j][k] == cands[0][k] by {
        forall j | 0 <= j < |cands| ensures cands[j][k] == cands[0][k] {
          SingletonMember(values, cands[j][k], cands[0][k]);
        }
      }
      Some(cands[0][k])
    else
      None
  }

  /** The number of unknown (null) cells of a line (`emptySpots`). */
  function EmptySpots(line: seq<Cell>): (n: nat)
    ensures n <= |line|
    ensures n == 0 <==> Empty !in line
  {
    if line == [] then 0
    else (if line[0] == Empty then 1 else 0) + EmptySpots(line[1..])
  }

  // ---------------------------------------------------------------------------
  // Writes into the grid
  // ---------------------------------------------------------------------------

  /** The grid with cell (`x`, `y`) set to `v`. */
  function SetCell(g: seq<seq<Cell>>, x: nat, y: nat, v: Bit): (h: seq<seq<Cell>>)
    requires IsSquare(g) && x < |g| && y < |g|
    ensures |h| == |g| && IsSquare(h)
  {
    g[y := g[y][x := Num(v)]]
  }

  /** The grid with row `y` replaced by the line `b`. */
  function WriteRow(g: seq<seq<Cell>>, y: nat, b: seq<Bit>): (h: seq<seq<Cell>>)
    requires IsSquare(g) && y < |g| && |b| == |g|
    ensures |h| == |g| && IsSquare(h)
  {
    g[y := Lift(b)]
  }

  /** The grid with column `x` replaced by the line `b`. */
  function WriteColumn(g: seq<seq<Cell>>, x: nat, b: seq<Bit>): (h: seq<seq<Cell>>)
    requires IsSquare(g) && x < |g| && |b| == |g|
    ensures |h| == |g| && IsSquare(h)
    ensures forall j, k :: 0 <= j < |g| && 0 <= k < |g| ==> h[j][k] == if k == x then Num(b[j]) else g[j][k]
  {
    seq(|g|, j requires 0 <= j < |g| => g[j][x := Num(b[j])])
  }

  // ---------------------------------------------------------------------------
  // The pass, step by step
  // ---------------------------------------------------------------------------

  /** Candidates have the length of the grid's lines. */
  predicate LinesOf(cands: seq<seq<Bit>>, n: nat) {
    forall j :: 0 <= j < |cands| ==> |cands[j]| == n
  }

  /** The candidates of column `x`, recomputed from the current grid. */
  function ColumnCandidates(g: seq<seq<Cell>>, x: nat): (cands: seq<seq<Bit>>)
    requires IsSquare(g) && x < |g|
    ensures LinesOf(cands, |g|)
  {
    var cols := Transpose(g);
    CandidatesSound(cols, x);
    Candidates(cols, x)
  }

  /**
   * Iteration `x` of the column loop in row `y`: write the column if it has
   * exactly one candidate; otherwise write the cell from the column candidates'
   * common value at `y`, or else from the row candidates' common value at `x`.
   */
  function CellStep(g: seq<seq<Cell>>, y: nat, x: nat, rowCands: seq<seq<Bit>>): (h: seq<seq<Cell>>)
    requires IsSquare(g) && y < |g| && x < |g| && LinesOf(rowCands, |g|)
    ensures |h| == |g| && IsSquare(h)
  {
    var colCands := ColumnCandidates(g, x);
    if |colCands| == 1 then WriteColumn(g, x, colCands[0])
    else
      match CommonValue(colCands, y)
      case Some(v) => SetCell(g, x, y, v)
      case None =>
        match CommonValue(rowCands, x)
        case Some(v) => SetCell(g, x, y, v)
        case None => g
  }

  /** The grid after iterations `0 .. x - 1` of the column loop in row `y`. */
  function RowCells(g: seq<seq<Cell>>, y: nat, x: nat, rowCands: seq<seq<Bit>>): (h: seq<seq<Cell>>)
    requires IsSquare(g) && y < |g| && x <= |g| && LinesOf(rowCands, |g|)
    ensures |h| == |g| && IsSquare(h)
    decreases x
  {
    if x == 0 then g else CellStep(RowCells(g, y, x - 1, rowCands), y, x - 1, rowCands)
  }

  /**
   * Iteration `y` of the row loop: skip a row without unknown cells; write the
   * row if it has exactly one candidate; otherwise run the column loop with the
   * row candidates computed once, before it.
   */
  function RowStep(g: seq<seq<Cell>>, y: nat): (h: seq<seq<Cell>>)
    requires IsSquare(g) && y < |g|
    ensures |h| == |g| && IsSquare(h)
  {
    if Empty !in g[y] then g
    else
      var rowCands := Candidates(g, y);
      CandidatesSound(g, y);
      if |rowCands| == 1 then WriteRow(g, y, rowCands[0])
      else RowCells(g, y, |g|, rowCands)
  }

  /** Iterations `y .. size - 1` of the row loop. */
  function PassFrom(g: seq<seq<Cell>>, y: nat): (h: seq<seq<Cell>>)
    requires IsSquare(g) && y <= |g|
    ensures |h| == |g| && IsSquare(h)
    decreases |g| - y
  {
    if y == |g| then g else PassFrom(RowStep(g, y), y + 1)
  }

  /** One pass over the grid. */
  function OnePass(g: seq<seq<Cell>>): (h: seq<seq<Cell>>)
    requires IsSquare(g)
    ensures |h| == |g| && IsSquare(h)
  {
    PassFrom(g, 0)
  }

  /** The driver: passes until the grid is solved, at most `fuel` of them. */
  function SolveFrom(g: seq<seq<Cell>>, fuel: nat): (h: seq<seq<Cell>>)
    requires IsSquare(g)
    ensures |h| == |g| && IsSquare(h)
    decreases fuel
  {
    if fuel == 0 || SolvedGrid(g) then g else SolveFrom(OnePass(g), fuel - 1)
  }

  // ---------------------------------------------------------------------------
  // A pass never contradicts a known cell
  // ---------------------------------------------------------------------------

  /**
   * `b` has the shape of `a`, keeps every known cell of `a`, and fills unknown
   * cells with 0 or 1 only.
   */
  predicate Refines(a: seq<seq<Cell>>, b: seq<seq<Cell>>) {
    && |a| == |b|
    && (forall i :: 0 <= i < |a| ==> |a[i]| == |b[i]|)
    && (forall i, j :: 0 <= i < |a| && 0 <= j < |a[i]| ==>
          b[i][j] == a[i][j] || (a[i][j] == Empty && IsBinaryCell(b[i][j])))
  }

  /** Refinement is transitive. */
  lemma RefinesTrans(a: seq<seq<Cell>>, b: seq<seq<Cell>>, c: seq<seq<Cell>>)
    requires Refines(a, b) && Refines(b, c)
    ensures Refines(a, c)
  {
    forall i, j | 0 <= i < |a| && 0 <= j < |a[i]|
      ensures c[i][j] == a[i][j] || (a[i][j] == Empty && IsBinaryCell(c[i][j]))
    {
      assert b[i][j] == a[i][j] || (a[i][j] == Empty && IsBinaryCell(b[i][j]));
      assert c[i][j] == b[i][j] || (b[i][j] == Empty && IsBinaryCell(c[i][j]));
    }
  }

  /** Setting a cell that is unknown, or already holds the value, refines the grid. */
  lemma SetCellRefines(g: seq<seq<Cell>>, x: nat, y: nat, v: Bit)
    requires IsSquare(g) && x < |g| && y < |g|
    requires g[y][x] == Empty || g[y][x] == Num(v)
    ensures Refines(g, SetCell(g, x, y, v))
  {
  }

  /** Writing a line that agrees with row `y` refines the grid. */
  lemma WriteRowRefines(g: seq<seq<Cell>>, y: nat, b: seq<Bit>)
    requires IsSquare(g) && y < |g| && |b| == |g|
    requires Agrees(g[y], b)
    ensures Refines(g, WriteRow(g, y, b))
  {
  }

  /** Writing a line that agrees with column `x` refines the grid. */
  lemma WriteColumnRefines(g: seq<seq<Cell>>, x: nat, b: seq<Bit>)
    requires IsSquare(g) && x < |g| && |b| == |g|
    requires Agrees(Transpose(g)[x], b)
    ensures Refines(g, WriteColumn(g, x, b))
  {
    var h := WriteColumn(g, x, b);
    forall i, j | 0 <= i < |g| && 0 <= j < |g| ensures h[i][j] == g[i][j] || (g[i][j] == Empty && IsBinaryCell(h[i][j])) {
      if j == x {
        assert Transpose(g)[x][i] == g[i][x];
      }
    }
  }

  /** Row candidates agree with the cells of row `y` from column `x` on. */
  predicate RowAgreesFrom(g: seq<seq<Cell>>, y: nat, x: nat, rowCands: seq<seq<Bit>>)
    requires IsSquare(g) && y < |g| && LinesOf(rowCands, |g|)
  {
    forall j, k :: 0 <= j < |rowCands| && x <= k < |g| && g[y][k] != Empty ==> g[y][k] == Num(rowCands[j][k])
  }

  /**
   * One iteration of the column loop refines the grid and changes column `x`
   * only, provided the row candidates agree with the current cell (`x`, `y`).
   */
  lemma CellStepRefines(g: seq<seq<Cell>>, y: nat, x: nat, rowCands: seq<seq<Bit>>)
    requires IsSquare(g) && y < |g| && x < |g| && LinesOf(rowCands, |g|)
    requires RowAgreesFrom(g, y, x, rowCands)
    ensures Refines(g, CellStep(g, y, x, rowCands))
    ensures forall i, k :: 0 <= i < |g| && 0 <= k < |g| && k != x ==> CellStep(g, y, x, rowCands)[i][k] == g[i][k]
  {
    var cols := Transpose(g);
    var colCands := ColumnCandidates(g, x);
    CandidatesSound(cols, x);
    if |colCands| == 1 {
      WriteColumnRefines(g, x, colCands[0]);
    } else {
      match CommonValue(colCands, y)
      case Some(v) =>
        assert colCands[0] in colCands;
        assert cols[x][y] == g[y][x];
        SetCellRefines(g, x, y, v);
      case None =>
        match CommonValue(rowCands, x)
        case Some(v) =>
          SetCellRefines(g, x, y, v);
        case None =>
    }
  }

  /** After iteration `x`, the row candidates still agree with the rest of the row. */
  lemma CellStepKeepsAgreement(g: seq<seq<Cell>>, y: nat, x: nat, rowCands: seq<seq<Bit>>)
    requires IsSquare(g) && y < |g| && x < |g| && LinesOf(rowCands, |g|)
    requires RowAgreesFrom(g, y, x, rowCands)
    ensures Refines(g, CellStep(g, y, x, rowCands))
    ensures RowAgreesFrom(CellStep(g, y, x, rowCands), y, x + 1, rowCands)
  {
    var h := CellStep(g, y, x, rowCands);
    CellStepRefines(g, y, x, rowCands);
    forall j, k | 0 <= j < |rowCands| && x + 1 <= k < |g| && h[y][k] != Empty ensures h[y][k] == Num(rowCands[j][k]) {
      assert h[y][k] == g[y][k];
    }
  }

  /** Every iteration of the column loop in row `y` refines the grid and keeps the row candidates agreeing with the rest of the row. */
  ghost predicate CellStepsAgree(y: nat, rowCands: seq<seq<Bit>>) {
    forall h: seq<seq<Cell>>, x: nat {:trigger CellStep(h, y, x, rowCands)} ::
      IsSquare(h) && y < |h| && x < |h| && LinesOf(rowCands, |h|) && RowAgreesFrom(h, y, x, rowCands) ==>
        Refines(h, CellStep(h, y, x, rowCands)) && RowAgreesFrom(CellStep(h, y, x, rowCands), y, x + 1, rowCands)
  }

  /** Every iteration of the column loop does. */
  lemma AllCellStepsAgree(y: nat, rowCands: seq<seq<Bit>>)
    ensures CellStepsAgree(y, rowCands)
  {
    forall h: seq<seq<Cell>>, x: nat | IsSquare(h) && y < |h| && x < |h| && LinesOf(rowCands, |h|) && RowAgreesFrom(h, y, x, rowCands)
      ensures Refines(h, CellStep(h, y, x, rowCands)) && RowAgreesFrom(CellStep(h, y, x, rowCands), y, x + 1, rowCands)
    {
      CellStepKeepsAgreement(h, y, x, rowCands);
    }
  }

  /**
   * The first `x` iterations of the column loop refine the grid, and the row
   * candidates still agree with the rest of the row.
   */
  lemma {:induction false} RowCellsRefines(g: seq<seq<Cell>>, y: nat, x: nat, rowCands: seq<seq<Bit>>)
    requires IsSquare(g) && y < |g| && x <= |g| && LinesOf(rowCands, |g|)
    requires RowAgreesFrom(g, y, 0, rowCands) && CellStepsAgree(y, rowCands)
    ensures Refines(g, RowCells(g, y, x, rowCands))
    ensures RowAgreesFrom(RowCells(g, y, x, rowCands), y, x, rowCands)
    decreases x
  {
    if x > 0 {
      var h := RowCells(g, y, x - 1, rowCands);
      RowCellsRefines(g, y, x - 1, rowCands);
      RefinesTrans(g, h, CellStep(h, y, x - 1, rowCands));
    }
  }

  /** One iteration of the row loop refines the grid. */
  lemma RowStepRefines(g: seq<seq<Cell>>, y: nat)
    requires IsSquare(g) && y < |g|
    ensures Refines(g, RowStep(g, y))
  {
    if Empty in g[y] {
      var rowCands := Candidates(g, y);
      CandidatesSound(g, y);
      if |rowCands| == 1 {
        assert rowCands[0] in rowCands;
        WriteRowRefines(g, y, rowCands[0]);
      } else {
        assert RowAgreesFrom(g, y, 0, rowCands) by {
          forall j, k | 0 <= j < |rowCands| && 0 <= k < |g| && g[y][k] != Empty ensures g[y][k] == Num(rowCands[j][k]) {
            assert rowCands[j] in rowCands;
          }
        }
        AllCellStepsAgree(y, rowCands);
        RowCellsRefines(g, y, |g|, rowCands);
      }
    }
  }

  /** The row loop from `y` on refines the grid. */
  lemma {:induction false} PassFromRefines(g: seq<seq<Cell>>, y: nat)
    requires IsSquare(g) && y <= |g|
    ensures Refines(g, PassFrom(g, y))
    decreases |g| - y
  {
    if y < |g| {
      var h := RowStep(g, y);
      RowStepRefines(g, y);
      PassFromRefines(h, y + 1);
      RefinesTrans(g, h, PassFrom(h, y + 1));
    }
  }

  /** A pass never changes a known cell and writes only 0s and 1s. */
  lemma PassRefines(g: seq<seq<Cell>>)
    requires IsSquare(g)
    ensures Refines(g, OnePass(g))
  {
    PassFromRefines(g, 0);
  }

  /** Nor does the driver, whatever the fuel. */
  lemma {:induction false} SolveFromRefines(g: seq<seq<Cell>>, fuel: nat)
    requires IsSquare(g)
    ensures Refines(g, SolveFrom(g, fuel))
    decreases fuel
  {
    if fuel > 0 && !SolvedGrid(g) {
      PassRefines(g);
      SolveFromRefines(OnePass(g), fuel - 1);
      RefinesTrans(g, OnePass(g), SolveFrom(OnePass(g), fuel - 1));
    }
  }

  // ---------------------------------------------------------------------------
  // A pass keeps every solution
  // ---------------------------------------------------------------------------

  /** A solution of `g`: a square grid that `solved()` accepts and that refines `g`. */
  predicate SolutionOf(s: seq<seq<Cell>>, g: seq<seq<Cell>>) {
    IsSquare(s) && SolvedGrid(s) && Refines(g, s)
  }

  /** A grid refining `a` whose lines hold no unknown cell: every line of `a` without unknowns is unchanged. */
  lemma FinishedLinesKept(a: seq<seq<Cell>>, b: seq<seq<Cell>>, i: nat)
    requires Refines(a, b) && i < |a| && Empty !in a[i]
    ensures b[i] == a[i]
  {
    assert forall j :: 0 <= j < |a[i]| ==> a[i][j] != Empty;
  }

  /**
   * Where line `index` of `list` has an unknown cell, the matching line of any
   * refinement of `list` into valid, pairwise different 0/1 lines is a
   * candidate of that line.
   */
  lemma SolutionLineIsCandidate(list: seq<seq<Cell>>, index: nat, sol: seq<seq<Cell>>)
    requires IsSquare(list) && index < |list|
    requires Refines(list, sol) && SolvedLines(sol)
    requires Empty in list[index]
    ensures ToBits(sol[index]) in Candidates(list, index)
  {
    var line := sol[index];
    var b := ToBits(line);
    assert Agrees(list[index], b) by {
      forall k | 0 <= k < |b| ensures list[index][k] != Empty ==> list[index][k] == Num(b[k]) {
        assert Lift(b)[k] == line[k];
      }
    }
    assert Lift(b) !in list by {
      forall i | 0 <= i < |list| ensures list[i] != line {
        if Empty in list[i] {
          var k :| 0 <= k < |list[i]| && list[i][k] == Empty;
          assert IsBinaryCell(line[k]);
        } else {
          FinishedLinesKept(list, sol, i);
          if i < index {
            assert sol[i] != sol[index];
          } else if i > index {
            assert sol[index] != sol[i];
          }
        }
      }
    }
    CandidatesComplete(list, index, b);
  }

  /** Refinement carries over to the columns. */
  lemma RefinesColumns(g: seq<seq<Cell>>, s: seq<seq<Cell>>)
    requires IsSquare(g) && IsSquare(s) && Refines(g, s)
    ensures Refines(Transpose(g), Transpose(s))
  {
    var tg := Transpose(g);
    var ts := Transpose(s);
    forall i, j | 0 <= i < |tg| && 0 <= j < |tg[i]| ensures ts[i][j] == tg[i][j] || (tg[i][j] == Empty && IsBinaryCell(ts[i][j])) {
      assert tg[i][j] == g[j][i] && ts[i][j] == s[j][i];
    }
  }

  /** Setting a cell to the solution's value keeps the solution. */
  lemma SetCellKeepsSolution(g: seq<seq<Cell>>, x: nat, y: nat, v: Bit, s: seq<seq<Cell>>)
    requires IsSquare(g) && x < |g| && y < |g| && Refines(g, s)
    requires s[y][x] == Num(v)
    ensures Refines(SetCell(g, x, y, v), s)
  {
  }

  /** Writing the solution's column keeps the solution. */
  lemma WriteColumnKeepsSolution(g: seq<seq<Cell>>, x: nat, b: seq<Bit>, s: seq<seq<Cell>>)
    requires IsSquare(g) && x < |g| && |b| == |g| && Refines(g, s)
    requires forall j :: 0 <= j < |g| ==> s[j][x] == Num(b[j])
    ensures Refines(WriteColumn(g, x, b), s)
  {
    var h := WriteColumn(g, x, b);
    forall i, j | 0 <= i < |h| && 0 <= j < |h[i]| ensures s[i][j] == h[i][j] || (h[i][j] == Empty && IsBinaryCell(s[i][j])) {
      assert s[i][j] == g[i][j] || (g[i][j] == Empty && IsBinaryCell(s[i][j]));
    }
  }

  /** The cell (`x`, `y`) of the solution, as its column's and its row's bits give it. */
  lemma SolutionBits(s: seq<seq<Cell>>, x: nat, y: nat)
    requires IsSquare(s) && OneOrZero(s) && x < |s| && y < |s|
    ensures AllBinary(s[y]) && AllBinary(Transpose(s)[x])
    ensures Num(ToBits(s[y])[x]) == s[y][x]
    ensures forall j :: 0 <= j < |s| ==> Num(ToBits(Transpose(s)[x])[j]) == s[j][x]
  {
    ColumnsBinary(s);
    var col := Transpose(s)[x];
    assert Lift(ToBits(s[y]))[x] == s[y][x];
    forall j | 0 <= j < |s| ensures Num(ToBits(col)[j]) == s[j][x] {
      assert Lift(ToBits(col))[j] == col[j];
    }
  }

  /** `solved()`, read back as the rules of the puzzle (see SolvedGridIff). */
  predicate SolvedRules(s: seq<seq<Cell>>) {
    IsSquare(s) && OneOrZero(s) && SolvedLines(s) && SolvedLines(Transpose(s))
  }

  /**
   * One iteration of the column loop keeps a solution of the grid, provided the
   * solution's row `y` is among the row candidates.
   */
  lemma CellStepKeepsSolution(g: seq<seq<Cell>>, y: nat, x: nat, rowCands: seq<seq<Bit>>, s: seq<seq<Cell>>)
    requires IsSquare(g) && y < |g| && x < |g| && LinesOf(rowCands, |g|)
    requires SolvedRules(s) && Refines(g, s)
    requires ToBits(s[y]) in rowCands
    ensures Refines(CellStep(g, y, x, rowCands), s)
  {
    SolutionBits(s, x, y);
    var cols := Transpose(g);
    var ts := Transpose(s);
    var colBits := ToBits(ts[x]);
    var colCands := ColumnCandidates(g, x);
    assert colCands == [] || colBits in colCands by {
      if Empty in cols[x] {
        RefinesColumns(g, s);
        SolutionLineIsCandidate(cols, x, ts);
      } else {
        FinishedLineHasNoCandidates(cols, x);
      }
    }
    if |colCands| == 1 {
      assert colCands[0] == colBits;
      WriteColumnKeepsSolution(g, x, colBits, s);
    } else {
      match CommonValue(colCands, y)
      case Some(v) =>
        assert v == colBits[y];
        SetCellKeepsSolution(g, x, y, v, s);
      case None =>
        match CommonValue(rowCands, x)
        case Some(v) =>
          assert v == ToBits(s[y])[x];
          SetCellKeepsSolution(g, x, y, v, s);
        case None =>
    }
  }

  /** The one element of a sequence of length one is each of its members. */
  lemma OnlyMember<T>(xs: seq<T>, a: T)
    requires |xs| == 1 && a in xs
    ensures xs[0] == a
  {
  }

  /** Writing the solution's row keeps the solution. */
  lemma WriteRowKeepsSolution(g: seq<seq<Cell>>, y: nat, b: seq<Bit>, s: seq<seq<Cell>>)
    requires IsSquare(g) && y < |g| && |b| == |g| && Refines(g, s)
    requires Lift(b) == s[y]
    ensures Refines(WriteRow(g, y, b), s)
  {
  }

  /** Every iteration of the column loop in row `y` keeps `s`. */
  ghost predicate CellStepsKeep(s: seq<seq<Cell>>, y: nat, rowCands: seq<seq<Bit>>) {
    forall h: seq<seq<Cell>>, x: nat {:trigger CellStep(h, y, x, rowCands)} ::
      IsSquare(h) && y < |h| && x < |h| && LinesOf(rowCands, |h|) && Refines(h, s) ==>
        Refines(CellStep(h, y, x, rowCands), s)
  }

  /** With the solution's row `y` among the row candidates, every iteration of the column loop keeps the solution. */
  lemma SolutionCellStepsKeep(s: seq<seq<Cell>>, y: nat, rowCands: seq<seq<Bit>>)
    requires SolvedRules(s) && y < |s| && ToBits(s[y]) in rowCands
    ensures CellStepsKeep(s, y, rowCands)
  {
    forall h: seq<seq<Cell>>, x: nat | IsSquare(h) && y < |h| && x < |h| && LinesOf(rowCands, |h|) && Refines(h, s)
      ensures Refines(CellStep(h, y, x, rowCands), s)
    {
      CellStepKeepsSolution(h, y, x, rowCands, s);
    }
  }

  /** The first `x` iterations of the column loop keep whatever each of them keeps. */
  lemma {:induction false} RowCellsKeeps(g: seq<seq<Cell>>, y: nat, x: nat, rowCands: seq<seq<Bit>>, s: seq<seq<Cell>>)
    requires IsSquare(g) && y < |g| && x <= |g| && LinesOf(rowCands, |g|)
    requires Refines(g, s) && CellStepsKeep(s, y, rowCands)
    ensures Refines(RowCells(g, y, x, rowCands), s)
    decreases x
  {
    if x > 0 {
      RowCellsKeeps(g, y, x - 1, rowCands, s);
    }
  }

  /** One iteration of the row loop keeps every solution. */
  lemma RowStepKeepsSolution(g: seq<seq<Cell>>, y: nat, s: seq<seq<Cell>>)
    requires IsSquare(g) && y < |g|
    requires SolvedRules(s) && Refines(g, s)
    ensures Refines(RowStep(g, y), s)
  {
    if Empty in g[y] {
      var rowBits := ToBits(s[y]);
      SolutionLineIsCandidate(g, y, s);
      var rowCands := Candidates(g, y);
      if |rowCands| == 1 {
        OnlyMember(rowCands, rowBits);
        WriteRowKeepsSolution(g, y, rowBits, s);
      } else {
        CandidatesSound(g, y);
        SolutionCellStepsKeep(s, y, rowCands);
        RowCellsKeeps(g, y, |g|, rowCands, s);
      }
    }
  }

  /** Every iteration of the row loop keeps `s`. */
  ghost predicate RowStepsKeep(s: seq<seq<Cell>>) {
    forall h: seq<seq<Cell>>, y: nat {:trigger RowStep(h, y)} :: IsSquare(h) && y < |h| && Refines(h, s) ==> Refines(RowStep(h, y), s)
  }

  /** The row loop from `y` on keeps whatever each of its iterations keeps. */
  lemma {:induction false} PassFromKeeps(g: seq<seq<Cell>>, y: nat, s: seq<seq<Cell>>)
    requires IsSquare(g) && y <= |g|
    requires Refines(g, s) && RowStepsKeep(s)
    ensures Refines(PassFrom(g, y), s)
    decreases |g| - y
  {
    if y < |g| {
      PassFromKeeps(RowStep(g, y), y + 1, s);
    }
  }

  /** A pass only writes what every solution of the puzzle has: each solution of the grid solves the result too. */
  lemma PassKeepsSolution(g: seq<seq<Cell>>, s: seq<seq<Cell>>)
    requires IsSquare(g) && SolutionOf(s, g)
    ensures SolutionOf(s, OnePass(g))
  {
    SolvedGridIff(s);
    assert RowStepsKeep(s) by {
      forall h: seq<seq<Cell>>, y: nat | IsSquare(h) && y < |h| && Refines(h, s) ensures Refines(RowStep(h, y), s) {
        RowStepKeepsSolution(h, y, s);
      }
    }
    PassFromKeeps(g, 0, s);
  }

  /** Every pass keeps `s`: a square grid that `s` refines, `s` still refines after a pass. */
  ghost predicate EveryPassKeeps(s: seq<seq<Cell>>) {
    forall h {:trigger OnePass(h)} :: IsSquare(h) && Refines(h, s) ==> Refines(OnePass(h), s)
  }

  /** `k` passes in a row. */
  function Passes(g: seq<seq<Cell>>, k: nat): (h: seq<seq<Cell>>)
    requires IsSquare(g)
    ensures |h| == |g| && IsSquare(h)
    decreases k
  {
    if k == 0 then g else Passes(OnePass(g), k - 1)
  }

  /** How many passes the driver makes: none once the grid is solved, and never more than the fuel. */
  function PassCount(g: seq<seq<Cell>>, fuel: nat): (k: nat)
    requires IsSquare(g)
    ensures k <= fuel
    ensures SolvedGrid(g) ==> k == 0
    decreases fuel
  {
    if fuel == 0 || SolvedGrid(g) then 0 else 1 + PassCount(OnePass(g), fuel - 1)
  }

  /** The driver's result is that many passes. */
  lemma {:induction false} SolveFromIsPasses(g: seq<seq<Cell>>, fuel: nat)
    requires IsSquare(g)
    ensures SolveFrom(g, fuel) == Passes(g, PassCount(g, fuel))
    decreases fuel
  {
    if fuel > 0 && !SolvedGrid(g) {
      SolveFromIsPasses(OnePass(g), fuel - 1);
    }
  }

  /** A grid that every pass keeps is kept by any number of passes. */
  lemma {:induction false} PassesKeep(g: seq<seq<Cell>>, k: nat, s: seq<seq<Cell>>)
    requires IsSquare(g) && Refines(g, s) && EveryPassKeeps(s)
    ensures Refines(Passes(g, k), s)
    decreases k
  {
    if k > 0 {
      PassesKeep(OnePass(g), k - 1, s);
    }
  }

  /** So does the driver, whatever the fuel. */
  lemma SolveFromKeepsSolution(g: seq<seq<Cell>>, fuel: nat, s: seq<seq<Cell>>)
    requires IsSquare(g) && SolutionOf(s, g)
    ensures SolutionOf(s, SolveFrom(g, fuel))
  {
    assert EveryPassKeeps(s) by {
      forall h | IsSquare(h) && Refines(h, s) ensures Refines(OnePass(h), s) {
        PassKeepsSolution(h, s);
      }
    }
    SolveFromIsPasses(g, fuel);
    PassesKeep(g, PassCount(g, fuel), s);
  }

  /**
   * When the driver stops on a solved grid, that grid is the solution: every
   * solution of the starting grid equals it, so a puzzle the driver solves has
   * exactly one solution.
   */
  lemma SolvedResultIsTheSolution(g: seq<seq<Cell>>, fuel: nat, s: seq<seq<Cell>>)
    requires IsSquare(g) && SolutionOf(s, g)
    requires SolvedGrid(SolveFrom(g, fuel))
    ensures SolveFrom(g, fuel) == s
  {
    var h := SolveFrom(g, fuel);
    SolveFromKeepsSolution(g, fuel, s);
    forall i | 0 <= i < |h| ensures h[i] == s[i] {
      assert Empty !in h[i] by {
        assert forall j :: 0 <= j < |h[i]| ==> IsBinaryCell(h[i][j]);
      }
      FinishedLinesKept(h, s, i);
    }
  }

  // ---------------------------------------------------------------------------
  // Finished grids are left alone
  // ---------------------------------------------------------------------------

  /** The row loop from `y` on leaves a grid without unknown cells as it is. */
  lemma {:induction false} PassFromFinished(g: seq<seq<Cell>>, y: nat)
    requires IsSquare(g) && y <= |g|
    requires forall i :: 0 <= i < |g| ==> Empty !in g[i]
    ensures PassFrom(g, y) == g
    decreases |g| - y
  {
    if y < |g| {
      PassFromFinished(g, y + 1);
    }
  }

  /** A pass changes nothing once no cell is unknown: every row is skipped. */
  lemma FinishedGridIsFixed(g: seq<seq<Cell>>)
    requires IsSquare(g)
    requires forall i :: 0 <= i < |g| ==> Empty !in g[i]
    ensures OnePass(g) == g
  {
    PassFromFinished(g, 0);
  }

  /** In particular a pass changes nothing on a grid `solved()` accepts. */
  lemma SolvedGridIsFixed(g: seq<seq<Cell>>)
    requires IsSquare(g) && SolvedGrid(g)
    ensures OnePass(g) == g
  {
    forall i | 0 <= i < |g| ensures Empty !in g[i] {
      assert forall j :: 0 <= j < |g[i]| ==> g[i][j] != Empty;
    }
    FinishedGridIsFixed(g);
  }

  /**
   * A row with unknown cells and exactly one candidate holds that candidate
   * from its iteration to the end of the pass: later writes only fill unknown
   * cells, and the row has none left.
   */
  lemma SingleCandidateRowStays(g: seq<seq<Cell>>, y: nat)
    requires IsSquare(g) && y < |g| && Empty in g[y]
    requires |Candidates(g, y)| == 1
    ensures PassFrom(RowStep(g, y), y + 1)[y] == Lift(Candidates(g, y)[0])
  {
    var h := RowStep(g, y);
    CandidatesSound(g, y);
    assert Candidates(g, y)[0] in Candidates(g, y);
    assert h[y] == Lift(Candidates(g, y)[0]);
    PassFromRefines(h, y + 1);
    assert Empty !in h[y] by {
      assert forall k :: 0 <= k < |h[y]| ==> h[y][k] != Empty;
    }
    FinishedLinesKept(h, PassFrom(h, y + 1), y);
  }
}

/**
 * The puzzle grid of BinaryPuzzle.js: an N×N matrix of cells with a validating
 * constructor, checked cell access, row and column views, the solved check and
 * the text rendering.
 */
module Grid {
  import opened Wrappers
  import opened Cells

  /** The errors the class throws. */
  datatype PuzzleError =
    | GridSizeOdd        // 'Grid size must be even'
    | RowLengthMismatch  // 'Data row must have same length as grid size'
    | OutOfGrid          // 'X and Y must be in grid (0-N)'
    | NotBinary          // 'Number should be 1 or 0'

  /** Every row is as long as there are rows. */
  predicate IsSquare(g: seq<seq<Cell>>) {
    forall i :: 0 <= i < |g| ==> |g[i]| == |g|
  }

  /** Column `x`: the `x`-th cell of every row, top to bottom. */
  function Column(g: seq<seq<Cell>>, x: nat): (col: seq<Cell>)
    requires IsSquare(g) && x < |g|
    ensures |col| == |g|
    ensures forall j :: 0 <= j < |g| ==> col[j] == g[j][x]
  {
    seq(|g|, j requires 0 <= j < |g| => g[j][x])
  }

  /** All columns, left to right. */
  function Transpose(g: seq<seq<Cell>>): (t: seq<seq<Cell>>)
    requires IsSquare(g)
    ensures |t| == |g| && IsSquare(t)
    ensures forall i :: 0 <= i < |g| ==> t[i] == Column(g, i)
    ensures forall i, j :: 0 <= i < |g| && 0 <= j < |g| ==> t[i][j] == g[j][i]
  {
    seq(|g|, i requires 0 <= i < |g| => Column(g, i))
  }

  /** Transposing twice gives the grid back. */
  lemma TransposeTwice(g: seq<seq<Cell>>)
    requires IsSquare(g)
    ensures Transpose(Transpose(g)) == g
  {
    var tt := Transpose(Transpose(g));
    forall i | 0 <= i < |g| ensures tt[i] == g[i] {
      assert forall j :: 0 <= j < |g| ==> tt[i][j] == g[i][j];
    }
  }

  // ---------------------------------------------------------------------------
  // The solved check
  // ---------------------------------------------------------------------------

  /** Every cell holds 0 or 1. */
  predicate OneOrZero(g: seq<seq<Cell>>) {
    forall i, j :: 0 <= i < |g| && 0 <= j < |g[i]| ==> IsBinaryCell(g[i][j])
  }

  /** JavaScript's `===` on cells: NaN equals nothing, not even itself. */
  predicate StrictEqual(a: Cell, b: Cell) {
    a == b && a != NaN
  }

  /** No cell is `===` both of its neighbours. */
  predicate OnlyOneEqualNeighbor(line: seq<Cell>) {
    forall k :: 1 <= k < |line| - 1 ==> !(StrictEqual(line[k], line[k - 1]) && StrictEqual(line[k], line[k + 1]))
  }

  /** The numeric sum of a line; `null` counts as 0 under `+`. */
  function NumSum(line: seq<Cell>): int {
    if line == [] then 0 else (if line[0].Num? then line[0].n else 0) + NumSum(line[1..])
  }

  /** The line sums to half the size; a NaN makes the sum NaN, which equals nothing. */
  predicate EqualAmount(line: seq<Cell>, size: nat) {
    NaN !in line && 2 * NumSum(line) == size
  }

  /** The cell as `JSON.stringify` writes it: NaN is written as `null`. */
  function JsonCell(c: Cell): Cell {
    if c == NaN then Empty else c
  }

  /** Equality of `JSON.stringify` texts of two lines. */
  predicate JsonEqual(a: seq<Cell>, b: seq<Cell>) {
    |a| == |b| && forall k :: 0 <= k < |a| ==> JsonCell(a[k]) == JsonCell(b[k])
  }

  /** No line has the same text as a later one. */
  predicate AllUnique(lines: seq<seq<Cell>>) {
    forall i, j :: 0 <= i < j < |lines| ==> !JsonEqual(lines[i], lines[j])
  }

  /** `solved()` on a square grid, read as the source computes it. */
  predicate SolvedGrid(g: seq<seq<Cell>>)
    requires IsSquare(g)
  {
    var cols := Transpose(g);
    && OneOrZero(g)
    && (forall y :: 0 <= y < |g| ==> OnlyOneEqualNeighbor(g[y]))
    && (forall x :: 0 <= x < |g| ==> OnlyOneEqualNeighbor(cols[x]))
    && (forall y :: 0 <= y < |g| ==> EqualAmount(g[y], |g|))
    && (forall x :: 0 <= x < |g| ==> EqualAmount(cols[x], |g|))
    && AllUnique(g)
    && AllUnique(cols)
  }

  // ---------------------------------------------------------------------------
  // The text rendering
  // ---------------------------------------------------------------------------

  function DigitChar(d: nat): char
    requires d < 10
  {
    "0123456789"[d]
  }

  /** The decimal text of a natural number. */
  function NatText(n: nat): (s: string)
    ensures |s| >= 1
  {
    if n < 10 then [DigitChar(n)] else NatText(n / 10) + [DigitChar(n % 10)]
  }

  /** A cell as the renderer writes it: `null` as `.`, a number in decimal. */
  function CellText(c: Cell): string {
    match c
    case Empty => "."
    case NaN => "NaN"
    case Num(v) => if v < 0 then "-" + NatText(-v) else NatText(v)
  }

  /** The cells of a line joined by single spaces. */
  function RowText(line: seq<Cell>): string {
    if line == [] then ""
    else if |line| == 1 then CellText(line[0])
    else CellText(line[0]) + " " + RowText(line[1..])
  }

  /** A row's text followed by its newline. */
  function RowLine(line: seq<Cell>): string {
    RowText(line) + "\n"
  }

  /** The first `m` parts concatenated left to right. */
  function ConcatUpTo(parts: seq<string>, m: nat): string
    requires m <= |parts|
  {
    if m == 0 then "" else ConcatUpTo(parts, m - 1) + parts[m - 1]
  }

  /** The rows' lines, in order. */
  function RowLines(g: seq<seq<Cell>>): (lines: seq<string>)
    ensures |lines| == |g|
    ensures forall i :: 0 <= i < |g| ==> lines[i] == RowLine(g[i])
  {
    seq(|g|, i requires 0 <= i < |g| => RowLine(g[i]))
  }

  /** The whole grid, as the `reduce` with initial value `''` builds it: each row's line appended in turn. */
  function Render(g: seq<seq<Cell>>): string {
    ConcatUpTo(RowLines(g), |g|)
  }

  /** A cell the renderer writes as one character: unknown, 0 or 1. */
  predicate IsPlainCell(c: Cell) {
    c == Empty || IsBinaryCell(c)
  }

  /** The one character a plain cell is written as. */
  function PlainChar(c: Cell): char
    requires IsPlainCell(c)
  {
    if c == Empty then '.' else if c == Num(0) then '0' else '1'
  }

  /** A row of plain cells is written as its characters at the even positions and spaces between them. */
  lemma {:induction false} RowTextLayout(line: seq<Cell>)
    requires |line| > 0
    requires forall k :: 0 <= k < |line| ==> IsPlainCell(line[k])
    ensures |RowText(line)| == 2 * |line| - 1
    ensures forall k :: 0 <= k < |line| ==> RowText(line)[2 * k] == PlainChar(line[k])
    ensures forall k :: 0 <= k < |line| - 1 ==> RowText(line)[2 * k + 1] == ' '
  {
    if |line| > 1 {
      var rest := line[1..];
      assert forall k :: 0 <= k < |rest| ==> rest[k] == line[k + 1];
      RowTextLayout(rest);
      var t := RowText(line);
      assert t == CellText(line[0]) + " " + RowText(rest);
      assert CellText(line[0]) == [PlainChar(line[0])];
      forall k | 1 <= k < |line| ensures t[2 * k] == PlainChar(line[k]) {
        assert t[2 * k] == RowText(rest)[2 * (k - 1)];
      }
      forall k | 1 <= k < |line| - 1 ensures t[2 * k + 1] == ' ' {
        assert t[2 * k + 1] == RowText(rest)[2 * (k - 1) + 1];
      }
    } else {
      assert CellText(line[0]) == [PlainChar(line[0])];
    }
  }

  /** A row of plain cells takes two characters per cell, less one. */
  lemma RowTextLength(line: seq<Cell>)
    requires |line| > 0
    requires forall k :: 0 <= k < |line| ==> IsPlainCell(line[k])
    ensures |RowText(line)| == 2 * |line| - 1
  {
    RowTextLayout(line);
  }

  /** Every cell of the grid is unknown, 0 or 1. */
  predicate IsPlainGrid(g: seq<seq<Cell>>) {
    forall i, j :: 0 <= i < |g| && 0 <= j < |g[i]| ==> IsPlainCell(g[i][j])
  }

  /** Where part `r` starts when every part is `len` long: `len` characters per earlier part. */
  function Offset(len: nat, r: nat): nat {
    if r == 0 then 0 else Offset(len, r - 1) + len
  }

  /** Offset(len, r) is the product `len·r`. */
  lemma {:induction false} OffsetIsProduct(len: nat, r: nat)
    ensures Offset(len, r) == len * r
  {
    if r > 0 {
      OffsetIsProduct(len, r - 1);
    }
  }

  /** The first `m` of a list of `len`-long parts take `len` characters each. */
  lemma {:induction false} ConcatLength(parts: seq<string>, len: nat, m: nat)
    requires forall i :: 0 <= i < |parts| ==> |parts[i]| == len
    requires m <= |parts|
    ensures |ConcatUpTo(parts, m)| == Offset(len, m)
  {
    if m > 0 {
      ConcatLength(parts, len, m - 1);
    }
  }

  /** A slice that ends inside the left operand of a concatenation is a slice of that operand. */
  lemma SliceOfAppendLeft(a: string, b: string, i: nat, j: nat)
    requires i <= j <= |a|
    ensures (a + b)[i..j] == a[i..j]
  {
    assert forall k :: 0 <= k < j - i ==> (a + b)[i..j][k] == a[i + k];
  }

  /** The right operand of a concatenation is the slice after the left one. */
  lemma SliceOfAppendRight(a: string, b: string, start: nat, len: nat)
    requires start == |a| && len == |b|
    ensures (a + b)[start .. start + len] == b
  {
    assert forall k :: 0 <= k < len ==> (a + b)[start .. start + len][k] == b[k];
  }

  /** Part `r` of `len`-long parts sits at Offset(len, r) once more than `r` parts are joined. */
  lemma {:induction false} PartAt(parts: seq<string>, len: nat, r: nat, m: nat)
    requires forall i :: 0 <= i < |parts| ==> |parts[i]| == len
    requires r < m <= |parts|
    ensures Offset(len, r) + len <= |ConcatUpTo(parts, m)|
    ensures ConcatUpTo(parts, m)[Offset(len, r) .. Offset(len, r) + len] == parts[r]
  {
    if m == r + 1 {
      ConcatLength(parts, len, r);
      SliceOfAppendRight(ConcatUpTo(parts, r), parts[r], Offset(len, r), len);
    } else {
      PartAt(parts, len, r, m - 1);
      SliceOfAppendLeft(ConcatUpTo(parts, m - 1), parts[m - 1], Offset(len, r), Offset(len, r) + len);
    }
  }

  /** Each line of an `n`-wide plain grid is `2n` characters long. */
  lemma RowLinesLength(g: seq<seq<Cell>>, n: nat)
    requires n > 0 && forall i :: 0 <= i < |g| ==> |g[i]| == n
    requires IsPlainGrid(g)
    ensures forall i :: 0 <= i < |g| ==> |RowLines(g)[i]| == 2 * n
  {
    forall i | 0 <= i < |g| ensures |RowLines(g)[i]| == 2 * n {
      RowTextLength(g[i]);
    }
  }

  /** The rendering of an `n`-wide plain grid is `2n` characters per row. */
  lemma RenderLength(g: seq<seq<Cell>>, n: nat)
    requires n > 0 && forall i :: 0 <= i < |g| ==> |g[i]| == n
    requires IsPlainGrid(g)
    ensures |Render(g)| == Offset(2 * n, |g|)
  {
    RowLinesLength(g, n);
    ConcatLength(RowLines(g), 2 * n, |g|);
  }

  /** Row `r` of an `n`-wide plain grid is written, with its newline, from Offset(2n, r) on. */
  lemma RenderRowAt(g: seq<seq<Cell>>, n: nat, r: nat)
    requires n > 0 && forall i :: 0 <= i < |g| ==> |g[i]| == n
    requires IsPlainGrid(g)
    requires r < |g|
    ensures Offset(2 * n, r) + 2 * n <= |Render(g)|
    ensures Render(g)[Offset(2 * n, r) .. Offset(2 * n, r) + 2 * n] == RowLine(g[r])
  {
    var lines := RowLines(g);
    var len := 2 * n;
    assert forall i :: 0 <= i < |lines| ==> |lines[i]| == len by {
      RowLinesLength(g, n);
    }
    PartAt(lines, len, r, |g|);
  }

  /**
   * The layout of `string` for a square grid of unknown, 0 and 1 cells: `2n`
   * characters per row, the cell at row `r`, column `c` at position
   * `2n·r + 2c`, followed by a space, or a newline after the last column.
   */
  lemma RenderLayout(g: seq<seq<Cell>>, r: nat, c: nat)
    requires IsSquare(g) && IsPlainGrid(g)
    requires r < |g| && c < |g|
    ensures 2 * |g| * r + 2 * |g| <= |Render(g)|
    ensures Render(g)[2 * |g| * r + 2 * c] == PlainChar(g[r][c])
    ensures Render(g)[2 * |g| * r + 2 * c + 1] == if c == |g| - 1 then '\n' else ' '
  {
    var start := Offset(2 * |g|, r);
    OffsetIsProduct(2 * |g|, r);
    RenderRowAt(g, |g|, r);
    CellInText(Render(g), start, g[r], c);
  }

  /** Where a text holds a row's line, it holds cell `c` at twice `c` past the start, then its separator. */
  lemma CellInText(w: string, start: nat, line: seq<Cell>, c: nat)
    requires forall k :: 0 <= k < |line| ==> IsPlainCell(line[k])
    requires c < |line|
    requires start + 2 * |line| <= |w| && w[start .. start + 2 * |line|] == RowLine(line)
    ensures w[start + 2 * c] == PlainChar(line[c])
    ensures w[start + 2 * c + 1] == if c == |line| - 1 then '\n' else ' '
  {
    RowCharAt(line, c);
    SliceAt(w, start, RowLine(line), 2 * c, PlainChar(line[c]));
    SliceAt(w, start, RowLine(line), 2 * c + 1, if c == |line| - 1 then '\n' else ' ');
  }

  /** Cell `c` of a plain row and the separator after it, in the row's text and its newline. */
  lemma RowCharAt(line: seq<Cell>, c: nat)
    requires forall k :: 0 <= k < |line| ==> IsPlainCell(line[k])
    requires c < |line|
    ensures |RowLine(line)| == 2 * |line|
    ensures RowLine(line)[2 * c] == PlainChar(line[c])
    ensures RowLine(line)[2 * c + 1] == if c == |line| - 1 then '\n' else ' '
  {
    var text := RowText(line);
    RowTextLayout(line);
    if c == |line| - 1 {
      assert 2 * c + 1 == |text|;
    } else {
      assert RowLine(line)[2 * c + 1] == text[2 * c + 1];
    }
  }

  /** A character of a line found at `start` in `w` is found in `w` at `start` plus its index. */
  lemma SliceAt(w: string, start: nat, line: string, k: nat, ch: char)
    requires start + |line| <= |w| && w[start .. start + |line|] == line
    requires k < |line| && line[k] == ch
    ensures w[start + k] == ch
  {
  }

  /** `x % size` is `x` for a coordinate inside the grid. */
  lemma SmallModulus(x: int, m: int)
    requires 0 <= x < m
    ensures x % m == x
  {
  }

  // ---------------------------------------------------------------------------
  // The class
  // ---------------------------------------------------------------------------

  class BinaryPuzzle {
    var size: nat
    var grid: seq<seq<Cell>>

    /** What the constructor establishes and the setter keeps. */
    predicate Valid()
      reads this
    {
      size == |grid| && size % 2 == 0 && IsSquare(grid)
    }

    /** Stores rows that Create has already checked: an even number of rows, each as long as there are rows. */
    constructor (n: nat, rows: seq<seq<Cell>>)
      requires n == |rows| && n % 2 == 0 && IsSquare(rows)
      ensures Valid()
      ensures size == n && grid == rows
    {
      size := n;
      grid := rows;
    }

    /**
     * The validating constructor: fails on an odd row count, then on the first
     * row whose length differs from the row count; otherwise keeps the rows in order.
     */
    static method Create(rows: seq<seq<Cell>>) returns (r: Result<BinaryPuzzle, PuzzleError>)
      ensures r.Failure? <==> |rows| % 2 != 0 || !IsSquare(rows)
      ensures r.Failure? ==> r.error == if |rows| % 2 != 0 then GridSizeOdd else RowLengthMismatch
      ensures r.Success? ==> fresh(r.value) && r.value.Valid()
      ensures r.Success? ==> r.value.size == |rows| && r.value.grid == rows
    {
      var size := |rows|;
      var grid: seq<seq<Cell>> := [];
      if size % 2 != 0 {
        return Failure(GridSizeOdd);
      }
      var i := 0;
      while i < size
        invariant 0 <= i <= size
        invariant grid == rows[..i]
        invariant forall k :: 0 <= k < i ==> |rows[k]| == size
      {
        if |rows[i]| != size {
          return Failure(RowLengthMismatch);
        }
        grid := grid + [rows[i]];
        i := i + 1;
      }
      assert grid == rows;
      var p := new BinaryPuzzle(size, grid);
      r := Success(p);
    }

    /** `getEntry`: the cell at column `x`, row `y`, or an error outside the grid. */
    function GetEntry(x: int, y: int): (r: Result<Cell, PuzzleError>)
      reads this
      requires Valid()
      ensures r.Success? <==> 0 <= x < size && 0 <= y < size
      ensures r.Failure? ==> r.error == OutOfGrid
      ensures r.Success? ==> r.value == grid[y][x]
    {
      if x < 0 || x >= size || y < 0 || y >= size then Failure(OutOfGrid)
      else
        SmallModulus(x, size);
        Success(grid[y][x % size])
    }

    /**
     * `setEntry`: fails outside the grid, then on a value other than 0 or 1;
     * otherwise writes that one cell.
     */
    method SetEntry(x: int, y: int, num: Cell) returns (r: Outcome<PuzzleError>)
      requires Valid()
      modifies this`grid
      ensures Valid()
      ensures r == if !(0 <= x < size && 0 <= y < size) then Fail(OutOfGrid)
                   else if !IsBinaryCell(num) then Fail(NotBinary)
                   else Pass
      ensures r.Fail? ==> grid == old(grid)
      ensures r.Pass? ==> grid == old(grid)[y := old(grid)[y][x := num]]
      ensures r.Pass? ==> GetEntry(x, y) == Success(num)
      ensures r.Pass? ==> forall i, j :: (i != x || j != y) ==> GetEntry(i, j) == old(GetEntry(i, j))
    {
      if x < 0 || x >= size || y < 0 || y >= size {
        return Fail(OutOfGrid);
      }
      if !IsBinaryCell(num) {
        return Fail(NotBinary);
      }
      SmallModulus(x, size);
      grid := grid[y := grid[y][x % size := num]];
      r := Pass;
    }

    /** `rows`: the grid itself, `size` rows of `size` cells. */
    function Rows(): (rows: seq<seq<Cell>>)
      reads this
      requires Valid()
      ensures |rows| == size && forall i :: 0 <= i < size ==> |rows[i]| == size
    {
      grid
    }

    /** `columns`: built column by column, each the `i`-th cell of every row. */
    method Columns() returns (columns: seq<seq<Cell>>)
      requires Valid()
      ensures |columns| == size
      ensures forall i, j :: 0 <= i < size && 0 <= j < size ==> |columns[i]| == size && columns[i][j] == grid[j][i]
      ensures columns == Transpose(grid)
    {
      var g := grid;
      columns := [];
      var i := 0;
      while i < |g|
        invariant 0 <= i <= |g|
        invariant |columns| == i
        invariant forall k :: 0 <= k < i ==> columns[k] == Column(g, k)
      {
        var column := seq(|g|, j requires 0 <= j < |g| => g[j][i]);
        columns := columns + [column];
        i := i + 1;
      }
    }

    /** `solved()`. */
    predicate Solved()
      reads this
      requires Valid()
    {
      SolvedGrid(grid)
    }

    /** `string`: the rendering of the grid. */
    function Text(): string
      reads this
    {
      Render(grid)
    }
  }
}

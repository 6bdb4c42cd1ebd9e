# Binary Puzzle solver, modelled in Dafny

A Binary Puzzle (also called Takuzu) is an N×N grid, with N even, that is
filled with 0s and 1s. The rules are:

- no three equal values stand next to each other in a row or a column;
- every row and every column holds as many 0s as 1s;
- no two rows are the same, and no two columns are.

The JavaScript program modelled here has two parts.

- The `BinaryPuzzle` class holds the grid. It has a validating constructor, a
  checked getter and setter, row and column views, a solved check and a text
  rendering.
- The solver script reads a grid from text. It then runs passes until the grid
  is solved. In each pass, a row with no unknown cell is skipped. For any other
  row it enumerates every candidate completion (`getRowPossibilities`, which
  filters with `isValidRow`). A row with exactly one candidate is written whole.
  Otherwise it walks the columns of that row:
  - a column with one candidate is written whole;
  - otherwise the current cell is set when all column candidates agree on it;
  - failing that, it is set when all row candidates agree on it.

The model keeps the source's shape.

- **Pure parts are functions and lemmas.** These are the line rules, the
  candidate enumeration as a specification, the text parser, the solved check,
  the rendering, and one pass read as a function of the grid.
- **The class is a Dafny `class`.** Its `grid` field is updated in place by
  `SetEntry`.
- **The counting loop of `getRowPossibilities` is a method.** It is proved to
  compute the specification function `Candidates`.
- **The solver's loops are methods on the puzzle object.** They go through
  `SetEntry`, `Rows` and `Columns`, and each is proved to compute a
  specification function on the grid (`CellStep`, `RowCells`, `RowStep`,
  `OnePass`, `SolveFrom`).

Cells are `Empty` (`null`), `Num(n)` (a parsed digit) or `NaN` (what
`parseInt` gives for any other character). The JavaScript semantics that
matter are written out:

- `===` is false on NaN;
- `JSON.stringify` writes NaN as `null`;
- `null` counts as 0 under `+`;
- `reduce` without an initial value throws on an empty array.

The main results:

- `Candidates` is exactly the set of valid completions of a line that differ
  from every line of the list. It lists them in increasing binary order,
  without repeats. The value `2^n - 1`, which the loop bound skips, is never
  valid.
- `solved()` holds exactly when every cell is 0 or 1 and every row and column
  is a valid line, pairwise different.
- A pass only fills unknown cells. It never contradicts a known cell, and it
  never contradicts any solution the starting grid has.
- When the driver reports the grid solved, the grid is that solution. A
  solved grid is a fixed point of a pass.

## Model

| member | source | states |
|---|---|---|
| LineRules.IsValidRow | BinaryPuzzleSolver.js:96-101 | `isValidRow`: every entry 0 or 1, no entry equal to both its neighbours, and twice the sum equal to the length; requires a non-empty line because `reduce` without an initial value throws on an empty array |
| LineRules.Keep | BinaryPuzzleSolver.js:83-89 | the filters a tried sequence passes: the count of matching known cells equals the count of known cells, `isValidRow` holds, and the sequence equals no line of the list |
| LineRules.Enumerate | BinaryPuzzleSolver.js:79-91 | what the counting loop has pushed after trying the values below `i`: each value's padded binary form, when it passes the filters and is not pushed already, appended in order |
| LineRules.Candidates | BinaryPuzzleSolver.js:74-93 | the result of `getRowPossibilities`: the loop run over every value below `2^n - 1` |
| LineRules.Bits | BinaryPuzzleSolver.js:80-82 | the binary text of `i` read as digits and left-padded with zeros to `n` entries |
| PuzzleText.Split | BinaryPuzzleSolver.js:22 | splitting on newlines: the pieces between newlines, an empty piece before a leading or after a trailing newline, at least one piece |
| PuzzleText.NonEmpty | BinaryPuzzleSolver.js:22 | the truthiness filter: the non-empty pieces, in order, each one of the pieces |
| PuzzleText.ParseRow | BinaryPuzzleSolver.js:22 | the characters of a line mapped to cells, one per character, in order |
| PuzzleText.ParseLines | BinaryPuzzleSolver.js:22 | every line mapped to a row, in order |
| PuzzleText.Parse | BinaryPuzzleSolver.js:22 | the grid text split on newlines, empty lines dropped, each line read as a row |
| Grid.Transpose | BinaryPuzzle.js:70-76 | the columns of a square grid: column `i` holds cell `i` of every row, top to bottom |
| Grid.OnlyOneEqualNeighbor | BinaryPuzzle.js:26-31 | no entry is strictly equal to both its neighbours, where NaN is equal to nothing |
| Grid.EqualAmount | BinaryPuzzle.js:33-36 | the entries add up to half the size, with `null` adding 0 and a NaN making the sum unequal to anything |
| Grid.AllUnique | BinaryPuzzle.js:38-44 | no line has the same `JSON.stringify` text as a later one, where NaN is written as `null` |
| Grid.SolvedGrid | BinaryPuzzle.js:22-47 | `solved()`: every cell 0 or 1, and the neighbour, equal-amount and uniqueness checks on all rows and all columns |
| Grid.BinaryPuzzle.Solved | BinaryPuzzle.js:22-47 | `solved()` on the puzzle's grid |
| Grid.CellText | BinaryPuzzle.js:79 | a cell as the renderer writes it: `null` as `.`, a number in decimal, NaN as `NaN` |
| Grid.RowText | BinaryPuzzle.js:79 | the cells of a row written with single spaces between them |
| Grid.Render | BinaryPuzzle.js:78-80 | `string`: each row's text followed by a newline, appended in order to the empty text |
| Grid.BinaryPuzzle.Text | BinaryPuzzle.js:78-80 | `string` on the puzzle's grid |
| Grid.BinaryPuzzle.constructor | BinaryPuzzle.js:3-4 | stores a row count and rows already checked to be even and square, giving a valid puzzle |
| Solver.SetCell | BinaryPuzzleSolver.js:59-66 | one cell set to a value, the rest of the grid unchanged |
| Solver.WriteRow | BinaryPuzzleSolver.js:37-42 | row `y` replaced by the candidate |
| Solver.WriteColumn | BinaryPuzzleSolver.js:49-55 | column `x` replaced by the candidate, every other cell unchanged |
| Solver.ColumnCandidates | BinaryPuzzleSolver.js:47 | the candidates of column `x`, computed from the columns of the current grid |
| Solver.CellStep | BinaryPuzzleSolver.js:47-66 | one column iteration: write the column if it has exactly one candidate; else set the cell to the column candidates' common value at `y`; else to the row candidates' common value at `x`; else change nothing |
| Solver.RowCells | BinaryPuzzleSolver.js:45-68 | the column loop: the column iterations for `x = 0, 1, …` in turn, with the row candidates computed before the loop |
| Solver.RowStep | BinaryPuzzleSolver.js:31-68 | one row iteration: skip a row with no unknown cell, write the row when it has exactly one candidate, otherwise run the column loop |
| Solver.PassFrom | BinaryPuzzleSolver.js:30-69 | the row iterations from `y` to the last row, top to bottom |
| Solver.OnePass | BinaryPuzzleSolver.js:30-69 | one pass: the row iterations for every row |
| Solver.SolveFrom | BinaryPuzzleSolver.js:28-70 | the driver: passes while the grid is not solved, at most `fuel` of them |
| LineRules.ValidRowIsBalanced | BinaryPuzzleSolver.js:96-101 | a line accepted by `isValidRow` has even length and exactly half 0s, half 1s |
| LineRules.BinarySumCountsOnes | BinaryPuzzleSolver.js:99 | on a 0/1 line the `reduce` sum counts the ones, and zeros plus ones make up the line |
| LineRules.SkippedValueIsInvalid | BinaryPuzzleSolver.js:78-79 | the all-ones line, value `2^n - 1`, which the loop bound `i < maxInt` never tries, fails `isValidRow`, so the bound loses no candidate |
| LineRules.MatchingIffAgrees | BinaryPuzzleSolver.js:83-85 | the count comparison `matchingNums === presentNums` holds exactly when the candidate equals the line at every known cell |
| LineRules.AgreeingWithFinishedLine | BinaryPuzzleSolver.js:83-85 | a candidate agreeing with a line that has no unknown cell is that line |
| LineRules.GetRowPossibilities | BinaryPuzzleSolver.js:74-93 | the counting loop over `0 .. 2^n - 2`, padding each value to `n` bits and pushing it when it matches, is valid and is unique, returns `Candidates(list, index)` |
| LineRules.CandidatesSound | BinaryPuzzleSolver.js:83-89 | every candidate has the line's length, agrees with its known cells, is a valid line, and equals no line of the list |
| LineRules.CandidatesComplete | BinaryPuzzleSolver.js:79-89 | every valid completion of the line that agrees with its known cells and equals no line of the list is a candidate |
| LineRules.CandidatesSorted | BinaryPuzzleSolver.js:79-89 | candidates come in strictly increasing binary value, which is lexicographic order, and none is pushed twice |
| LineRules.FinishedLineHasNoCandidates | BinaryPuzzleSolver.js:83-89 | a line with no unknown cell has no candidates, since its only agreeing completion is a line of the list |
| LineRules.ValueOrderIsLexOrder | BinaryPuzzleSolver.js:80-82 | for zero-padded binary forms of one length, numeric order is lexicographic order |
| LineRules.BitsOfValue | BinaryPuzzleSolver.js:80-82 | the zero-padded binary form of the number a bit sequence denotes is that sequence |
| LineRules.TriedValue | BinaryPuzzleSolver.js:78-82 | every valid line is the padded binary form of a value the loop tries |
| PuzzleText.ParseCell | BinaryPuzzleSolver.js:22 | `.` reads as unknown, a decimal digit as its value, any other character as NaN |
| PuzzleText.SplitJoin | BinaryPuzzleSolver.js:22 | `split('\n')` cuts at every newline and loses nothing: the pieces hold no newline and join back to the text |
| PuzzleText.JoinSplit | BinaryPuzzleSolver.js:22 | newline-free pieces joined by newlines split back into the same pieces |
| PuzzleText.NonEmptyAppend | BinaryPuzzleSolver.js:22 | `filter(v => v)` drops empty pieces on either side of a concatenation independently |
| PuzzleText.ParseOfLines | BinaryPuzzleSolver.js:22 | the lines of a grid, one per line, with any number of blank lines before and after, read as one row per line, in order |
| PuzzleText.ParsePlain | BinaryPuzzleSolver.js:22 | a text of dots, 0s, 1s and newlines reads as a grid of unknown, 0 and 1 cells only |
| Grid.TransposeTwice | BinaryPuzzle.js:70-76 | the columns of the columns are the rows |
| Grid.BinaryPuzzle.Create | BinaryPuzzle.js:2-19 | fails with `GridSizeOdd` on an odd row count, else with `RowLengthMismatch` when some row's length differs from the row count; otherwise a fresh, valid puzzle holding the rows in order |
| Grid.BinaryPuzzle.GetEntry | BinaryPuzzle.js:59-64 | succeeds exactly inside the grid, with the cell at column `x`, row `y`; fails with `OutOfGrid` otherwise |
| Grid.BinaryPuzzle.SetEntry | BinaryPuzzle.js:49-57 | fails with `OutOfGrid` outside the grid, then with `NotBinary` on a value other than 0 or 1, changing nothing; otherwise writes that one cell, so `GetEntry` there returns it and every other cell is unchanged |
| Grid.BinaryPuzzle.Rows | BinaryPuzzle.js:66-68 | `size` rows of `size` cells |
| Grid.BinaryPuzzle.Columns | BinaryPuzzle.js:70-76 | column `i` holds the `i`-th cell of every row, top to bottom |
| Grid.RowTextLayout | BinaryPuzzle.js:79 | a row of unknown, 0 and 1 cells is written as its characters at the even positions with single spaces between |
| Grid.RenderLayout | BinaryPuzzle.js:78-80 | for a grid of unknown, 0 and 1 cells, the text holds `2n` characters per row; the character of cell (r, c) is at position `2n·r + 2c`, followed by a space, or by a newline after the last column |
| Grid.OffsetIsProduct | BinaryPuzzle.js:79 | rows of `len` characters put row `r` at offset `len·r` |
| Rules.LineRulesOfBits | BinaryPuzzle.js:26-36 | on a 0/1 line the neighbour rule and the equal-amount rule of `solved()` together are `isValidRow` |
| Rules.JsonEqualOfBinary | BinaryPuzzle.js:38-44 | between 0/1 lines, comparing `JSON.stringify` texts is equality |
| Rules.SolvedGridIff | BinaryPuzzle.js:22-47 | `solved()` holds exactly when every cell is 0 or 1 and the rows and the columns are each valid lines, pairwise different |
| Solver.CommonValue | BinaryPuzzleSolver.js:56-57 | the set of values at a coordinate has one element exactly when there is a candidate and all agree there; the element is that value |
| Solver.EmptySpots | BinaryPuzzleSolver.js:31-32 | the count of unknown cells is zero exactly when the row has no unknown cell |
| Solver.CellStepRefines | BinaryPuzzleSolver.js:45-67 | one column iteration keeps every known cell and changes only column `x` |
| Solver.CellStepKeepsAgreement | BinaryPuzzleSolver.js:45-67 | one column iteration keeps the row candidates consistent with the cells of the row not yet visited |
| Solver.RowCellsRefines | BinaryPuzzleSolver.js:45-67 | the whole column loop of a row keeps every known cell |
| Solver.RowStepRefines | BinaryPuzzleSolver.js:31-68 | one row iteration, whether a skip, a whole-row write or the column loop, keeps every known cell and only fills unknown cells with 0 or 1 |
| Solver.PassRefines | BinaryPuzzleSolver.js:30-69 | a pass keeps every known cell and only fills unknown cells with 0 or 1 |
| Solver.SolveFromRefines | BinaryPuzzleSolver.js:28-70 | any number of passes keeps every known cell of the starting grid |
| Solver.FinishedLinesKept | BinaryPuzzleSolver.js:31-32 | a line without unknown cells is left as it is |
| Solver.SolutionLineIsCandidate | BinaryPuzzleSolver.js:35 | the row of any solution of the grid is among that row's candidates |
| Solver.RefinesColumns | BinaryPuzzleSolver.js:47 | when a grid is refined by another, so are their columns |
| Solver.CellStepKeepsSolution | BinaryPuzzleSolver.js:45-67 | every cell a column iteration writes agrees with every solution of the grid |
| Solver.WriteRowKeepsSolution | BinaryPuzzleSolver.js:37-42 | writing the row's only candidate agrees with every solution |
| Solver.RowStepKeepsSolution | BinaryPuzzleSolver.js:31-68 | one row iteration never contradicts a solution of the grid |
| Solver.PassKeepsSolution | BinaryPuzzleSolver.js:30-69 | a solution of the grid before a pass is a solution of the grid after it |
| Solver.SolveFromKeepsSolution | BinaryPuzzleSolver.js:28-70 | a solution of the starting grid stays a solution after any number of passes |
| Solver.SolvedResultIsTheSolution | BinaryPuzzleSolver.js:28-70 | when the passes end in a solved grid, that grid is the solution of the starting grid, so a puzzle has at most one solution the solver can reach |
| Solver.SolveFromIsPasses | BinaryPuzzleSolver.js:28 | the driver is some number of passes, at most the fuel, and none on a solved grid |
| Solver.FinishedGridIsFixed | BinaryPuzzleSolver.js:30-32 | a pass over a grid with no unknown cell changes nothing |
| Solver.SolvedGridIsFixed | BinaryPuzzleSolver.js:28-32 | a solved grid is a fixed point of a pass |
| Solver.SingleCandidateRowStays | BinaryPuzzleSolver.js:37-42 | a row with one candidate ends the pass holding that candidate |
| Driver.FillRow | BinaryPuzzleSolver.js:38-40 | `forEach` with `setEntry` writes the candidate into row `y` and changes nothing else |
| Driver.FillColumn | BinaryPuzzleSolver.js:50-52 | `forEach` with `setEntry` writes the candidate into column `x` and changes nothing else |
| Driver.SolveCell | BinaryPuzzleSolver.js:47-66 | one column iteration on the puzzle object computes `CellStep` |
| Driver.SolveCells | BinaryPuzzleSolver.js:45-68 | the column loop computes `RowCells` |
| Driver.SolveRow | BinaryPuzzleSolver.js:31-68 | one row iteration computes `RowStep` |
| Driver.SolvePass | BinaryPuzzleSolver.js:30-69 | the row loop computes `OnePass` |
| Driver.Solve | BinaryPuzzleSolver.js:28-70 | the driver computes `SolveFrom`, keeps every known cell of the starting grid, and reports solved exactly when `solved()` holds |

## Left out

- Console output: the banner, the rendering of the puzzle before and after solving, and the separator line (BinaryPuzzleSolver.js:25-26, 103-105). These are I/O.
- The browser snippet in the closing comment (BinaryPuzzleSolver.js:107-119). It is not part of the program.
- The hard-coded `puzzleGrid` text (BinaryPuzzleSolver.js:7-18). The parser is modelled over any text instead.
- Driver.Solve: does not model the unbounded `while (!puzzle.solved())`. It runs at most `fuel` passes, because the source loops forever on a puzzle it cannot finish.
- Aliasing: `rows` returns the grid array itself and the constructor stores the caller's row arrays. The model copies values, so it does not capture writes through those aliases.
- The `grid instanceof Array` check of the constructor (BinaryPuzzle.js:11-12). The model's input is a sequence of rows by type.
- The mechanics of `toString(2)`, `parseInt`, `unshift` and `JSON.stringify` are replaced by their results: the zero-padded binary form `Bits`, the digit value, and cell equality.
- LineRules.GetRowPossibilities: requires the line to be as long as the list. The source pads with `list.length` but bounds with `row.length`, and the two agree on every square grid the solver passes.
- LineRules.IsValidRow: requires a non-empty line, since `reduce` without an initial value throws on an empty array.
- The `x % this.size` of `setEntry` and `getEntry` is the identity for a coordinate already checked to be inside the grid (Grid.SmallModulus), so no other index is modelled.
- Timing and complexity remarks (BinaryPuzzleSolver.js:2-5, 72-73). These are comments.
- The renderer and the parser are not inverse. `string` puts spaces between cells, which the parser would read as NaN, so no round trip is stated between them.

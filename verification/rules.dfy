/**
 * `solved()` of BinaryPuzzle.js read back as the puzzle's rules: every cell 0
 * or 1, and every row and every column a valid line (`isValidRow` of
 * BinaryPuzzleSolver.js) that no other row, or column, repeats.
 */
module Rules {
  import opened Cells
  import opened Grid
  import opened LineRules

  /** Every cell of the line holds 0 or 1. */
  predicate AllBinary(line: seq<Cell>) {
    forall k :: 0 <= k < |line| ==> IsBinaryCell(line[k])
  }

  /**
   * Every line holds only 0s and 1s and is valid under `isValidRow`, and no
   * two lines are equal.
   */
  predicate SolvedLines(lines: seq<seq<Cell>>) {
    && (forall i :: 0 <= i < |lines| ==> |lines[i]| > 0 && AllBinary(lines[i]) && IsValidRow(ToBits(lines[i])))
    && (forall i, j :: 0 <= i < j < |lines| ==> lines[i] != lines[j])
  }

  /** The bits of a line without its first cell are the bits of the line without their first. */
  lemma ToBitsTail(line: seq<Cell>)
    requires |line| > 0 && AllBinary(line)
    ensures ToBits(line[1..]) == ToBits(line)[1..]
  {
    var t := line[1..];
    assert forall k :: 0 <= k < |t| ==> t[k] == line[k + 1];
    assert forall k :: 0 <= k < |t| ==> ToBits(t)[k] == ToBits(line)[k + 1] by {
      forall k | 0 <= k < |t| ensures ToBits(t)[k] == ToBits(line)[k + 1] {
        assert Lift(ToBits(t))[k] == t[k];
        assert Lift(ToBits(line))[k + 1] == line[k + 1];
      }
    }
  }

  /** On a 0/1 line, the `+` of the cells is the sum of its bits. */
  lemma {:induction false} NumSumOfBits(line: seq<Cell>)
    requires AllBinary(line)
    ensures NumSum(line) == Sum(ToBits(line))
  {
    if line != [] {
      var b := ToBits(line);
      ToBitsTail(line);
      NumSumOfBits(line[1..]);
      assert Lift(b)[0] == line[0];
    }
  }

  /** On a 0/1 line, `===` is equality, so the neighbour rule is the no-triplet rule. */
  lemma NeighborRuleOfBits(line: seq<Cell>)
    requires AllBinary(line)
    ensures OnlyOneEqualNeighbor(line) <==> NoTriplet(ToBits(line))
  {
    var b := ToBits(line);
    forall k | 0 <= k < |line| ensures line[k] == Num(b[k]) {
      assert Lift(b)[k] == line[k];
    }
  }

  /** On a line of 0s and 1s, the two rules `solved()` checks per line are `isValidRow`. */
  lemma LineRulesOfBits(line: seq<Cell>)
    requires |line| > 0 && AllBinary(line)
    ensures OnlyOneEqualNeighbor(line) && EqualAmount(line, |line|) <==> IsValidRow(ToBits(line))
  {
    var b := ToBits(line);
    NumSumOfBits(line);
    NeighborRuleOfBits(line);
    assert NaN !in line by {
      assert forall k :: 0 <= k < |line| ==> line[k] != NaN;
    }
    assert IsBinary(b);
  }

  /** Between 0/1 lines the `JSON.stringify` comparison is equality. */
  lemma JsonEqualOfBinary(a: seq<Cell>, b: seq<Cell>)
    requires AllBinary(a) && AllBinary(b)
    ensures JsonEqual(a, b) <==> a == b
  {
    if JsonEqual(a, b) {
      assert forall k :: 0 <= k < |a| ==> a[k] == JsonCell(a[k]) == JsonCell(b[k]) == b[k];
    }
  }

  /** The rows, or the columns, of a 0/1 grid as `solved()` checks them, in terms of SolvedLines. */
  lemma LinesSolvedIff(lines: seq<seq<Cell>>, size: nat)
    requires forall i :: 0 <= i < |lines| ==> |lines[i]| == size > 0 && AllBinary(lines[i])
    ensures (&& (forall i :: 0 <= i < |lines| ==> OnlyOneEqualNeighbor(lines[i]))
             && (forall i :: 0 <= i < |lines| ==> EqualAmount(lines[i], size))
             && AllUnique(lines))
            <==> SolvedLines(lines)
  {
    forall i | 0 <= i < |lines|
      ensures OnlyOneEqualNeighbor(lines[i]) && EqualAmount(lines[i], size) <==> IsValidRow(ToBits(lines[i]))
    {
      LineRulesOfBits(lines[i]);
    }
    forall i, j | 0 <= i < j < |lines| ensures JsonEqual(lines[i], lines[j]) <==> lines[i] == lines[j] {
      JsonEqualOfBinary(lines[i], lines[j]);
    }
  }

  /** Every column of a 0/1 square grid holds only 0s and 1s. */
  lemma ColumnsBinary(g: seq<seq<Cell>>)
    requires IsSquare(g) && OneOrZero(g)
    ensures forall x :: 0 <= x < |g| ==> AllBinary(Transpose(g)[x])
  {
    var t := Transpose(g);
    forall x, j | 0 <= x < |g| && 0 <= j < |g| ensures IsBinaryCell(t[x][j]) {
      assert t[x][j] == g[j][x];
    }
  }

  /**
   * `solved()` holds exactly when every cell is 0 or 1, and the rows and the
   * columns are each valid lines, pairwise different.
   */
  lemma SolvedGridIff(g: seq<seq<Cell>>)
    requires IsSquare(g)
    ensures SolvedGrid(g) <==> OneOrZero(g) && SolvedLines(g) && SolvedLines(Transpose(g))
  {
    if OneOrZero(g) {
      var t := Transpose(g);
      ColumnsBinary(g);
      if |g| > 0 {
        LinesSolvedIff(g, |g|);
        LinesSolvedIff(t, |g|);
      }
    }
  }
}

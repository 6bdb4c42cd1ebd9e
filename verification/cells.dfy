/** The values a grid cell can hold. */
module Cells {

  /**
   * A cell as the program stores it: `null` for an unknown cell, a number,
   * or NaN, which is what `parseInt` yields for a character that is not a digit.
   */
  datatype Cell = Empty | Num(n: int) | NaN

  /** A resolved value, as a candidate line holds it. */
  type Bit = b: int | 0 <= b <= 1

  /** True when the cell holds 0 or 1. */
  predicate IsBinaryCell(c: Cell) {
    c == Num(0) || c == Num(1)
  }

  /** A candidate line stored as cells. */
  function Lift(b: seq<Bit>): (line: seq<Cell>)
    ensures |line| == |b|
    ensures forall k :: 0 <= k < |b| ==> line[k] == Num(b[k])
  {
    seq(|b|, k requires 0 <= k < |b| => Num(b[k]))
  }

  /** The bits of a line whose cells all hold 0 or 1; the inverse of Lift. */
  function ToBits(line: seq<Cell>): (b: seq<Bit>)
    requires forall k :: 0 <= k < |line| ==> IsBinaryCell(line[k])
    ensures |b| == |line|
    ensures Lift(b) == line
  {
    var b: seq<Bit> := seq(|line|, k requires 0 <= k < |line| => if line[k] == Num(1) then 1 else 0);
    assert forall k :: 0 <= k < |line| ==> Lift(b)[k] == line[k] by {
      forall k | 0 <= k < |line| ensures Lift(b)[k] == line[k] {
        assert IsBinaryCell(line[k]);
        assert Lift(b)[k] == Num(b[k]);
      }
    }
    b
  }
}

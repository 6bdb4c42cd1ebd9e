/**
 * The line rules of a Binary Puzzle (`isValidRow`) and the exhaustive
 * enumeration of the candidate completions of one line (`getRowPossibilities`),
 * both from BinaryPuzzleSolver.js.
 */
module LineRules {
  import opened Cells

  // ---------------------------------------------------------------------------
  // isValidRow
  // ---------------------------------------------------------------------------

  /** The sum of a line, as the `reduce` of `isValidRow` adds it up. */
  function Sum(row: seq<int>): int {
    if row == [] then 0 else row[0] + Sum(row[1..])
  }

  /** Number of entries of `row` equal to `v`. */
  function Count(row: seq<int>, v: int): nat {
    if row == [] then 0 else (if row[0] == v then 1 else 0) + Count(row[1..], v)
  }

  /** Every entry is 0 or 1. */
  predicate IsBinary(row: seq<int>) {
    forall k :: 0 <= k < |row| ==> row[k] == 0 || row[k] == 1
  }

  /** No entry equals both of its neighbours. */
  predicate NoTriplet(row: seq<int>) {
    forall k :: 1 <= k < |row| - 1 ==> !(row[k] == row[k - 1] && row[k] == row[k + 1])
  }

  /**
   * `isValidRow`: binary, no three equal values in a row, and the entries sum to
   * half the length. The source's `reduce` has no initial value, so it throws on
   * an empty line; hence the precondition.
   */
  predicate IsValidRow(row: seq<int>)
    requires |row| > 0
  {
    IsBinary(row) && NoTriplet(row) && 2 * Sum(row) == |row|
  }

  /** On a binary line the sum counts the ones, and zeros and ones make up the line. */
  lemma {:induction false} BinarySumCountsOnes(row: seq<int>)
    requires IsBinary(row)
    ensures Sum(row) == Count(row, 1)
    ensures Count(row, 0) + Count(row, 1) == |row|
  {
    if row != [] {
      assert IsBinary(row[1..]) by {
        forall k | 0 <= k < |row| - 1 ensures row[1..][k] == 0 || row[1..][k] == 1 {
          assert row[1..][k] == row[k + 1];
        }
      }
      BinarySumCountsOnes(row[1..]);
    }
  }

  /** A valid line has even length and exactly as many zeros as ones. */
  lemma ValidRowIsBalanced(row: seq<int>)
    requires |row| > 0 && IsValidRow(row)
    ensures |row| % 2 == 0
    ensures Count(row, 0) == |row| / 2 && Count(row, 1) == |row| / 2
  {
    BinarySumCountsOnes(row);
  }

  // ---------------------------------------------------------------------------
  // Binary numbers as bit sequences
  // ---------------------------------------------------------------------------

  function Pow2(n: nat): (p: nat)
    ensures p >= 1
  {
    if n == 0 then 1 else 2 * Pow2(n - 1)
  }

  /**
   * The `n`-bit big-endian binary form of `i`, left-padded with zeros: what
   * the binary text of `i` followed by the zero padding produces for `i < 2^n`.
   */
  function Bits(i: nat, n: nat): (b: seq<Bit>)
    ensures |b| == n
  {
    if n == 0 then [] else Bits(i / 2, n - 1) + [i % 2]
  }

  /** The number a big-endian bit sequence denotes. */
  function Value(b: seq<Bit>): nat {
    if b == [] then 0 else 2 * Value(b[..|b| - 1]) + b[|b| - 1]
  }

  lemma ValueOfSnoc(b: seq<Bit>, x: Bit)
    ensures Value(b + [x]) == 2 * Value(b) + x
  {
    assert (b + [x])[..|b|] == b;
  }

  /** Bits and Value are inverse: the number of the bits of `i` is `i`. */
  lemma {:induction false} ValueOfBits(i: nat, n: nat)
    requires i < Pow2(n)
    ensures Value(Bits(i, n)) == i
  {
    if n > 0 {
      ValueOfBits(i / 2, n - 1);
      ValueOfSnoc(Bits(i / 2, n - 1), i % 2);
    }
  }

  /** An `n`-bit sequence denotes a number below `2^n`. */
  lemma {:induction false} ValueBelowPow2(b: seq<Bit>)
    ensures Value(b) < Pow2(|b|)
  {
    if b != [] {
      ValueBelowPow2(b[..|b| - 1]);
    }
  }

  /** Bits and Value are inverse: the bits of the number of `b` are `b`. */
  lemma {:induction false} BitsOfValue(b: seq<Bit>)
    ensures Bits(Value(b), |b|) == b
  {
    if b != [] {
      var front := b[..|b| - 1];
      BitsOfValue(front);
      assert Value(b) / 2 == Value(front) && Value(b) % 2 == b[|b| - 1];
      assert b == front + [b[|b| - 1]];
    }
  }

  /** Only the all-ones sequence denotes `2^n - 1`. */
  lemma {:induction false} TopValueIsAllOnes(b: seq<Bit>)
    requires Value(b) == Pow2(|b|) - 1
    ensures forall k :: 0 <= k < |b| ==> b[k] == 1
  {
    if b != [] {
      var front := b[..|b| - 1];
      ValueBelowPow2(front);
      assert b[|b| - 1] == 1;
      TopValueIsAllOnes(front);
      forall k | 0 <= k < |b| ensures b[k] == 1 {
        if k < |b| - 1 { assert b[k] == front[k]; }
      }
    }
  }

  lemma {:induction false} AllOnesSum(row: seq<int>)
    requires forall k :: 0 <= k < |row| ==> row[k] == 1
    ensures Sum(row) == |row|
  {
    if row != [] {
      assert forall k :: 0 <= k < |row| - 1 ==> row[1..][k] == row[k + 1];
      AllOnesSum(row[1..]);
    }
  }

  /**
   * The all-ones line, the value `2^n - 1` the enumeration bound leaves out,
   * never passes the split rule, so nothing is lost by skipping it.
   */
  lemma SkippedValueIsInvalid(n: nat)
    requires n > 0
    ensures !IsValidRow(Bits(Pow2(n) - 1, n))
  {
    var b := Bits(Pow2(n) - 1, n);
    ValueOfBits(Pow2(n) - 1, n);
    TopValueIsAllOnes(b);
    AllOnesSum(b);
  }

  /** Lexicographic order: the first difference has a 0 on the left and a 1 on the right. */
  predicate LexLess(a: seq<Bit>, b: seq<Bit>) {
    exists k :: 0 <= k < |a| && k < |b| && a[..k] == b[..k] && a[k] < b[k]
  }

  /** On sequences of one length, numeric order is lexicographic order. */
  lemma {:induction false} ValueOrderIsLexOrder(a: seq<Bit>, b: seq<Bit>)
    requires |a| == |b| && Value(a) < Value(b)
    ensures LexLess(a, b)
  {
    var n := |a|;
    var fa, fb := a[..n - 1], b[..n - 1];
    if Value(fa) < Value(fb) {
      ValueOrderIsLexOrder(fa, fb);
      var k :| 0 <= k < |fa| && k < |fb| && fa[..k] == fb[..k] && fa[k] < fb[k];
      assert a[..k] == fa[..k] && b[..k] == fb[..k];
      assert a[k] == fa[k] && b[k] == fb[k];
    } else {
      assert Value(fa) == Value(fb);
      BitsOfValue(fa);
      BitsOfValue(fb);
      assert a[..n - 1] == b[..n - 1];
      assert a[n - 1] < b[n - 1];
    }
  }

  // ---------------------------------------------------------------------------
  // Agreement with the known cells
  // ---------------------------------------------------------------------------

  /** The candidate equals the line at every known (non-null) cell. */
  predicate Agrees(row: seq<Cell>, b: seq<Bit>) {
    |row| == |b| && forall k :: 0 <= k < |b| ==> row[k] != Empty ==> row[k] == Num(b[k])
  }

  /** The number of known (non-null) cells of the line (`presentNums`). */
  function CountPresent(row: seq<Cell>): nat {
    if row == [] then 0 else (if row[0] != Empty then 1 else 0) + CountPresent(row[1..])
  }

  /** The number of known cells that hold the candidate's value at their index (`matchingNums`). */
  function CountMatching(row: seq<Cell>, b: seq<Bit>): nat
    requires |row| == |b|
  {
    if row == [] then 0
    else (if row[0] != Empty && row[0] == Num(b[0]) then 1 else 0) + CountMatching(row[1..], b[1..])
  }

  /** The only sequence agreeing with a line that has no unknown cell is that line. */
  lemma AgreeingWithFinishedLine(row: seq<Cell>, b: seq<Bit>)
    requires Agrees(row, b) && Empty !in row
    ensures Lift(b) == row
  {
    assert forall k :: 0 <= k < |b| ==> row[k] != Empty;
  }

  /** The source's count comparison `matchingNums === presentNums` is exactly agreement. */
  lemma {:induction false} MatchingIffAgrees(row: seq<Cell>, b: seq<Bit>)
    requires |row| == |b|
    ensures CountMatching(row, b) <= CountPresent(row)
    ensures CountMatching(row, b) == CountPresent(row) <==> Agrees(row, b)
  {
    if row != [] {
      MatchingIffAgrees(row[1..], b[1..]);
      assert forall k :: 1 <= k < |b| ==> row[k] == row[1..][k - 1] && b[k] == b[1..][k - 1];
      if Agrees(row, b) {
        assert Agrees(row[1..], b[1..]) by {
          forall k | 0 <= k < |b| - 1 ensures row[1..][k] != Empty ==> row[1..][k] == Num(b[1..][k]) {
            assert row[1..][k] == row[k + 1];
          }
        }
      }
    }
  }


  // ---------------------------------------------------------------------------
  // getRowPossibilities
  // ---------------------------------------------------------------------------

  /**
   * The filters a bit sequence must pass to be kept: it is as long as the line,
   * matches the known cells (by the source's count comparison), is a valid line,
   * and equals no line of `list` (the `JSON.stringify` comparison, which for a
   * 0/1 sequence is equality of the cells).
   */
  predicate Keep(list: seq<seq<Cell>>, row: seq<Cell>, b: seq<Bit>) {
    && |b| == |row| > 0
    && CountMatching(row, b) == CountPresent(row)
    && IsValidRow(b)
    && Lift(b) !in list
  }

  /** The filter of `getRowPossibilities` as a function value. */
  function KeepOf(list: seq<seq<Cell>>, row: seq<Cell>): seq<Bit> -> bool {
    b => Keep(list, row, b)
  }

  /**
   * What a counting loop over the values `0 .. i - 1` has pushed when it keeps
   * the `n`-bit form of each value that passes `keep` and is not already pushed.
   */
  function Enumerate(keep: seq<Bit> -> bool, n: nat, i: nat): seq<seq<Bit>> {
    if i == 0 then []
    else
      var prev := Enumerate(keep, n, i - 1);
      var b := Bits(i - 1, n);
      if keep(b) && b !in prev then prev + [b] else prev
  }

  /** The result of `getRowPossibilities(list, index)`: the values `0 .. 2^n - 2` tried in order. */
  function Candidates(list: seq<seq<Cell>>, index: nat): seq<seq<Bit>>
    requires index < |list| && |list[index]| == |list|
  {
    var row := list[index];
    Enumerate(KeepOf(list, row), |list|, Pow2(|row|) - 1)
  }

  /**
   * `getRowPossibilities`: the counting loop pushing each kept sequence. The line
   * must be as long as `list`, as every line of a square grid is (the zero
   * padding uses `list.length`, the bound `row.length`).
   */
  method GetRowPossibilities(list: seq<seq<Cell>>, index: nat) returns (possibilities: seq<seq<Bit>>)
    requires index < |list| && |list[index]| == |list|
    ensures possibilities == Candidates(list, index)
  {
    var row := list[index];
    ghost var keep := KeepOf(list, row);
    possibilities := [];
    var maxInt := Pow2(|row|) - 1;
    var i := 0;
    while i < maxInt
      invariant 0 <= i <= maxInt
      invariant possibilities == Enumerate(keep, |list|, i)
    {
      var posRow := Bits(i, |list|);
      var presentNums := CountPresent(row);
      var matchingNums := CountMatching(row, posRow);
      var matches := matchingNums == presentNums;
      if matches && IsValidRow(posRow) {
        var unique := Lift(posRow) !in list && posRow !in possibilities;
        if unique {
          possibilities := possibilities + [posRow];
        }
      }
      i := i + 1;
    }
  }

  /** Everything pushed passed the filter and is the `n`-bit form of a tried value. */
  lemma {:induction false} EnumerateSound(keep: seq<Bit> -> bool, n: nat, i: nat)
    requires i <= Pow2(n)
    ensures forall b :: b in Enumerate(keep, n, i) ==> |b| == n && keep(b) && Value(b) < i
  {
    if i > 0 {
      var prev := Enumerate(keep, n, i - 1);
      var b := Bits(i - 1, n);
      EnumerateSound(keep, n, i - 1);
      ValueOfBits(i - 1, n);
      forall c | c in Enumerate(keep, n, i) ensures |c| == n && keep(c) && Value(c) < i {
        if c !in prev {
          assert c == b;
        }
      }
    }
  }

  /** The sequences denote strictly increasing numbers. */
  predicate IncreasingValues(s: seq<seq<Bit>>) {
    forall j, k :: 0 <= j < k < |s| ==> Value(s[j]) < Value(s[k])
  }

  lemma AppendIncreasing(s: seq<seq<Bit>>, b: seq<Bit>)
    requires IncreasingValues(s)
    requires forall j :: 0 <= j < |s| ==> Value(s[j]) < Value(b)
    ensures IncreasingValues(s + [b])
  {
    var e := s + [b];
    forall j, k | 0 <= j < k < |e| ensures Value(e[j]) < Value(e[k]) {
      assert e[j] == s[j];
      if k < |s| {
        assert e[k] == s[k];
      }
    }
  }

  /** What was pushed is in strictly increasing order of value. */
  lemma {:induction false} EnumerateSorted(keep: seq<Bit> -> bool, n: nat, i: nat)
    requires i <= Pow2(n)
    ensures IncreasingValues(Enumerate(keep, n, i))
  {
    if i > 0 {
      EnumerateSorted(keep, n, i - 1);
      var prev := Enumerate(keep, n, i - 1);
      var b := Bits(i - 1, n);
      if keep(b) && b !in prev {
        PushedBelowNext(keep, n, i, prev);
        AppendIncreasing(prev, b);
      }
    }
  }

  /** Everything pushed before value `i - 1` is tried denotes less than it. */
  lemma PushedBelowNext(keep: seq<Bit> -> bool, n: nat, i: nat, prev: seq<seq<Bit>>)
    requires 0 < i <= Pow2(n) && prev == Enumerate(keep, n, i - 1)
    ensures forall j :: 0 <= j < |prev| ==> Value(prev[j]) < Value(Bits(i - 1, n))
  {
    EnumerateSound(keep, n, i - 1);
    ValueOfBits(i - 1, n);
    forall j | 0 <= j < |prev| ensures Value(prev[j]) < i - 1 {
      assert prev[j] in prev;
    }
  }

  /** Every tried value whose `n`-bit form passes the filter was pushed. */
  lemma {:induction false} EnumerateComplete(keep: seq<Bit> -> bool, n: nat, i: nat, v: nat)
    requires v < i && keep(Bits(v, n))
    ensures Bits(v, n) in Enumerate(keep, n, i)
  {
    if v < i - 1 {
      EnumerateComplete(keep, n, i - 1, v);
    }
  }

  /** Soundness: every candidate is a valid line of the right length that agrees with the known cells and repeats no line of `list`. */
  lemma CandidatesSound(list: seq<seq<Cell>>, index: nat)
    requires index < |list| && |list[index]| == |list|
    ensures forall b :: b in Candidates(list, index) ==>
              |b| == |list| && IsValidRow(b) && Agrees(list[index], b) && Lift(b) !in list
  {
    var row := list[index];
    EnumerateSound(KeepOf(list, row), |list|, Pow2(|row|) - 1);
    forall b | b in Candidates(list, index) ensures Agrees(row, b) {
      MatchingIffAgrees(row, b);
    }
  }

  /** Completeness: every valid line that agrees with the known cells and repeats no line of `list` is a candidate. */
  lemma CandidatesComplete(list: seq<seq<Cell>>, index: nat, b: seq<Bit>)
    requires index < |list| && |list[index]| == |list|
    requires |b| == |list| && IsValidRow(b) && Agrees(list[index], b) && Lift(b) !in list
    ensures b in Candidates(list, index)
  {
    var row := list[index];
    var v := TriedValue(b);
    assert KeepOf(list, row)(b) by {
      MatchingIffAgrees(row, b);
    }
    EnumerateComplete(KeepOf(list, row), |list|, Pow2(|row|) - 1, v);
  }

  /** A valid line is the `n`-bit form of one of the values the loop tries. */
  lemma TriedValue(b: seq<Bit>) returns (v: nat)
    requires |b| > 0 && IsValidRow(b)
    ensures v < Pow2(|b|) - 1
    ensures Bits(v, |b|) == b
  {
    var n := |b|;
    v := Value(b);
    ValueBelowPow2(b);
    BitsOfValue(b);
    SkippedValueIsInvalid(n);
    assert Bits(v, n) != Bits(Pow2(n) - 1, n);
  }

  /** Each sequence is lexicographically below the ones after it. */
  predicate LexIncreasing(s: seq<seq<Bit>>) {
    forall j, k :: 0 <= j < k < |s| ==> LexLess(s[j], s[k])
  }

  /** The sequences are pairwise distinct. */
  predicate Distinct(s: seq<seq<Bit>>) {
    forall j, k :: 0 <= j < |s| && 0 <= k < |s| && j != k ==> s[j] != s[k]
  }

  /** Sequences of one length in increasing value are increasing lexicographically and distinct. */
  lemma IncreasingIsLexIncreasing(s: seq<seq<Bit>>, n: nat)
    requires IncreasingValues(s)
    requires forall b :: b in s ==> |b| == n
    ensures LexIncreasing(s) && Distinct(s)
  {
    forall j, k | 0 <= j < k < |s| ensures LexLess(s[j], s[k]) {
      assert s[j] in s && s[k] in s;
      ValueOrderIsLexOrder(s[j], s[k]);
    }
    forall j, k | 0 <= j < |s| && 0 <= k < |s| && j != k ensures s[j] != s[k] {
      if j < k { assert Value(s[j]) < Value(s[k]); } else { assert Value(s[k]) < Value(s[j]); }
    }
  }

  /** The candidates are pairwise distinct, in strictly increasing binary value and lexicographic order. */
  lemma CandidatesSorted(list: seq<seq<Cell>>, index: nat)
    requires index < |list| && |list[index]| == |list|
    ensures IncreasingValues(Candidates(list, index))
    ensures LexIncreasing(Candidates(list, index))
    ensures Distinct(Candidates(list, index))
  {
    var row := list[index];
    var keep := KeepOf(list, row);
    var ps := Enumerate(keep, |list|, Pow2(|row|) - 1);
    EnumerateSorted(keep, |list|, Pow2(|row|) - 1);
    CandidatesSound(list, index);
    IncreasingIsLexIncreasing(ps, |list|);
  }

  /** A filter nothing passes yields nothing. */
  lemma {:induction false} EnumerateNothingKept(keep: seq<Bit> -> bool, n: nat, i: nat)
    requires forall v: nat :: v < i ==> !keep(Bits(v, n))
    ensures Enumerate(keep, n, i) == []
  {
    if i > 0 {
      EnumerateNothingKept(keep, n, i - 1);
    }
  }

  /** A line with no unknown cell has no candidate: the only sequence agreeing with it is the line itself, which is in `list`. */
  lemma FinishedLineHasNoCandidates(list: seq<seq<Cell>>, index: nat)
    requires index < |list| && |list[index]| == |list|
    requires Empty !in list[index]
    ensures Candidates(list, index) == []
  {
    var row := list[index];
    var n := |list|;
    assert row in list;
    forall v: nat | v < Pow2(n) - 1 ensures !Keep(list, row, Bits(v, n)) {
      var b := Bits(v, n);
      MatchingIffAgrees(row, b);
      if Agrees(row, b) {
        AgreeingWithFinishedLine(row, b);
      }
    }
    EnumerateNothingKept(KeepOf(list, row), n, Pow2(n) - 1);
  }
}

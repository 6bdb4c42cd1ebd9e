/**
 * The grid text read at BinaryPuzzleSolver.js:22: split on newlines, drop the
 * empty lines, and read each character as a cell.
 */
module PuzzleText {
  import opened Cells
  import opened Grid

  /** JavaScript's split on the newline character: the pieces between newlines, always at least one. */
  function Split(s: string): (pieces: seq<string>)
    ensures |pieces| >= 1
  {
    if s == [] then [""]
    else
      var rest := Split(s[1..]);
      if s[0] == '\n' then [""] + rest else [[s[0]] + rest[0]] + rest[1..]
  }

  /** The pieces joined with a newline between each two: the inverse of Split. */
  function Join(pieces: seq<string>): string
    requires |pieces| >= 1
  {
    if |pieces| == 1 then pieces[0] else pieces[0] + "\n" + Join(pieces[1..])
  }

  /** No piece holds a newline. */
  predicate NoNewline(pieces: seq<string>) {
    forall i :: 0 <= i < |pieces| ==> '\n' !in pieces[i]
  }

  /** Splitting cuts at every newline and loses nothing: the pieces hold no newline and join back to the text. */
  lemma {:induction false} SplitJoin(s: string)
    ensures NoNewline(Split(s))
    ensures Join(Split(s)) == s
  {
    if s != [] {
      var rest := Split(s[1..]);
      SplitJoin(s[1..]);
      if s[0] == '\n' {
        assert Split(s) == [""] + rest;
        assert Split(s)[1..] == rest;
      } else {
        var p := Split(s);
        assert p[0] == [s[0]] + rest[0];
        assert '\n' !in p[0] by {
          assert '\n' !in rest[0];
        }
        forall i | 1 <= i < |p| ensures '\n' !in p[i] {
          assert p[i] == rest[i];
        }
        if |rest| > 1 {
          assert p[1..] == rest[1..];
          assert Join(rest) == rest[0] + "\n" + Join(rest[1..]);
        }
      }
    }
  }

  /** Joining pieces without newlines and splitting again gives the same pieces. */
  lemma {:induction false} JoinSplit(pieces: seq<string>)
    requires |pieces| >= 1 && NoNewline(pieces)
    ensures Split(Join(pieces)) == pieces
  {
    var first := pieces[0];
    if |pieces| == 1 {
      SplitPlain(first);
    } else {
      var tail := pieces[1..];
      assert NoNewline(tail) by {
        forall i | 0 <= i < |tail| ensures '\n' !in tail[i] {
          assert tail[i] == pieces[i + 1];
        }
      }
      JoinSplit(tail);
      SplitAfterPlain(first, Join(tail));
      assert [first] + tail == pieces;
    }
  }

  /** A text without a newline splits into itself alone. */
  lemma {:induction false} SplitPlain(s: string)
    requires '\n' !in s
    ensures Split(s) == [s]
  {
    if s != [] {
      assert '\n' !in s[1..];
      SplitPlain(s[1..]);
      assert [s[0]] + s[1..] == s;
    }
  }

  /** A newline-free head followed by a newline adds that head as the first piece. */
  lemma {:induction false} SplitAfterPlain(head: string, rest: string)
    requires '\n' !in head
    ensures Split(head + "\n" + rest) == [head] + Split(rest)
  {
    if head == [] {
      assert head + "\n" + rest == "\n" + rest;
      assert ("\n" + rest)[1..] == rest;
    } else {
      var s := head + "\n" + rest;
      assert s[1..] == head[1..] + "\n" + rest;
      assert '\n' !in head[1..];
      SplitAfterPlain(head[1..], rest);
      assert [head[0]] + head[1..] == head;
    }
  }

  /** The truthiness filter on the pieces: the non-empty pieces, in order. */
  function NonEmpty(pieces: seq<string>): (kept: seq<string>)
    ensures |kept| <= |pieces|
    ensures forall i :: 0 <= i < |kept| ==> kept[i] != "" && kept[i] in pieces
  {
    if pieces == [] then []
    else if pieces[0] == "" then NonEmpty(pieces[1..])
    else [pieces[0]] + NonEmpty(pieces[1..])
  }

  /** One character read as a cell: a dot is unknown, a decimal digit its value, anything else NaN. */
  function ParseCell(c: char): (cell: Cell)
    ensures c == '.' <==> cell == Empty
    ensures c == '0' <==> cell == Num(0)
    ensures c == '1' <==> cell == Num(1)
    ensures cell.Num? <==> '0' <= c <= '9'
    ensures cell.Num? ==> 0 <= cell.n <= 9
  {
    if c == '.' then Empty
    else if '0' <= c <= '9' then Num(c as int - '0' as int)
    else NaN
  }

  /** A line read as a row: one cell per character, in order. */
  function ParseRow(line: string): (row: seq<Cell>)
    ensures |row| == |line|
    ensures forall k :: 0 <= k < |line| ==> row[k] == ParseCell(line[k])
  {
    seq(|line|, k requires 0 <= k < |line| => ParseCell(line[k]))
  }

  /** Each line read as a row, in order. */
  function ParseLines(lines: seq<string>): (rows: seq<seq<Cell>>)
    ensures |rows| == |lines|
    ensures forall i :: 0 <= i < |lines| ==> rows[i] == ParseRow(lines[i])
  {
    seq(|lines|, i requires 0 <= i < |lines| => ParseRow(lines[i]))
  }

  /** The grid text read into rows. */
  function Parse(text: string): seq<seq<Cell>> {
    ParseLines(NonEmpty(Split(text)))
  }

  /** Only empty lines are dropped: keeping the non-empty pieces of non-empty pieces keeps them all. */
  lemma {:induction false} NonEmptyKeepsFullLines(pieces: seq<string>)
    requires forall i :: 0 <= i < |pieces| ==> pieces[i] != ""
    ensures NonEmpty(pieces) == pieces
  {
    if pieces != [] {
      NonEmptyKeepsFullLines(pieces[1..]);
      assert [pieces[0]] + pieces[1..] == pieces;
    }
  }

  /** Empty pieces contribute nothing: dropping them from either side of a concatenation. */
  lemma {:induction false} NonEmptyAppend(a: seq<string>, b: seq<string>)
    ensures NonEmpty(a + b) == NonEmpty(a) + NonEmpty(b)
  {
    if a != [] {
      assert (a + b)[1..] == a[1..] + b;
      NonEmptyAppend(a[1..], b);
    } else {
      assert a + b == b;
    }
  }

  /**
   * The text of `lines` (none empty, none holding a newline), one per line, with
   * blank lines anywhere around them, reads as one row per line, in order.
   */
  lemma ParseOfLines(lines: seq<string>, before: nat, after: nat)
    requires |lines| >= 1 && NoNewline(lines)
    requires forall i :: 0 <= i < |lines| ==> lines[i] != ""
    ensures Parse(Blank(before) + Join(lines) + Blank(after)) == ParseLines(lines)
  {
    var text := Blank(before) + Join(lines) + Blank(after);
    var pieces := Empties(before) + lines + Empties(after);
    assert Split(text) == pieces by {
      SplitWithBlanks(lines, before, after);
    }
    var front := Empties(before) + lines;
    assert NonEmpty(front) == lines by {
      NonEmptyAppend(Empties(before), lines);
      NonEmptyOfEmpties(before);
      NonEmptyKeepsFullLines(lines);
      assert [] + lines == lines;
    }
    assert NonEmpty(pieces) == lines by {
      NonEmptyAppend(front, Empties(after));
      NonEmptyOfEmpties(after);
      assert lines + [] == lines;
    }
  }

  /** `n` newlines. */
  function Blank(n: nat): (s: string)
    ensures |s| == n
    ensures forall k :: 0 <= k < n ==> s[k] == '\n'
  {
    if n == 0 then "" else "\n" + Blank(n - 1)
  }

  /** `n` empty pieces. */
  function Empties(n: nat): (pieces: seq<string>)
    ensures |pieces| == n
    ensures forall i :: 0 <= i < n ==> pieces[i] == ""
  {
    if n == 0 then [] else [""] + Empties(n - 1)
  }

  /** Empty pieces are all dropped. */
  lemma {:induction false} NonEmptyOfEmpties(n: nat)
    ensures NonEmpty(Empties(n)) == []
  {
    if n > 0 {
      assert Empties(n)[1..] == Empties(n - 1);
      NonEmptyOfEmpties(n - 1);
    }
  }

  /** Leading and trailing newlines become empty pieces around the lines. */
  lemma {:induction false} SplitWithBlanks(lines: seq<string>, before: nat, after: nat)
    requires |lines| >= 1 && NoNewline(lines)
    ensures Split(Blank(before) + Join(lines) + Blank(after)) == Empties(before) + lines + Empties(after)
  {
    if before > 0 {
      var rest := Blank(before - 1) + Join(lines) + Blank(after);
      assert Blank(before) + Join(lines) + Blank(after) == "\n" + rest;
      SplitWithBlanks(lines, before - 1, after);
      SplitAfterPlain("", rest);
      assert "" + "\n" + rest == "\n" + rest;
      assert Empties(before) == [""] + Empties(before - 1);
    } else {
      assert Blank(0) + Join(lines) + Blank(after) == Join(lines) + Blank(after);
      JoinThenBlanks(lines, after);
    }
  }

  /** Trailing newlines after joined lines become trailing empty pieces. */
  lemma {:induction false} JoinThenBlanks(lines: seq<string>, after: nat)
    requires |lines| >= 1 && NoNewline(lines)
    ensures Split(Join(lines) + Blank(after)) == lines + Empties(after)
    decreases after
  {
    if after == 0 {
      assert Join(lines) + Blank(0) == Join(lines);
      JoinSplit(lines);
    } else {
      var longer := lines + [""];
      assert NoNewline(longer) by {
        forall i | 0 <= i < |longer| ensures '\n' !in longer[i] {
          if i < |lines| {
            assert longer[i] == lines[i];
          }
        }
      }
      JoinSnocEmpty(lines);
      assert Join(lines) + Blank(after) == Join(longer) + Blank(after - 1);
      JoinThenBlanks(longer, after - 1);
      assert lines + Empties(after) == longer + Empties(after - 1);
    }
  }

  /** Joining one more, empty, piece adds a trailing newline. */
  lemma {:induction false} JoinSnocEmpty(lines: seq<string>)
    requires |lines| >= 1
    ensures Join(lines + [""]) == Join(lines) + "\n"
  {
    if |lines| > 1 {
      assert (lines + [""])[1..] == lines[1..] + [""];
      JoinSnocEmpty(lines[1..]);
    }
  }

  /** Every character of every piece comes from the text. */
  lemma {:induction false} SplitChars(s: string)
    ensures forall i, k :: 0 <= i < |Split(s)| && 0 <= k < |Split(s)[i]| ==> Split(s)[i][k] in s
  {
    if s != [] {
      SplitChars(s[1..]);
      var rest := Split(s[1..]);
      var p := Split(s);
      forall i, k | 0 <= i < |p| && 0 <= k < |p[i]| ensures p[i][k] in s {
        if s[0] == '\n' {
          assert p[i] == ([""] + rest)[i];
          if i > 0 {
            assert p[i] == rest[i - 1];
            assert rest[i - 1][k] in s[1..];
          }
        } else if i == 0 {
          assert p[0] == [s[0]] + rest[0];
          if k > 0 {
            assert p[0][k] == rest[0][k - 1];
            assert rest[0][k - 1] in s[1..];
          }
        } else {
          assert p[i] == rest[i];
          assert rest[i][k] in s[1..];
        }
      }
    }
  }

  /** A text of dots, 0s, 1s and newlines reads as a grid of unknown, 0 and 1 cells only. */
  lemma ParsePlain(text: string)
    requires forall k :: 0 <= k < |text| ==> text[k] in ".01\n"
    ensures IsPlainGrid(Parse(text))
  {
    SplitChars(text);
    var lines := NonEmpty(Split(text));
    var g := Parse(text);
    forall i, j | 0 <= i < |g| && 0 <= j < |g[i]| ensures IsPlainCell(g[i][j]) {
      var pieces := Split(text);
      assert lines[i] in pieces;
      var t :| 0 <= t < |pieces| && pieces[t] == lines[i];
      var c := lines[i][j];
      assert c in text && c != '\n' by {
        SplitJoin(text);
        assert pieces[t][j] in text;
      }
      var at :| 0 <= at < |text| && text[at] == c;
      assert c in ".01";
      assert g[i][j] == ParseCell(c);
    }
  }
}

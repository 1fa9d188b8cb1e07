/**
 * Mapping a character offset of a source text to the 0-based row that holds
 * it (`getOffsetRow`), and how the text relates to its array of lines.
 */
module OffsetResolver {
  import opened JsText

  /** `lines` is `contents.split("\n")`: the lines hold no newline and rejoin to the text. */
  predicate IsSplitOf(lines: seq<string>, contents: string) {
    && |lines| >= 1
    && contents == Join(lines, "\n")
    && forall i :: 0 <= i < |lines| ==> '\n' !in lines[i]
  }

  /** Number of newlines at indices below `offset` (an offset past the end counts them all). */
  function NewlinesBefore(contents: string, offset: nat): nat {
    CountChar(contents[..if offset <= |contents| then offset else |contents|], '\n')
  }

  /** Offset of the first character of row `row` in the joined text. */
  function LineStart(lines: seq<string>, row: nat): nat
    requires row <= |lines|
  {
    if row == 0 then 0 else |lines[0]| + 1 + LineStart(lines[1..], row - 1)
  }

  /**
   * Counts the newlines before `offset` by repeated backward `lastIndexOf`,
   * stopping once no newline is left or the start of the text is reached.
   */
  method GetOffsetRow(contents: string, offset: nat) returns (result: nat)
    ensures result == NewlinesBefore(contents, offset)
  {
    result := 0;
    var lastIndex: int := offset;
    while true
      invariant 0 <= lastIndex
      invariant result + NewlinesBefore(contents, lastIndex) == NewlinesBefore(contents, offset)
      decreases lastIndex
    {
      var previous := lastIndex;
      lastIndex := if lastIndex == 0 then -1 else LastIndexOf(contents, '\n', lastIndex - 1);
      if lastIndex < 0 {
        if previous > 0 {
          NoNewlineBefore(contents, previous);
        }
        return;
      }
      NewlineBefore(contents, previous, lastIndex);
      result := result + 1;
    }
  }

  /** No newline left below `limit`: the count there is zero. */
  lemma NoNewlineBefore(s: string, limit: nat)
    requires limit > 0
    requires LastIndexOf(s, '\n', limit - 1) == -1
    ensures NewlinesBefore(s, limit) == 0
  {
    var m := if limit <= |s| then limit else |s|;
    forall i | 0 <= i < m ensures s[..m][i] != '\n' {
      assert s[..m][i] == s[i];
    }
    CountCharAbsent(s[..m], '\n');
  }

  /** The last newline below `limit` is at `p`: one more newline than below `p`. */
  lemma NewlineBefore(s: string, limit: nat, p: nat)
    requires limit > 0
    requires p == LastIndexOf(s, '\n', limit - 1)
    ensures p < limit && NewlinesBefore(s, limit) == NewlinesBefore(s, p) + 1
  {
    var m := if limit <= |s| then limit else |s|;
    assert p < m;
    var gap := s[p + 1..m];
    assert '\n' !in gap by {
      forall i | 0 <= i < |gap| ensures gap[i] != '\n' {
        assert gap[i] == s[p + 1 + i];
      }
    }
    calc {
      NewlinesBefore(s, limit);
    ==
      CountChar(s[..m], '\n');
    == { assert s[..m] == s[..p + 1] + gap; }
      CountChar(s[..p + 1] + gap, '\n');
    == { CountCharAppend(s[..p + 1], gap, '\n'); CountCharAbsent(gap, '\n'); }
      CountChar(s[..p + 1], '\n');
    == { assert s[..p + 1][..p] == s[..p]; }
      CountChar(s[..p], '\n') + 1;
    ==
      NewlinesBefore(s, p) + 1;
    }
  }

  /**
   * The row `getOffsetRow` gives for an offset of the text is a row of
   * `lines`, and the offset lies within that row (its end included, which is
   * where the newline that ends the row sits).
   */
  lemma {:induction false} RowContainsOffset(lines: seq<string>, contents: string, offset: nat)
    requires IsSplitOf(lines, contents)
    requires offset <= |contents|
    ensures NewlinesBefore(contents, offset) < |lines|
    ensures LineStart(lines, NewlinesBefore(contents, offset)) <= offset
    ensures offset <= LineStart(lines, NewlinesBefore(contents, offset)) + |lines[NewlinesBefore(contents, offset)]|
    decreases |lines|
  {
    var l0 := lines[0];
    if |lines| == 1 {
      assert contents == l0;
      NoNewlineInFirstLine(l0, contents, offset);
    } else {
      var rest := lines[1..];
      var tail := Join(rest, "\n");
      SplitOfRest(lines, contents);
      if offset <= |l0| {
        NoNewlineInFirstLine(l0, contents, offset);
      } else {
        var k := offset - |l0| - 1;
        RowContainsOffset(rest, tail, k);
        var r := NewlinesBefore(tail, k);
        NewlinesAfterFirstLine(l0, tail, k);
        assert LineStart(lines, 1 + r) == |l0| + 1 + LineStart(rest, r);
        assert lines[1 + r] == rest[r];
      }
    }
  }

  /** The lines after the first are the split of the text after the first newline. */
  lemma SplitOfRest(lines: seq<string>, contents: string)
    requires IsSplitOf(lines, contents) && |lines| > 1
    ensures contents == lines[0] + "\n" + Join(lines[1..], "\n")
    ensures IsSplitOf(lines[1..], Join(lines[1..], "\n"))
  {
    var rest := lines[1..];
    forall i | 0 <= i < |rest| ensures '\n' !in rest[i] {
      assert rest[i] == lines[i + 1];
    }
  }

  /** No newline lies before an offset within the first line. */
  lemma NoNewlineInFirstLine(l0: string, contents: string, offset: nat)
    requires '\n' !in l0 && offset <= |l0| && |l0| <= |contents| && contents[..|l0|] == l0
    ensures NewlinesBefore(contents, offset) == 0
  {
    assert contents[..offset] == l0[..offset];
    assert '\n' !in l0[..offset];
    CountCharAbsent(contents[..offset], '\n');
  }

  /** Past the first line, the count is one (its newline) plus the count within the rest. */
  lemma NewlinesAfterFirstLine(l0: string, tail: string, k: nat)
    requires '\n' !in l0 && k <= |tail|
    ensures NewlinesBefore(l0 + "\n" + tail, |l0| + 1 + k) == 1 + NewlinesBefore(tail, k)
  {
    var contents := l0 + "\n" + tail;
    var offset := |l0| + 1 + k;
    calc {
      NewlinesBefore(contents, offset);
    ==
      CountChar(contents[..offset], '\n');
    == { assert contents[..offset] == (l0 + "\n") + tail[..k]; }
      CountChar((l0 + "\n") + tail[..k], '\n');
    == { CountCharAppend(l0 + "\n", tail[..k], '\n'); }
      CountChar(l0 + "\n", '\n') + NewlinesBefore(tail, k);
    == { CountCharAppend(l0, "\n", '\n'); CountCharAbsent(l0, '\n'); assert "\n"[..0] == ""; }
      1 + NewlinesBefore(tail, k);
    }
  }
}

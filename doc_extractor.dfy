// `extractDocumentationAtRow`: the documentation comment that ends at a
// row of a source file, either a run of `#` lines or a C-style block
// comment, passed through the documentation formatter.
//
// Rows are the elements of `lines` (the text split at "\n"). A block
// comment is found by scanning backwards, right to left along each row and
// then up to the row above, first for the closing marker `*` `/` (only
// white space and `/` may be passed on the way) and then for the opening
// marker `/` `*`.
module DocExtractor {
  import opened JsText
  import DocFormatter

  // ------------------------------------------------------------ hash comments

  /** `/^\s*#/` matches the line. */
  predicate IsHashLine(s: string) {
    var t := SkipSpaces(s);
    |t| > 0 && t[0] == '#'
  }

  /** The capture of `/^\s*#\s*(.*)/`: what follows the `#` and its white space, up to a line terminator. */
  function HashText(s: string): string
    requires IsHashLine(s)
  {
    TakeLine(SkipSpaces(SkipSpaces(s)[1..]))
  }

  /**
   * The rows `start`, `start - 1`, ... for as long as they are `#` lines,
   * nearest row first.
   */
  function HashRows(lines: seq<string>, start: int): (r: seq<string>)
    requires start < |lines|
    ensures start >= 0 ==> |r| <= start + 1
    ensures start < 0 ==> r == []
    ensures forall i :: 0 <= i < |r| ==> IsHashLine(r[i])
    decreases start + 1
  {
    if start < 0 || !IsHashLine(lines[start]) then []
    else [lines[start]] + HashRows(lines, start - 1)
  }

  /** The texts of `#` lines, in the same order. */
  function HashTexts(rows: seq<string>): (t: seq<string>)
    requires forall i :: 0 <= i < |rows| ==> IsHashLine(rows[i])
    ensures |t| == |rows|
  {
    if |rows| == 0 then [] else [HashText(rows[0])] + HashTexts(rows[1..])
  }

  /**
   * The run is rows `start` down to `start - |r| + 1`, all `#` lines, and
   * stops at the first row above that is not one.
   */
  lemma {:induction false} HashRowsMeaning(lines: seq<string>, start: int)
    requires start < |lines|
    ensures var r := HashRows(lines, start);
      forall i :: 0 <= i < |r| ==> r[i] == lines[start - i]
    ensures var r := HashRows(lines, start);
      start - |r| >= 0 ==> !IsHashLine(lines[start - |r|])
    decreases start + 1
  {
    if start >= 0 && IsHashLine(lines[start]) {
      HashRowsMeaning(lines, start - 1);
      var r := HashRows(lines, start);
      var r' := HashRows(lines, start - 1);
      assert r == [lines[start]] + r';
      forall i | 0 <= i < |r| ensures r[i] == lines[start - i] {
        if i > 0 {
          assert r[i] == r'[i - 1];
        }
      }
    }
  }

  /** Each row contributes its own text, at its own place. */
  lemma {:induction false} HashTextsMeaning(rows: seq<string>)
    requires forall i :: 0 <= i < |rows| ==> IsHashLine(rows[i])
    ensures forall i :: 0 <= i < |rows| ==> HashTexts(rows)[i] == HashText(rows[i])
  {
    if |rows| > 0 {
      HashTextsMeaning(rows[1..]);
      forall i | 0 <= i < |rows| ensures HashTexts(rows)[i] == HashText(rows[i]) {
        if i > 0 {
          assert rows[1..][i - 1] == rows[i];
        }
      }
    }
  }

  lemma {:induction false} TakeLineOver(text: string, tail: string)
    requires forall i :: 0 <= i < |text| ==> !IsLineTerminator(text[i])
    requires |tail| > 0 ==> IsLineTerminator(tail[0])
    ensures TakeLine(text + tail) == text
  {
    if |text| == 0 {
      assert text + tail == tail;
    } else {
      assert (text + tail)[1..] == text[1..] + tail;
      TakeLineOver(text[1..], tail);
    }
  }

  /**
   * A `#` line is white space, the `#`, more white space, the text and then
   * the rest of the line from its first line terminator: the text is what
   * is kept.
   */
  lemma HashTextOf(line: string, pre: string, gap: string, text: string, tail: string)
    requires line == pre + ("#" + (gap + (text + tail)))
    requires forall i :: 0 <= i < |pre| ==> IsSpace(pre[i])
    requires forall i :: 0 <= i < |gap| ==> IsSpace(gap[i])
    requires forall i :: 0 <= i < |text| ==> !IsLineTerminator(text[i])
    requires |tail| > 0 ==> IsLineTerminator(tail[0])
    requires |text + tail| > 0 ==> !IsSpace((text + tail)[0])
    ensures IsHashLine(line)
    ensures HashText(line) == text
  {
    var rest := text + tail;
    var after := gap + rest;
    var marked := "#" + after;
    SkipSpacesOver(pre, marked);
    assert marked[1..] == after;
    SkipSpacesOver(gap, rest);
    TakeLineOver(text, tail);
  }

  // ----------------------------------------------------------- block comments

  /** The `[\s\/]` class: the characters that may stand between a row and the comment above it. */
  predicate IsSpaceOrSlash(c: char) {
    IsSpace(c) || c == '/'
  }

  /** `*` `/` starts at column `j` of row `i`. */
  predicate CloseAt(lines: seq<string>, i: nat, j: nat) {
    i < |lines| && j + 1 < |lines[i]| && lines[i][j] == '*' && lines[i][j + 1] == '/'
  }

  /** `/` `*` starts at column `j` of row `i`. */
  predicate OpenAt(lines: seq<string>, i: nat, j: nat) {
    i < |lines| && j + 1 < |lines[i]| && lines[i][j] == '/' && lines[i][j + 1] == '*'
  }

  /** Column `j` of row `i` lets the search for the closing marker go on. */
  predicate Quiet(lines: seq<string>, i: nat, j: nat) {
    i < |lines| && j < |lines[i]| && !CloseAt(lines, i, j) && IsSpaceOrSlash(lines[i][j])
  }

  /**
   * Column `j` of row `i` is visited by a backward scan that starts at
   * column `c` of row `r`: every row scans from its second-to-last column
   * down to column 0, so a row's last column is never visited.
   */
  predicate InScan(lines: seq<string>, r: nat, c: int, i: nat, j: nat) {
    i <= r && i < |lines| && j + 2 <= |lines[i]| && (i == r ==> j <= c)
  }

  /** Position `(i, j)` is visited before position `(k, l)` by a backward scan. */
  predicate Before(i: nat, j: nat, k: nat, l: nat) {
    i > k || (i == k && j > l)
  }

  datatype CloseScan = Foreign(row: nat, col: nat) | NoClose | Close(row: nat, col: nat)

  datatype OpenScan = NoOpen | Open(row: nat, col: nat)

  /** A scan position: column `c` (possibly just left of column 0) of an existing row. */
  predicate ScanPos(lines: seq<string>, r: nat, c: int) {
    r < |lines| && -2 <= c <= |lines[r]| - 2
  }

  /**
   * First phase of the block-comment search, from column `c` of row `r`:
   * the first closing marker, or the first character that is neither white
   * space nor `/`, or the start of the text.
   */
  function SeekClose(lines: seq<string>, r: nat, c: int): (s: CloseScan)
    requires ScanPos(lines, r, c)
    ensures s.Close? ==> InScan(lines, r, c, s.row, s.col)
    ensures s.Foreign? ==> InScan(lines, r, c, s.row, s.col)
    decreases r, c + 2
  {
    if c < 0 then
      if r == 0 then NoClose else SeekClose(lines, r - 1, |lines[r - 1]| - 2)
    else if CloseAt(lines, r, c) then Close(r, c)
    else if !IsSpaceOrSlash(lines[r][c]) then Foreign(r, c)
    else SeekClose(lines, r, c - 1)
  }

  /** Second phase, from column `c` of row `r`: the first opening marker, or the start of the text. */
  function SeekOpen(lines: seq<string>, r: nat, c: int): (s: OpenScan)
    requires ScanPos(lines, r, c)
    ensures s.Open? ==> InScan(lines, r, c, s.row, s.col)
    decreases r, c + 2
  {
    if c < 0 then
      if r == 0 then NoOpen else SeekOpen(lines, r - 1, |lines[r - 1]| - 2)
    else if OpenAt(lines, r, c) then Open(r, c)
    else SeekOpen(lines, r, c - 1)
  }

  /**
   * What the first phase finds: a closing marker with only quiet positions
   * before it, a foreign character with only quiet positions before it, or
   * nothing, every visited position being quiet.
   */
  lemma {:induction false} SeekCloseMeaning(lines: seq<string>, r: nat, c: int)
    requires ScanPos(lines, r, c)
    ensures var s := SeekClose(lines, r, c);
      s.Close? ==>
        && CloseAt(lines, s.row, s.col)
        && forall i: nat, j: nat :: InScan(lines, r, c, i, j) && Before(i, j, s.row, s.col) ==> Quiet(lines, i, j)
    ensures var s := SeekClose(lines, r, c);
      s.Foreign? ==>
        && !CloseAt(lines, s.row, s.col)
        && !IsSpaceOrSlash(lines[s.row][s.col])
        && forall i: nat, j: nat :: InScan(lines, r, c, i, j) && Before(i, j, s.row, s.col) ==> Quiet(lines, i, j)
    ensures SeekClose(lines, r, c).NoClose? ==>
      forall i: nat, j: nat :: InScan(lines, r, c, i, j) ==> Quiet(lines, i, j)
    decreases r, c + 2
  {
    if c < 0 {
      if r > 0 {
        var c' := |lines[r - 1]| - 2;
        SeekCloseMeaning(lines, r - 1, c');
        forall i: nat, j: nat | InScan(lines, r, c, i, j) ensures InScan(lines, r - 1, c', i, j) {
        }
      }
    } else if CloseAt(lines, r, c) {
    } else if !IsSpaceOrSlash(lines[r][c]) {
    } else {
      SeekCloseMeaning(lines, r, c - 1);
      forall i: nat, j: nat | InScan(lines, r, c, i, j) && !(i == r && j == c)
        ensures InScan(lines, r, c - 1, i, j)
      {
      }
    }
  }

  /** What the second phase finds: the first opening marker visited, or none at all. */
  lemma {:induction false} SeekOpenMeaning(lines: seq<string>, r: nat, c: int)
    requires ScanPos(lines, r, c)
    ensures var s := SeekOpen(lines, r, c);
      s.Open? ==>
        && OpenAt(lines, s.row, s.col)
        && forall i: nat, j: nat :: InScan(lines, r, c, i, j) && Before(i, j, s.row, s.col) ==> !OpenAt(lines, i, j)
    ensures SeekOpen(lines, r, c).NoOpen? ==>
      forall i: nat, j: nat :: InScan(lines, r, c, i, j) ==> !OpenAt(lines, i, j)
    decreases r, c + 2
  {
    if c < 0 {
      if r > 0 {
        var c' := |lines[r - 1]| - 2;
        SeekOpenMeaning(lines, r - 1, c');
        forall i: nat, j: nat | InScan(lines, r, c, i, j) ensures InScan(lines, r - 1, c', i, j) {
        }
      }
    } else if OpenAt(lines, r, c) {
    } else {
      SeekOpenMeaning(lines, r, c - 1);
      forall i: nat, j: nat | InScan(lines, r, c, i, j) && !(i == r && j == c)
        ensures InScan(lines, r, c - 1, i, j)
      {
      }
    }
  }

  /** The closing marker is at column `sc` of row `sl` and the opening marker at column `oc` of row `ol`. */
  predicate BlockBounds(lines: seq<string>, sl: nat, sc: nat, ol: nat, oc: nat) {
    && ol <= sl < |lines|
    && sc + 2 <= |lines[sl]|
    && oc + 2 <= |lines[ol]|
    && (ol == sl ==> oc + 2 <= sc)
  }

  /**
   * The rows that are joined into the comment's text: an empty row, the
   * opening row after the three characters from the `/` on, the rows in
   * between and the closing row up to the `*`. On one row, the text
   * between those two points (with JavaScript's `substring`, which swaps
   * reversed bounds).
   */
  function BlockRows(lines: seq<string>, sl: nat, sc: nat, ol: nat, oc: nat): seq<string>
    requires BlockBounds(lines, sl, sc, ol, oc)
  {
    if sl == ol then ["", Substring(lines[ol], oc + 3, sc)]
    else ["", Substr(lines[ol], oc + 3)] + lines[ol + 1..sl] + [lines[sl][..sc]]
  }

  /** Outcome of the second phase once the closing marker is at `(sl, sc)`. */
  function FromOpen(lines: seq<string>, sl: nat, sc: nat, s: OpenScan): Option<string>
    requires s.Open? ==> BlockBounds(lines, sl, sc, s.row, s.col)
  {
    match s
    case NoOpen => None
    case Open(ol, oc) => Some(Join(BlockRows(lines, sl, sc, ol, oc), "\n"))
  }

  /** The second phase starts two columns left of the closing marker. */
  predicate OpenStart(lines: seq<string>, sl: nat, sc: nat) {
    sl < |lines| && sc + 2 <= |lines[sl]|
  }

  /** Outcome of the whole search once the first phase has ended with `s`. */
  function FromClose(lines: seq<string>, s: CloseScan): Option<string>
    requires s.Close? ==> OpenStart(lines, s.row, s.col)
  {
    match s
    case Foreign(_, _) => None
    case NoClose => None
    case Close(sl, sc) =>
      var o := SeekOpen(lines, sl, sc - 2);
      FromOpen(lines, sl, sc, o)
  }

  /** The text of the block comment that ends at row `row`, if any, before formatting. */
  function BlockComment(lines: seq<string>, row: nat): Option<string>
    requires row < |lines|
  {
    FromClose(lines, SeekClose(lines, row, |lines[row]| - 2))
  }

  /**
   * The comment text that ends at row `row`, before formatting: none for a
   * row before the first; for a `#` row the texts of the `#` rows from it
   * upwards, joined by newlines; for any other row the block comment found
   * by the backward search.
   */
  function CommentText(lines: seq<string>, row: int): Option<string>
    requires row < |lines|
  {
    if row < 0 then None
    else if IsHashLine(lines[row]) then Some(Join(HashTexts(HashRows(lines, row)), "\n"))
    else BlockComment(lines, row)
  }

  /** `extractDocumentationAtRow`: the comment text, if any, through the documentation formatter. */
  function DocumentationAtRow(lines: seq<string>, row: int): Option<string>
    requires row < |lines|
  {
    match CommentText(lines, row)
    case None => None
    case Some(text) => Some(DocFormatter.FilterDocumentation(text))
  }

  // -------------------------------------------- what the block search finds

  /** The column where the scan of row `row` starts: `line.length - 2`. */
  function LastScanCol(lines: seq<string>, row: nat): int
    requires row < |lines|
  {
    |lines[row]| - 2
  }

  /**
   * A closing marker with only white space and `/` after it, up to the end
   * of row `row`, and an opening marker with no other opening marker
   * between the two: that comment is the row's documentation.
   */
  lemma BlockCommentFound(lines: seq<string>, row: nat, sl: nat, sc: nat, ol: nat, oc: nat)
    requires row < |lines| && !IsHashLine(lines[row])
    requires InScan(lines, row, LastScanCol(lines, row), sl, sc) && CloseAt(lines, sl, sc)
    requires forall i: nat, j: nat ::
      InScan(lines, row, LastScanCol(lines, row), i, j) && Before(i, j, sl, sc) ==> Quiet(lines, i, j)
    requires InScan(lines, sl, sc - 2, ol, oc) && OpenAt(lines, ol, oc)
    requires forall i: nat, j: nat :: InScan(lines, sl, sc - 2, i, j) && Before(i, j, ol, oc) ==> !OpenAt(lines, i, j)
    ensures BlockBounds(lines, sl, sc, ol, oc)
    ensures CommentText(lines, row) == Some(Join(BlockRows(lines, sl, sc, ol, oc), "\n"))
  {
    SeekCloseMeaning(lines, row, LastScanCol(lines, row));
    assert SeekClose(lines, row, LastScanCol(lines, row)) == Close(sl, sc);
    SeekOpenMeaning(lines, sl, sc - 2);
    assert SeekOpen(lines, sl, sc - 2) == Open(ol, oc);
  }

  /**
   * A character other than white space and `/`, reached before any closing
   * marker: the search gives up and the row has no documentation.
   */
  lemma ForeignCodeAborts(lines: seq<string>, row: nat, fl: nat, fc: nat)
    requires row < |lines| && !IsHashLine(lines[row])
    requires InScan(lines, row, LastScanCol(lines, row), fl, fc)
    requires !CloseAt(lines, fl, fc) && !IsSpaceOrSlash(lines[fl][fc])
    requires forall i: nat, j: nat ::
      InScan(lines, row, LastScanCol(lines, row), i, j) && Before(i, j, fl, fc) ==> Quiet(lines, i, j)
    ensures CommentText(lines, row) == None
  {
    SeekCloseMeaning(lines, row, LastScanCol(lines, row));
    assert SeekClose(lines, row, LastScanCol(lines, row)) == Foreign(fl, fc);
  }

  /** Only white space and `/` from row `row` up to the start of the text: no documentation. */
  lemma NothingAboveRow(lines: seq<string>, row: nat)
    requires row < |lines| && !IsHashLine(lines[row])
    requires forall i: nat, j: nat :: InScan(lines, row, LastScanCol(lines, row), i, j) ==> Quiet(lines, i, j)
    ensures CommentText(lines, row) == None
  {
    SeekCloseMeaning(lines, row, LastScanCol(lines, row));
    assert SeekClose(lines, row, LastScanCol(lines, row)) == NoClose;
  }

  /** A closing marker that no opening marker precedes: no documentation. */
  lemma UnopenedComment(lines: seq<string>, row: nat, sl: nat, sc: nat)
    requires row < |lines| && !IsHashLine(lines[row])
    requires InScan(lines, row, LastScanCol(lines, row), sl, sc) && CloseAt(lines, sl, sc)
    requires forall i: nat, j: nat ::
      InScan(lines, row, LastScanCol(lines, row), i, j) && Before(i, j, sl, sc) ==> Quiet(lines, i, j)
    requires forall i: nat, j: nat :: InScan(lines, sl, sc - 2, i, j) ==> !OpenAt(lines, i, j)
    ensures CommentText(lines, row) == None
  {
    SeekCloseMeaning(lines, row, LastScanCol(lines, row));
    assert SeekClose(lines, row, LastScanCol(lines, row)) == Close(sl, sc);
    SeekOpenMeaning(lines, sl, sc - 2);
    assert SeekOpen(lines, sl, sc - 2) == NoOpen;
  }

  /**
   * A comment over several rows: every piece is preceded by a newline, the
   * opening row from the third character after its `/`, each full row in
   * between, and the closing row up to its `*`.
   */
  lemma MultiRowText(lines: seq<string>, sl: nat, sc: nat, ol: nat, oc: nat)
    requires BlockBounds(lines, sl, sc, ol, oc) && ol < sl
    ensures Join(BlockRows(lines, sl, sc, ol, oc), "\n") ==
      PrefixEach([Substr(lines[ol], oc + 3)] + lines[ol + 1..sl] + [lines[sl][..sc]], "\n")
  {
    var parts := [Substr(lines[ol], oc + 3)] + lines[ol + 1..sl] + [lines[sl][..sc]];
    LeadingPair("", Substr(lines[ol], oc + 3), lines[ol + 1..sl], [lines[sl][..sc]]);
    JoinAfterEmpty(parts, "\n");
  }

  /** A comment on one row: a newline and the text from the third character after `/` up to the `*`. */
  lemma OneRowText(lines: seq<string>, sl: nat, sc: nat, oc: nat)
    requires BlockBounds(lines, sl, sc, sl, oc) && oc + 3 <= sc
    ensures Join(BlockRows(lines, sl, sc, sl, oc), "\n") == "\n" + lines[sl][oc + 3..sc]
  {
    assert ["", Substring(lines[sl], oc + 3, sc)][1..] == [Substring(lines[sl], oc + 3, sc)];
  }

  /**
   * The empty comment `/` `*` `*` `/`: the reversed bounds of `substring`
   * are swapped, so its text is the `*` after the opening marker.
   */
  lemma EmptyCommentText(lines: seq<string>, sl: nat, sc: nat)
    requires sc >= 2 && BlockBounds(lines, sl, sc, sl, sc - 2)
    ensures Join(BlockRows(lines, sl, sc, sl, sc - 2), "\n") == "\n" + [lines[sl][sc]]
  {
    assert ["", Substring(lines[sl], sc + 1, sc)][1..] == [Substring(lines[sl], sc + 1, sc)];
  }

  /** The rows of `s` in reverse order. */
  function Reverse(s: seq<string>): (r: seq<string>)
    ensures |r| == |s|
  {
    if |s| == 0 then [] else [s[|s| - 1]] + Reverse(s[..|s| - 1])
  }

  /**
   * When rows `top` to `row` are `#` lines and the row above `top` is not
   * one (or there is none), the run from `row` is those rows, the nearest
   * first.
   */
  lemma {:induction false} HashRowsAre(lines: seq<string>, top: nat, row: nat)
    requires top <= row < |lines|
    requires forall k :: top <= k <= row ==> IsHashLine(lines[k])
    requires top > 0 ==> !IsHashLine(lines[top - 1])
    ensures HashRows(lines, row) == Reverse(lines[top..row + 1])
    decreases row
  {
    SliceDropLast(lines, top, row + 1);
    assert HashRows(lines, row) == [lines[row]] + HashRows(lines, row - 1);
    assert Reverse(lines[top..row + 1]) == [lines[row]] + Reverse(lines[top..row]);
    if row == top {
      assert HashRows(lines, row - 1) == [];
    } else {
      HashRowsAre(lines, top, row - 1);
    }
  }

  /** `# ` followed by a word: the word is the text. */
  lemma HashWordText(line: string, word: string)
    requires line == "# " + word
    requires |word| > 0 && forall i :: 0 <= i < |word| ==> IsWordChar(word[i])
    ensures IsHashLine(line) && HashText(line) == word
  {
    assert line == "" + ("#" + (" " + (word + "")));
    forall i | 0 <= i < |word| ensures !IsLineTerminator(word[i]) {
      assert IsWordChar(word[i]);
    }
    assert !IsSpace(word[0]) by {
      assert IsWordChar(word[0]);
    }
    HashTextOf(line, "", " ", word, "");
  }

  /**
   * Two `#` rows, each a word after `# `: the comment at the lower one is
   * both words, the lower first.
   */
  lemma TwoHashRows(lines: seq<string>, upper: string, lower: string)
    requires |lines| >= 2 && lines[0] == "# " + upper && lines[1] == "# " + lower
    requires |upper| > 0 && forall i :: 0 <= i < |upper| ==> IsWordChar(upper[i])
    requires |lower| > 0 && forall i :: 0 <= i < |lower| ==> IsWordChar(lower[i])
    ensures CommentText(lines, 1) == Some(lower + "\n" + upper)
  {
    HashWordText(lines[1], lower);
    HashWordText(lines[0], upper);
    HashRowsAre(lines, 0, 1);
    var block := lines[0..2];
    assert block[..1] == [lines[0]];
    assert Reverse(block) == [lines[1], lines[0]];
    assert [lines[1], lines[0]][1..] == [lines[0]];
    assert HashRows(lines, 1) == [lines[1], lines[0]];
    assert HashTexts([lines[1], lines[0]]) == [lower, upper];
    assert [lower, upper][1..] == [upper];
    assert Join([lower, upper], "\n") == lower + "\n" + Join([upper], "\n");
  }

  /** A row above that ends in text other than white space, `/` or a closing marker gives no documentation. */
  lemma CodeBeforeCommentExample(lines: seq<string>)
    requires lines == ["code; /* not adjacent", "def f():"]
    ensures CommentText(lines, 0) == None
  {
    var line := lines[0];
    calc {
      CommentText(lines, 0);
    == { assert SkipSpaces(line) == line; }
      BlockComment(lines, 0);
    == { assert |line| - 2 == 19; assert line[19] == 'n' && line[20] == 't'; assert SeekClose(lines, 0, 19) == Foreign(0, 19); }
      FromClose(lines, Foreign(0, 19));
    }
  }

  lemma TwoRowMarkers(lines: seq<string>)
    requires lines == ["/* hello", "world */", "def f():"]
    ensures SeekClose(lines, 1, 6) == Close(1, 6)
    ensures SeekOpen(lines, 1, 4) == Open(0, 0)
  {
    var upper, lower := lines[0], lines[1];
    assert lower[6] == '*' && lower[7] == '/';
    assert upper[0] == '/' && upper[1] == '*';
    assert SeekOpen(lines, 0, 0) == Open(0, 0);
    assert SeekOpen(lines, 0, 6) == Open(0, 0) by {
      assert !OpenAt(lines, 0, 6) && !OpenAt(lines, 0, 5) && !OpenAt(lines, 0, 4);
      assert !OpenAt(lines, 0, 3) && !OpenAt(lines, 0, 2) && !OpenAt(lines, 0, 1);
    }
    assert !OpenAt(lines, 1, 4) && !OpenAt(lines, 1, 3) && !OpenAt(lines, 1, 2);
    assert !OpenAt(lines, 1, 1) && !OpenAt(lines, 1, 0);
  }

  /** A comment over two rows above a definition: the text between the markers, each row after a newline. */
  lemma TwoRowCommentExample(lines: seq<string>)
    requires lines == ["/* hello", "world */", "def f():"]
    ensures CommentText(lines, 1) == Some("\n" + "hello" + "\n" + "world ")
  {
    var upper, lower := lines[0], lines[1];
    calc {
      CommentText(lines, 1);
    == { assert SkipSpaces(lower) == lower; }
      BlockComment(lines, 1);
    == { assert |lower| - 2 == 6; TwoRowMarkers(lines); }
      Some(Join(BlockRows(lines, 1, 6, 0, 0), "\n"));
    == { MultiRowText(lines, 1, 6, 0, 0); }
      Some(PrefixEach([Substr(upper, 3)] + lines[1..1] + [lower[..6]], "\n"));
    == { assert Substr(upper, 3) == "hello" && lower[..6] == "world " && lines[1..1] == []; }
      Some(PrefixEach(["hello", "world "], "\n"));
    == { PrefixEachPair("hello", "world ", "\n"); }
      Some("\n" + "hello" + "\n" + "world ");
    }
  }

  lemma PrefixEachPair(a: string, b: string, sep: string)
    ensures PrefixEach([a, b], sep) == sep + a + sep + b
  {
    assert [a, b][1..] == [b];
    assert [b][1..] == [];
    assert PrefixEach([b], sep) == sep + b + "";
    assert sep + b + "" == sep + b;
    assert PrefixEach([a, b], sep) == sep + a + (sep + b);
  }

  // ------------------------------------------------------ the imperative scan

  /** The state of the block search: the closing marker found so far, relative to scan position `(r, c)`. */
  predicate ResumeOk(lines: seq<string>, end: Option<(nat, nat)>, r: nat, c: int) {
    && ScanPos(lines, r, c)
    && (end.Some? ==>
          && r <= end.value.0 < |lines|
          && end.value.1 + 2 <= |lines[end.value.0]|
          && (r == end.value.0 ==> c <= end.value.1 - 2))
  }

  /** What is left of the block search from scan position `(r, c)`. */
  function Resume(lines: seq<string>, end: Option<(nat, nat)>, r: nat, c: int): Option<string>
    requires ResumeOk(lines, end, r, c)
  {
    match end
    case None => FromClose(lines, SeekClose(lines, r, c))
    case Some((sl, sc)) => FromOpen(lines, sl, sc, SeekOpen(lines, r, c))
  }

  /** Leaving row `r` to the left: the search goes on at the end of the row above, or ends. */
  lemma ResumeNextRow(lines: seq<string>, end: Option<(nat, nat)>, r: nat, c: int)
    requires ResumeOk(lines, end, r, c) && c < 0
    ensures r == 0 ==> Resume(lines, end, r, c) == None
    ensures r > 0 ==> ResumeOk(lines, end, r - 1, |lines[r - 1]| - 2)
    ensures r > 0 ==> Resume(lines, end, r, c) == Resume(lines, end, r - 1, |lines[r - 1]| - 2)
  {
  }

  /**
   * Collects the rows of the block comment whose markers are at `(sl, sc)`
   * and `(ol, oc)`, the way the scan builds them: the opening row's part,
   * the rows in between, the closing row's part, and then the one-row case
   * replacing all of it.
   */
  method CollectRows(lines: seq<string>, sl: nat, sc: nat, ol: nat, oc: nat) returns (rows: seq<string>)
    requires BlockBounds(lines, sl, sc, ol, oc)
    ensures rows == BlockRows(lines, sl, sc, ol, oc)
  {
    rows := ["", Substr(lines[ol], oc + 3)];
    var r := ol + 1;
    while r < sl
      invariant ol + 1 <= r <= |lines|
      invariant r <= sl || r == ol + 1
      invariant rows == ["", Substr(lines[ol], oc + 3)] + lines[ol + 1..r]
    {
      rows := rows + [lines[r]];
      r := r + 1;
    }
    rows := rows + [lines[sl][..sc]];
    if sl == ol {
      rows := ["", Substring(lines[ol], oc + 3, sc)];
    }
  }

  /** Walks up from a `#` row, collecting the text of each `#` row until a row is not one. */
  method CollectHashTexts(lines: seq<string>, row: nat) returns (results: seq<string>)
    requires row < |lines| && IsHashLine(lines[row])
    ensures results == HashTexts(HashRows(lines, row))
  {
    HashTextsStep(lines, row);
    results := [HashText(lines[row])];
    var start := row - 1;
    while start >= 0
      invariant -1 <= start < row
      invariant results + HashTexts(HashRows(lines, start)) == HashTexts(HashRows(lines, row))
      decreases start + 1
    {
      var line := lines[start];
      if !IsHashLine(line) {
        assert results + [] == results;
        return;
      }
      HashTextsStep(lines, start);
      ConcatAssoc(results, [HashText(line)], HashTexts(HashRows(lines, start - 1)));
      results := results + [HashText(line)];
      start := start - 1;
    }
    assert results + [] == results;
  }

  /** The texts of a run from a `#` line: that line's text, then those of the run above it. */
  lemma HashTextsStep(lines: seq<string>, start: nat)
    requires start < |lines| && IsHashLine(lines[start])
    ensures HashTexts(HashRows(lines, start)) == [HashText(lines[start])] + HashTexts(HashRows(lines, start as int - 1))
  {
    var tail := HashRows(lines, start as int - 1);
    assert HashRows(lines, start) == [lines[start]] + tail;
    DropFirstOfConcat([lines[start]], tail);
  }

  /**
   * One row of the block-comment search, right to left from its
   * second-to-last column. Either the search ends on this row (`done`, with
   * its outcome `doc`), or it goes on at the row above with the closing
   * marker found so far, `end'`.
   */
  method ScanRow(lines: seq<string>, end: Option<(nat, nat)>, r: nat)
      returns (end': Option<(nat, nat)>, done: bool, doc: Option<string>)
    requires r < |lines| && ResumeOk(lines, end, r, |lines[r]| - 2)
    requires end.Some? ==> r < end.value.0
    ensures done ==> doc == Resume(lines, end, r, |lines[r]| - 2)
    ensures !done && r == 0 ==> Resume(lines, end, r, |lines[r]| - 2) == None
    ensures !done && r > 0 ==> ResumeOk(lines, end', r - 1, |lines[r - 1]| - 2)
    ensures !done && r > 0 && end'.Some? ==> r - 1 < end'.value.0
    ensures !done && r > 0 ==> Resume(lines, end', r - 1, |lines[r - 1]| - 2) == Resume(lines, end, r, |lines[r]| - 2)
  {
    var line := lines[r];
    var col := |line| - 2;
    end' := end;
    ghost var goal := Resume(lines, end, r, col);
    while col >= 0
      invariant -2 <= col <= |line| - 2
      invariant ResumeOk(lines, end', r, col)
      invariant end'.Some? ==> r <= end'.value.0
      invariant Resume(lines, end', r, col) == goal
      decreases col + 2
    {
      var stop;
      end', col, stop, doc := ScanCol(lines, end', r, col);
      if stop {
        return end', true, doc;
      }
    }
    ResumeNextRow(lines, end', r, col);
    done, doc := false, None;
  }

  /**
   * One pass of the column loop at column `col` of row `r`: it finds the
   * closing marker and skips its second character, or gives up at code, or
   * finds the opening marker and builds the text, or moves one column left.
   */
  method ScanCol(lines: seq<string>, end: Option<(nat, nat)>, r: nat, col: nat)
      returns (end': Option<(nat, nat)>, col': int, done: bool, doc: Option<string>)
    requires r < |lines| && col + 2 <= |lines[r]| && ResumeOk(lines, end, r, col)
    requires end.Some? ==> r <= end.value.0
    ensures done ==> doc == Resume(lines, end, r, col)
    ensures !done ==> -2 <= col' < col && ResumeOk(lines, end', r, col')
    ensures !done && end'.Some? ==> r <= end'.value.0
    ensures !done ==> Resume(lines, end', r, col') == Resume(lines, end, r, col)
  {
    var line := lines[r];
    end', col', done, doc := end, col - 1, false, None;
    if end.None? {
      if line[col] == '*' && line[col + 1] == '/' {
        assert SeekClose(lines, r, col) == Close(r, col);
        end', col' := Some((r, col)), col - 2;
      } else if !IsSpaceOrSlash(line[col]) {
        assert SeekClose(lines, r, col) == Foreign(r, col);
        done := true;
      } else {
        assert SeekClose(lines, r, col) == SeekClose(lines, r, col - 1);
      }
    } else if line[col] == '/' && line[col + 1] == '*' {
      assert SeekOpen(lines, r, col) == Open(r, col);
      var rows := CollectRows(lines, end.value.0, end.value.1, r, col);
      done, doc := true, Some(Join(rows, "\n"));
    } else {
      assert SeekOpen(lines, r, col) == SeekOpen(lines, r, col - 1);
    }
  }

  /**
   * The block-comment search from the end of row `row`: right to left along
   * each row, then up to the row above, first for the closing marker (giving
   * up at any character other than white space or `/`) and then for the
   * opening one.
   */
  method ScanBlock(lines: seq<string>, row: nat) returns (text: Option<string>)
    requires row < |lines|
    ensures text == BlockComment(lines, row)
  {
    var end: Option<(nat, nat)> := None;
    var r: int := row;
    ghost var goal := BlockComment(lines, row);
    while r >= 0
      invariant -1 <= r <= row
      invariant r >= 0 ==> ResumeOk(lines, end, r, |lines[r]| - 2)
      invariant r >= 0 && end.Some? ==> r < end.value.0
      invariant r >= 0 ==> Resume(lines, end, r, |lines[r]| - 2) == goal
      invariant r < 0 ==> goal == None
      decreases r + 1
    {
      var done, end';
      end', done, text := ScanRow(lines, end, r);
      if done {
        return;
      }
      end := end';
      r := r - 1;
    }
    return None;
  }

  /** `extractDocumentationAtRow`: the `#` style when the row is a `#` line, the block style otherwise. */
  method ExtractDocumentationAtRow(lines: seq<string>, row: int) returns (doc: Option<string>)
    requires row < |lines|
    ensures doc == DocumentationAtRow(lines, row)
  {
    if row < 0 {
      return None;
    }
    if IsHashLine(lines[row]) {
      var results := CollectHashTexts(lines, row);
      return Some(DocFormatter.FilterDocumentation(Join(results, "\n")));
    }
    var text := ScanBlock(lines, row);
    if text.Some? {
      return Some(DocFormatter.FilterDocumentation(text.value));
    }
    return None;
  }
}

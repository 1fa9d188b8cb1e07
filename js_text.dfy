/**
 * String helpers with the meaning that JavaScript gives them where the
 * ctags utilities use them: the `\s` and `\w` character classes, the `.`
 * of a regular expression, `indexOf`, `lastIndexOf`, `substr`,
 * `substring` and `Array.prototype.join`.
 */
module JsText {

  datatype Option<T> = None | Some(value: T)

  /** The `\s` class of a JavaScript regular expression (WhiteSpace and LineTerminator). */
  predicate IsSpace(c: char) {
    || c == ' ' || c == '\t' || c == '\n' || c == '\U{B}' || c == '\U{C}' || c == '\r'
    || c == '\U{A0}' || c == '\U{1680}' || ('\U{2000}' <= c <= '\U{200A}')
    || c == '\U{2028}' || c == '\U{2029}' || c == '\U{202F}' || c == '\U{205F}'
    || c == '\U{3000}' || c == '\U{FEFF}'
  }

  /** The `\w` class: `[A-Za-z0-9_]`. */
  predicate IsWordChar(c: char) {
    ('A' <= c <= 'Z') || ('a' <= c <= 'z') || ('0' <= c <= '9') || c == '_'
  }

  /** The characters that the `.` of a regular expression does not match. */
  predicate IsLineTerminator(c: char) {
    c == '\n' || c == '\r' || c == '\U{2028}' || c == '\U{2029}'
  }

  /** What is left of `s` after its maximal run of leading `\s` characters. */
  function SkipSpaces(s: string): (r: string)
    ensures |r| <= |s|
    ensures |r| > 0 ==> !IsSpace(r[0])
  {
    if |s| > 0 && IsSpace(s[0]) then SkipSpaces(s[1..]) else s
  }

  /** What `SkipSpaces` leaves is a suffix of its input, after a run of `\s` characters. */
  lemma {:induction false} SkipSpacesSuffix(s: string)
    ensures var r := SkipSpaces(s);
      && r == s[|s| - |r|..]
      && forall i :: 0 <= i < |s| - |r| ==> IsSpace(s[i])
  {
    if |s| > 0 && IsSpace(s[0]) {
      SkipSpacesSuffix(s[1..]);
      var r := SkipSpaces(s);
      forall i | 0 <= i < |s| - |r| ensures IsSpace(s[i]) {
        if i > 0 {
          assert s[i] == s[1..][i - 1];
        }
      }
    }
  }

  /** `SkipSpaces` skips exactly a run of `\s` characters followed by text that does not start with one. */
  lemma {:induction false} SkipSpacesOver(pre: string, rest: string)
    requires forall i :: 0 <= i < |pre| ==> IsSpace(pre[i])
    requires |rest| > 0 ==> !IsSpace(rest[0])
    ensures SkipSpaces(pre + rest) == rest
  {
    if |pre| == 0 {
      assert pre + rest == rest;
    } else {
      assert (pre + rest)[1..] == pre[1..] + rest;
      SkipSpacesOver(pre[1..], rest);
    }
  }

  /** The maximal prefix of `s` that `.*` matches: everything before the first line terminator. */
  function TakeLine(s: string): (r: string)
    ensures |r| <= |s| && r == s[..|r|]
    ensures forall i :: 0 <= i < |r| ==> !IsLineTerminator(r[i])
    ensures |r| < |s| ==> IsLineTerminator(s[|r|])
  {
    if |s| == 0 || IsLineTerminator(s[0]) then "" else [s[0]] + TakeLine(s[1..])
  }

  /** Number of occurrences of `c` in `s`. */
  function CountChar(s: string, c: char): nat {
    if |s| == 0 then 0 else CountChar(s[..|s| - 1], c) + (if s[|s| - 1] == c then 1 else 0)
  }

  lemma {:induction false} CountCharAppend(a: string, b: string, c: char)
    ensures CountChar(a + b, c) == CountChar(a, c) + CountChar(b, c)
    decreases |b|
  {
    if |b| == 0 {
      assert a + b == a;
    } else {
      assert (a + b)[..|a + b| - 1] == a + b[..|b| - 1];
      CountCharAppend(a, b[..|b| - 1], c);
    }
  }

  lemma CountCharAbsent(s: string, c: char)
    requires c !in s
    ensures CountChar(s, c) == 0
  {
    if |s| > 0 {
      assert s[..|s| - 1] + [s[|s| - 1]] == s;
      CountCharAbsent(s[..|s| - 1], c);
    }
  }

  /**
   * `s.lastIndexOf(c, from)` for a one-character search string: the largest
   * index `i <= from` holding `c`, or -1. A `from` beyond the end is clamped.
   */
  function LastIndexOf(s: string, c: char, from: nat): (r: int)
    ensures -1 <= r < |s| && r <= from
    ensures r >= 0 ==> s[r] == c
    ensures forall i :: r < i < |s| && i <= from ==> s[i] != c
  {
    if |s| == 0 then -1
    else if from >= |s| then LastIndexOf(s, c, |s| - 1)
    else if s[from] == c then from
    else if from == 0 then -1
    else LastIndexOf(s, c, from - 1)
  }

  /** Index of the first `c` in `s`, or -1: `s.indexOf(c)` for one character. */
  function IndexOfChar(s: string, c: char): (r: int)
    ensures -1 <= r < |s|
    ensures r >= 0 ==> s[r] == c && c !in s[..r]
    ensures r == -1 <==> c !in s
  {
    if |s| == 0 then -1
    else if s[0] == c then 0
    else
      var k := IndexOfChar(s[1..], c);
      assert s[1..][..if k < 0 then 0 else k] == s[1..1 + if k < 0 then 0 else k];
      if k < 0 then -1 else k + 1
  }

  /** `t` occurs in `s` starting at index `j`. */
  predicate OccursAt(s: string, t: string, j: nat) {
    j + |t| <= |s| && s[j..j + |t|] == t
  }

  /** `s.indexOf(t)`: the first index at which `t` occurs in `s`, or -1. */
  function IndexOf(s: string, t: string): (r: int)
    ensures r == -1 || 0 <= r <= |s| - |t|
    ensures r >= 0 ==> OccursAt(s, t, r)
    ensures r >= 0 ==> forall j :: 0 <= j < r ==> !OccursAt(s, t, j)
    ensures r == -1 ==> forall j :: 0 <= j ==> !OccursAt(s, t, j)
  {
    IndexOfFrom(s, t, 0)
  }

  function IndexOfFrom(s: string, t: string, i: nat): (r: int)
    ensures r == -1 || i <= r <= |s| - |t|
    ensures r >= 0 ==> OccursAt(s, t, r)
    ensures r >= 0 ==> forall j :: i <= j < r ==> !OccursAt(s, t, j)
    ensures r == -1 ==> forall j :: i <= j ==> !OccursAt(s, t, j)
    decreases |s| + 1 - i
  {
    if i + |t| > |s| then -1
    else if s[i..i + |t|] == t then i
    else IndexOfFrom(s, t, i + 1)
  }

  /**
   * `s.substr(start)` for a non-negative start: the part of `s` after its
   * first `start` characters, or "" when `s` is shorter than that.
   */
  function Substr(s: string, start: nat): (r: string)
    ensures |r| == if start <= |s| then |s| - start else 0
    ensures start <= |s| ==> s == s[..start] + r
  {
    if start <= |s| then s[start..] else ""
  }

  /**
   * `s.substring(a, b)` for non-negative bounds: both are clamped to the
   * length, and the smaller one is taken as the start.
   */
  function Substring(s: string, a: nat, b: nat): (r: string)
    ensures |r| <= |s|
    ensures a <= b <= |s| ==> r == s[a..b]
    ensures a <= b && |s| < b ==> r == Substr(s, a)
  {
    var lo := if a <= b then a else b;
    var hi := if a <= b then b else a;
    s[(if lo <= |s| then lo else |s|)..(if hi <= |s| then hi else |s|)]
  }

  /** `substring` does not depend on the order of its bounds. */
  lemma SubstringSwap(s: string, a: nat, b: nat)
    ensures Substring(s, a, b) == Substring(s, b, a)
  {
  }

  /** `parts.join(sep)`. */
  function Join(parts: seq<string>, sep: string): string {
    if |parts| == 0 then ""
    else if |parts| == 1 then parts[0]
    else parts[0] + sep + Join(parts[1..], sep)
  }

  /** Joining onto a leading empty string puts a separator before every later part. */
  function PrefixEach(parts: seq<string>, sep: string): string {
    if |parts| == 0 then "" else sep + parts[0] + PrefixEach(parts[1..], sep)
  }

  lemma {:induction false} JoinAfterEmpty(parts: seq<string>, sep: string)
    ensures Join([""] + parts, sep) == PrefixEach(parts, sep)
  {
    if |parts| == 0 {
    } else if |parts| == 1 {
      assert ([""] + parts)[1..] == parts;
    } else {
      assert ([""] + parts)[1..] == parts;
      assert Join(parts, sep) == parts[0] + sep + Join(parts[1..], sep);
      JoinAfterEmpty(parts[1..], sep);
      assert Join([""] + parts[1..], sep) == "" + sep + Join(parts[1..], sep);
    }
  }

  // Equalities between sequences of strings are stated once, generically, so
  // that proving them does not compare the strings character by character.

  lemma DropFirstOfConcat<T>(a: seq<T>, b: seq<T>)
    requires |a| > 0
    ensures (a + b)[0] == a[0] && (a + b)[1..] == a[1..] + b
  {
  }

  lemma ConcatAssoc<T>(x: seq<T>, y: seq<T>, z: seq<T>)
    ensures x + (y + z) == (x + y) + z
  {
  }

  lemma SliceDropLast<T>(s: seq<T>, i: nat, j: nat)
    requires i < j <= |s|
    ensures s[i..j][..j - i - 1] == s[i..j - 1] && s[i..j][j - i - 1] == s[j - 1]
  {
  }

  lemma LeadingPair<T>(a: T, b: T, m: seq<T>, z: seq<T>)
    ensures [a, b] + m + z == [a] + ([b] + m + z)
  {
  }

  lemma PairThen<T>(a: T, b: T, m: seq<T>, z: seq<T>)
    ensures [a, b] + m + z == [a] + ([b] + (m + z))
  {
  }

  lemma PrefixOfPrefix<T>(l: seq<T>, m: seq<T>, e: seq<T>)
    requires |m| <= |l| && l[..|m|] == m
    requires |e| <= |m| && m[..|e|] == e
    ensures l[..|e|] == e
  {
    assert l[..|e|] == l[..|m|][..|e|];
  }

  lemma SliceOfSlice<T>(s: seq<T>, i: nat, j: nat, k: nat, l: nat)
    requires i <= j <= |s| && k <= l <= j - i
    ensures s[i..j][k..l] == s[i + k..i + l]
  {
    forall x | 0 <= x < l - k ensures s[i..j][k..l][x] == s[i + k..i + l][x] {
      assert s[i..j][k..l][x] == s[i..j][k + x] == s[i + k + x];
    }
  }
}

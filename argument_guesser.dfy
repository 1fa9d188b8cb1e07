/**
 * `guessFargs`: a guess at the parameter list of a definition, taken from
 * the first `(` of its line with the regular expression
 * `/\([A-Za-z0-9$_,\s]*(\))?/`. The expression has no `g` flag, so the
 * search position derived from the symbol name is ignored and the match is
 * the one at the first `(` of the line.
 */
module ArgumentGuesser {
  import opened JsText

  /** The class `[A-Za-z0-9$_,\s]`. */
  predicate IsArgChar(c: char) {
    IsWordChar(c) || c == '$' || c == ',' || IsSpace(c)
  }

  /** All characters of `s` are in the class. */
  predicate AllArgChars(s: string) {
    forall i :: 0 <= i < |s| ==> IsArgChar(s[i])
  }

  /** The greedy `[A-Za-z0-9$_,\s]*` at the start of `s`. */
  function ArgRun(s: string): (r: string)
    ensures |r| <= |s| && r == s[..|r|]
    ensures AllArgChars(r)
    ensures |r| < |s| ==> !IsArgChar(s[|r|])
  {
    if |s| > 0 && IsArgChar(s[0]) then [s[0]] + ArgRun(s[1..]) else ""
  }

  /**
   * The matched text at the first `(`, then "" when the optional `)` took
   * part in the match and "..." when it did not; "" when there is no `(`.
   * The guess is empty exactly when the line has no `(`.
   */
  function GuessFargs(line: string, name: string): (r: string)
    ensures r == "" <==> '(' !in line
    ensures r != "" ==> r[0] == '('
  {
    var p := IndexOfChar(line, '(');
    if p < 0 then "" else GuessAfter(line[p + 1..])
  }

  /** The guess from the text `s` after the `(`. */
  function GuessAfter(s: string): (r: string)
    ensures |r| > 0 && r[0] == '('
  {
    var args := ArgRun(s);
    var rest := s[|args|..];
    if |rest| > 0 && rest[0] == ')' then "(" + args + ")" else "(" + args + "..."
  }

  lemma {:induction false} ArgRunExact(args: string, rest: string)
    requires AllArgChars(args)
    requires |rest| > 0 ==> !IsArgChar(rest[0])
    ensures ArgRun(args + rest) == args
  {
    if |args| == 0 {
      assert args + rest == rest;
    } else {
      assert (args + rest)[1..] == args[1..] + rest;
      ArgRunExact(args[1..], rest);
    }
  }

  /** The first `(` of a line that has none before `rest`'s opening parenthesis. */
  lemma FirstParen(line: string, before: string, rest: string)
    requires line == before + "(" + rest
    requires '(' !in before
    ensures IndexOfChar(line, '(') == |before|
    ensures line[|before| + 1..] == rest
  {
    var p := |before|;
    assert line[..p] == before && line[p] == '(';
    assert line[p + 1..] == rest;
  }

  /**
   * A line with a parenthesised list of class characters after its first
   * `(`: the guess is that list with its parentheses.
   */
  lemma GuessFargsClosed(line: string, name: string, before: string, args: string, after: string)
    requires line == before + "(" + args + ")" + after
    requires '(' !in before
    requires AllArgChars(args)
    ensures GuessFargs(line, name) == "(" + args + ")"
  {
    var rest := args + (")" + after);
    assert line == before + "(" + rest;
    calc {
      GuessFargs(line, name);
    == { FirstParen(line, before, rest); }
      GuessAfter(rest);
    == { ArgRunExact(args, ")" + after); assert rest[|args|..] == ")" + after; }
      "(" + args + ")";
    }
  }

  /**
   * A line whose class characters after the first `(` reach its end or a
   * character that is neither in the class nor `)`: the guess is those
   * characters after the `(`, with "..." for the list that goes on.
   */
  lemma GuessFargsOpen(line: string, name: string, before: string, args: string, after: string)
    requires line == before + "(" + args + after
    requires '(' !in before
    requires AllArgChars(args)
    requires |after| > 0 ==> !IsArgChar(after[0]) && after[0] != ')'
    ensures GuessFargs(line, name) == "(" + args + "..."
  {
    var rest := args + after;
    assert line == before + "(" + rest;
    calc {
      GuessFargs(line, name);
    == { FirstParen(line, before, rest); }
      GuessAfter(rest);
    == { ArgRunExact(args, after); assert rest[|args|..] == after; }
      "(" + args + "...";
    }
  }
}

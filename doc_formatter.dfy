/**
 * `escapeHtml` and `filterDocumentation`: the raw text of a comment is
 * HTML-escaped and then rewritten by five regular-expression replaces, in
 * this order:
 *   1. `/\n\s*\*\s*|\n\s*\/g`  -> "\n"            (Collapse)
 *   2. `/\n\n(?!@)/g`          -> "<br/><br/>"    (Paragraphs)
 *   3. `/\n@(\w+)/`            -> "<br/>\n@$1"    (MarkFirstTag, first match only)
 *   4. `/\n@param (\w+)/g`     -> "<br/>\n<b>@param</b> <i>$1</i>"  (RenderParams)
 *   5. `/\n@(\w+)/g`           -> "<br/>\n<b>@$1</b>"               (RenderTags)
 * A global replace scans left to right and resumes after each match; each
 * function below does the same, one match or one copied character at a time.
 */
module DocFormatter {
  import opened JsText

  // ---------------------------------------------------------------- escaping

  /** One character as `escapeHtml` renders it. */
  function EscapeChar(c: char): string {
    if c == '&' then "&amp;"
    else if c == '<' then "&lt;"
    else if c == '>' then "&gt;"
    else if c == '"' then "&quot;"
    else [c]
  }

  /** `s.replace(/c/g, rep)` for a pattern of one literal character. */
  function ReplaceChar(s: string, c: char, rep: string): string {
    if |s| == 0 then "" else (if s[0] == c then rep else [s[0]]) + ReplaceChar(s[1..], c, rep)
  }

  /** `escapeHtml`: four global replaces, the one for `&` first. */
  function EscapeHtml(s: string): string {
    ReplaceChar(ReplaceChar(ReplaceChar(ReplaceChar(s, '&', "&amp;"), '<', "&lt;"), '>', "&gt;"), '"', "&quot;")
  }

  /** Reference definition: every character escaped on its own. */
  function EscapeEach(s: string): string {
    if |s| == 0 then "" else EscapeChar(s[0]) + EscapeEach(s[1..])
  }

  /** Decoding of the four entities that `escapeHtml` produces, left to right. */
  function DecodeEntities(s: string): string {
    if |s| == 0 then ""
    else if |s| >= 5 && s[..5] == "&amp;" then "&" + DecodeEntities(s[5..])
    else if |s| >= 4 && s[..4] == "&lt;" then "<" + DecodeEntities(s[4..])
    else if |s| >= 4 && s[..4] == "&gt;" then ">" + DecodeEntities(s[4..])
    else if |s| >= 6 && s[..6] == "&quot;" then "\"" + DecodeEntities(s[6..])
    else [s[0]] + DecodeEntities(s[1..])
  }

  lemma {:induction false} ReplaceCharAppend(a: string, b: string, c: char, rep: string)
    ensures ReplaceChar(a + b, c, rep) == ReplaceChar(a, c, rep) + ReplaceChar(b, c, rep)
  {
    if |a| > 0 {
      assert (a + b)[1..] == a[1..] + b;
      ReplaceCharAppend(a[1..], b, c, rep);
    } else {
      assert a + b == b;
    }
  }

  lemma EscapeHtmlAppend(a: string, b: string)
    ensures EscapeHtml(a + b) == EscapeHtml(a) + EscapeHtml(b)
  {
    var a1, b1 := ReplaceChar(a, '&', "&amp;"), ReplaceChar(b, '&', "&amp;");
    ReplaceCharAppend(a, b, '&', "&amp;");
    var a2, b2 := ReplaceChar(a1, '<', "&lt;"), ReplaceChar(b1, '<', "&lt;");
    ReplaceCharAppend(a1, b1, '<', "&lt;");
    var a3, b3 := ReplaceChar(a2, '>', "&gt;"), ReplaceChar(b2, '>', "&gt;");
    ReplaceCharAppend(a2, b2, '>', "&gt;");
    ReplaceCharAppend(a3, b3, '"', "&quot;");
  }

  lemma ReplaceCharSingle(x: char, c: char, rep: string)
    ensures ReplaceChar([x], c, rep) == if x == c then rep else [x]
  {
    assert [x][1..] == "";
  }

  lemma {:induction false} ReplaceCharAbsent(s: string, c: char, rep: string)
    requires c !in s
    ensures ReplaceChar(s, c, rep) == s
  {
    if |s| > 0 {
      ReplaceCharAbsent(s[1..], c, rep);
    }
  }

  /** `escapeHtml` of `&`: the first replace fires and the later ones find nothing. */
  lemma EscapeHtmlAmp()
    ensures EscapeHtml("&") == "&amp;"
  {
    var amp := "&amp;";
    ReplaceCharSingle('&', '&', amp);
    assert '<' !in amp && '>' !in amp && '"' !in amp;
    ReplaceCharAbsent(amp, '<', "&lt;");
    ReplaceCharAbsent(amp, '>', "&gt;");
    ReplaceCharAbsent(amp, '"', "&quot;");
  }

  lemma EscapeHtmlLt()
    ensures EscapeHtml("<") == "&lt;"
  {
    ReplaceCharSingle('<', '&', "&amp;");
    var lt := "&lt;";
    ReplaceCharSingle('<', '<', lt);
    assert '>' !in lt && '"' !in lt;
    ReplaceCharAbsent(lt, '>', "&gt;");
    ReplaceCharAbsent(lt, '"', "&quot;");
  }

  lemma EscapeHtmlGt()
    ensures EscapeHtml(">") == "&gt;"
  {
    ReplaceCharSingle('>', '&', "&amp;");
    ReplaceCharSingle('>', '<', "&lt;");
    ReplaceCharSingle('>', '>', "&gt;");
    ReplaceCharAbsent("&gt;", '"', "&quot;");
  }

  lemma EscapeHtmlQuot()
    ensures EscapeHtml("\"") == "&quot;"
  {
    ReplaceCharSingle('"', '&', "&amp;");
    ReplaceCharSingle('"', '<', "&lt;");
    ReplaceCharSingle('"', '>', "&gt;");
    ReplaceCharSingle('"', '"', "&quot;");
  }

  lemma EscapeHtmlOneChar(c: char)
    ensures EscapeHtml([c]) == EscapeChar(c)
  {
    if c == '&' {
      EscapeHtmlAmp();
    } else if c == '<' {
      EscapeHtmlLt();
    } else if c == '>' {
      EscapeHtmlGt();
    } else if c == '"' {
      EscapeHtmlQuot();
    } else {
      ReplaceCharSingle(c, '&', "&amp;");
      ReplaceCharSingle(c, '<', "&lt;");
      ReplaceCharSingle(c, '>', "&gt;");
      ReplaceCharSingle(c, '"', "&quot;");
    }
  }

  /** The four chained replaces escape each character independently. */
  lemma {:induction false} EscapeHtmlPerChar(s: string)
    ensures EscapeHtml(s) == EscapeEach(s)
  {
    if |s| > 0 {
      assert s == [s[0]] + s[1..];
      EscapeHtmlAppend([s[0]], s[1..]);
      EscapeHtmlOneChar(s[0]);
      EscapeHtmlPerChar(s[1..]);
    }
  }

  lemma EscapeCharSafe(c: char)
    ensures '<' !in EscapeChar(c) && '>' !in EscapeChar(c) && '"' !in EscapeChar(c)
    ensures '\n' in EscapeChar(c) <==> c == '\n'
  {
  }

  lemma {:induction false} EscapeEachSafe(s: string)
    ensures '<' !in EscapeEach(s) && '>' !in EscapeEach(s) && '"' !in EscapeEach(s)
    ensures '\n' in EscapeEach(s) <==> '\n' in s
  {
    if |s| > 0 {
      EscapeEachSafe(s[1..]);
      EscapeCharSafe(s[0]);
      assert s == [s[0]] + s[1..];
      assert EscapeEach(s) == EscapeChar(s[0]) + EscapeEach(s[1..]);
    }
  }

  /** The output of `escapeHtml` holds no `<`, `>` or `"`, and newlines exactly where the input has them. */
  lemma EscapeHtmlSafe(s: string)
    ensures '<' !in EscapeHtml(s) && '>' !in EscapeHtml(s) && '"' !in EscapeHtml(s)
    ensures '\n' in EscapeHtml(s) <==> '\n' in s
  {
    EscapeHtmlPerChar(s);
    EscapeEachSafe(s);
  }

  lemma DecodeEscapedChar(c: char, t: string)
    ensures DecodeEntities(EscapeChar(c) + t) == [c] + DecodeEntities(t)
  {
    var e := EscapeChar(c) + t;
    if c == '&' {
      assert e[..5] == "&amp;" && e[5..] == t;
    } else if c == '<' {
      assert |e| >= 5 ==> e[..5][1] == 'l';
      assert e[..4] == "&lt;" && e[4..] == t;
    } else if c == '>' {
      assert |e| >= 5 ==> e[..5][1] == 'g';
      assert e[..4][1] == 'g';
      assert e[..4] == "&gt;" && e[4..] == t;
    } else if c == '"' {
      assert e[0] == '&' && e[1] == 'q';
      assert e[..5] != "&amp;" by { assert e[..5][1] == 'q'; }
      assert e[..4] != "&lt;" && e[..4] != "&gt;" by { assert e[..4][1] == 'q'; }
      assert e[..6] == "&quot;" && e[6..] == t;
    } else {
      assert e[0] == c && e[1..] == t;
      assert |e| >= 4 ==> e[..4][0] == c && e[..4] != "&lt;" && e[..4] != "&gt;";
      assert |e| >= 5 ==> e[..5][0] == c && e[..5] != "&amp;";
      assert |e| >= 6 ==> e[..6][0] == c && e[..6] != "&quot;";
    }
  }

  lemma {:induction false} DecodeEscapeEach(s: string)
    ensures DecodeEntities(EscapeEach(s)) == s
  {
    if |s| > 0 {
      DecodeEscapedChar(s[0], EscapeEach(s[1..]));
      DecodeEscapeEach(s[1..]);
    }
  }

  /** Decoding the four entities undoes `escapeHtml`. */
  lemma EscapeHtmlRoundTrip(s: string)
    ensures DecodeEntities(EscapeHtml(s)) == s
  {
    EscapeHtmlPerChar(s);
    DecodeEscapeEach(s);
  }

  // --------------------------------------------------- pass 1: Collapse

  /** `/\n\s*\*\s*|\n\s*\/g` -> "\n": a newline, the whitespace after it, and a `*` with its trailing whitespace. */
  function Collapse(s: string): string
    decreases |s|
  {
    if |s| == 0 then ""
    else if s[0] == '\n' then
      var t := SkipSpaces(s[1..]);
      if |t| > 0 && t[0] == '*' then "\n" + Collapse(SkipSpaces(t[1..])) else "\n" + Collapse(t)
    else [s[0]] + Collapse(s[1..])
  }

  /** No newline is followed by a `\s` character. */
  ghost predicate NoSpaceAfterNewline(s: string) {
    forall i :: 0 <= i < |s| - 1 && s[i] == '\n' ==> !IsSpace(s[i + 1])
  }

  lemma CollapseFirst(t: string)
    requires |t| > 0 && !IsSpace(t[0])
    ensures |Collapse(t)| > 0 && Collapse(t)[0] == t[0]
  {
  }

  lemma ConsNoSpaceAfterNewline(c: char, u: string)
    requires NoSpaceAfterNewline(u)
    requires c == '\n' && |u| > 0 ==> !IsSpace(u[0])
    ensures NoSpaceAfterNewline([c] + u)
  {
    var s := [c] + u;
    forall i | 0 <= i < |s| - 1 && s[i] == '\n' ensures !IsSpace(s[i + 1]) {
      if i > 0 {
        assert s[i] == u[i - 1] && s[i + 1] == u[i];
      }
    }
  }

  /** After pass 1, no newline is followed by whitespace. */
  lemma {:induction false} CollapseNoSpaceAfterNewline(s: string)
    ensures NoSpaceAfterNewline(Collapse(s))
    decreases |s|
  {
    if |s| == 0 {
    } else if s[0] == '\n' {
      var t := SkipSpaces(s[1..]);
      var u := if |t| > 0 && t[0] == '*' then SkipSpaces(t[1..]) else t;
      assert Collapse(s) == "\n" + Collapse(u);
      CollapseNoSpaceAfterNewline(u);
      if |u| > 0 {
        CollapseFirst(u);
      }
      ConsNoSpaceAfterNewline('\n', Collapse(u));
    } else {
      CollapseNoSpaceAfterNewline(s[1..]);
      ConsNoSpaceAfterNewline(s[0], Collapse(s[1..]));
    }
  }

  /** One step of pass 1 at a newline. */
  lemma CollapseNewline(x: string)
    ensures Collapse("\n" + x) ==
      var t := SkipSpaces(x);
      if |t| > 0 && t[0] == '*' then "\n" + Collapse(SkipSpaces(t[1..])) else "\n" + Collapse(t)
  {
    assert ("\n" + x)[1..] == x;
  }

  /**
   * A comment-continuation marker is removed: a newline, white space, a `*`
   * and more white space become one newline, and the text after them is kept.
   */
  lemma CollapseAtMarker(ws1: string, ws2: string, rest: string)
    requires forall i :: 0 <= i < |ws1| ==> IsSpace(ws1[i])
    requires forall i :: 0 <= i < |ws2| ==> IsSpace(ws2[i])
    requires |rest| > 0 ==> !IsSpace(rest[0])
    ensures Collapse("\n" + (ws1 + ("*" + (ws2 + rest)))) == "\n" + Collapse(rest)
  {
    var t := "*" + (ws2 + rest);
    SkipSpacesOver(ws1, t);
    assert t[1..] == ws2 + rest;
    SkipSpacesOver(ws2, rest);
    CollapseNewline(ws1 + t);
  }

  /** Without a marker, a newline and the white space after it become one newline, and the text after them is kept. */
  lemma CollapseAtBreak(ws: string, rest: string)
    requires forall i :: 0 <= i < |ws| ==> IsSpace(ws[i])
    requires |rest| > 0 ==> !IsSpace(rest[0]) && rest[0] != '*'
    ensures Collapse("\n" + (ws + rest)) == "\n" + Collapse(rest)
  {
    SkipSpacesOver(ws, rest);
    CollapseNewline(ws + rest);
  }

  /** Pass 1 copies a prefix that holds no newline. */
  lemma {:induction false} CollapseCopy(x: string, y: string)
    requires '\n' !in x
    ensures Collapse(x + y) == x + Collapse(y)
  {
    if |x| > 0 {
      assert (x + y)[0] == x[0] && (x + y)[1..] == x[1..] + y;
      CollapseCopy(x[1..], y);
      assert x == [x[0]] + x[1..];
    } else {
      assert x + y == y;
    }
  }

  // --------------------------------------------------- pass 2: Paragraphs

  /** `/\n\n(?!@)/g` -> "<br/><br/>". */
  function Paragraphs(s: string): string
    decreases |s|
  {
    if |s| == 0 then ""
    else if |s| >= 2 && s[0] == '\n' && s[1] == '\n' && !(|s| >= 3 && s[2] == '@') then
      "<br/><br/>" + Paragraphs(s[2..])
    else [s[0]] + Paragraphs(s[1..])
  }

  lemma {:induction false} ParagraphsIdle(s: string)
    requires NoSpaceAfterNewline(s)
    ensures Paragraphs(s) == s
  {
    if |s| > 0 {
      assert IsSpace('\n');
      assert NoSpaceAfterNewline(s[1..]) by {
        forall i | 0 <= i < |s[1..]| - 1 && s[1..][i] == '\n' ensures !IsSpace(s[1..][i + 1]) {
          assert s[1..][i] == s[i + 1] && s[1..][i + 1] == s[i + 2];
        }
      }
      ParagraphsIdle(s[1..]);
    }
  }

  /** After pass 1 no newline is followed by whitespace, so pass 2 never finds a blank line. */
  lemma ParagraphsNeverFire(s: string)
    ensures Paragraphs(Collapse(s)) == Collapse(s)
  {
    CollapseNoSpaceAfterNewline(s);
    ParagraphsIdle(Collapse(s));
  }

  // --------------------------------------------------- pass 3: MarkFirstTag

  /** `/\n@(\w+)/` matches at index `i` of `s`. */
  predicate TagAt(s: string, i: nat) {
    i + 2 < |s| && s[i] == '\n' && s[i + 1] == '@' && IsWordChar(s[i + 2])
  }

  /** `s.replace(/\n@(\w+)/, "<br/>\n@$1")`: a break before the first tag line only. */
  function MarkFirstTag(s: string): string {
    MarkFirstTagFrom(s, 0)
  }

  /**
   * The non-global replace, searching from index `k`: "<br/>" is inserted
   * before the first match at or after `k`, and the text is otherwise unchanged.
   */
  function MarkFirstTagFrom(s: string, k: nat): (r: string)
    ensures (forall i :: k <= i < |s| ==> !TagAt(s, i)) ==> r == s
    ensures forall i :: k <= i < |s| && TagAt(s, i) && (forall j :: k <= j < i ==> !TagAt(s, j))
                        ==> r == s[..i] + "<br/>" + s[i..]
    decreases |s| - k
  {
    if k >= |s| then s
    else if TagAt(s, k) then s[..k] + "<br/>" + s[k..]
    else MarkFirstTagFrom(s, k + 1)
  }

  // --------------------------------------------------- passes 4 and 5

  /** The maximal prefix of `s` made of `\w` characters. */
  function WordRun(s: string): (r: string)
    ensures |r| <= |s| && r == s[..|r|]
    ensures forall i :: 0 <= i < |r| ==> IsWordChar(r[i])
    ensures |r| < |s| ==> !IsWordChar(s[|r|])
  {
    if |s| == 0 || !IsWordChar(s[0]) then "" else [s[0]] + WordRun(s[1..])
  }

  /** Every character of `w` is a `\w` character. */
  predicate IsWord(w: string) {
    forall i :: 0 <= i < |w| ==> IsWordChar(w[i])
  }

  /** `/\n@param (\w+)/` matches at the start of `s`. */
  predicate ParamAt(s: string) {
    && |s| > 8
    && s[0] == '\n' && s[1] == '@' && s[2] == 'p' && s[3] == 'a'
    && s[4] == 'r' && s[5] == 'a' && s[6] == 'm' && s[7] == ' '
    && IsWordChar(s[8])
  }

  /** `/\n@(\w+)/` matches at the start of `s`. */
  predicate TagStart(s: string) {
    |s| > 2 && s[0] == '\n' && s[1] == '@' && IsWordChar(s[2])
  }

  /** The replacement text of pass 4 for the parameter name `w`. */
  function ParamMarkup(w: string): string {
    "<br/>\n<b>@param</b> <i>" + w + "</i>"
  }

  /** The replacement text of pass 5 for the tag name `w`. */
  function TagMarkup(w: string): string {
    "<br/>\n<b>@" + w + "</b>"
  }

  /** `/\n@param (\w+)/g` -> "<br/>\n<b>@param</b> <i>$1</i>". */
  function RenderParams(s: string): string
    decreases |s|
  {
    if |s| == 0 then ""
    else if ParamAt(s) then
      var w := WordRun(s[8..]);
      ParamMarkup(w) + RenderParams(s[8 + |w|..])
    else [s[0]] + RenderParams(s[1..])
  }

  /** `/\n@(\w+)/g` -> "<br/>\n<b>@$1</b>". */
  function RenderTags(s: string): string
    decreases |s|
  {
    if |s| == 0 then ""
    else if TagStart(s) then
      var w := WordRun(s[2..]);
      TagMarkup(w) + RenderTags(s[2 + |w|..])
    else [s[0]] + RenderTags(s[1..])
  }

  /** `filterDocumentation`: escaping, then the five rewrites in source order. */
  function FilterDocumentation(doc: string): string {
    RenderTags(RenderParams(MarkFirstTag(Paragraphs(Collapse(EscapeHtml(doc))))))
  }
  // --------------------------------------------------- properties of the passes

  lemma SuffixFree(s: string, u: string, c: char)
    requires c !in s && |u| <= |s| && u == s[|s| - |u|..]
    ensures c !in u
  {
  }

  /** Pass 1 introduces no character that its input lacks. */
  lemma {:induction false} CollapseFree(s: string, c: char)
    requires c !in s
    ensures c !in Collapse(s)
    decreases |s|
  {
    if |s| > 0 {
      if s[0] == '\n' {
        var t := SkipSpaces(s[1..]);
        SkipSpacesSuffix(s[1..]);
        SuffixFree(s[1..], t, c);
        var u := if |t| > 0 && t[0] == '*' then SkipSpaces(t[1..]) else t;
        if |t| > 0 && t[0] == '*' {
          SkipSpacesSuffix(t[1..]);
          SuffixFree(t[1..], u, c);
        }
        CollapseFree(u, c);
      } else {
        CollapseFree(s[1..], c);
      }
    }
  }

  lemma {:induction false} ParagraphsFree(s: string, c: char)
    requires c !in s && c !in "<br/><br/>"
    ensures c !in Paragraphs(s)
    decreases |s|
  {
    if |s| >= 2 && s[0] == '\n' && s[1] == '\n' && !(|s| >= 3 && s[2] == '@') {
      ParagraphsFree(s[2..], c);
    } else if |s| > 0 {
      ParagraphsFree(s[1..], c);
    }
  }

  lemma {:induction false} MarkFirstTagFree(s: string, k: nat, c: char)
    requires c !in s && c !in "<br/>"
    ensures c !in MarkFirstTagFrom(s, k)
    decreases |s| - k
  {
    if k < |s| {
      if TagAt(s, k) {
        assert s == s[..k] + s[k..];
      } else {
        MarkFirstTagFree(s, k + 1, c);
      }
    }
  }

  lemma {:induction false} RenderParamsFree(s: string, c: char)
    requires c !in s && c !in "<br/>\n<b>@param</b> <i></i>"
    ensures c !in RenderParams(s)
    decreases |s|
  {
    if |s| > 0 {
      if ParamAt(s) {
        var w := WordRun(s[8..]);
        assert c !in w by {
          SuffixFree(s, s[8..], c);
          assert w == s[8..][..|w|];
        }
        RenderParamsFree(s[8 + |w|..], c);
      } else {
        RenderParamsFree(s[1..], c);
      }
    }
  }

  lemma {:induction false} RenderTagsFree(s: string, c: char)
    requires c !in s && c !in "<br/>\n<b>@</b>"
    ensures c !in RenderTags(s)
    decreases |s|
  {
    if |s| > 0 {
      if TagStart(s) {
        var w := WordRun(s[2..]);
        assert c !in w by {
          assert w == s[2..][..|w|];
        }
        RenderTagsFree(s[2 + |w|..], c);
      } else {
        RenderTagsFree(s[1..], c);
      }
    }
  }

  /** No double quote survives `filterDocumentation`: the markup it adds holds none either. */
  lemma FilterDocumentationHasNoQuote(doc: string)
    ensures '"' !in FilterDocumentation(doc)
  {
    var e := EscapeHtml(doc);
    EscapeHtmlSafe(doc);
    CollapseFree(e, '"');
    ParagraphsFree(Collapse(e), '"');
    MarkFirstTagFree(Paragraphs(Collapse(e)), 0, '"');
    RenderParamsFree(MarkFirstTag(Paragraphs(Collapse(e))), '"');
    RenderTagsFree(RenderParams(MarkFirstTag(Paragraphs(Collapse(e)))), '"');
  }

  lemma {:induction false} CollapseIdle(s: string)
    requires '\n' !in s
    ensures Collapse(s) == s
  {
    if |s| > 0 {
      CollapseIdle(s[1..]);
    }
  }

  lemma {:induction false} ParagraphsNoNewline(s: string)
    requires '\n' !in s
    ensures Paragraphs(s) == s
  {
    if |s| > 0 {
      ParagraphsNoNewline(s[1..]);
    }
  }

  /** `RenderParams` copies a prefix that holds no newline. */
  lemma {:induction false} RenderParamsCopy(x: string, y: string)
    requires '\n' !in x
    ensures RenderParams(x + y) == x + RenderParams(y)
  {
    if |x| > 0 {
      var s := x + y;
      DropFirstOfConcat(x, y);
      assert s[0] != '\n';
      assert !ParamAt(s);
      assert RenderParams(s) == [x[0]] + RenderParams(x[1..] + y);
      RenderParamsCopy(x[1..], y);
      ConcatAssoc([x[0]], x[1..], RenderParams(y));
      assert [x[0]] + x[1..] == x;
    } else {
      assert x + y == y;
    }
  }

  /** Every newline of `x` is followed, inside `x`, by something other than `@`. */
  predicate NoTagStartIn(x: string) {
    forall i :: 0 <= i < |x| && x[i] == '\n' ==> i + 1 < |x| && x[i + 1] != '@'
  }

  lemma NoTagStartInTail(x: string)
    requires |x| > 0 && NoTagStartIn(x)
    ensures NoTagStartIn(x[1..])
  {
    var t := x[1..];
    forall i | 0 <= i < |t| && t[i] == '\n' ensures i + 1 < |t| && t[i + 1] != '@' {
      assert t[i] == x[i + 1];
    }
  }

  lemma NoTagStartInConcat(a: string, b: string)
    requires NoTagStartIn(a) && NoTagStartIn(b)
    ensures NoTagStartIn(a + b)
  {
    var s := a + b;
    forall i | 0 <= i < |s| && s[i] == '\n' ensures i + 1 < |s| && s[i + 1] != '@' {
      if i < |a| {
        assert s[i] == a[i] && s[i + 1] == a[i + 1];
      } else {
        assert s[i] == b[i - |a|] && s[i + 1] == b[i - |a| + 1];
      }
    }
  }

  lemma NoNewlineNoTagStart(x: string)
    requires '\n' !in x
    ensures NoTagStartIn(x)
  {
  }

  /** `RenderTags` copies a prefix in which no tag starts. */
  lemma {:induction false} RenderTagsCopy(x: string, y: string)
    requires NoTagStartIn(x)
    ensures RenderTags(x + y) == x + RenderTags(y)
  {
    if |x| > 0 {
      var s := x + y;
      DropFirstOfConcat(x, y);
      assert !TagStart(s) by {
        if x[0] == '\n' {
          assert s[1] == x[1];
        }
      }
      assert RenderTags(s) == [x[0]] + RenderTags(x[1..] + y);
      NoTagStartInTail(x);
      RenderTagsCopy(x[1..], y);
      ConcatAssoc([x[0]], x[1..], RenderTags(y));
      assert [x[0]] + x[1..] == x;
    } else {
      assert x + y == y;
    }
  }

  /** A word ended by a non-word character (or by the end) is the whole word run. */
  lemma {:induction false} WordRunExact(w: string, y: string)
    requires IsWord(w)
    requires |y| > 0 ==> !IsWordChar(y[0])
    ensures WordRun(w + y) == w
  {
    if |w| == 0 {
      assert w + y == y;
    } else {
      DropFirstOfConcat(w, y);
      WordRunExact(w[1..], y);
      assert w == [w[0]] + w[1..];
    }
  }

  /** If the text after a tag name starts with a non-word character, so does its rendering. */
  lemma RenderParamsKeepsBoundary(rest: string)
    requires |rest| > 0 && !IsWordChar(rest[0])
    ensures |RenderParams(rest)| > 0 && !IsWordChar(RenderParams(rest)[0])
  {
  }

  /** A `@param w` line followed by `rest`: the expression matches there, and its word is `w`. */
  lemma ParamLineShape(w: string, rest: string)
    requires |w| > 0 && IsWord(w)
    requires |rest| > 0 ==> !IsWordChar(rest[0])
    ensures ParamAt("\n@param " + w + rest)
    ensures WordRun(("\n@param " + w + rest)[8..]) == w && ("\n@param " + w + rest)[8 + |w|..] == rest
  {
    var s := "\n@param " + w + rest;
    assert s[..8] == "\n@param " && s[8..] == w + rest;
    WordRunExact(w, rest);
  }

  /** One step of pass 4 at a `@param` line. */
  lemma RenderParamsAtParam(w: string, rest: string)
    requires |w| > 0 && IsWord(w)
    requires |rest| > 0 ==> !IsWordChar(rest[0])
    ensures RenderParams("\n@param " + w + rest) == ParamMarkup(w) + RenderParams(rest)
  {
    ParamLineShape(w, rest);
  }

  /** The opening half of the pass 4 markup: its one newline is followed by `<`. */
  lemma ParamMarkupHeadHasNoTag()
    ensures NoTagStartIn("<br/>\n<b>@param</b> <i>")
  {
    var a := "<br/>\n<b>@param</b> <i>";
    forall i | 0 <= i < |a| && a[i] == '\n' ensures i + 1 < |a| && a[i + 1] != '@' {
      assert i == 5;
    }
  }

  /** The markup pass 4 writes holds no newline followed by `@`. */
  lemma ParamMarkupHasNoTag(w: string)
    requires '\n' !in w
    ensures NoTagStartIn(ParamMarkup(w))
  {
    var a := "<br/>\n<b>@param</b> <i>";
    ParamMarkupHeadHasNoTag();
    NoNewlineNoTagStart(w);
    NoTagStartInConcat(a, w);
    NoNewlineNoTagStart("</i>");
    NoTagStartInConcat(a + w, "</i>");
  }

  /**
   * `@param NAME` at the start of a line becomes `<b>@param</b> <i>NAME</i>`
   * after a break, and the generic bolding does not touch it again.
   */
  lemma ParamTagRendered(w: string, rest: string)
    requires |w| > 0 && IsWord(w)
    requires |rest| > 0 ==> !IsWordChar(rest[0])
    ensures RenderTags(RenderParams("\n@param " + w + rest))
         == ParamMarkup(w) + RenderTags(RenderParams(rest))
  {
    RenderParamsAtParam(w, rest);
    var head := ParamMarkup(w);
    assert '\n' !in w by {
      assert !IsWordChar('\n');
    }
    ParamMarkupHasNoTag(w);
    RenderTagsCopy(head, RenderParams(rest));
  }

  /** Pass 4 leaves a tag other than `@param NAME` as it is. */
  lemma RenderParamsAtOtherTag(w: string, rest: string)
    requires |w| > 0 && IsWord(w)
    requires !ParamAt("\n@" + w + rest)
    ensures RenderParams("\n@" + w + rest) == "\n@" + w + RenderParams(rest)
  {
    var u := w + rest;
    var t := ['@'] + u;
    assert '\n' !in w by {
      assert !IsWordChar('\n');
    }
    calc {
      RenderParams("\n@" + w + rest);
    == { PairThen('\n', '@', w, rest); }
      RenderParams(['\n'] + t);
    == { PairThen('\n', '@', w, rest); RenderParamsSkipsOne('\n', t); }
      ['\n'] + RenderParams(t);
    == { RenderParamsSkipsOne('@', u); }
      ['\n'] + (['@'] + RenderParams(u));
    == { RenderParamsCopy(w, rest); }
      ['\n'] + (['@'] + (w + RenderParams(rest)));
    == { PairThen('\n', '@', w, RenderParams(rest)); }
      "\n@" + w + RenderParams(rest);
    }
  }

  /** Pass 4 copies a first character at which its expression does not match. */
  lemma RenderParamsSkipsOne(c: char, t: string)
    requires !ParamAt([c] + t)
    ensures RenderParams([c] + t) == [c] + RenderParams(t)
  {
    DropFirstOfConcat([c], t);
  }

  /** A tag line `\n@w` followed by `y`: the expression matches there, and its word is `w`. */
  lemma TagLineShape(w: string, y: string)
    requires |w| > 0 && IsWord(w)
    requires |y| > 0 ==> !IsWordChar(y[0])
    ensures TagStart("\n@" + w + y)
    ensures WordRun(("\n@" + w + y)[2..]) == w && ("\n@" + w + y)[2 + |w|..] == y
  {
    var t := "\n@" + w + y;
    assert t[0] == '\n' && t[1] == '@' && t[2] == w[0];
    assert t[2..] == w + y;
    WordRunExact(w, y);
  }

  /** One step of pass 5 at a tag line. */
  lemma RenderTagsAtTag(w: string, y: string)
    requires |w| > 0 && IsWord(w)
    requires |y| > 0 ==> !IsWordChar(y[0])
    ensures RenderTags("\n@" + w + y) == TagMarkup(w) + RenderTags(y)
  {
    TagLineShape(w, y);
  }

  /** Any other `@tag` at the start of a line is bolded after a break. */
  lemma OtherTagRendered(w: string, rest: string)
    requires |w| > 0 && IsWord(w)
    requires |rest| > 0 ==> !IsWordChar(rest[0])
    requires !ParamAt("\n@" + w + rest)
    ensures RenderTags(RenderParams("\n@" + w + rest))
         == TagMarkup(w) + RenderTags(RenderParams(rest))
  {
    RenderParamsAtOtherTag(w, rest);
    var y := RenderParams(rest);
    if |rest| > 0 {
      RenderParamsKeepsBoundary(rest);
    }
    RenderTagsAtTag(w, y);
  }

  lemma {:induction false} RenderParamsNoNewline(s: string)
    requires '\n' !in s
    ensures RenderParams(s) == s
  {
    RenderParamsCopy(s, "");
    assert s + "" == s;
  }

  lemma RenderTagsNoNewline(s: string)
    requires '\n' !in s
    ensures RenderTags(s) == s
  {
    RenderTagsCopy(s, "");
    assert s + "" == s;
  }

  /** Documentation of a single line is only HTML-escaped. */
  lemma FilterDocumentationOneLine(doc: string)
    requires '\n' !in doc
    ensures FilterDocumentation(doc) == EscapeHtml(doc)
  {
    var e := EscapeHtml(doc);
    EscapeHtmlSafe(doc);
    CollapseIdle(e);
    ParagraphsNoNewline(e);
    assert MarkFirstTag(e) == e;
    RenderParamsNoNewline(e);
    RenderTagsNoNewline(e);
  }
}

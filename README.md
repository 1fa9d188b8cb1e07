# ctags utilities of the jsonalyzer

A model of the helpers that the jsonalyzer's ctags-based analyzer uses,
from `worker/ctags/ctags_util.js`, with proofs of what they promise:

- turning regular-expression matches into symbol records and accumulating
  them in a shared results map (`findMatchingTags`);
- recovering the documentation comment above a definition, either a run of
  `#` lines or a C-style block comment (`extractDocumentationAtRow`);
- rendering that comment as HTML (`filterDocumentation`, `escapeHtml`);
- finding the row of a character offset (`getOffsetRow`);
- guessing an argument list (`guessFargs`);
- choosing the open files whose extension belongs to the same language
  group as a path (`getExtension`, `getCompatibleExtensions`,
  `findMatchingOpenFiles`).

The modules follow the components of the file:

- `JsText` (`js_text.dfy`) gives the JavaScript string operations the file
  relies on their JavaScript meaning. It covers the `\s` and `\w` classes,
  the `.` of a regular expression, `indexOf`, `lastIndexOf`, `substr`,
  `substring` and `join`.
- `OffsetResolver` (`offset_resolver.dfy`) holds `getOffsetRow` and how a
  text relates to its lines.
- `DocFormatter` (`doc_formatter.dfy`) holds `escapeHtml` and the five
  rewrites of `filterDocumentation`.
- `DocExtractor` (`doc_extractor.dfy`) holds `extractDocumentationAtRow`.
  A function gives the meaning of the search (`CommentText`) and is
  characterised declaratively. The scan itself is a set of methods with
  nested loops proved equal to that function.
- `ArgumentGuesser` (`argument_guesser.dfy`) holds `guessFargs`.
- `ExtensionGrouping` (`extension_grouping.dfy`) holds the extension
  helpers and `findMatchingOpenFiles`.
- `TagMatcher` (`tag_matcher.dfy`) holds `findMatchingTags`. The results
  map is the field of a class, `ResultsMap`, which its method updates in
  place. The function `ApplyAll` gives the meaning of the update.

`getOffsetRow`, the loop over the `#` rows, the block-comment scan,
`getCompatibleExtensions` and `findMatchingTags` are loops or in-place
updates in the source. They are methods here (`GetOffsetRow`,
`CollectHashTexts`, `ScanBlock` with `ScanRow` and `ScanCol`,
`GetCompatibleExtensions`, `ResultsMap.FindMatchingTags`), each with an
`ensures` that ties its result or the new state to a specification
function. `findMatchingOpenFiles` is a sequence of statements that ends in
a filter; it is the method `FindMatchingOpenFiles`, and the filter is the
function `KeepCompatible`. `extractDocumentationAtRow` is the method
`ExtractDocumentationAtRow`, which calls the loops above. `getExtension`,
`escapeHtml` and `filterDocumentation` are single expressions in the
source, and `guessFargs` is a single regular-expression match; they are
functions here.

The comment on the `docOnly` test of `findMatchingTags`
(`worker/ctags/ctags_util.js:92`) calls such a rule one that only
contributes documentation. The code does not quite do that: a
documentation-only match that finds documentation for a name with no
record yet falls through the `results[name][0]` test and appends a record
of its own (`worker/ctags/ctags_util.js:95-101`). The model follows the
code; see `TagMatcher.DocOnlyFallsThrough`.

## Model

| member | source | states |
|---|---|---|
| JsText.SkipSpaces | worker/ctags/ctags_util.js:21-22 | what is left after `^\s*` is no longer than the input and does not start with a `\s` character |
| JsText.SkipSpacesSuffix | worker/ctags/ctags_util.js:21-22 | what `^\s*` leaves is a suffix of the line, and everything it skipped is `\s` |
| JsText.TakeLine | worker/ctags/ctags_util.js:22 | the capture of `(.*)` is the longest prefix with no line terminator: it is a prefix, holds no terminator, and is followed by a terminator or the end |
| JsText.LastIndexOf | worker/ctags/ctags_util.js:158 | `lastIndexOf("\n", from)` is the largest index at or below `from` that holds the character, with a `from` past the end clamped, or -1 when there is none |
| JsText.IndexOf | worker/ctags/ctags_util.js:78 | `fullMatch.indexOf(name)` is the first occurrence of the name in the matched text, or -1 when it occurs nowhere |
| JsText.IndexOfChar | worker/ctags/ctags_util.js:132-133 | the first `(` of the line, or -1 exactly when there is none |
| JsText.Substr | worker/ctags/ctags_util.js:46 | `substr(start)` is what follows the first `start` characters: the text is its first `start` characters followed by the result, whose length is the rest; past the end it is "" |
| JsText.Substring | worker/ctags/ctags_util.js:51 | for bounds in order within the text, `substring(a, b)` is the text from `a` up to `b`; a `b` past the end gives `substr(a)`; the result is never longer than the text |
| JsText.SubstringSwap | worker/ctags/ctags_util.js:51 | `substring` gives the same text with its two bounds in either order |
| JsText.Join | worker/ctags/ctags_util.js:52 | `parts.join(sep)`, as the block style uses it here and the `#` style at line 30: the parts with the separator between each two; `JoinAfterEmpty` shows that a leading "" puts the separator before every part, and `OffsetResolver.IsSplitOf` uses it as the meaning of splitting at newlines |
| JsText.JoinAfterEmpty | worker/ctags/ctags_util.js:46-52 | joining parts after a leading "" puts the separator before every part |
| JsText.CountCharAppend | worker/ctags/ctags_util.js:152-163 | the number of newlines in a concatenation is the sum of the numbers in the two parts |
| OffsetResolver.GetOffsetRow | worker/ctags/ctags_util.js:152-163 | the repeated backward `lastIndexOf` returns the number of newlines before the offset (all of them for an offset past the end) |
| OffsetResolver.NewlineBefore | worker/ctags/ctags_util.js:156-161 | when the last newline below the limit is at `p`, there is one more newline below the limit than below `p` (the loop's step) |
| OffsetResolver.NoNewlineBefore | worker/ctags/ctags_util.js:159-160 | when `lastIndexOf` finds no newline below the limit, none is counted there (the loop's exit) |
| OffsetResolver.RowContainsOffset | worker/ctags/ctags_util.js:79-80 | for an offset of a text split into lines, the row found is a row of the lines, and the offset lies between that row's start and its end |
| DocFormatter.EscapeHtmlPerChar | worker/ctags/ctags_util.js:174-180 | the four chained global replaces, `&` first, escape each character on its own, so no entity is escaped twice |
| DocFormatter.EscapeHtmlOneChar | worker/ctags/ctags_util.js:174-180 | one character is escaped to its entity, or kept when it is not one of `&`, `<`, `>` or `"` |
| DocFormatter.EscapeHtmlAppend | worker/ctags/ctags_util.js:174-180 | escaping a concatenation escapes the two parts separately |
| DocFormatter.EscapeHtmlSafe | worker/ctags/ctags_util.js:174-180 | the escaped text holds no `<`, `>` or `"`, and holds a newline exactly when the input does |
| DocFormatter.EscapeHtmlRoundTrip | worker/ctags/ctags_util.js:174-180 | decoding the four entities gives back the text that was escaped |
| DocFormatter.ReplaceChar | worker/ctags/ctags_util.js:175-178 | one `.replace(/c/g, rep)` of `escapeHtml`: every occurrence of the character replaced, scanning left to right without rescanning the replacement; `EscapeHtmlPerChar` shows the chain of four equals escaping each character on its own |
| DocFormatter.EscapeHtml | worker/ctags/ctags_util.js:174-180 | the four chained global replaces, `&` first; `EscapeHtmlPerChar` shows they escape each character on its own, and `EscapeHtmlSafe` and `EscapeHtmlRoundTrip` what follows from that |
| DocFormatter.CollapseNoSpaceAfterNewline | worker/ctags/ctags_util.js:167 | after the first rewrite, no newline is followed by a `\s` character |
| DocFormatter.ParagraphsNeverFire | worker/ctags/ctags_util.js:167-168 | the blank-line rewrite never fires on the output of the first rewrite |
| DocFormatter.MarkFirstTagFrom | worker/ctags/ctags_util.js:169 | the rewrite without `g` changes nothing when there is no `\n@word`, and inserts the break before the first one only |
| DocFormatter.WordRun | worker/ctags/ctags_util.js:169-171 | the capture of `(\w+)` is the longest prefix of word characters |
| DocFormatter.ParamTagRendered | worker/ctags/ctags_util.js:170-171 | a line `@param NAME` becomes a break, a bold `@param` and the name in italics, and the last rewrite leaves that markup alone |
| DocFormatter.OtherTagRendered | worker/ctags/ctags_util.js:170-171 | any other `@tag` opening a line becomes a break and the bold tag |
| DocFormatter.RenderParamsAtOtherTag | worker/ctags/ctags_util.js:170 | the `@param` rewrite passes over a tag that is not `@param NAME` |
| DocFormatter.FilterDocumentationHasNoQuote | worker/ctags/ctags_util.js:165-172 | no double quote survives the formatter: the markup it adds holds none |
| DocFormatter.FilterDocumentationOneLine | worker/ctags/ctags_util.js:165-172 | documentation without a newline is only HTML-escaped |
| DocFormatter.FilterDocumentation | worker/ctags/ctags_util.js:165-172 | `escapeHtml` and then the five rewrites in the order of the source; `FilterDocumentationHasNoQuote`, `FilterDocumentationOneLine`, `ParamTagRendered` and `OtherTagRendered` state its behaviour without quotes, on one line and at a tag |
| DocFormatter.Collapse | worker/ctags/ctags_util.js:167 | the first rewrite: a newline with the white space after it, and with a `*` and its white space when one follows, becomes one newline; `CollapseAtMarker` and `CollapseAtBreak` show that the text after the marker or the white space is kept, `CollapseCopy` that text without a newline is copied, and `CollapseNoSpaceAfterNewline` and `CollapseFree` what the output cannot hold |
| DocFormatter.CollapseAtMarker | worker/ctags/ctags_util.js:167 | a newline, white space, a `*` and white space become one newline, and the text after them is kept and rewritten on |
| DocFormatter.CollapseAtBreak | worker/ctags/ctags_util.js:167 | a newline and the white space after it, with no `*` next, become one newline, and the text after them is kept and rewritten on |
| DocFormatter.CollapseCopy | worker/ctags/ctags_util.js:167 | the rewrite copies text that holds no newline unchanged |
| DocFormatter.Paragraphs | worker/ctags/ctags_util.js:168 | the blank-line rewrite of two newlines not followed by `@`; `ParagraphsIdle` and `ParagraphsNeverFire` show that it changes nothing after the first rewrite |
| DocFormatter.MarkFirstTag | worker/ctags/ctags_util.js:169 | the rewrite without `g`, searching from the start; the contract of `MarkFirstTagFrom` says what it does |
| DocFormatter.RenderParams | worker/ctags/ctags_util.js:170 | the global `@param NAME` rewrite; `RenderParamsAtParam`, `RenderParamsAtOtherTag` and `RenderParamsCopy` state its behaviour at a `@param` tag, at another tag and on text without a newline |
| DocFormatter.RenderTags | worker/ctags/ctags_util.js:171 | the global `@tag` rewrite; `RenderTagsAtTag`, `RenderTagsCopy` and `OtherTagRendered` state its behaviour at a tag and on text in which no tag starts |
| DocExtractor.HashRows | worker/ctags/ctags_util.js:21-29 | the run of `#` rows from the row upwards is empty when the row is negative, is no longer than the rows above, and holds only `#` lines |
| DocExtractor.IsHashLine | worker/ctags/ctags_util.js:21 | the test of a `#` line: the first character after the leading white space is `#`; `HashTextOf` shows that white space, `#` and a text make one |
| DocExtractor.HashText | worker/ctags/ctags_util.js:22 | the capture after `#` and its white space, up to a line terminator; `HashTextOf` states it in terms of the parts of the line |
| DocExtractor.HashRowsMeaning | worker/ctags/ctags_util.js:24-29 | the run consists of the rows from the starting row upwards, in that order, and stops at the first row above that is not a `#` line |
| DocExtractor.HashTextsMeaning | worker/ctags/ctags_util.js:22-28 | every `#` row contributes the text after `#` and its white space, at the row's own place |
| DocExtractor.HashTextOf | worker/ctags/ctags_util.js:21-22 | a line made of white space, `#`, white space, a text and a line terminator (or the end) is a `#` line, and its text is that text |
| DocExtractor.HashRowsAre | worker/ctags/ctags_util.js:24-29 | when rows `top` to `row` are `#` lines and the row above `top` is not (or there is none), the run from `row` is those rows, nearest first |
| DocExtractor.TwoHashRows | worker/ctags/ctags_util.js:20-30 | two `# word` rows give the lower word, a newline, then the upper word |
| DocExtractor.SeekClose | worker/ctags/ctags_util.js:35-44 | when the first phase of the search stops at a closing marker or at other code, it stops at a position within the region it scans (which one is `SeekCloseMeaning`) |
| DocExtractor.SeekCloseMeaning | worker/ctags/ctags_util.js:35-44 | it reports the first such position from the end, with only white space and `/` before it in scan order, or that there is none |
| DocExtractor.SeekOpen | worker/ctags/ctags_util.js:45 | when the second phase of the search stops at an opening marker, it stops within the region it scans (which one is `SeekOpenMeaning`) |
| DocExtractor.SeekOpenMeaning | worker/ctags/ctags_util.js:45 | it reports the first opening marker in scan order after the closing marker, or that there is none |
| DocExtractor.BlockCommentFound | worker/ctags/ctags_util.js:34-55 | a closing marker with only white space and `/` after it, and the nearest opening marker above it, give the rows between them joined by newlines |
| DocExtractor.ForeignCodeAborts | worker/ctags/ctags_util.js:42-43 | other code reached before a closing marker means no documentation |
| DocExtractor.NothingAboveRow | worker/ctags/ctags_util.js:35-56 | only white space and `/` up to the start of the text means no documentation |
| DocExtractor.UnopenedComment | worker/ctags/ctags_util.js:45-56 | a closing marker that no opening marker precedes means no documentation |
| DocExtractor.BlockComment | worker/ctags/ctags_util.js:34-55 | the block search: the first phase from the end of the row, then the second from the closing marker; `BlockCommentFound`, `ForeignCodeAborts`, `NothingAboveRow` and `UnopenedComment` characterise it |
| DocExtractor.CommentText | worker/ctags/ctags_util.js:18-55 | none for a row before the first, the `#` texts for a `#` row, the block comment otherwise; `ExtractDocumentationAtRow` computes it |
| DocExtractor.DocumentationAtRow | worker/ctags/ctags_util.js:18-56 | the comment text through `filterDocumentation`; `ExtractDocumentationAtRow` returns it |
| DocExtractor.BlockRows | worker/ctags/ctags_util.js:46-51 | the rows of a comment that are joined; `MultiRowText`, `OneRowText` and `EmptyCommentText` give them |
| DocExtractor.MultiRowText | worker/ctags/ctags_util.js:46-49 | a comment over several rows is the opening row from the third character after its `/`, every row between, and the closing row up to its marker, each after a newline |
| DocExtractor.OneRowText | worker/ctags/ctags_util.js:50-51 | a comment on one row is a newline and the text from the third character after the opening `/` up to the closing `*` |
| DocExtractor.EmptyCommentText | worker/ctags/ctags_util.js:51 | for the empty comment, `substring` swaps its reversed bounds, so the text is the `*` after the opening marker |
| DocExtractor.CodeBeforeCommentExample | worker/ctags/ctags_util.js:42-43 | a row above that ends in text other than white space, `/` or a closing marker gives no documentation |
| DocExtractor.TwoRowCommentExample | worker/ctags/ctags_util.js:46-52 | a two-row comment gives a newline, the first row's text, a newline and the second row's text |
| DocExtractor.CollectRows | worker/ctags/ctags_util.js:46-51 | the pushes build exactly the rows of the comment |
| DocExtractor.CollectHashTexts | worker/ctags/ctags_util.js:22-29 | the loop collects the texts of the `#` run from the row upwards |
| DocExtractor.ScanRow | worker/ctags/ctags_util.js:36-54 | the column loop over one row either finishes the search with that row's answer or carries the state on to the row above |
| DocExtractor.ScanCol | worker/ctags/ctags_util.js:37-53 | one column of the search: a closing marker is recorded and skips a column, other code ends the search with nothing, an opening marker ends it with the comment, and in every case the outcome of the search is unchanged |
| DocExtractor.ScanBlock | worker/ctags/ctags_util.js:34-55 | the nested loops return the block comment of the declarative search |
| DocExtractor.ExtractDocumentationAtRow | worker/ctags/ctags_util.js:18-56 | the method returns the formatted comment text of the row: the `#` style for a `#` row, the block style otherwise, and none for a row before the first |
| ArgumentGuesser.ArgRun | worker/ctags/ctags_util.js:131 | `[A-Za-z0-9$_,\s]*` takes the longest prefix of class characters |
| ArgumentGuesser.GuessFargs | worker/ctags/ctags_util.js:130-135 | the guess is "" exactly when the line has no `(`, and otherwise starts with `(` (GuessFargsClosed and GuessFargsOpen give the rest) |
| ArgumentGuesser.GuessAfter | worker/ctags/ctags_util.js:131-134 | the text built from a match always starts with the `(` that the regular expression matched |
| ArgumentGuesser.GuessFargsClosed | worker/ctags/ctags_util.js:130-135 | class characters closed by `)` after the first `(` give that list with both parentheses |
| ArgumentGuesser.GuessFargsOpen | worker/ctags/ctags_util.js:130-135 | class characters after the first `(` that are not closed by `)` give the open list followed by "..." |
| ExtensionGrouping.GetExtension | worker/ctags/ctags_util.js:137-139 | the extension is the longest suffix without `.`, preceded by a `.` unless it is the whole path |
| ExtensionGrouping.GetCompatibleExtensions | worker/ctags/ctags_util.js:144-150 | the search loop with early return gives the first group holding the extension, else the extension alone |
| ExtensionGrouping.CompatibleExtensions | worker/ctags/ctags_util.js:144-150 | the groups tried in order; `CompatibleHasSelf`, `CompatibleIsFirstGroup` and `CompatibleUngrouped` characterise it, and `GetCompatibleExtensions` computes it |
| ExtensionGrouping.CompatibleHasSelf | worker/ctags/ctags_util.js:144-150 | the compatible extensions always include the extension itself |
| ExtensionGrouping.CompatibleIsFirstGroup | worker/ctags/ctags_util.js:145-147 | the first group holding the extension is the one returned |
| ExtensionGrouping.CompatibleUngrouped | worker/ctags/ctags_util.js:149 | an extension in no group is compatible only with itself |
| ExtensionGrouping.KeepCompatible | worker/ctags/ctags_util.js:124-126 | the filter of the open files by extension; `KeepCompatibleMembers` and `KeepCompatibleAppend` characterise it |
| ExtensionGrouping.KeepCompatibleMembers | worker/ctags/ctags_util.js:124-126 | a file is kept exactly when it is open and its extension is supported |
| ExtensionGrouping.KeepCompatibleAppend | worker/ctags/ctags_util.js:124-126 | the filter works file by file, so the order of the open files is kept |
| ExtensionGrouping.FindMatchingOpenFiles | worker/ctags/ctags_util.js:120-128 | the result is the open files filtered by the group of the path's extension |
| ExtensionGrouping.SameGroupOffered | worker/ctags/ctags_util.js:120-128 | an open file whose extension shares the path's group is offered, and one outside it is not |
| TagMatcher.DocHeadShape | worker/ctags/ctags_util.js:84-86 | a line of up to 80 characters is shown whole; a longer one never is: what is shown is a proper suffix of it followed by "..." |
| TagMatcher.DocHead | worker/ctags/ctags_util.js:84-86 | the excerpt of a line; `DocHeadShape` states its shape |
| TagMatcher.NameOffset | worker/ctags/ctags_util.js:78-79 | the offset looked up lies within the matched text: no earlier than its start and no later than its end |
| TagMatcher.NameAtOffset | worker/ctags/ctags_util.js:78-79 | when the name occurs in the matched text, the name itself occurs in the contents at the offset looked up; when it does not, that offset is the offset of the match |
| TagMatcher.NameRow | worker/ctags/ctags_util.js:78-80 | the row of a match is a row of the lines, and it holds the offset of the name |
| TagMatcher.NewRecord | worker/ctags/ctags_util.js:78-107 | the record has the row of the name, the rule's kind and the `guessFargs` flag; with extraction it has the excerpt of its line and the documentation of the row above; without extraction it has neither |
| TagMatcher.BuildRecord | worker/ctags/ctags_util.js:78-88 | the method computes that record through `getOffsetRow`, the 80-character excerpt and `extractDocumentationAtRow` |
| TagMatcher.Documentation | worker/ctags/ctags_util.js:83-87 | `doc` is the documentation of the row above the match, extracted only when asked for |
| TagMatcher.Accumulate | worker/ctags/ctags_util.js:90-107 | what the callback does with its record; `AccumulateFrame` and `AccumulateExtends` hold of it for every record |
| TagMatcher.ApplyMatch | worker/ctags/ctags_util.js:75-107 | one call of the callback; `ApplyMatchFrame`, `ApplyMatchAppends`, `ApplyMatchExtends` and the three `DocOnly` lemmas characterise it |
| TagMatcher.ApplyAll | worker/ctags/ctags_util.js:75-109 | the callback over the matches in order; `ApplyAllKeys`, `ApplyAllFrame`, `ApplyAllExtends`, `ApplyAllRowsWithin` and `ApplyAllCounts` characterise it |
| TagMatcher.ConfigCheck | worker/ctags/ctags_util.js:72-76 | the two `assert` calls: a rule without `g` fails, and so does one with a capture count other than one once there is a match; `ResultsMap.FindMatchingTags` acts on it |
| TagMatcher.ApplyMatchFrame | worker/ctags/ctags_util.js:90-107 | a match creates the name's slot and leaves every other name's list as it was |
| TagMatcher.AccumulateFrame | worker/ctags/ctags_util.js:90-107 | filing any record adds exactly the name's key and leaves the list of every other name as it was |
| TagMatcher.AccumulateExtends | worker/ctags/ctags_util.js:90-107 | filing any record loses no name, shortens no list and changes no record other than the `doc` of a first record |
| TagMatcher.ApplyMatchAppends | worker/ctags/ctags_util.js:101-107 | a rule that is not documentation-only appends exactly its record after the records the name had |
| TagMatcher.DocOnlyWithoutDoc | worker/ctags/ctags_util.js:92-94 | a documentation-only match that finds no documentation (absent or "") only creates the possibly empty list |
| TagMatcher.DocOnlyAttaches | worker/ctags/ctags_util.js:95-98 | a documentation-only match with documentation for a name with records keeps the list's length and records and changes only the first record's `doc` |
| TagMatcher.DocOnlyFallsThrough | worker/ctags/ctags_util.js:92-107 | a documentation-only match with documentation for a name without records appends its record |
| TagMatcher.DefinitionThenDocumentation | worker/ctags/ctags_util.js:90-107 | a definition followed by a documentation-only match for the same name leaves one record, the definition's, with the documentation attached |
| TagMatcher.ApplyMatchExtends | worker/ctags/ctags_util.js:90-107 | one callback loses no name, shortens no list, and changes no record other than the `doc` of a first record |
| TagMatcher.ApplyAllExtends | worker/ctags/ctags_util.js:75-109 | the same holds over all the matches of a rule, so records carry over between rules |
| TagMatcher.ApplyAllKeys | worker/ctags/ctags_util.js:75-109 | the names of the map afterwards are the names it had plus the names the matches capture |
| TagMatcher.ApplyAllFrame | worker/ctags/ctags_util.js:75-109 | the list of a name that no match captures is unchanged |
| TagMatcher.ApplyAllRowsWithin | worker/ctags/ctags_util.js:75-109 | every record in the map has a row of the text, if every record had one before |
| TagMatcher.ApplyAllCounts | worker/ctags/ctags_util.js:75-109 | under a rule that is not documentation-only, each name's list grows by one record per match of that name, after the records it had |
| TagMatcher.ResultsMap.FindMatchingTags | worker/ctags/ctags_util.js:71-112 | a rule without `g`, or with matches and a capture count other than one, fails with the map unchanged; otherwise the map becomes the callbacks applied to the matches in order |
| TagMatcher.ResultsMap.File | worker/ctags/ctags_util.js:90-107 | filing a record updates the map as the slot rules say |

## Left out

- The regular-expression engine behind `contents.replace(tag.regex, …)` is not modelled. A rule's matches are an input: each gives the matched text, the capture and an offset at which the matched text occurs in the contents. The rule's `g` flag and its number of capture groups are fields of the rule.
- The two `assert` calls of `findMatchingTags` throw. Here they are an error result, and the map is unchanged. The group-count check fails at the first match, before any update.
- The code reads `lines[row]` with a row computed from `contents` (`worker/ctags/ctags_util.js:79-80`), so the two must agree. `OffsetResolver.IsSplitOf` states that `lines` is `contents` split at "\n", and `ResultsMap.FindMatchingTags`, `TagMatcher.ApplyMatch` and `TagMatcher.ApplyAll` require it.
- The results map is an optional parameter of `findMatchingTags`. When it is omitted, line 90 reads a property of `undefined` and throws. The model always supplies a map: it is the state of `ResultsMap`.
- An undefined capture is not modelled: the name is always a string.
- `workerUtil.getOpenFiles()` is an editor query. The list of open files is a parameter of `FindMatchingOpenFiles`.
- `EXTENSION_GROUPS`, derived from the ctags language table, is configuration. It is a parameter.
- The `"_"` prefix of the results' keys only protects against built-in object keys. The map uses plain names, and the order of keys is not modelled.
- The `_self`/`this` dispatch of `extractDocumentationAtRow` is not modelled; the module's own definition is always used.
- DocExtractor.ExtractDocumentationAtRow: requires `row < |lines|`. In the source, `extractDocumentationAtRow` is exported, and a row past the last line makes `lines[row]` undefined: the `line &&` test at line 21 skips the `#` branch, and `line.length` at line 37 throws. The model does not contain that error path. The one caller in the file passes `row - 1` for a row of the lines, which always meets the precondition.
- `findMatchingTags` returns the same map it was given. In the model, the map is the field of `ResultsMap` that the method updates.
- Records are values. The identity of the record whose `doc` is overwritten, as seen through other references, is not modelled.
- The AMD `define` wrapper and the `module.exports` assignments are not modelled.
- Characters are Unicode scalar values, not UTF-16 code units. The `\s` class is the JavaScript set of white space and line terminators.
- `guessFargs` sets `lastIndex` from the name, but its expression has no `g` flag, so `exec` ignores it. `ArgumentGuesser.GuessFargs` has no use for its name parameter; the parameter is kept for its signature.
- `ctags_ex.js` and the other ctags files are not part of this model.

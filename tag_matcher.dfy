/**
 * `findMatchingTags`: the matches of one pattern rule over a source text
 * are turned into records and accumulated in a results map from symbol
 * names to lists of records. The map is shared between calls, one per rule,
 * and is updated in place, so the state lives in a class.
 */
module TagMatcher {
  import opened JsText
  import OffsetResolver
  import DocExtractor

  /** `MAX_DOCHEAD_LENGTH`. */
  const MaxDocHeadLength: nat := 80

  /** One match of the rule's expression: the matched text, its capture and the offset of the match. */
  datatype Match = Match(fullMatch: string, name: string, offset: nat)

  /**
   * A pattern rule: whether its expression has the `g` flag, how many
   * capture groups it has, the kind of symbol it finds and whether it only
   * contributes documentation.
   */
  datatype Rule = Rule(global: bool, groupCount: nat, kind: string, docOnly: bool)

  /** A record of the results map; `docHead` and `doc` are absent when documentation is not extracted. */
  datatype Record = Record(row: nat, docHead: Option<string>, guessFargs: bool, doc: Option<string>, kind: string)

  /** The two configuration assertions, which throw. */
  datatype ConfigError = NotGlobal | WrongGroupCount

  /** The shown excerpt of the defining line: the line, or for a long one its part from the cap on and "...". */
  function DocHead(line: string): string {
    if |line| > MaxDocHeadLength then Substr(line, MaxDocHeadLength) + "..." else line
  }

  /**
   * A line up to the cap is shown whole; a longer one is never shown whole:
   * what is shown is a proper suffix of it followed by "...".
   */
  lemma DocHeadShape(line: string)
    ensures |line| <= MaxDocHeadLength ==> DocHead(line) == line
    ensures |line| > MaxDocHeadLength ==>
      && DocHead(line) != line
      && |DocHead(line)| >= 3
      && DocHead(line)[|DocHead(line)| - 3..] == "..."
      && var shown := DocHead(line)[..|DocHead(line)| - 3];
         |shown| < |line| && shown == line[|line| - |shown|..]
  {
    if |line| > MaxDocHeadLength {
      var h := DocHead(line);
      assert h == line[MaxDocHeadLength..] + "...";
      assert |h| == |line| - MaxDocHeadLength + 3;
      assert h[..|h| - 3] == line[MaxDocHeadLength..];
    }
  }

  /** The offset whose row is recorded: that of the name within the match, or of the match when the name is not found in it. */
  function NameOffset(m: Match): (p: nat)
    ensures m.offset <= p <= m.offset + |m.fullMatch|
  {
    var added := IndexOf(m.fullMatch, m.name);
    m.offset + (if added == -1 then 0 else added)
  }

  /**
   * When the name occurs in the matched text, the offset looked up is one
   * where the name itself sits in the contents; otherwise it is the offset
   * of the match.
   */
  lemma NameAtOffset(contents: string, m: Match)
    requires OccursAt(contents, m.fullMatch, m.offset)
    ensures IndexOf(m.fullMatch, m.name) >= 0 ==> OccursAt(contents, m.name, NameOffset(m))
    ensures IndexOf(m.fullMatch, m.name) < 0 ==> NameOffset(m) == m.offset
  {
    var k := IndexOf(m.fullMatch, m.name);
    if k >= 0 {
      SliceOfSlice(contents, m.offset, m.offset + |m.fullMatch|, k, k + |m.name|);
    }
  }

  /** The matched text is a piece of the contents at the match's offset. */
  predicate MatchesIn(contents: string, ms: seq<Match>) {
    forall i :: 0 <= i < |ms| ==> OccursAt(contents, ms[i].fullMatch, ms[i].offset)
  }

  /** The row of a match is a row of the text, and it is the row that holds the name's offset. */
  lemma {:induction false} NameRow(lines: seq<string>, contents: string, m: Match)
    requires OffsetResolver.IsSplitOf(lines, contents)
    requires OccursAt(contents, m.fullMatch, m.offset)
    ensures NameOffset(m) <= |contents|
    ensures OffsetResolver.NewlinesBefore(contents, NameOffset(m)) < |lines|
    ensures var row := OffsetResolver.NewlinesBefore(contents, NameOffset(m));
      OffsetResolver.LineStart(lines, row) <= NameOffset(m) <= OffsetResolver.LineStart(lines, row) + |lines[row]|
  {
    OffsetResolver.RowContainsOffset(lines, contents, NameOffset(m));
  }

  /** With extraction, the documentation of the row above `row`; without it, none. */
  function RecordDoc(lines: seq<string>, row: nat, extract: bool): Option<string>
    requires row < |lines|
  {
    if extract then DocExtractor.DocumentationAtRow(lines, row - 1) else None
  }

  /** With extraction, the excerpt of the line of `row`; without it, none. */
  function RecordHead(lines: seq<string>, row: nat, extract: bool): Option<string>
    requires row < |lines|
  {
    if extract then Some(DocHead(lines[row])) else None
  }

  /** The record a match would add: its row, and with extraction the excerpt and the documentation just above. */
  function NewRecord(lines: seq<string>, contents: string, rule: Rule, extract: bool, guess: bool, m: Match): (rec: Record)
    requires OffsetResolver.IsSplitOf(lines, contents)
    requires OccursAt(contents, m.fullMatch, m.offset)
    ensures rec.row < |lines|
    ensures rec.row == OffsetResolver.NewlinesBefore(contents, NameOffset(m))
    ensures rec.kind == rule.kind && rec.guessFargs == guess
    ensures rec.docHead == RecordHead(lines, rec.row, extract) && rec.doc == RecordDoc(lines, rec.row, extract)
  {
    NameRow(lines, contents, m);
    var row := OffsetResolver.NewlinesBefore(contents, NameOffset(m));
    Record(row, RecordHead(lines, row, extract), guess, RecordDoc(lines, row, extract), rule.kind)
  }

  /** A record with the fields that `NewRecord` describes is that record. */
  lemma NewRecordIs(lines: seq<string>, contents: string, rule: Rule, extract: bool, guess: bool, m: Match,
                    row: nat, docHead: Option<string>, doc: Option<string>)
    requires OffsetResolver.IsSplitOf(lines, contents)
    requires OccursAt(contents, m.fullMatch, m.offset)
    requires row == OffsetResolver.NewlinesBefore(contents, NameOffset(m)) < |lines|
    requires docHead == RecordHead(lines, row, extract) && doc == RecordDoc(lines, row, extract)
    ensures Record(row, docHead, guess, doc, rule.kind) == NewRecord(lines, contents, rule, extract, guess, m)
  {
  }

  /** The list of `name`, with the empty list for a name not yet in the map. */
  function Slot(entries: map<string, seq<Record>>, name: string): seq<Record> {
    if name in entries then entries[name] else []
  }

  /** JavaScript's falsiness of the documentation: absent or the empty string. */
  predicate NoDoc(doc: Option<string>) {
    doc == None || doc == Some("")
  }

  /**
   * What the callback does with the record it built: the slot of the name is
   * created, a documentation-only rule without documentation stops there,
   * one with documentation and a first record overwrites that record's
   * `doc`, and every other case appends the record.
   */
  function Accumulate(entries: map<string, seq<Record>>, docOnly: bool, name: string, rec: Record): map<string, seq<Record>> {
    var slot := Slot(entries, name);
    if docOnly && NoDoc(rec.doc) then entries[name := slot]
    else if docOnly && |slot| > 0 then entries[name := [slot[0].(doc := rec.doc)] + slot[1..]]
    else entries[name := slot + [rec]]
  }

  /** One call of the replace callback. */
  function ApplyMatch(entries: map<string, seq<Record>>, lines: seq<string>, contents: string,
                      rule: Rule, extract: bool, guess: bool, m: Match): map<string, seq<Record>>
    requires OffsetResolver.IsSplitOf(lines, contents)
    requires OccursAt(contents, m.fullMatch, m.offset)
  {
    Accumulate(entries, rule.docOnly, m.name, NewRecord(lines, contents, rule, extract, guess, m))
  }

  /** The callback applied to the matches in order. */
  function ApplyAll(entries: map<string, seq<Record>>, lines: seq<string>, contents: string,
                    rule: Rule, extract: bool, guess: bool, ms: seq<Match>): map<string, seq<Record>>
    requires OffsetResolver.IsSplitOf(lines, contents)
    requires MatchesIn(contents, ms)
  {
    if |ms| == 0 then entries
    else
      ApplyMatch(ApplyAll(entries, lines, contents, rule, extract, guess, ms[..|ms| - 1]),
                 lines, contents, rule, extract, guess, ms[|ms| - 1])
  }

  /** The callbacks for the first `i + 1` matches: those for the first `i`, then the one for match `i`. */
  lemma ApplyAllStep(entries: map<string, seq<Record>>, lines: seq<string>, contents: string,
                     rule: Rule, extract: bool, guess: bool, ms: seq<Match>, i: nat)
    requires OffsetResolver.IsSplitOf(lines, contents)
    requires MatchesIn(contents, ms) && i < |ms|
    ensures ApplyAll(entries, lines, contents, rule, extract, guess, ms[..i + 1])
      == Accumulate(ApplyAll(entries, lines, contents, rule, extract, guess, ms[..i]),
                    rule.docOnly, ms[i].name, NewRecord(lines, contents, rule, extract, guess, ms[i]))
  {
    assert ms[..i + 1][..i] == ms[..i];
  }

  /** The assertion that throws first, if any: the `g` flag before the first match, the group count at it. */
  function ConfigCheck(rule: Rule, ms: seq<Match>): Option<ConfigError> {
    if !rule.global then Some(NotGlobal)
    else if rule.groupCount != 1 && |ms| > 0 then Some(WrongGroupCount)
    else None
  }

  /** The map is the same except for the one list of `name`. */
  lemma ApplyMatchFrame(entries: map<string, seq<Record>>, lines: seq<string>, contents: string,
                        rule: Rule, extract: bool, guess: bool, m: Match, k: string)
    requires OffsetResolver.IsSplitOf(lines, contents)
    requires OccursAt(contents, m.fullMatch, m.offset)
    ensures ApplyMatch(entries, lines, contents, rule, extract, guess, m).Keys == entries.Keys + {m.name}
    ensures k != m.name && k in entries ==> ApplyMatch(entries, lines, contents, rule, extract, guess, m)[k] == entries[k]
  {
    AccumulateFrame(entries, rule.docOnly, m.name, NewRecord(lines, contents, rule, extract, guess, m), k);
  }

  lemma AccumulateFrame(entries: map<string, seq<Record>>, docOnly: bool, name: string, rec: Record, k: string)
    ensures Accumulate(entries, docOnly, name, rec).Keys == entries.Keys + {name}
    ensures k != name && k in entries ==> Accumulate(entries, docOnly, name, rec)[k] == entries[k]
  {
  }

  /** A rule that is not documentation-only appends exactly its new record to the end of the name's list. */
  lemma ApplyMatchAppends(entries: map<string, seq<Record>>, lines: seq<string>, contents: string,
                          rule: Rule, extract: bool, guess: bool, m: Match)
    requires OffsetResolver.IsSplitOf(lines, contents)
    requires OccursAt(contents, m.fullMatch, m.offset)
    requires !rule.docOnly
    ensures var after: map<string, seq<Record>> := ApplyMatch(entries, lines, contents, rule, extract, guess, m);
      && |after[m.name]| == |Slot(entries, m.name)| + 1
      && after[m.name][..|Slot(entries, m.name)|] == Slot(entries, m.name)
      && after[m.name][|Slot(entries, m.name)|] == NewRecord(lines, contents, rule, extract, guess, m)
  {
  }

  /** A documentation-only rule that finds no documentation only creates the (possibly empty) list of the name. */
  lemma DocOnlyWithoutDoc(entries: map<string, seq<Record>>, lines: seq<string>, contents: string,
                          rule: Rule, extract: bool, guess: bool, m: Match)
    requires OffsetResolver.IsSplitOf(lines, contents)
    requires OccursAt(contents, m.fullMatch, m.offset)
    requires rule.docOnly
    requires NoDoc(NewRecord(lines, contents, rule, extract, guess, m).doc)
    ensures ApplyMatch(entries, lines, contents, rule, extract, guess, m)[m.name] == Slot(entries, m.name)
  {
  }

  /**
   * A documentation-only rule that finds documentation for a name that
   * already has records: the list keeps its length and its records, and only
   * the `doc` of the first record becomes the documentation found.
   */
  lemma DocOnlyAttaches(entries: map<string, seq<Record>>, lines: seq<string>, contents: string,
                        rule: Rule, extract: bool, guess: bool, m: Match, d: string)
    requires OffsetResolver.IsSplitOf(lines, contents)
    requires OccursAt(contents, m.fullMatch, m.offset)
    requires rule.docOnly && |Slot(entries, m.name)| > 0
    requires NewRecord(lines, contents, rule, extract, guess, m).doc == Some(d) && d != ""
    ensures var l := ApplyMatch(entries, lines, contents, rule, extract, guess, m)[m.name];
      && |l| == |entries[m.name]|
      && l[0] == entries[m.name][0].(doc := Some(d))
      && l[1..] == entries[m.name][1..]
  {
  }

  /**
   * A documentation-only rule that finds documentation for a name without
   * records does not drop it: the test of `results[name][0]` fails and the
   * code goes on to append the new record, so this rule does originate a record.
   */
  lemma DocOnlyFallsThrough(entries: map<string, seq<Record>>, lines: seq<string>, contents: string,
                            rule: Rule, extract: bool, guess: bool, m: Match, d: string)
    requires OffsetResolver.IsSplitOf(lines, contents)
    requires OccursAt(contents, m.fullMatch, m.offset)
    requires rule.docOnly && |Slot(entries, m.name)| == 0
    requires NewRecord(lines, contents, rule, extract, guess, m).doc == Some(d) && d != ""
    ensures ApplyMatch(entries, lines, contents, rule, extract, guess, m)[m.name]
      == [NewRecord(lines, contents, rule, extract, guess, m)]
  {
  }

  /** The names the matches capture. */
  function Names(ms: seq<Match>): set<string> {
    set i | 0 <= i < |ms| :: ms[i].name
  }

  /** How many of the matches capture `k`. */
  function CountName(ms: seq<Match>, k: string): nat {
    if |ms| == 0 then 0 else CountName(ms[..|ms| - 1], k) + (if ms[|ms| - 1].name == k then 1 else 0)
  }

  /** Every record of the map has a row of the text. */
  predicate RowsWithin(entries: map<string, seq<Record>>, n: nat) {
    forall k, i :: k in entries && 0 <= i < |entries[k]| ==> entries[k][i].row < n
  }

  /**
   * `after` grows `before`: no name is lost, no list gets shorter, and every
   * record is kept, except that the first record of a list may get another `doc`.
   */
  predicate Extends(before: map<string, seq<Record>>, after: map<string, seq<Record>>) {
    forall k :: k in before ==>
      && k in after
      && |after[k]| >= |before[k]|
      && (|before[k]| > 0 ==> after[k][0] == before[k][0].(doc := after[k][0].doc))
      && forall i :: 0 < i < |before[k]| ==> after[k][i] == before[k][i]
  }

  lemma ExtendsTransitive(a: map<string, seq<Record>>, b: map<string, seq<Record>>, c: map<string, seq<Record>>)
    requires Extends(a, b) && Extends(b, c)
    ensures Extends(a, c)
  {
    forall k | k in a
      ensures |a[k]| > 0 ==> c[k][0] == a[k][0].(doc := c[k][0].doc)
    {
      if |a[k]| > 0 {
        assert b[k][0] == a[k][0].(doc := b[k][0].doc);
        assert c[k][0] == b[k][0].(doc := c[k][0].doc);
      }
    }
  }

  /** The accumulated map has the names it had and those the matches capture, and nothing else. */
  lemma {:induction false} ApplyAllKeys(entries: map<string, seq<Record>>, lines: seq<string>, contents: string,
                                        rule: Rule, extract: bool, guess: bool, ms: seq<Match>)
    requires OffsetResolver.IsSplitOf(lines, contents)
    requires MatchesIn(contents, ms)
    ensures ApplyAll(entries, lines, contents, rule, extract, guess, ms).Keys == entries.Keys + Names(ms)
  {
    if |ms| > 0 {
      var init := ms[..|ms| - 1];
      var last := ms[|ms| - 1];
      ApplyAllKeys(entries, lines, contents, rule, extract, guess, init);
      ApplyMatchFrame(ApplyAll(entries, lines, contents, rule, extract, guess, init), lines, contents, rule, extract, guess, last, last.name);
      NamesSnoc(ms);
    }
  }

  lemma NamesSnoc(ms: seq<Match>)
    requires |ms| > 0
    ensures Names(ms) == Names(ms[..|ms| - 1]) + {ms[|ms| - 1].name}
  {
    var init := ms[..|ms| - 1];
    forall x | x in Names(ms) ensures x in Names(init) + {ms[|ms| - 1].name} {
      var i :| 0 <= i < |ms| && ms[i].name == x;
      if i < |ms| - 1 {
        assert init[i] == ms[i];
      }
    }
    forall x | x in Names(init) ensures x in Names(ms) {
      var i :| 0 <= i < |init| && init[i].name == x;
      assert ms[i] == init[i];
    }
  }

  /** The list of a name that no match captures is left as it was. */
  lemma {:induction false} ApplyAllFrame(entries: map<string, seq<Record>>, lines: seq<string>, contents: string,
                                         rule: Rule, extract: bool, guess: bool, ms: seq<Match>, k: string)
    requires OffsetResolver.IsSplitOf(lines, contents)
    requires MatchesIn(contents, ms)
    requires k in entries
    requires forall i :: 0 <= i < |ms| ==> ms[i].name != k
    ensures k in ApplyAll(entries, lines, contents, rule, extract, guess, ms)
    ensures ApplyAll(entries, lines, contents, rule, extract, guess, ms)[k] == entries[k]
  {
    if |ms| > 0 {
      var init := ms[..|ms| - 1];
      ApplyAllFrame(entries, lines, contents, rule, extract, guess, init, k);
      ApplyMatchFrame(ApplyAll(entries, lines, contents, rule, extract, guess, init), lines, contents, rule, extract, guess, ms[|ms| - 1], k);
    }
  }

  /** One callback keeps every record already there, except possibly the `doc` of a first record. */
  lemma ApplyMatchExtends(entries: map<string, seq<Record>>, lines: seq<string>, contents: string,
                          rule: Rule, extract: bool, guess: bool, m: Match)
    requires OffsetResolver.IsSplitOf(lines, contents)
    requires OccursAt(contents, m.fullMatch, m.offset)
    ensures Extends(entries, ApplyMatch(entries, lines, contents, rule, extract, guess, m))
  {
    AccumulateExtends(entries, rule.docOnly, m.name, NewRecord(lines, contents, rule, extract, guess, m));
  }

  lemma AccumulateExtends(entries: map<string, seq<Record>>, docOnly: bool, name: string, rec: Record)
    ensures Extends(entries, Accumulate(entries, docOnly, name, rec))
  {
    var after: map<string, seq<Record>> := Accumulate(entries, docOnly, name, rec);
    forall k: string | k in entries
      ensures k in after && |after[k]| >= |entries[k]|
      ensures |entries[k]| > 0 ==> after[k][0] == entries[k][0].(doc := after[k][0].doc)
      ensures forall i :: 0 < i < |entries[k]| ==> after[k][i] == entries[k][i]
    {
      if k == name {
        assert Slot(entries, k) == entries[k];
      }
    }
  }

  /** Any run of callbacks keeps the records already there, up to the `doc` of first records. */
  lemma {:induction false} ApplyAllExtends(entries: map<string, seq<Record>>, lines: seq<string>, contents: string,
                                           rule: Rule, extract: bool, guess: bool, ms: seq<Match>)
    requires OffsetResolver.IsSplitOf(lines, contents)
    requires MatchesIn(contents, ms)
    ensures Extends(entries, ApplyAll(entries, lines, contents, rule, extract, guess, ms))
  {
    if |ms| == 0 {
    } else {
      var init := ms[..|ms| - 1];
      var mid := ApplyAll(entries, lines, contents, rule, extract, guess, init);
      ApplyAllExtends(entries, lines, contents, rule, extract, guess, init);
      ApplyMatchExtends(mid, lines, contents, rule, extract, guess, ms[|ms| - 1]);
      ExtendsTransitive(entries, mid, ApplyAll(entries, lines, contents, rule, extract, guess, ms));
    }
  }

  /** Every record of the map keeps a row of the text. */
  lemma {:induction false} ApplyAllRowsWithin(entries: map<string, seq<Record>>, lines: seq<string>, contents: string,
                                              rule: Rule, extract: bool, guess: bool, ms: seq<Match>)
    requires OffsetResolver.IsSplitOf(lines, contents)
    requires MatchesIn(contents, ms)
    requires RowsWithin(entries, |lines|)
    ensures RowsWithin(ApplyAll(entries, lines, contents, rule, extract, guess, ms), |lines|)
  {
    if |ms| > 0 {
      var init := ms[..|ms| - 1];
      var m := ms[|ms| - 1];
      ApplyAllRowsWithin(entries, lines, contents, rule, extract, guess, init);
      var mid := ApplyAll(entries, lines, contents, rule, extract, guess, init);
      AccumulateRowsWithin(mid, rule.docOnly, m.name, NewRecord(lines, contents, rule, extract, guess, m), |lines|);
    }
  }

  lemma AccumulateRowsWithin(entries: map<string, seq<Record>>, docOnly: bool, name: string, rec: Record, n: nat)
    requires RowsWithin(entries, n) && rec.row < n
    ensures RowsWithin(Accumulate(entries, docOnly, name, rec), n)
  {
    var after: map<string, seq<Record>> := Accumulate(entries, docOnly, name, rec);
    var slot := Slot(entries, name);
    forall k: string, i: int | k in after && 0 <= i < |after[k]| ensures after[k][i].row < n {
      if k != name {
        assert after[k] == entries[k];
      } else if i < |slot| {
        assert after[k][i].row == slot[i].row;
      }
    }
  }

  /**
   * Under a rule that is not documentation-only, the list of every name
   * grows by one record per match of that name, after the records it had.
   */
  lemma {:induction false} ApplyAllCounts(entries: map<string, seq<Record>>, lines: seq<string>, contents: string,
                                          rule: Rule, extract: bool, guess: bool, ms: seq<Match>, k: string)
    requires OffsetResolver.IsSplitOf(lines, contents)
    requires MatchesIn(contents, ms)
    requires !rule.docOnly
    ensures var l := Slot(ApplyAll(entries, lines, contents, rule, extract, guess, ms), k);
      |l| == |Slot(entries, k)| + CountName(ms, k) && l[..|Slot(entries, k)|] == Slot(entries, k)
  {
    if |ms| > 0 {
      var init := ms[..|ms| - 1];
      var m := ms[|ms| - 1];
      ApplyAllCounts(entries, lines, contents, rule, extract, guess, init, k);
      var mid := ApplyAll(entries, lines, contents, rule, extract, guess, init);
      var n := |Slot(entries, k)|;
      if m.name == k {
        ApplyMatchAppends(mid, lines, contents, rule, extract, guess, m);
        var l := Slot(ApplyAll(entries, lines, contents, rule, extract, guess, ms), k);
        PrefixOfPrefix(l, Slot(mid, k), Slot(entries, k));
      } else {
        ApplyMatchFrame(mid, lines, contents, rule, extract, guess, m, k);
      }
    }
  }

  /**
   * A definition rule records `foo` and a later documentation-only rule
   * finds its documentation: `foo` has exactly one record, the definition's,
   * with the documentation attached.
   */
  lemma DefinitionThenDocumentation(entries: map<string, seq<Record>>, lines: seq<string>, contents: string,
                                    def: Rule, docRule: Rule, extract: bool, guess: bool,
                                    m1: Match, m2: Match, d: string)
    requires OffsetResolver.IsSplitOf(lines, contents)
    requires OccursAt(contents, m1.fullMatch, m1.offset) && OccursAt(contents, m2.fullMatch, m2.offset)
    requires m1.name == m2.name && m1.name !in entries
    requires !def.docOnly && docRule.docOnly
    requires NewRecord(lines, contents, docRule, extract, guess, m2).doc == Some(d) && d != ""
    ensures var e1 := ApplyMatch(entries, lines, contents, def, extract, guess, m1);
      ApplyMatch(e1, lines, contents, docRule, extract, guess, m2)[m1.name]
        == [NewRecord(lines, contents, def, extract, guess, m1).(doc := Some(d))]
  {
    var e1 := ApplyMatch(entries, lines, contents, def, extract, guess, m1);
    ApplyMatchAppends(entries, lines, contents, def, extract, guess, m1);
    DocOnlyAttaches(e1, lines, contents, docRule, extract, guess, m2, d);
  }

  /** The results map shared by the calls of `findMatchingTags`, one call per pattern rule. */
  class ResultsMap {
    var entries: map<string, seq<Record>>

    constructor ()
      ensures entries == map[]
    {
      entries := map[];
    }

    /**
     * `findMatchingTags`: fails with the first configuration assertion that
     * throws, leaving the map as it was; otherwise runs the callback over the
     * matches in order, updating the map in place.
     */
    method FindMatchingTags(lines: seq<string>, contents: string, rule: Rule, extract: bool, guess: bool,
                            matches: seq<Match>) returns (error: Option<ConfigError>)
      requires OffsetResolver.IsSplitOf(lines, contents)
      requires MatchesIn(contents, matches)
      modifies this
      ensures error == ConfigCheck(rule, matches)
      ensures error.Some? ==> entries == old(entries)
      ensures error.None? ==> entries == ApplyAll(old(entries), lines, contents, rule, extract, guess, matches)
    {
      if !rule.global {
        return Some(NotGlobal);
      }
      var i := 0;
      while i < |matches|
        invariant 0 <= i <= |matches|
        invariant entries == ApplyAll(old(entries), lines, contents, rule, extract, guess, matches[..i])
        invariant rule.groupCount != 1 ==> i == 0
      {
        if rule.groupCount != 1 {
          return Some(WrongGroupCount);
        }
        var rec := BuildRecord(lines, contents, rule, extract, guess, matches[i]);
        ApplyAllStep(old(entries), lines, contents, rule, extract, guess, matches, i);
        File(rule.docOnly, matches[i].name, rec);
        i := i + 1;
      }
      assert matches[..i] == matches;
      return None;
    }

    /** The second half of the replace callback: files the record of a match under the captured name. */
    method File(docOnly: bool, name: string, rec: Record)
      modifies this
      ensures entries == Accumulate(old(entries), docOnly, name, rec)
    {
      entries := entries[name := if name in entries then entries[name] else []];
      if docOnly {
        if NoDoc(rec.doc) {
          return;
        }
        if |entries[name]| > 0 {
          var slot := entries[name];
          entries := entries[name := [slot[0].(doc := rec.doc)] + slot[1..]];
          return;
        }
      }
      entries := entries[name := entries[name] + [rec]];
    }
  }

  /**
   * The record of a match: the row holding the name, and with extraction the
   * excerpt of that row's line and the documentation of the row above.
   */
  method BuildRecord(lines: seq<string>, contents: string, rule: Rule, extract: bool, guess: bool, m: Match)
      returns (rec: Record)
    requires OffsetResolver.IsSplitOf(lines, contents)
    requires OccursAt(contents, m.fullMatch, m.offset)
    ensures rec == NewRecord(lines, contents, rule, extract, guess, m)
  {
    var addedOffset := IndexOf(m.fullMatch, m.name);
    var pos := m.offset + (if addedOffset == -1 then 0 else addedOffset);
    NameRow(lines, contents, m);
    var row := OffsetResolver.GetOffsetRow(contents, pos);
    var docHead: Option<string> := None;
    if extract {
      var line := lines[row];
      docHead := Some(DocHead(line));
    }
    var doc := Documentation(lines, row, extract);
    NewRecordIs(lines, contents, rule, extract, guess, m, row, docHead, doc);
    rec := Record(row, docHead, guess, doc, rule.kind);
  }

  /** `doc`: the documentation of the row above, extracted only when asked for. */
  method Documentation(lines: seq<string>, row: nat, extract: bool) returns (doc: Option<string>)
    requires row < |lines|
    ensures doc == RecordDoc(lines, row, extract)
  {
    doc := None;
    if extract {
      doc := DocExtractor.ExtractDocumentationAtRow(lines, row - 1);
    }
  }
}

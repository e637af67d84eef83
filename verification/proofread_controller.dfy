/**
  The proofreading editor's issue-range table.  It maps an issue id to the
  range of text the issue highlights and the suggestion that may replace it.
  `applyHighlights` fills it from the analysis response, `ignore` drops one
  entry, `clearAllHighlights` empties it, and `replace` drops one entry and
  shifts the entries after it by the change in length.  Indices and lengths
  count UTF-16 code units, as JavaScript's `length` and the editor do.  The
  editor's own formatting and selecting are outside the model; `replace` and
  `jump` return what they ask the editor to do, and the editor's text is a
  sequence of code units where the alignment of entries is stated.  `escape`,
  the HTML escaping used when the issue list is rendered, is here too.
 */
module ProofreadController {
  import opened Optional
  import opened Utf16
  import AnalyzerService

  type Id = string

  /** One entry of the table: `{index, length, suggestion}`. */
  datatype Range = Range(index: int, length: int, suggestion: string)

  /** The fields of an issue in the analysis response that the table reads. */
  datatype IssueJson = IssueJson(id: Id, start: int, end: int, suggestion: Option<string>)

  /** What `replace` asks of the editor: delete `length` code units at `index`, insert `text` there. */
  datatype Edit = Edit(index: int, length: int, text: string)

  /** What `jump` asks of the editor: select (and flash) `length` code units at `index`. */
  datatype Selection = Selection(index: int, length: int)

  // ---------------------------------------------------------------------------
  // Specification of the table operations

  /** An issue is highlighted only when it covers at least one code unit. */
  predicate IsHighlighted(it: IssueJson) {
    it.end - it.start > 0
  }

  /** The entry `applyHighlights` stores for an issue; a missing suggestion becomes "". */
  function RangeOf(it: IssueJson): Range {
    Range(it.start, it.end - it.start, it.suggestion.GetOr(""))
  }

  /** The table after `applyHighlights` has processed the issues in order. */
  function HighlightAll(m: map<Id, Range>, issues: seq<IssueJson>): map<Id, Range> {
    if issues == [] then m
    else
      var before := HighlightAll(m, issues[..|issues| - 1]);
      var it := issues[|issues| - 1];
      if IsHighlighted(it) then before[it.id := RangeOf(it)] else before
  }

  /** The entry `r` once the text at `at` has grown by `delta` code units. */
  function Shift(r: Range, at: int, delta: int): Range {
    if r.index > at then r.(index := r.index + delta) else r
  }

  /** The change in text length, in UTF-16 code units, that replacing the entry causes. */
  function Delta(r: Range): int {
    Utf16Length(r.suggestion) - r.length
  }

  /** The table after `replace(id)`. */
  function AfterReplace(m: map<Id, Range>, id: Id): map<Id, Range> {
    if id !in m then m
    else map k | k in m && k != id :: Shift(m[k], m[id].index, Delta(m[id]))
  }

  /** Every entry of a table `applyHighlights` built covers at least one code unit. */
  predicate AllNonEmpty(m: map<Id, Range>) {
    forall id :: id in m ==> m[id].length > 0
  }

  class IssueTable {
    var ranges: map<Id, Range>

    ghost predicate Valid()
      reads this
    {
      AllNonEmpty(ranges)
    }

    /** `connect`: the table starts empty. */
    constructor ()
      ensures Valid() && ranges == map[]
    {
      ranges := map[];
    }

    /** `applyHighlights`: one `Map.set` per issue that covers at least one code unit. */
    method ApplyHighlights(issues: seq<IssueJson>)
      requires Valid()
      modifies this
      ensures Valid()
      ensures ranges == HighlightAll(old(ranges), issues)
    {
      var i := 0;
      while i < |issues|
        invariant 0 <= i <= |issues|
        invariant AllNonEmpty(ranges)
        invariant ranges == HighlightAll(old(ranges), issues[..i])
      {
        var it := issues[i];
        var length := if it.end - it.start > 0 then it.end - it.start else 0;
        if length > 0 {
          ranges := ranges[it.id := Range(it.start, length, it.suggestion.GetOr(""))];
        }
        assert issues[..i + 1][..i] == issues[..i];
        i := i + 1;
      }
      assert issues[..i] == issues;
    }

    /** The table bookkeeping of `analyze`: clear every highlight, then highlight the response's issues. */
    method ShowAnalysis(issues: seq<IssueJson>)
      requires Valid()
      modifies this
      ensures Valid()
      ensures ranges == HighlightAll(map[], issues)
    {
      ClearAllHighlights();
      ApplyHighlights(issues);
    }

    /** `clearAllHighlights`. */
    method ClearAllHighlights()
      modifies this
      ensures Valid() && ranges == map[]
    {
      ranges := map[];
    }

    /** `ignore(id)`: an absent id changes nothing; a present one is deleted. */
    method Ignore(id: Id)
      requires Valid()
      modifies this
      ensures Valid()
      ensures ranges == old(ranges) - {id}
    {
      if id !in ranges {
        return;
      }
      ranges := ranges - {id};
    }

    /**
      `replace(id)`: when the id is present, the editor replaces its range by
      its suggestion, every entry starting after that range moves by the change
      in length, and the entry is deleted.
     */
    method Replace(id: Id) returns (edit: Option<Edit>)
      requires Valid()
      modifies this
      ensures Valid()
      ensures ranges == AfterReplace(old(ranges), id)
      ensures id !in old(ranges) ==> edit == None
      ensures id in old(ranges) ==>
        edit == Some(Edit(old(ranges)[id].index, old(ranges)[id].length, old(ranges)[id].suggestion))
    {
      if id !in ranges {
        return None;
      }
      var r := ranges[id];
      edit := Some(Edit(r.index, r.length, r.suggestion));
      var delta := Utf16Length(r.suggestion) - r.length;
      if delta != 0 {
        var todo := ranges.Keys;
        while todo != {}
          invariant todo <= ranges.Keys && ranges.Keys == old(ranges).Keys
          invariant forall k :: k in ranges ==>
            ranges[k] == if k in todo then old(ranges)[k] else Shift(old(ranges)[k], r.index, delta)
          decreases todo
        {
          var k :| k in todo;
          var v := ranges[k];
          if v.index > r.index {
            ranges := ranges[k := v.(index := v.index + delta)];
          }
          todo := todo - {k};
        }
      }
      ranges := ranges - {id};
    }

    /** `jump(id)`: selects the entry's range, at least one code unit long. */
    method Jump(id: Id) returns (selection: Option<Selection>)
      requires Valid()
      ensures selection.None? <==> id !in ranges
      ensures selection.Some? ==> selection.value == Selection(ranges[id].index, ranges[id].length)
    {
      var r := if id in ranges then Some(ranges[id]) else None;
      if r.None? {
        return None;
      }
      var len := if r.value.length > 1 then r.value.length else 1;
      selection := Some(Selection(r.value.index, len));
    }
  }

  // ---------------------------------------------------------------------------
  // Properties of the table operations

  /**
    After `applyHighlights` an id has an entry exactly when it had one before or
    some highlighted issue carries it; ids no highlighted issue carries keep
    their old entry.
   */
  lemma {:induction false} HighlightAllDomain(m: map<Id, Range>, issues: seq<IssueJson>, id: Id)
    ensures id in HighlightAll(m, issues) <==>
      id in m || exists j :: 0 <= j < |issues| && issues[j].id == id && IsHighlighted(issues[j])
    ensures (forall j :: 0 <= j < |issues| && issues[j].id == id ==> !IsHighlighted(issues[j])) && id in m ==>
      HighlightAll(m, issues)[id] == m[id]
  {
    if issues != [] {
      var init := issues[..|issues| - 1];
      HighlightAllDomain(m, init, id);
      assert forall j :: 0 <= j < |init| ==> init[j] == issues[j];
    }
  }

  /**
    The last highlighted issue with a given id decides its entry: later issues
    with that id that cover nothing do not remove or change it.
   */
  lemma {:induction false} HighlightAllLastWins(m: map<Id, Range>, issues: seq<IssueJson>, j: nat)
    requires j < |issues| && IsHighlighted(issues[j])
    requires forall k :: j < k < |issues| && issues[k].id == issues[j].id ==> !IsHighlighted(issues[k])
    ensures issues[j].id in HighlightAll(m, issues)
    ensures HighlightAll(m, issues)[issues[j].id] == RangeOf(issues[j])
  {
    var init := issues[..|issues| - 1];
    if j < |issues| - 1 {
      assert forall k :: 0 <= k < |init| ==> init[k] == issues[k];
      HighlightAllLastWins(m, init, j);
    }
  }

  /** A highlighted entry starts at the issue's start, spans `end - start` and defaults its suggestion to "". */
  lemma HighlightedEntry(it: IssueJson)
    requires IsHighlighted(it)
    ensures RangeOf(it).index == it.start && RangeOf(it).length == it.end - it.start > 0
    ensures it.suggestion.None? ==> RangeOf(it).suggestion == ""
  {
  }

  /** `replace` on an id the table lacks changes nothing. */
  lemma ReplaceAbsentIsNoOp(m: map<Id, Range>, id: Id)
    requires id !in m
    ensures AfterReplace(m, id) == m
  {
  }

  /**
    `replace` on a present id deletes it, moves exactly the entries that start
    after it by the change in length, and changes no length or suggestion.
   */
  lemma ReplaceFrame(m: map<Id, Range>, id: Id, k: Id)
    requires id in m
    ensures AfterReplace(m, id).Keys == m.Keys - {id}
    ensures k in m && k != id ==>
      var before, after := m[k], AfterReplace(m, id)[k];
      && after.length == before.length
      && after.suggestion == before.suggestion
      && after.index == (if before.index > m[id].index then before.index + Delta(m[id]) else before.index)
  {
  }

  /**
    When the suggestion takes as many code units as the range it replaces, the
    other entries stay as they were; otherwise every entry after it moves.
   */
  lemma ReplaceSameLengthKeepsOthers(m: map<Id, Range>, id: Id)
    requires id in m
    ensures AfterReplace(m, id) == m - {id} <==>
      Utf16Length(m[id].suggestion) == m[id].length ||
      forall k :: k in m && k != id ==> m[k].index <= m[id].index
  {
    if AfterReplace(m, id) == m - {id} && Utf16Length(m[id].suggestion) != m[id].length {
      forall k | k in m && k != id ensures m[k].index <= m[id].index {
        assert AfterReplace(m, id)[k] == (m - {id})[k];
      }
    }
  }

  /**
    The shift counts the suggestion in code units: it is the change in
    character count exactly when the suggestion lies in the Basic Multilingual
    Plane, and larger otherwise.
   */
  lemma DeltaCountsCodeUnits(r: Range)
    ensures Delta(r) >= |r.suggestion| - r.length
    ensures Delta(r) == |r.suggestion| - r.length <==> InBmp(r.suggestion)
  {
    Utf16LengthAgreesIffBmp(r.suggestion);
  }

  /** `replace` keeps every entry non-empty. */
  lemma ReplaceKeepsNonEmpty(m: map<Id, Range>, id: Id)
    requires AllNonEmpty(m)
    ensures AllNonEmpty(AfterReplace(m, id))
  {
  }

  // ---------------------------------------------------------------------------
  // The shift keeps entries pointing at the same text

  /** The range lies inside the editor's text. */
  predicate Within(text: seq<CodeUnit>, r: Range) {
    0 <= r.index && 0 <= r.length && r.index + r.length <= |text|
  }

  function Covered(text: seq<CodeUnit>, r: Range): seq<CodeUnit>
    requires Within(text, r)
  {
    text[r.index..r.index + r.length]
  }

  /** The editor's text after it has deleted a range and inserted the suggestion in its place. */
  function ApplyEdit(text: seq<CodeUnit>, e: Edit): (r: seq<CodeUnit>)
    requires 0 <= e.index && 0 <= e.length && e.index + e.length <= |text|
    ensures |r| == |text| + Utf16Length(e.text) - e.length
  {
    text[..e.index] + ToUtf16(e.text) + text[e.index + e.length..]
  }

  function EditOf(r: Range): Edit {
    Edit(r.index, r.length, r.suggestion)
  }

  /** A range wholly after an edit covers the same code units once moved by the edit's change in length. */
  lemma ShiftedRangeAligned(text: seq<CodeUnit>, e: Edit, r: Range)
    requires 0 <= e.index && 0 <= e.length && e.index + e.length <= |text|
    requires Within(text, r) && r.index >= e.index + e.length
    ensures Within(ApplyEdit(text, e), r.(index := r.index + Utf16Length(e.text) - e.length))
    ensures Covered(ApplyEdit(text, e), r.(index := r.index + Utf16Length(e.text) - e.length))
      == Covered(text, r)
  {
    var head, tail := text[..e.index] + ToUtf16(e.text), text[e.index + e.length..];
    var off := r.index - e.index - e.length;
    var lo := r.index + Utf16Length(e.text) - e.length;
    assert ApplyEdit(text, e) == head + tail;
    assert |head| == e.index + Utf16Length(e.text);
    assert (head + tail)[lo..lo + r.length] == tail[off..off + r.length];
    assert tail[off..off + r.length] == text[r.index..r.index + r.length];
  }

  /** A range wholly before an edit covers the same code units afterwards. */
  lemma EarlierRangeAligned(text: seq<CodeUnit>, e: Edit, r: Range)
    requires 0 <= e.index && 0 <= e.length && e.index + e.length <= |text|
    requires Within(text, r) && r.index + r.length <= e.index
    ensures Within(ApplyEdit(text, e), r)
    ensures Covered(ApplyEdit(text, e), r) == Covered(text, r)
  {
    var t := ApplyEdit(text, e);
    var lo, hi := r.index, r.index + r.length;
    assert t[..e.index] == text[..e.index];
    assert t[lo..hi] == t[..e.index][lo..hi];
    assert text[lo..hi] == text[..e.index][lo..hi];
  }

  /**
    After `replace`, an entry that lay wholly after the replaced range, or
    wholly before it, still covers the same code units of the edited text.
   */
  lemma ReplaceKeepsOtherRangesAligned(m: map<Id, Range>, id: Id, k: Id, text: seq<CodeUnit>)
    requires id in m && k in m && k != id && AllNonEmpty(m)
    requires Within(text, m[id]) && Within(text, m[k])
    requires m[k].index >= m[id].index + m[id].length || m[k].index + m[k].length <= m[id].index
    ensures Within(ApplyEdit(text, EditOf(m[id])), AfterReplace(m, id)[k])
    ensures Covered(ApplyEdit(text, EditOf(m[id])), AfterReplace(m, id)[k]) == Covered(text, m[k])
  {
    var e := EditOf(m[id]);
    if m[k].index >= e.index + e.length {
      assert AfterReplace(m, id)[k] == m[k].(index := m[k].index + Utf16Length(e.text) - e.length);
      ShiftedRangeAligned(text, e, m[k]);
    } else {
      assert AfterReplace(m, id)[k] == m[k];
      EarlierRangeAligned(text, e, m[k]);
    }
  }

  // ---------------------------------------------------------------------------
  // The analysis response, highlighted

  /** The fields of an analyzer issue as they arrive in the JSON response. */
  function FromAnalysis(issue: AnalyzerService.Issue): IssueJson {
    IssueJson(issue.id, issue.start, issue.end, Some(issue.suggestion))
  }

  /** The issues of a JSON response, in order. */
  function FromResponse(sample: seq<AnalyzerService.Issue>): seq<IssueJson> {
    seq(|sample|, i requires 0 <= i < |sample| => FromAnalysis(sample[i]))
  }

  /**
    Highlighting the analysis of a text on an empty table gives every reported
    issue exactly one entry, whose index and length are the issue's character
    offsets and whose suggestion is the rule's; `ReportedEntryCoversLiteral`
    says when that entry covers the literal in the editor.
   */
  lemma HighlightAnalysis(text: string, unitId: Id, departmentId: Id, sample: seq<AnalyzerService.Issue>)
    requires unitId != departmentId
    requires AnalyzerService.IsAnalysis(text, unitId, departmentId, sample)
    ensures HighlightAll(map[], FromResponse(sample)).Keys == (set k | 0 <= k < |sample| :: sample[k].id)
    ensures forall k :: 0 <= k < |sample| ==>
      HighlightAll(map[], FromResponse(sample))[sample[k].id]
        == Range(sample[k].start, sample[k].end - sample[k].start, sample[k].suggestion)
  {
    var issues := FromResponse(sample);
    var m := HighlightAll(map[], issues);
    forall k | 0 <= k < |sample|
      ensures sample[k].id in m
      ensures m[sample[k].id] == Range(sample[k].start, sample[k].end - sample[k].start, sample[k].suggestion)
    {
      HighlightAllLastWins(map[], issues, k);
    }
    forall id | id in m ensures exists k :: 0 <= k < |sample| && sample[k].id == id {
      HighlightAllDomain(map[], issues, id);
    }
  }

  /**
    The analyzer counts characters and the editor code units: the entry of a
    reported issue covers the literal's code units in the editor whenever no
    character before the issue lies outside the Basic Multilingual Plane.
   */
  lemma ReportedEntryCoversLiteral(text: string, rule: AnalyzerService.Rule, id: Id, issue: AnalyzerService.Issue)
    requires rule == AnalyzerService.UnitRule || rule == AnalyzerService.DepartmentRule
    requires AnalyzerService.Reports(text, rule, id, issue)
    requires InBmp(text[..issue.start])
    ensures Within(ToUtf16(text), RangeOf(FromAnalysis(issue)))
    ensures Covered(ToUtf16(text), RangeOf(FromAnalysis(issue))) == ToUtf16(rule.literal)
  {
    AnalyzerService.ReportedSpanIsLiteral(text, rule, id, issue);
    var pre, post := text[..issue.start], text[issue.end..];
    assert text == pre + rule.literal + post;
    AnalyzerService.RuleLiteralsInBmp(rule);
    EncodedMiddle(pre, rule.literal, post);
  }

  // ---------------------------------------------------------------------------
  // escape

  /** The characters `escape` rewrites as HTML entities, apart from `&`. */
  predicate IsMarkupSpecial(c: char) {
    c == '<' || c == '>' || c == '"' || c == '\''
  }

  function EscapeChar(c: char): string {
    match c
    case '&' => "&amp;"
    case '<' => "&lt;"
    case '>' => "&gt;"
    case '"' => "&quot;"
    case '\'' => "&#39;"
    case _ => [c]
  }

  /** The global replace of `[&<>"']` by their entities. */
  function EscapeText(s: string): (r: string)
    ensures forall i :: 0 <= i < |r| ==> !IsMarkupSpecial(r[i])
    ensures |r| >= |s|
  {
    if s == [] then [] else EscapeChar(s[0]) + EscapeText(s[1..])
  }

  /** `String(s || "")` for a string, `null` or `undefined`: the missing value becomes "". */
  function JsString(s: Option<string>): string {
    s.GetOr("")
  }

  /** `escape(s)`: null, undefined and "" give "". */
  function Escape(s: Option<string>): (r: string)
    ensures s.None? ==> r == ""
  {
    EscapeText(JsString(s))
  }

  predicate StartsWith(s: string, prefix: string) {
    |prefix| <= |s| && s[..|prefix|] == prefix
  }

  /** The character an entity at the start of s stands for, and the entity's length. */
  function EntityAt(s: string): (r: Option<(char, nat)>)
    ensures r.Some? ==> 0 < r.value.1 <= |s|
  {
    if StartsWith(s, "&amp;") then Some(('&', 5))
    else if StartsWith(s, "&lt;") then Some(('<', 4))
    else if StartsWith(s, "&gt;") then Some(('>', 4))
    else if StartsWith(s, "&quot;") then Some(('"', 6))
    else if StartsWith(s, "&#39;") then Some(('\'', 5))
    else None
  }

  /** Decoding the five entities `escape` produces, the reference inverse of `escape`. */
  function Unescape(s: string): string
    decreases |s|
  {
    if s == [] then []
    else match EntityAt(s)
      case Some((c, n)) => [c] + Unescape(s[n..])
      case None => [s[0]] + Unescape(s[1..])
  }

  lemma EntityAtEscapedChar(c: char, rest: string)
    ensures EntityAt(EscapeChar(c) + rest) ==
      if c == '&' || IsMarkupSpecial(c) then Some((c, |EscapeChar(c)|)) else None
  {
    var s := EscapeChar(c) + rest;
    if c == '&' {
      assert s[..5] == "&amp;";
    } else if c == '<' {
      assert s[1] == 'l' && s[..4] == "&lt;";
    } else if c == '>' {
      assert s[1] == 'g' && s[..4] == "&gt;";
    } else if c == '"' {
      assert s[1] == 'q' && s[..6] == "&quot;";
    } else if c == '\'' {
      assert s[1] == '#' && s[..5] == "&#39;";
    } else {
      assert s[0] == c;
    }
  }

  lemma UnescapeAfterChar(c: char, rest: string)
    ensures Unescape(EscapeChar(c) + rest) == [c] + Unescape(rest)
  {
    var s := EscapeChar(c) + rest;
    EntityAtEscapedChar(c, rest);
    assert s[|EscapeChar(c)|..] == rest;
    if !(c == '&' || IsMarkupSpecial(c)) {
      assert s[0] == c;
    }
  }

  /** Escaping loses nothing: the entities decode back to the original text. */
  lemma {:induction false} UnescapeEscape(s: string)
    ensures Unescape(EscapeText(s)) == s
  {
    if s != [] {
      UnescapeEscape(s[1..]);
      UnescapeAfterChar(s[0], EscapeText(s[1..]));
      assert [s[0]] + s[1..] == s;
    }
  }

  /** Escaping works character by character, so it distributes over concatenation. */
  lemma {:induction false} EscapeAppend(a: string, b: string)
    ensures EscapeText(a + b) == EscapeText(a) + EscapeText(b)
  {
    if a == [] {
      assert a + b == b;
    } else {
      assert (a + b)[0] == a[0] && (a + b)[1..] == a[1..] + b;
      EscapeAppend(a[1..], b);
    }
  }

  /** A text is left as it is exactly when it holds none of `&<>"'`. */
  lemma {:induction false} EscapeIsIdentityIff(s: string)
    ensures EscapeText(s) == s <==> forall i :: 0 <= i < |s| ==> s[i] != '&' && !IsMarkupSpecial(s[i])
  {
    if s != [] {
      EscapeIsIdentityIff(s[1..]);
      var c := s[0];
      if c == '&' || IsMarkupSpecial(c) {
        assert |EscapeChar(c)| > 1;
      } else {
        assert EscapeText(s) == [c] + EscapeText(s[1..]);
        if EscapeText(s) == s {
          assert EscapeText(s[1..]) == s[1..];
        }
        assert (forall i :: 0 <= i < |s| ==> s[i] != '&' && !IsMarkupSpecial(s[i])) <==>
               (forall i :: 0 <= i < |s[1..]| ==> s[1..][i] != '&' && !IsMarkupSpecial(s[1..][i]));
        assert [c] + s[1..] == s;
      }
    }
  }
}

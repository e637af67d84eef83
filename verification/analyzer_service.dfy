/**
  `Ai::AnalyzerService.call`: a mock issue producer with two fixed rules.  For
  each rule whose literal occurs in the text it appends one issue spanning the
  leftmost occurrence.  Offsets count characters (codepoints).  Issue ids are
  random UUIDs in the application; here they are opaque tokens the caller
  supplies, one per rule.
 */
module AnalyzerService {
  import opened RubyStrings
  import opened Utf16

  datatype Issue = Issue(id: string, start: nat, end: nat, message: string, suggestion: string, severity: string)

  datatype Rule = Rule(literal: string, message: string, suggestion: string, severity: string)

  const UnitRule: Rule := Rule("貴單位", "用语不规范：建议用“贵单位”", "贵单位", "minor")
  const DepartmentRule: Rule := Rule("請貴部門", "公文书写建议：使用简体“请贵部门”", "请贵部门", "normal")

  /** The issue reports the rule's literal at its leftmost occurrence in the text. */
  predicate Reports(text: string, rule: Rule, id: string, issue: Issue) {
    && issue.id == id
    && IsLeftmost(text, rule.literal, issue.start)
    && issue.end == issue.start + |rule.literal|
    && issue.message == rule.message
    && issue.suggestion == rule.suggestion
    && issue.severity == rule.severity
  }

  /**
    What `call` returns: one issue per rule whose literal occurs, the unit rule's
    first, nothing else.
   */
  predicate IsAnalysis(text: string, unitId: string, departmentId: string, sample: seq<Issue>) {
    var unit := Contains(text, UnitRule.literal);
    var department := Contains(text, DepartmentRule.literal);
    && |sample| == (if unit then 1 else 0) + (if department then 1 else 0)
    && (unit ==> Reports(text, UnitRule, unitId, sample[0]))
    && (department ==> Reports(text, DepartmentRule, departmentId, sample[|sample| - 1]))
  }

  method Call(text: string, unitId: string, departmentId: string) returns (sample: seq<Issue>)
    ensures IsAnalysis(text, unitId, departmentId, sample)
    ensures |sample| <= 2
    ensures forall k :: 0 <= k < |sample| ==>
      sample[k].start < sample[k].end <= |text|
  {
    sample := [];
    var idx := Index(text, "貴單位");
    if idx.Some? {
      sample := sample + [Issue(unitId, idx.value, idx.value + 3,
                                "用语不规范：建议用“贵单位”", "贵单位", "minor")];
    }
    idx := Index(text, "請貴部門");
    if idx.Some? {
      sample := sample + [Issue(departmentId, idx.value, idx.value + 4,
                                "公文书写建议：使用简体“请贵部门”", "请贵部门", "normal")];
    }
  }

  /** A reported issue covers exactly the rule's literal, inside the text. */
  lemma ReportedSpanIsLiteral(text: string, rule: Rule, id: string, issue: Issue)
    requires Reports(text, rule, id, issue)
    ensures issue.end <= |text|
    ensures text[issue.start..issue.end] == rule.literal
  {
  }

  /** The analysis of a text is determined by the text and the two ids. */
  lemma AnalysisIsUnique(text: string, unitId: string, departmentId: string, a: seq<Issue>, b: seq<Issue>)
    requires IsAnalysis(text, unitId, departmentId, a)
    requires IsAnalysis(text, unitId, departmentId, b)
    ensures a == b
  {
    var unit := Contains(text, UnitRule.literal);
    var department := Contains(text, DepartmentRule.literal);
    if unit {
      LeftmostIsUnique(text, UnitRule.literal, a[0].start, b[0].start);
    }
    if department {
      LeftmostIsUnique(text, DepartmentRule.literal, a[|a| - 1].start, b[|b| - 1].start);
    }
    assert forall k :: 0 <= k < |a| ==> a[k] == b[k];
  }

  // ---------------------------------------------------------------------------
  // UTF-16 offsets

  /** Both rule literals lie inside the Basic Multilingual Plane. */
  lemma RuleLiteralsInBmp(rule: Rule)
    requires rule == UnitRule || rule == DepartmentRule
    ensures InBmp(rule.literal)
    ensures Utf16Length(rule.literal) == |rule.literal|
  {
    assert InBmp(rule.literal);
    Utf16LengthAgreesIffBmp(rule.literal);
  }

  /**
    The character offsets of a reported issue are also its UTF-16 offsets
    exactly when no character before it lies outside the Basic Multilingual
    Plane; the rule literals themselves lie inside it.
   */
  lemma ReportedOffsetsAreUtf16Offsets(text: string, rule: Rule, id: string, issue: Issue)
    requires rule == UnitRule || rule == DepartmentRule
    requires Reports(text, rule, id, issue)
    ensures Utf16Length(text[..issue.start]) == issue.start <==> InBmp(text[..issue.start])
    ensures InBmp(text[..issue.start]) ==> Utf16Length(text[..issue.end]) == issue.end
  {
    Utf16LengthAgreesIffBmp(text[..issue.start]);
    if InBmp(text[..issue.start]) {
      assert text[..issue.end] == text[..issue.start] + rule.literal;
      Utf16LengthAppend(text[..issue.start], rule.literal);
      RuleLiteralsInBmp(rule);
    }
  }
}

/**
 * The table helpers of app.py: the skill-level scores, a project's technology stack, the skill
 * records behind the skill chart and the rows of the career table. A `pandas.DataFrame` is
 * modelled by the list of records it is built from.
 */
module PortfolioTables {
  import opened Wrappers
  import opened Strings
  import opened Values

  /** `SKILL_LEVEL_SCORES` */
  const SkillLevelScores: map<string, nat> :=
    map["최상" := 95, "상" := 90, "중상" := 80, "중" := 70, "중하" := 60, "하" := 50]

  /** The six level labels, from the highest to the lowest. */
  const SkillLevels: seq<string> := ["최상", "상", "중상", "중", "중하", "하"]

  /** The score used for a label `SKILL_LEVEL_SCORES` does not know. */
  const DefaultScore: nat := 60

  /** `SKILL_LEVEL_SCORES.get(level_label, 60)` */
  function SkillLevelScore(level: string): nat {
    if level in SkillLevelScores then SkillLevelScores[level] else DefaultScore
  }

  /**
   * The labels are ranked: each scores strictly more than the labels after it, every score lies
   * between 50 and 95, and an unknown label scores like `중하`.
   */
  lemma SkillLevelRanking(level: string)
    ensures forall i, j :: 0 <= i < j < |SkillLevels| ==> SkillLevelScore(SkillLevels[i]) > SkillLevelScore(SkillLevels[j])
    ensures 50 <= SkillLevelScore(level) <= 95
    ensures SkillLevelScore(level) == DefaultScore <==> level == "중하" || level !in SkillLevels
  {
    assert SkillLevelScores.Keys == {"최상", "상", "중상", "중", "중하", "하"};
  }

  // ---------------------------------------------------------------- _normalize_project_stack

  /** `project.get("tech_stack") or project.get("teck_stack") or []` */
  function StackValue(project: seq<Entry>): Value {
    var tech := GetOr(project, "tech_stack", Null);
    var teck := GetOr(project, "teck_stack", Null);
    if Truthy(tech) then tech else if Truthy(teck) then teck else List([])
  }

  /** `[p.strip() for p in pieces if p.strip()]` */
  function StrippedPieces(pieces: seq<string>): (r: seq<string>)
    ensures forall k :: 0 <= k < |r| ==> r[k] != "" && Stripped(r[k])
  {
    if pieces == [] then []
    else
      var p := pieces[|pieces| - 1];
      StrippedPieces(pieces[..|pieces| - 1]) + (if Strip(p) != "" then [Strip(p)] else [])
  }

  /** `_normalize_project_stack(project)` */
  function NormalizeProjectStack(project: seq<Entry>): seq<string> {
    var v := StackValue(project);
    if v.List? || v.Tuple? || v.Set? then seq(|v.items|, k requires 0 <= k < |v.items| => Str(v.items[k]))
    else if v.Text? then StrippedPieces(Split(v.s, ','))
    else []
  }

  /**
   * The misspelt key `teck_stack` is read only when `tech_stack` is missing or falsy, and then
   * exactly as if it had been stored under `tech_stack`.
   */
  lemma StackKeyFallback(project: seq<Entry>)
    ensures Truthy(GetOr(project, "tech_stack", Null)) ==>
      NormalizeProjectStack(project) == NormalizeProjectStack([Entry("tech_stack", GetOr(project, "tech_stack", Null))])
    ensures !Truthy(GetOr(project, "tech_stack", Null)) ==>
      NormalizeProjectStack(project) == NormalizeProjectStack([Entry("tech_stack", GetOr(project, "teck_stack", Null))])
  {
  }

  /** A list, tuple or set gives one string per item, `str` of the item, in iteration order. */
  lemma StackOfCollection(project: seq<Entry>)
    requires var v := StackValue(project); v.List? || v.Tuple? || v.Set?
    ensures |NormalizeProjectStack(project)| == |StackValue(project).items|
    ensures forall k :: 0 <= k < |StackValue(project).items| ==>
      NormalizeProjectStack(project)[k] == Str(StackValue(project).items[k])
  {
  }

  /** Only a list, tuple, set or string yields anything. */
  lemma StackOfOtherValue(project: seq<Entry>)
    requires var v := StackValue(project); !(v.List? || v.Tuple? || v.Set? || v.Text?)
    ensures NormalizeProjectStack(project) == []
  {
  }

  /**
   * A string stack is its comma-separated pieces, stripped, with the blank ones dropped; no
   * element is empty, padded or holds a comma.
   */
  lemma {:induction false} StackOfJoined(pieces: seq<string>)
    requires pieces != []
    requires forall k :: 0 <= k < |pieces| ==> ',' !in pieces[k]
    requires Join(",", pieces) != ""
    ensures var r := NormalizeProjectStack([Entry("tech_stack", Text(Join(",", pieces)))]);
      r == StrippedPieces(pieces) && forall k :: 0 <= k < |r| ==> r[k] != "" && Stripped(r[k]) && ',' !in r[k]
  {
    SplitOfJoin(pieces, ',');
    StrippedPiecesNoComma(pieces);
  }

  lemma {:induction false} StrippedPiecesNoComma(pieces: seq<string>)
    requires forall k :: 0 <= k < |pieces| ==> ',' !in pieces[k]
    ensures forall k :: 0 <= k < |StrippedPieces(pieces)| ==> ',' !in StrippedPieces(pieces)[k]
  {
    if pieces != [] {
      var p := pieces[|pieces| - 1];
      StrippedPiecesNoComma(pieces[..|pieces| - 1]);
      StripSlice(p);
      var a := |p| - |LStrip(p)|;
      assert forall i :: 0 <= i < |Strip(p)| ==> Strip(p)[i] == p[a + i];
    }
  }

  lemma {:induction false} StrippedPiecesOfStripped(items: seq<string>)
    requires forall k :: 0 <= k < |items| ==> items[k] != "" && Stripped(items[k])
    ensures StrippedPieces(items) == items
  {
    if items != [] {
      StrippedPiecesOfStripped(items[..|items| - 1]);
      StripOfStripped(items[|items| - 1]);
      assert items == items[..|items| - 1] + [items[|items| - 1]];
    }
  }

  /** Writing a stack as a comma-separated string and reading it back gives the stack. */
  lemma StackRoundTrip(stack: seq<string>)
    requires stack != []
    requires forall k :: 0 <= k < |stack| ==> stack[k] != "" && Stripped(stack[k]) && ',' !in stack[k]
    ensures NormalizeProjectStack([Entry("tech_stack", Text(Join(",", stack)))]) == stack
  {
    assert |Join(",", stack)| >= |stack[0]| by { JoinHead(stack); }
    StackOfJoined(stack);
    StrippedPiecesOfStripped(stack);
  }

  lemma JoinHead(parts: seq<string>)
    requires parts != []
    ensures Join(",", parts)[..|parts[0]|] == parts[0]
  {
  }

  // ---------------------------------------------------------------- _build_skill_dataframe

  /** A row of the skill table: the skill, its score and its level label. */
  datatype SkillRecord = SkillRecord(skill: string, score: nat, level: string)

  function RecordOf(e: Entry): SkillRecord {
    var level := Str(e.value);
    SkillRecord(e.key, SkillLevelScore(level), level)
  }

  /** The rows of `_build_skill_dataframe`, one per skill in dictionary order. */
  function SkillRecords(es: seq<Entry>): seq<SkillRecord> {
    seq(|es|, k requires 0 <= k < |es| => RecordOf(es[k]))
  }

  /**
   * `_build_skill_dataframe(skill_items, label_column)` as its list of records: `None` or an empty
   * dictionary gives no rows, and any other value without `.items()` raises (`None` here).
   */
  method BuildSkillRecords(skillItems: Value) returns (r: Option<seq<SkillRecord>>)
    ensures r.Some? <==> (skillItems.Dict? || !Truthy(skillItems))
    ensures r.Some? ==> r.value == (if skillItems.Dict? then SkillRecords(skillItems.entries) else [])
  {
    var items: seq<Entry>;
    if !Truthy(skillItems) {
      items := [];
    } else if skillItems.Dict? {
      items := skillItems.entries;
    } else {
      return None;
    }
    var records: seq<SkillRecord> := [];
    var i := 0;
    while i < |items|
      invariant 0 <= i <= |items|
      invariant records == SkillRecords(items[..i])
    {
      var levelLabel := Str(items[i].value);
      var levelScore := SkillLevelScore(levelLabel);
      records := records + [SkillRecord(items[i].key, levelScore, levelLabel)];
      i := i + 1;
    }
    assert items[..i] == items;
    if skillItems.Dict? {
      assert items == skillItems.entries;
    }
    return Some(records);
  }

  /**
   * Each row's score follows from its level, so rows are ranked by their levels: a skill whose
   * level comes earlier in the scale scores higher.
   */
  lemma SkillRecordsRanked(es: seq<Entry>, i: nat, j: nat, a: nat, b: nat)
    requires i < |es| && j < |es| && a < b < |SkillLevels|
    requires Str(es[i].value) == SkillLevels[a] && Str(es[j].value) == SkillLevels[b]
    ensures SkillRecords(es)[i].skill == es[i].key && SkillRecords(es)[i].level == SkillLevels[a]
    ensures SkillRecords(es)[i].score > SkillRecords(es)[j].score
  {
    SkillLevelRanking(SkillLevels[a]);
  }

  // ---------------------------------------------------------------- _extract_experience_periods

  /** A row of the career table: `기간` and `주요 활동`. */
  datatype PeriodRow = PeriodRow(period: Value, event: Value)

  const UnknownPeriod: Value := Text("기간 미상")
  const UnknownEvent: Value := Text("내용 미상")

  /** `_extract_experience_periods(items)` as its list of records. */
  function ExperiencePeriods(items: seq<seq<Entry>>): (r: seq<PeriodRow>)
    ensures |r| == |items|
  {
    seq(|items|, k requires 0 <= k < |items| =>
      PeriodRow(GetOr(items[k], "period", UnknownPeriod), GetOr(items[k], "event", UnknownEvent)))
  }

  /**
   * A stored period or event is shown as it is, `None` included; the placeholders appear only
   * where the key is missing.
   */
  lemma ExperiencePeriodsSpec(items: seq<seq<Entry>>, k: nat, j: nat)
    requires k < |items| && UniqueKeys(items[k]) && j < |items[k]|
    ensures items[k][j].key == "period" ==> ExperiencePeriods(items)[k].period == items[k][j].value
    ensures items[k][j].key == "event" ==> ExperiencePeriods(items)[k].event == items[k][j].value
  {
    GetOfUniqueKeys(items[k], j);
  }

  lemma ExperiencePeriodsMissing(items: seq<seq<Entry>>, k: nat)
    requires k < |items|
    ensures (forall j :: 0 <= j < |items[k]| ==> items[k][j].key != "period") ==> ExperiencePeriods(items)[k].period == UnknownPeriod
    ensures (forall j :: 0 <= j < |items[k]| ==> items[k][j].key != "event") ==> ExperiencePeriods(items)[k].event == UnknownEvent
  {
  }
}

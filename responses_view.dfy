/**
 * The administrator's view of the responses: how an answer is displayed, which question text
 * it belongs to, the newest-first order, and the comma-separated export.
 */
module ResponsesView {
  import opened Wrappers
  import opened Seqs
  import opened Text
  import opened SurveyData
  import View = SurveySectionView

  const NoAnswer := "Aucune réponse"
  const UnknownQuestion := "Question inconnue"
  const OtherPrefix := "Autre: "

  predicate NotOther(v: string)
  {
    v != View.OtherOption
  }

  /** `getAnswerDisplay`: never empty, and the placeholder when nothing was answered. */
  function AnswerDisplay(answer: Option<Answer>): (r: string)
    ensures r != ""
    ensures answer.None? || answer.value.value == [] ==> r == NoAnswer
  {
    match answer
    case None => NoAnswer
    case Some(a) =>
      if a.value == [] then NoAnswer
      else
        var joined := Join(Filter(a.value, NotOther), ", ");
        var result :=
          if View.OtherOption in a.value && a.otherValue != "" then
            (if joined != "" then joined + ", " + OtherPrefix + a.otherValue else OtherPrefix + a.otherValue)
          else joined;
        if result != "" then result else NoAnswer
  }

  /** The selected values as shown: every value but the "other" sentinel, in order. */
  function ShownValues(a: Answer): seq<string>
  {
    Filter(a.value, NotOther)
  }

  /**
   * With "other" chosen and free text given, the display is the list of the other values
   * followed by one more item `Autre: <text>`, all joined with ", ".
   */
  lemma DisplayWithOther(a: Answer)
    requires View.OtherOption in a.value && a.otherValue != ""
    requires forall i :: 0 <= i < |a.value| ==> a.value[i] != ""
    ensures AnswerDisplay(Some(a)) == Join(ShownValues(a) + [OtherPrefix + a.otherValue], ", ")
  {
    var shown := ShownValues(a);
    FilterMembers(a.value, NotOther);
    JoinEmpty(shown, ", ");
    if shown != [] {
      JoinAppend(shown, OtherPrefix + a.otherValue, ", ");
    } else {
      assert shown + [OtherPrefix + a.otherValue] == [OtherPrefix + a.otherValue];
    }
  }

  /** Without usable free text, the display is the other values joined with ", ". */
  lemma DisplayWithoutOther(a: Answer)
    requires View.OtherOption !in a.value || a.otherValue == ""
    requires ShownValues(a) != []
    requires forall i :: 0 <= i < |a.value| ==> a.value[i] != ""
    ensures AnswerDisplay(Some(a)) == Join(ShownValues(a), ", ")
  {
    FilterMembers(a.value, NotOther);
    JoinEmpty(ShownValues(a), ", ");
  }

  /** Only "other" chosen and no free text: the placeholder, not an empty cell. */
  lemma DisplayOnlyOtherWithoutText(a: Answer)
    requires a.value != [] && forall i :: 0 <= i < |a.value| ==> a.value[i] == View.OtherOption
    requires a.otherValue == ""
    ensures AnswerDisplay(Some(a)) == NoAnswer
  {
    FilterDropsAll(a.value, NotOther);
  }

  /** The worked example: health insurance plus a free-text "Mutuelle". */
  lemma DisplayExample(questionId: int, sectionId: int)
    ensures AnswerDisplay(Some(Answer(questionId, sectionId, ["Santé", "other"], "Mutuelle")))
         == "Santé, Autre: Mutuelle"
  {
    var value := ["Santé", "other"];
    assert value[1..] == ["other"];
    assert NotOther("Santé") by { assert "Santé"[0] != "other"[0]; }
    assert Filter(["other"], NotOther) == [];
    assert Filter(value, NotOther) == ["Santé"];
    assert "other" in value by { assert value[1] == "other"; }
  }

  /** `getQuestionText`: a real question text, or the placeholder when the lookup fails. */
  function QuestionText(sections: seq<Section>, questionId: int, sectionId: int): (r: string)
    ensures (forall i :: 0 <= i < |sections| ==> sections[i].id != sectionId) ==> r == UnknownQuestion
    ensures r == UnknownQuestion
         || exists i, j :: 0 <= i < |sections| && 0 <= j < |sections[i].questions|
                           && sections[i].id == sectionId && sections[i].questions[j].id == questionId
                           && r == sections[i].questions[j].text
  {
    match Find(sections, SectionIdIs(sectionId))
    case None => UnknownQuestion
    case Some(section) =>
      match Find(section.questions, QuestionIdIs(questionId))
      case None => UnknownQuestion
      case Some(q) => q.text
  }

  /** The text shown is that of the first matching question of the first matching section. */
  lemma QuestionTextOfFirstMatch(sections: seq<Section>, questionId: int, sectionId: int, i: nat, j: nat)
    requires i < |sections| && sections[i].id == sectionId
    requires forall k :: 0 <= k < i ==> sections[k].id != sectionId
    requires j < |sections[i].questions| && sections[i].questions[j].id == questionId
    requires forall k :: 0 <= k < j ==> sections[i].questions[k].id != questionId
    ensures QuestionText(sections, questionId, sectionId) == sections[i].questions[j].text
  {
    FirstIndexIsFirst(sections, SectionIdIs(sectionId), i);
    FirstIndexIsFirst(sections[i].questions, QuestionIdIs(questionId), j);
  }

  /** When the first matching section lacks the question, the placeholder is shown. */
  lemma QuestionTextMissing(sections: seq<Section>, questionId: int, sectionId: int, i: nat)
    requires i < |sections| && sections[i].id == sectionId
    requires forall k :: 0 <= k < i ==> sections[k].id != sectionId
    requires forall k :: 0 <= k < |sections[i].questions| ==> sections[i].questions[k].id != questionId
    ensures QuestionText(sections, questionId, sectionId) == UnknownQuestion
  {
    FirstIndexIsFirst(sections, SectionIdIs(sectionId), i);
  }

  function SubmittedAt(r: UserResponse): int
  {
    r.submittedAt
  }

  /** The display order: newest first, a permutation of the stored responses. */
  function SortedResponses(rs: seq<UserResponse>): (r: seq<UserResponse>)
    ensures multiset(r) == multiset(rs)
    ensures NewestFirst(r, SubmittedAt)
  {
    SortNewestFirst(rs, SubmittedAt)
  }

  // ---------------------------------------------------------------------------------------
  // The export.

  /** One export column: a question and the section it belongs to. */
  datatype Column = Column(id: int, sectionId: int, text: string)

  function SectionColumns(section: Section): (cs: seq<Column>)
    ensures |cs| == |section.questions|
  {
    seq(|section.questions|, k requires 0 <= k < |section.questions| =>
      Column(section.questions[k].id, section.id, section.questions[k].text))
  }

  /** Every question of the survey, section by section, each section's questions in order. */
  function Columns(sections: seq<Section>): seq<Column>
  {
    FlatMap(sections, SectionColumns)
  }

  lemma ColumnsConcat(a: seq<Section>, b: seq<Section>)
    ensures Columns(a + b) == Columns(a) + Columns(b)
  {
    FlatMapConcat(a, b, SectionColumns);
  }

  /** There is one column per question of the survey. */
  lemma {:induction false} ColumnCount(sections: seq<Section>)
    ensures |Columns(sections)| == QuestionCount(sections)
    decreases |sections|
  {
    if sections != [] {
      var n := |sections| - 1;
      ColumnCount(sections[..n]);
      assert sections == sections[..n] + [sections[n]];
      QuestionCountConcat(sections[..n], [sections[n]]);
      assert [sections[n]][1..] == [];
    }
  }

  const CsvPrefix := "data:text/csv;charset=utf-8,"
  const FixedHeader := "Nom,Téléphone,Date de soumission,"
  const LineEnd := "\r\n"

  /** One field: wrapped in double quotes and followed by a comma. */
  function Quoted(field: string): string
  {
    "\"" + field + "\","
  }

  function QuotedFields(fields: seq<string>): string
  {
    if fields == [] then "" else QuotedFields(fields[..|fields| - 1]) + Quoted(fields[|fields| - 1])
  }

  function ColumnTexts(cs: seq<Column>): (ts: seq<string>)
    ensures |ts| == |cs| && forall k :: 0 <= k < |cs| ==> ts[k] == cs[k].text
  {
    seq(|cs|, k requires 0 <= k < |cs| => cs[k].text)
  }

  function HeaderLine(cs: seq<Column>): string
  {
    FixedHeader + QuotedFields(ColumnTexts(cs)) + LineEnd
  }

  /**
   * The fields of one response's row: name, phone, formatted date, then one answer per column,
   * found by the column's (question, section) pair.
   */
  function RowFields(r: UserResponse, cs: seq<Column>, formatDate: int -> string): (fs: seq<string>)
    ensures |fs| == 3 + |cs|
    ensures fs[0] == r.userName && fs[1] == r.userPhone && fs[2] == formatDate(r.submittedAt)
    ensures forall k :: 0 <= k < |cs| ==>
              fs[3 + k] == AnswerDisplay(FindAnswer(r.answers, cs[k].id, cs[k].sectionId))
  {
    [r.userName, r.userPhone, formatDate(r.submittedAt)]
      + seq(|cs|, k requires 0 <= k < |cs| => AnswerDisplay(FindAnswer(r.answers, cs[k].id, cs[k].sectionId)))
  }

  function Row(r: UserResponse, cs: seq<Column>, formatDate: int -> string): string
  {
    QuotedFields(RowFields(r, cs, formatDate)) + LineEnd
  }

  function RowOf(cs: seq<Column>, formatDate: int -> string): UserResponse -> string
  {
    r => Row(r, cs, formatDate)
  }

  /** The rows of the export, one per response in the stored order (see `Seqs.FlatMapConcat`). */
  function Rows(rs: seq<UserResponse>, cs: seq<Column>, formatDate: int -> string): string
  {
    FlatMap(rs, RowOf(cs, formatDate))
  }

  /** The exported document, or None when there is nothing to export. */
  function CsvDocument(rs: seq<UserResponse>, sections: seq<Section>, formatDate: int -> string): Option<string>
  {
    if rs == [] then None
    else Some(CsvPrefix + HeaderLine(Columns(sections)) + Rows(rs, Columns(sections), formatDate))
  }

  lemma QuotedFieldsStep(fields: seq<string>, k: nat)
    requires k < |fields|
    ensures QuotedFields(fields[..k + 1]) == QuotedFields(fields[..k]) + Quoted(fields[k])
  {
    assert fields[..k + 1][..k] == fields[..k];
  }

  /** The column-collecting loops of the export. */
  method CollectColumns(sections: seq<Section>) returns (allQuestions: seq<Column>)
    ensures allQuestions == Columns(sections)
  {
    allQuestions := [];
    var i := 0;
    while i < |sections|
      invariant 0 <= i <= |sections|
      invariant allQuestions == Columns(sections[..i])
    {
      var section := sections[i];
      var j := 0;
      while j < |section.questions|
        invariant 0 <= j <= |section.questions|
        invariant allQuestions == Columns(sections[..i]) + SectionColumns(section)[..j]
      {
        var question := section.questions[j];
        allQuestions := allQuestions + [Column(question.id, section.id, question.text)];
        assert SectionColumns(section)[..j + 1] == SectionColumns(section)[..j] + [SectionColumns(section)[j]];
        j := j + 1;
      }
      assert sections[..i + 1][..i] == sections[..i];
      assert SectionColumns(section)[..j] == SectionColumns(section);
      i := i + 1;
    }
    assert sections[..i] == sections;
  }

  /** Appends the quoted fields one after the other. */
  method WriteFields(content: string, fields: seq<string>) returns (out: string)
    ensures out == content + QuotedFields(fields)
  {
    out := content;
    var k := 0;
    while k < |fields|
      invariant 0 <= k <= |fields|
      invariant out == content + QuotedFields(fields[..k])
    {
      out := out + Quoted(fields[k]);
      QuotedFieldsStep(fields, k);
      k := k + 1;
    }
    assert fields[..k] == fields;
  }

  /** The header line: the fixed columns, then one quoted question text per column. */
  method WriteHeader(allQuestions: seq<Column>) returns (content: string)
    ensures content == CsvPrefix + HeaderLine(allQuestions)
  {
    content := WriteFields(CsvPrefix + FixedHeader, ColumnTexts(allQuestions));
    content := content + LineEnd;
  }

  /** One response's row, appended to the document so far. */
  method WriteRow(content: string, response: UserResponse, allQuestions: seq<Column>, formatDate: int -> string)
    returns (out: string)
    ensures out == content + Row(response, allQuestions, formatDate)
  {
    out := WriteFields(content, RowFields(response, allQuestions, formatDate));
    out := out + LineEnd;
  }

  /** Appending the row of the next response extends the rows written so far by one. */
  lemma RowsStep(content: string, done: string, rs: seq<UserResponse>, n: nat, cs: seq<Column>, formatDate: int -> string)
    requires n < |rs|
    requires done == content + Rows(rs[..n], cs, formatDate)
    ensures done + Row(rs[n], cs, formatDate) == content + Rows(rs[..n + 1], cs, formatDate)
  {
    FlatMapAppend(content, done, rs, n, RowOf(cs, formatDate));
  }

  /** The response loop of the export: one row per response, in the stored order. */
  method WriteRows(content: string, responses: seq<UserResponse>, allQuestions: seq<Column>, formatDate: int -> string)
    returns (out: string)
    ensures out == content + Rows(responses, allQuestions, formatDate)
  {
    out := content;
    var n := 0;
    while n < |responses|
      invariant 0 <= n <= |responses|
      invariant out == content + Rows(responses[..n], allQuestions, formatDate)
    {
      RowsStep(content, out, responses, n, allQuestions, formatDate);
      out := WriteRow(out, responses[n], allQuestions, formatDate);
      n := n + 1;
    }
    assert responses[..n] == responses;
  }

  /**
   * `exportResponsesToCSV`: collects the columns, writes the header, then one row per
   * response. `formatDate` stands for the locale date formatting.
   */
  method ExportResponsesToCsv(responses: seq<UserResponse>, sections: seq<Section>, formatDate: int -> string)
    returns (csv: Option<string>)
    ensures csv == CsvDocument(responses, sections, formatDate)
  {
    if |responses| == 0 {
      return None;
    }
    var allQuestions := CollectColumns(sections);
    var content := WriteHeader(allQuestions);
    content := WriteRows(content, responses, allQuestions, formatDate);
    csv := Some(content);
  }
}

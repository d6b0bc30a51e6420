/**
 * The survey definition (sections holding questions) and the collected responses, with the
 * pure list algebra behind every mutator of the survey context: each operation computes the
 * next value of the `sections` or `responses` state cell from the current one.
 */
module SurveyData {
  import opened Seqs
  import Wrappers

  datatype Question = Question(id: int, text: string, options: seq<string>, allowMultiple: bool, hasOther: bool)

  datatype Section = Section(id: int, title: string, description: string, questions: seq<Question>)

  /** One answer; `otherValue` is "" when no free text was given (absent and "" behave alike). */
  datatype Answer = Answer(questionId: int, sectionId: int, value: seq<string>, otherValue: string)

  /** A submission; `submittedAt` is the clock reading in milliseconds. */
  datatype UserResponse = UserResponse(userId: string, userName: string, userPhone: string,
                                       answers: seq<Answer>, submittedAt: int)

  // ---------------------------------------------------------------------------------------
  // Identifiers: `Math.max(0, ...ids) + 1`, scoped by the caller.

  function MaxId(ids: seq<int>): (m: int)
    ensures m >= 0
    ensures forall i :: 0 <= i < |ids| ==> ids[i] <= m
    ensures m == 0 || m in ids
  {
    if ids == [] then 0
    else
      var rest := MaxId(ids[1..]);
      if ids[0] > rest then ids[0] else rest
  }

  /**
   * The id handed to a new item: above every existing id, and either 1 or one more than an
   * existing id. Together these make it the least positive integer above all existing ids.
   */
  function NextId(ids: seq<int>): (n: int)
    ensures n >= 1
    ensures forall i :: 0 <= i < |ids| ==> ids[i] < n
    ensures n == 1 || n - 1 in ids
  {
    MaxId(ids) + 1
  }

  lemma NextIdIsLeast(ids: seq<int>, k: int)
    requires k >= 1 && forall i :: 0 <= i < |ids| ==> ids[i] < k
    ensures NextId(ids) <= k
  {
  }

  function SectionIds(s: seq<Section>): (ids: seq<int>)
    ensures |ids| == |s| && forall i :: 0 <= i < |s| ==> ids[i] == s[i].id
  {
    seq(|s|, i requires 0 <= i < |s| => s[i].id)
  }

  function QuestionIds(qs: seq<Question>): (ids: seq<int>)
    ensures |ids| == |qs| && forall i :: 0 <= i < |qs| ==> ids[i] == qs[i].id
  {
    seq(|qs|, i requires 0 <= i < |qs| => qs[i].id)
  }

  ghost predicate DistinctSectionIds(s: seq<Section>)
  {
    forall i, j :: 0 <= i < j < |s| ==> s[i].id != s[j].id
  }

  ghost predicate DistinctQuestionIds(qs: seq<Question>)
  {
    forall i, j :: 0 <= i < j < |qs| ==> qs[i].id != qs[j].id
  }

  // ---------------------------------------------------------------------------------------
  // Sections.

  /** `addSection`: appends a section whose id is above every existing section id. */
  function AddSection(s: seq<Section>, title: string, description: string, questions: seq<Question>): (r: seq<Section>)
    ensures |r| == |s| + 1 && r[..|s|] == s
    ensures r[|s|].title == title && r[|s|].description == description && r[|s|].questions == questions
    ensures r[|s|].id == NextId(SectionIds(s))
    ensures forall i :: 0 <= i < |s| ==> s[i].id < r[|s|].id
    ensures s == [] ==> r[|s|].id == 1
    ensures DistinctSectionIds(s) ==> DistinctSectionIds(r)
  {
    s + [Section(NextId(SectionIds(s)), title, description, questions)]
  }

  /** `updateSection`: every section carrying the given id is replaced, the others stay. */
  function UpdateSection(s: seq<Section>, section: Section): (r: seq<Section>)
    ensures |r| == |s| && SectionIds(r) == SectionIds(s)
    ensures forall i :: 0 <= i < |s| && s[i].id == section.id ==> r[i] == section
    ensures forall i :: 0 <= i < |s| && s[i].id != section.id ==> r[i] == s[i]
    ensures section.id !in SectionIds(s) ==> r == s
  {
    seq(|s|, i requires 0 <= i < |s| => if s[i].id == section.id then section else s[i])
  }

  function SectionIdIsNot(id: int): Section -> bool
  {
    (s: Section) => s.id != id
  }

  /** `deleteSection`: removes every section with the id, and its questions with it. */
  function DeleteSection(s: seq<Section>, id: int): (r: seq<Section>)
    ensures |r| <= |s|
    ensures forall i :: 0 <= i < |r| ==> r[i].id != id && r[i] in s
    ensures forall i :: 0 <= i < |s| && s[i].id != id ==> s[i] in r
    ensures id !in SectionIds(s) ==> r == s
  {
    FilterMembers(s, SectionIdIsNot(id));
    var r := Filter(s, SectionIdIsNot(id));
    assert id !in SectionIds(s) ==> r == s by {
      if id !in SectionIds(s) {
        FilterKeepsAll(s, SectionIdIsNot(id));
      }
    }
    r
  }

  /** Deleting sections keeps the survivors in their relative order. */
  lemma DeleteSectionKeepsOrder(a: seq<Section>, b: seq<Section>, id: int)
    ensures DeleteSection(a + b, id) == DeleteSection(a, id) + DeleteSection(b, id)
  {
    FilterConcat(a, b, SectionIdIsNot(id));
  }

  /** The number of questions in the whole survey. */
  function QuestionCount(s: seq<Section>): nat
  {
    if s == [] then 0 else |s[0].questions| + QuestionCount(s[1..])
  }

  lemma {:induction false} QuestionCountConcat(a: seq<Section>, b: seq<Section>)
    ensures QuestionCount(a + b) == QuestionCount(a) + QuestionCount(b)
  {
    if a == [] {
      assert a + b == b;
    } else {
      assert (a + b)[1..] == a[1..] + b;
      QuestionCountConcat(a[1..], b);
    }
  }

  /**
   * With distinct ids, deleting a section removes exactly that section: one section fewer and
   * exactly its questions fewer in the survey.
   */
  lemma DeleteSectionCascade(s: seq<Section>, k: nat)
    requires DistinctSectionIds(s) && k < |s|
    ensures DeleteSection(s, s[k].id) == s[..k] + s[k + 1..]
    ensures |DeleteSection(s, s[k].id)| == |s| - 1
    ensures QuestionCount(DeleteSection(s, s[k].id)) == QuestionCount(s) - |s[k].questions|
  {
    var a, b := s[..k], s[k + 1..];
    FilterRemovesOne(s, SectionIdIsNot(s[k].id), k);
    assert s == a + ([s[k]] + b);
    QuestionCountConcat(a, [s[k]] + b);
    QuestionCountConcat([s[k]], b);
    QuestionCountConcat(a, b);
  }

  /**
   * Ids are per-scope max + 1, not a counter: after deleting the section with the largest id
   * the next id is at most that id, and it is reused when the id just below it is present
   * (or it was 1).
   */
  lemma DeleteLargestThenAdd(s: seq<Section>, k: nat)
    requires DistinctSectionIds(s) && k < |s|
    requires s[k].id >= 1 && forall i :: 0 <= i < |s| ==> s[i].id <= s[k].id
    ensures NextId(SectionIds(DeleteSection(s, s[k].id))) <= s[k].id
    ensures s[k].id == 1 || s[k].id - 1 in SectionIds(s) ==>
              NextId(SectionIds(DeleteSection(s, s[k].id))) == s[k].id
  {
    var m := s[k].id;
    var r := DeleteSection(s, m);
    var ids := SectionIds(r);
    forall i | 0 <= i < |ids| ensures ids[i] < m {
      assert r[i] in s;
    }
    NextIdIsLeast(ids, m);
    if m - 1 in SectionIds(s) {
      var j :| 0 <= j < |s| && s[j].id == m - 1;
      assert s[j] in r;
      var i :| 0 <= i < |r| && r[i] == s[j];
      assert ids[i] == m - 1;
    }
  }

  /** Two sections with ids 1 and 2: deleting 1 then adding gives id 3; deleting 2 reuses 2. */
  lemma ReuseScenario(a: Section, b: Section, title: string, description: string)
    requires a.id == 1 && b.id == 2
    ensures var r := AddSection(DeleteSection([a, b], 1), title, description, []);
            |r| == 2 && r[1].id == 3
    ensures var r := AddSection(DeleteSection([a, b], 2), title, description, []);
            |r| == 2 && r[1].id == 2
  {
    DeleteFirstOfTwo(a, b);
    DeleteSecondOfTwo(a, b);
  }

  lemma DeleteFirstOfTwo(a: Section, b: Section)
    requires a.id == 1 && b.id == 2
    ensures DeleteSection([a, b], 1) == [b] && NextId(SectionIds([b])) == 3
  {
    FilterRemovesOne([a, b], SectionIdIsNot(1), 0);
    assert [a, b][..0] + [a, b][1..] == [b];
    assert SectionIds([b]) == [2];
    SingleIdNext(2);
  }

  lemma DeleteSecondOfTwo(a: Section, b: Section)
    requires a.id == 1 && b.id == 2
    ensures DeleteSection([a, b], 2) == [a] && NextId(SectionIds([a])) == 2
  {
    FilterRemovesOne([a, b], SectionIdIsNot(2), 1);
    assert [a, b][..1] + [a, b][2..] == [a];
    assert SectionIds([a]) == [1];
    SingleIdNext(1);
  }

  lemma SingleIdNext(id: int)
    requires id >= 0
    ensures NextId([id]) == id + 1
  {
    assert [id][1..] == [];
  }

  // ---------------------------------------------------------------------------------------
  // Questions, scoped to their section.

  /** The section with one more question, numbered above every question id of that section. */
  function AppendQuestion(section: Section, text: string, options: seq<string>, allowMultiple: bool, hasOther: bool): (r: Section)
    ensures r.id == section.id && r.title == section.title && r.description == section.description
    ensures |r.questions| == |section.questions| + 1 && r.questions[..|section.questions|] == section.questions
    ensures r.questions[|section.questions|]
         == Question(NextId(QuestionIds(section.questions)), text, options, allowMultiple, hasOther)
    ensures forall i :: 0 <= i < |section.questions| ==>
              section.questions[i].id < r.questions[|section.questions|].id
    ensures DistinctQuestionIds(section.questions) ==> DistinctQuestionIds(r.questions)
  {
    var q := Question(NextId(QuestionIds(section.questions)), text, options, allowMultiple, hasOther);
    section.(questions := section.questions + [q])
  }

  /** `addQuestion`: only the sections with the id gain the new question; absent id, no change. */
  function AddQuestion(s: seq<Section>, sectionId: int, text: string, options: seq<string>,
                       allowMultiple: bool, hasOther: bool): (r: seq<Section>)
    ensures |r| == |s| && SectionIds(r) == SectionIds(s)
    ensures forall i :: 0 <= i < |s| && s[i].id == sectionId ==>
              r[i] == AppendQuestion(s[i], text, options, allowMultiple, hasOther)
    ensures forall i :: 0 <= i < |s| && s[i].id != sectionId ==> r[i] == s[i]
    ensures sectionId !in SectionIds(s) ==> r == s
    ensures QuestionCount(r) == QuestionCount(s) + |Filter(s, SectionIdIs(sectionId))|
  {
    var r := seq(|s|, i requires 0 <= i < |s| =>
                  if s[i].id == sectionId then AppendQuestion(s[i], text, options, allowMultiple, hasOther) else s[i]);
    AddQuestionCount(s, r, sectionId);
    r
  }

  function SectionIdIs(id: int): Section -> bool
  {
    (s: Section) => s.id == id
  }

  lemma {:induction false} AddQuestionCount(s: seq<Section>, r: seq<Section>, sectionId: int)
    requires |r| == |s|
    requires forall i :: 0 <= i < |s| ==> r[i].id == s[i].id
    requires forall i :: 0 <= i < |s| && s[i].id == sectionId ==> |r[i].questions| == |s[i].questions| + 1
    requires forall i :: 0 <= i < |s| && s[i].id != sectionId ==> r[i] == s[i]
    ensures QuestionCount(r) == QuestionCount(s) + |Filter(s, SectionIdIs(sectionId))|
  {
    if s != [] {
      AddQuestionCount(s[1..], r[1..], sectionId);
    }
  }

  /** Every question carrying `q`'s id is replaced by `q`, the others stay. */
  function ReplaceQuestion(qs: seq<Question>, q: Question): (r: seq<Question>)
    ensures |r| == |qs| && QuestionIds(r) == QuestionIds(qs)
    ensures forall i :: 0 <= i < |qs| && qs[i].id == q.id ==> r[i] == q
    ensures forall i :: 0 <= i < |qs| && qs[i].id != q.id ==> r[i] == qs[i]
    ensures q.id !in QuestionIds(qs) ==> r == qs
  {
    seq(|qs|, i requires 0 <= i < |qs| => if qs[i].id == q.id then q else qs[i])
  }

  /** `updateQuestion`: touches only the questions of the named sections. */
  function UpdateQuestion(s: seq<Section>, sectionId: int, q: Question): (r: seq<Section>)
    ensures |r| == |s| && SectionIds(r) == SectionIds(s)
    ensures forall i :: 0 <= i < |s| && s[i].id == sectionId ==>
              r[i] == s[i].(questions := ReplaceQuestion(s[i].questions, q))
    ensures forall i :: 0 <= i < |s| && s[i].id != sectionId ==> r[i] == s[i]
    ensures QuestionCount(r) == QuestionCount(s)
  {
    var r := seq(|s|, i requires 0 <= i < |s| =>
                  if s[i].id == sectionId then s[i].(questions := ReplaceQuestion(s[i].questions, q)) else s[i]);
    SameShapeSameCount(s, r);
    r
  }

  lemma {:induction false} SameShapeSameCount(s: seq<Section>, r: seq<Section>)
    requires |r| == |s| && forall i :: 0 <= i < |s| ==> |r[i].questions| == |s[i].questions|
    ensures QuestionCount(r) == QuestionCount(s)
  {
    if s != [] {
      SameShapeSameCount(s[1..], r[1..]);
    }
  }

  function QuestionIdIsNot(id: int): Question -> bool
  {
    (q: Question) => q.id != id
  }

  function QuestionIdIs(id: int): Question -> bool
  {
    (q: Question) => q.id == id
  }

  /** The questions without the id, in their order. */
  function RemoveQuestion(qs: seq<Question>, questionId: int): (r: seq<Question>)
    ensures |r| <= |qs|
    ensures forall i :: 0 <= i < |r| ==> r[i].id != questionId && r[i] in qs
    ensures forall i :: 0 <= i < |qs| && qs[i].id != questionId ==> qs[i] in r
    ensures questionId !in QuestionIds(qs) ==> r == qs
  {
    FilterMembers(qs, QuestionIdIsNot(questionId));
    var r := Filter(qs, QuestionIdIsNot(questionId));
    assert questionId !in QuestionIds(qs) ==> r == qs by {
      if questionId !in QuestionIds(qs) {
        FilterKeepsAll(qs, QuestionIdIsNot(questionId));
      }
    }
    r
  }

  /** Removing a question keeps the remaining questions in their relative order. */
  lemma RemoveQuestionKeepsOrder(a: seq<Question>, b: seq<Question>, questionId: int)
    ensures RemoveQuestion(a + b, questionId) == RemoveQuestion(a, questionId) + RemoveQuestion(b, questionId)
  {
    FilterConcat(a, b, QuestionIdIsNot(questionId));
  }

  /** With distinct ids, removing the question at position `k` removes exactly that position. */
  lemma RemoveQuestionAt(qs: seq<Question>, k: nat)
    requires DistinctQuestionIds(qs) && k < |qs|
    ensures RemoveQuestion(qs, qs[k].id) == qs[..k] + qs[k + 1..]
  {
    FilterRemovesOne(qs, QuestionIdIsNot(qs[k].id), k);
  }

  /** A question's id, as a key. */
  function QuestionKey(q: Question): int
  {
    q.id
  }

  /** Removing questions keeps the ids of the remaining ones distinct. */
  lemma RemoveQuestionKeepsDistinct(qs: seq<Question>, questionId: int)
    requires DistinctQuestionIds(qs)
    ensures DistinctQuestionIds(RemoveQuestion(qs, questionId))
  {
    assert DistinctKeys(qs, QuestionKey);
    FilterKeepsDistinctKeys(qs, QuestionIdIsNot(questionId), QuestionKey);
    var r := RemoveQuestion(qs, questionId);
    forall i, j | 0 <= i < j < |r| ensures r[i].id != r[j].id {
      assert QuestionKey(r[i]) != QuestionKey(r[j]);
    }
  }

  /** `deleteQuestion`: touches only the questions of the named sections. */
  function DeleteQuestion(s: seq<Section>, sectionId: int, questionId: int): (r: seq<Section>)
    ensures |r| == |s| && SectionIds(r) == SectionIds(s)
    ensures forall i :: 0 <= i < |s| && s[i].id == sectionId ==>
              r[i] == s[i].(questions := RemoveQuestion(s[i].questions, questionId))
    ensures forall i :: 0 <= i < |s| && s[i].id != sectionId ==> r[i] == s[i]
    ensures QuestionCount(r) <= QuestionCount(s)
  {
    var r := seq(|s|, i requires 0 <= i < |s| =>
                  if s[i].id == sectionId then s[i].(questions := RemoveQuestion(s[i].questions, questionId)) else s[i]);
    FewerQuestions(s, r);
    r
  }

  lemma {:induction false} FewerQuestions(s: seq<Section>, r: seq<Section>)
    requires |r| == |s| && forall i :: 0 <= i < |s| ==> |r[i].questions| <= |s[i].questions|
    ensures QuestionCount(r) <= QuestionCount(s)
  {
    if s != [] {
      FewerQuestions(s[1..], r[1..]);
    }
  }

  // ---------------------------------------------------------------------------------------
  // The survey invariant, kept by every mutator of the survey definition.

  /** Section ids are distinct, and question ids are distinct within each section. */
  ghost predicate ValidSurvey(s: seq<Section>)
  {
    DistinctSectionIds(s) && forall i :: 0 <= i < |s| ==> DistinctQuestionIds(s[i].questions)
  }

  /** A section added with distinct question ids keeps the survey valid. */
  lemma AddSectionKeepsValid(s: seq<Section>, title: string, description: string, questions: seq<Question>)
    requires ValidSurvey(s) && DistinctQuestionIds(questions)
    ensures ValidSurvey(AddSection(s, title, description, questions))
  {
    var r := AddSection(s, title, description, questions);
    forall i | 0 <= i < |s| ensures r[i] == s[i] {
      assert r[i] == r[..|s|][i];
    }
  }

  /** Writing back a section with distinct question ids keeps the survey valid. */
  lemma UpdateSectionKeepsValid(s: seq<Section>, section: Section)
    requires ValidSurvey(s) && DistinctQuestionIds(section.questions)
    ensures ValidSurvey(UpdateSection(s, section))
  {
    var r := UpdateSection(s, section);
    forall i | 0 <= i < |r| ensures r[i].id == s[i].id {
      assert SectionIds(r)[i] == SectionIds(s)[i];
    }
  }

  /** A section's id, as a key. */
  function SectionKey(s: Section): int
  {
    s.id
  }

  /** Deleting a section keeps the survey valid. */
  lemma DeleteSectionKeepsValid(s: seq<Section>, id: int)
    requires ValidSurvey(s)
    ensures ValidSurvey(DeleteSection(s, id))
  {
    assert DistinctKeys(s, SectionKey);
    FilterKeepsDistinctKeys(s, SectionIdIsNot(id), SectionKey);
    var r := DeleteSection(s, id);
    forall i, j | 0 <= i < j < |r| ensures r[i].id != r[j].id {
      assert SectionKey(r[i]) != SectionKey(r[j]);
    }
    forall i | 0 <= i < |r| ensures DistinctQuestionIds(r[i].questions) {
      var m :| 0 <= m < |s| && s[m] == r[i];
    }
  }

  /** Adding a question keeps the survey valid: the new id is fresh in its section. */
  lemma AddQuestionKeepsValid(s: seq<Section>, sectionId: int, text: string, options: seq<string>,
                              allowMultiple: bool, hasOther: bool)
    requires ValidSurvey(s)
    ensures ValidSurvey(AddQuestion(s, sectionId, text, options, allowMultiple, hasOther))
  {
    var r := AddQuestion(s, sectionId, text, options, allowMultiple, hasOther);
    forall i | 0 <= i < |r| ensures r[i].id == s[i].id {
      assert SectionIds(r)[i] == SectionIds(s)[i];
    }
  }

  /** Replacing a question keeps the survey valid: no id changes. */
  lemma UpdateQuestionKeepsValid(s: seq<Section>, sectionId: int, q: Question)
    requires ValidSurvey(s)
    ensures ValidSurvey(UpdateQuestion(s, sectionId, q))
  {
    var r := UpdateQuestion(s, sectionId, q);
    forall i | 0 <= i < |r| ensures r[i].id == s[i].id && DistinctQuestionIds(r[i].questions) {
      assert SectionIds(r)[i] == SectionIds(s)[i];
      var qs, rq := s[i].questions, r[i].questions;
      assert QuestionIds(rq) == QuestionIds(qs);
      forall a, b | 0 <= a < b < |rq| ensures rq[a].id != rq[b].id {
        assert QuestionIds(rq)[a] == QuestionIds(qs)[a] && QuestionIds(rq)[b] == QuestionIds(qs)[b];
      }
    }
  }

  /** Deleting a question keeps the survey valid. */
  lemma DeleteQuestionKeepsValid(s: seq<Section>, sectionId: int, questionId: int)
    requires ValidSurvey(s)
    ensures ValidSurvey(DeleteQuestion(s, sectionId, questionId))
  {
    var r := DeleteQuestion(s, sectionId, questionId);
    forall i | 0 <= i < |r| ensures r[i].id == s[i].id && DistinctQuestionIds(r[i].questions) {
      assert SectionIds(r)[i] == SectionIds(s)[i];
      if s[i].id == sectionId {
        RemoveQuestionKeepsDistinct(s[i].questions, questionId);
      }
    }
  }

  // ---------------------------------------------------------------------------------------
  // Responses, keyed by user id.

  ghost predicate UniqueUserIds(rs: seq<UserResponse>)
  {
    forall i, j :: 0 <= i < j < |rs| ==> rs[i].userId != rs[j].userId
  }

  function UserIdIs(userId: string): UserResponse -> bool
  {
    (r: UserResponse) => r.userId == userId
  }

  /** `findIndex(r => r.userId === userId)`. */
  function ResponseIndex(rs: seq<UserResponse>, userId: string): int
  {
    FirstIndex(rs, UserIdIs(userId))
  }

  /**
   * `submitResponse`: a user who already answered has the first of their entries replaced in
   * place; a new user is appended.
   */
  function SubmitResponse(rs: seq<UserResponse>, userId: string, userName: string, userPhone: string,
                          answers: seq<Answer>, now: int): (r: seq<UserResponse>)
    ensures var k := ResponseIndex(rs, userId);
            k >= 0 ==> |r| == |rs| && r[k] == UserResponse(userId, userName, userPhone, answers, now)
                       && forall j :: 0 <= j < |rs| && j != k ==> r[j] == rs[j]
    ensures (forall j :: 0 <= j < |rs| ==> rs[j].userId != userId) ==>
              r == rs + [UserResponse(userId, userName, userPhone, answers, now)]
  {
    var stamped := UserResponse(userId, userName, userPhone, answers, now);
    var k := ResponseIndex(rs, userId);
    if k >= 0 then rs[..k] + [stamped] + rs[k + 1..] else rs + [stamped]
  }

  /**
   * With one entry per user before, a submission leaves one entry per user after, and the
   * submitting user's only entry is the new one.
   */
  lemma SubmitLeavesOneEntry(rs: seq<UserResponse>, userId: string, userName: string, userPhone: string,
                             answers: seq<Answer>, now: int)
    requires UniqueUserIds(rs)
    ensures var r := SubmitResponse(rs, userId, userName, userPhone, answers, now);
            UniqueUserIds(r)
            && exists k :: 0 <= k < |r| && r[k] == UserResponse(userId, userName, userPhone, answers, now)
                           && forall j :: 0 <= j < |r| && j != k ==> r[j].userId != userId
  {
    var r := SubmitResponse(rs, userId, userName, userPhone, answers, now);
    var k := ResponseIndex(rs, userId);
    if k >= 0 {
      assert r[k].userId == userId;
    } else {
      assert r[|rs|].userId == userId;
    }
  }

  /** Submitting twice for one user: one entry for that user, carrying the second submission. */
  lemma SubmitTwiceLatestWins(rs: seq<UserResponse>, userId: string, name1: string, phone1: string,
                              answers1: seq<Answer>, now1: int, name2: string, phone2: string,
                              answers2: seq<Answer>, now2: int)
    requires UniqueUserIds(rs)
    ensures var r := SubmitResponse(SubmitResponse(rs, userId, name1, phone1, answers1, now1),
                                    userId, name2, phone2, answers2, now2);
            UniqueUserIds(r)
            && exists k :: 0 <= k < |r| && r[k] == UserResponse(userId, name2, phone2, answers2, now2)
                           && forall j :: 0 <= j < |r| && j != k ==> r[j].userId != userId
  {
    SubmitLeavesOneEntry(rs, userId, name1, phone1, answers1, now1);
    SubmitLeavesOneEntry(SubmitResponse(rs, userId, name1, phone1, answers1, now1),
                         userId, name2, phone2, answers2, now2);
  }

  function UserIdIsNot(userId: string): UserResponse -> bool
  {
    (r: UserResponse) => r.userId != userId
  }

  /** `deleteResponse`: removes every entry of the user and keeps all other entries. */
  function DeleteResponse(rs: seq<UserResponse>, userId: string): (r: seq<UserResponse>)
    ensures |r| <= |rs|
    ensures forall i :: 0 <= i < |r| ==> r[i].userId != userId && r[i] in rs
    ensures forall i :: 0 <= i < |rs| && rs[i].userId != userId ==> rs[i] in r
  {
    FilterMembers(rs, UserIdIsNot(userId));
    Filter(rs, UserIdIsNot(userId))
  }

  /** Deleting a user keeps the other responses in their relative order. */
  lemma DeleteResponseKeepsOrder(a: seq<UserResponse>, b: seq<UserResponse>, userId: string)
    ensures DeleteResponse(a + b, userId) == DeleteResponse(a, userId) + DeleteResponse(b, userId)
  {
    FilterConcat(a, b, UserIdIsNot(userId));
  }

  /** A response's user id, as a key. */
  function UserKey(r: UserResponse): string
  {
    r.userId
  }

  /** Deleting a user's entries keeps one entry per user. */
  lemma DeleteResponseKeepsUnique(rs: seq<UserResponse>, userId: string)
    requires UniqueUserIds(rs)
    ensures UniqueUserIds(DeleteResponse(rs, userId))
  {
    assert DistinctKeys(rs, UserKey);
    FilterKeepsDistinctKeys(rs, UserIdIsNot(userId), UserKey);
    var r := DeleteResponse(rs, userId);
    forall i, j | 0 <= i < j < |r| ensures r[i].userId != r[j].userId {
      assert UserKey(r[i]) != UserKey(r[j]);
    }
  }

  // ---------------------------------------------------------------------------------------
  // Answers, keyed by the pair (questionId, sectionId).

  predicate HasKey(a: Answer, questionId: int, sectionId: int)
  {
    a.questionId == questionId && a.sectionId == sectionId
  }

  ghost predicate UniqueAnswerKeys(answers: seq<Answer>)
  {
    forall i, j :: 0 <= i < j < |answers| ==>
      !HasKey(answers[j], answers[i].questionId, answers[i].sectionId)
  }

  function KeyIs(questionId: int, sectionId: int): Answer -> bool
  {
    (a: Answer) => HasKey(a, questionId, sectionId)
  }

  /** `findIndex` on the answer key. */
  function AnswerIndex(answers: seq<Answer>, questionId: int, sectionId: int): int
  {
    FirstIndex(answers, KeyIs(questionId, sectionId))
  }

  /** `find` on the answer key. */
  function FindAnswer(answers: seq<Answer>, questionId: int, sectionId: int): Wrappers.Option<Answer>
  {
    Find(answers, KeyIs(questionId, sectionId))
  }
}

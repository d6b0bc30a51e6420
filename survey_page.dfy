/**
 * The questionnaire page: the in-progress answers, a cursor over the sections and the
 * submitted flag, updated by the page's handlers.
 */
module SurveyPage {
  import opened Wrappers
  import opened Seqs
  import opened SurveyData
  import SurveyStore
  import Auth
  import View = SurveySectionView

  function InSection(sectionId: int): Answer -> bool
  {
    (a: Answer) => a.sectionId == sectionId
  }

  /** `answers.filter(a => a.sectionId === currentSection.id)`: what the section view receives. */
  function SectionAnswers(answers: seq<Answer>, sectionId: int): (r: seq<Answer>)
    ensures forall i :: 0 <= i < |r| ==> r[i].sectionId == sectionId && r[i] in answers
    ensures forall i :: 0 <= i < |answers| && answers[i].sectionId == sectionId ==> answers[i] in r
  {
    FilterMembers(answers, InSection(sectionId));
    Filter(answers, InSection(sectionId))
  }

  /** Looking an answer up among the section's answers finds what a lookup among all finds. */
  lemma {:induction false} SectionLookupAgrees(answers: seq<Answer>, questionId: int, sectionId: int)
    ensures FindAnswer(SectionAnswers(answers, sectionId), questionId, sectionId)
         == FindAnswer(answers, questionId, sectionId)
  {
    if answers != [] {
      var a, rest := answers[0], answers[1..];
      assert answers == [a] + rest;
      var shown, shownRest := SectionAnswers(answers, sectionId), SectionAnswers(rest, sectionId);
      assert shown == (if a.sectionId == sectionId then [a] else []) + shownRest;
      SectionLookupAgrees(rest, questionId, sectionId);
      FindCons(a, rest, KeyIs(questionId, sectionId));
      if a.sectionId == sectionId {
        FindCons(a, shownRest, KeyIs(questionId, sectionId));
      } else {
        assert shown == shownRest;
        assert !HasKey(a, questionId, sectionId);
      }
    }
  }

  /**
   * `handleAnswerChange`: the answer with the same (question, section) key is replaced in
   * place, or the answer is appended when there is none.
   */
  function UpsertAnswer(answers: seq<Answer>, a: Answer): (r: seq<Answer>)
    ensures var k := AnswerIndex(answers, a.questionId, a.sectionId);
            && (k >= 0 ==> |r| == |answers| && r[k] == a
                           && forall j :: 0 <= j < |answers| && j != k ==> r[j] == answers[j])
            && (k == -1 ==> r == answers + [a])
    ensures FindAnswer(r, a.questionId, a.sectionId) == Some(a)
  {
    var k := AnswerIndex(answers, a.questionId, a.sectionId);
    var r := if k >= 0 then answers[k := a] else answers + [a];
    if k >= 0 then
      assert forall j :: 0 <= j < k ==> r[j] == answers[j];
      FirstIndexIsFirst(r, KeyIs(a.questionId, a.sectionId), k);
      r
    else
      assert forall j :: 0 <= j < |answers| ==> r[j] == answers[j];
      FirstIndexIsFirst(r, KeyIs(a.questionId, a.sectionId), |answers|);
      r
  }

  /** With one answer per key before, there is one per key after, and the changed key holds `a`. */
  lemma UpsertKeepsKeysUnique(answers: seq<Answer>, a: Answer)
    requires UniqueAnswerKeys(answers)
    ensures var r := UpsertAnswer(answers, a);
            && UniqueAnswerKeys(r)
            && a in r
            && forall j :: 0 <= j < |r| && HasKey(r[j], a.questionId, a.sectionId) ==> r[j] == a
  {
    var r := UpsertAnswer(answers, a);
    var k := AnswerIndex(answers, a.questionId, a.sectionId);
    if k >= 0 {
      forall i, j | 0 <= i < j < |r| ensures !HasKey(r[j], r[i].questionId, r[i].sectionId) {
        if i != k && j != k {
          assert r[i] == answers[i] && r[j] == answers[j];
        } else if i == k {
          assert r[j] == answers[j];
        } else {
          assert r[i] == answers[i];
        }
      }
    }
  }

  /** `findIndex` on the answer key, scanning from the start. */
  method FindAnswerIndex(answers: seq<Answer>, questionId: int, sectionId: int) returns (k: int)
    ensures k == AnswerIndex(answers, questionId, sectionId)
  {
    var i := 0;
    while i < |answers|
      invariant 0 <= i <= |answers|
      invariant forall j :: 0 <= j < i ==> !HasKey(answers[j], questionId, sectionId)
    {
      if answers[i].questionId == questionId && answers[i].sectionId == sectionId {
        return i;
      }
      i := i + 1;
    }
    return -1;
  }

  // ---------------------------------------------------------------------------------------
  // The section cursor.

  /** `handlePrevious`: back one section unless on the first. */
  function PreviousIndex(index: int): int
  {
    if index != 0 then index - 1 else index
  }

  /** `handleNext`: forward one section unless on the last (`sections.length - 1`). */
  function NextIndex(index: int, sectionCount: int): int
  {
    if index != sectionCount - 1 then index + 1 else index
  }

  datatype Move = Previous | Next

  /** The cursor after a sequence of clicks on "previous" and "next". */
  function Navigate(index: int, sectionCount: int, moves: seq<Move>): int
    decreases |moves|
  {
    if moves == [] then index
    else
      var i := if moves[0].Previous? then PreviousIndex(index) else NextIndex(index, sectionCount);
      Navigate(i, sectionCount, moves[1..])
  }

  /** With at least one section, any sequence of moves keeps the cursor on a section. */
  lemma {:induction false} NavigationStaysInRange(index: int, sectionCount: int, moves: seq<Move>)
    requires 0 <= index < sectionCount
    ensures 0 <= Navigate(index, sectionCount, moves) < sectionCount
    decreases |moves|
  {
    if moves != [] {
      var i := if moves[0].Previous? then PreviousIndex(index) else NextIndex(index, sectionCount);
      NavigationStaysInRange(i, sectionCount, moves[1..]);
    }
  }

  /** With no section at all there is no last section, so "next" always moves on. */
  lemma NoSectionsNeverStops(index: int)
    requires index >= 0
    ensures NextIndex(index, 0) == index + 1
  {
  }

  class SurveyPage {
    var answers: seq<Answer>
    var currentSectionIndex: int
    var isSubmitted: bool

    constructor ()
      ensures answers == [] && currentSectionIndex == 0 && !isSubmitted
    {
      answers, currentSectionIndex, isSubmitted := [], 0, false;
    }

    /** The answers handed to the view of the current section, when the index names one. */
    function CurrentSectionAnswers(sections: seq<Section>): (r: Option<seq<Answer>>)
      reads this
      ensures r.Some? <==> 0 <= currentSectionIndex < |sections|
      ensures r.Some? ==> r.value == SectionAnswers(answers, sections[currentSectionIndex].id)
    {
      if 0 <= currentSectionIndex < |sections| then Some(SectionAnswers(answers, sections[currentSectionIndex].id))
      else None
    }

    method HandleAnswerChange(questionId: int, sectionId: int, value: seq<string>, otherValue: string)
      modifies this`answers
      ensures answers == UpsertAnswer(old(answers), Answer(questionId, sectionId, value, otherValue))
    {
      var a := Answer(questionId, sectionId, value, otherValue);
      var k := FindAnswerIndex(answers, questionId, sectionId);
      if k >= 0 {
        var updated := answers;
        updated := updated[k := a];
        answers := updated;
      } else {
        answers := answers + [a];
      }
    }

    method HandlePrevious()
      modifies this`currentSectionIndex
      ensures currentSectionIndex == PreviousIndex(old(currentSectionIndex))
    {
      if currentSectionIndex != 0 {
        currentSectionIndex := currentSectionIndex - 1;
      }
    }

    method HandleNext(sectionCount: nat)
      modifies this`currentSectionIndex
      ensures currentSectionIndex == NextIndex(old(currentSectionIndex), sectionCount)
    {
      if currentSectionIndex != sectionCount - 1 {
        currentSectionIndex := currentSectionIndex + 1;
      }
    }

    /** `handleSubmit`: the current user's submission of every answer so far, then the done flag. */
    method HandleSubmit(store: SurveyStore.Store, user: Auth.User, now: int)
      modifies this`isSubmitted, store
      ensures store.responses
           == SubmitResponse(old(store.responses), user.id, user.name, user.phone, answers, now)
      ensures store.sections == old(store.sections)
      ensures isSubmitted
      ensures old(store.Valid()) ==> store.Valid()
    {
      store.SubmitResponse(user.id, user.name, user.phone, answers, now);
      isSubmitted := true;
    }
  }

  /**
   * A click on an option is seen by the question that was clicked: after the page records the
   * change the section view computes, the view's lookup finds exactly that change.
   */
  lemma ClickIsVisible(answers: seq<Answer>, section: Section, question: Question, option: string)
    ensures var shown := View.QuestionAnswer(section, SectionAnswers(answers, section.id), question);
            var c := View.CheckboxChange(question, section.id, shown, option);
            View.QuestionAnswer(section, SectionAnswers(UpsertAnswer(answers, c), section.id), question) == Some(c)
  {
    var shown := View.QuestionAnswer(section, SectionAnswers(answers, section.id), question);
    var c := View.CheckboxChange(question, section.id, shown, option);
    SectionLookupAgrees(UpsertAnswer(answers, c), question.id, section.id);
  }
}

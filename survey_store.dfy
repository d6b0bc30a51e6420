/**
 * The survey context: two state cells, `sections` and `responses`, that every mutator replaces
 * with a value computed from the current one. Persistence to browser storage is not modelled.
 */
module SurveyStore {
  import D = SurveyData

  class Store {
    var sections: seq<D.Section>
    var responses: seq<D.UserResponse>

    /**
     * Distinct section ids, distinct question ids within each section, one response per user.
     * Every mutator keeps it.
     */
    ghost predicate Valid()
      reads this
    {
      D.ValidSurvey(sections) && D.UniqueUserIds(responses)
    }

    /** Starts from the given survey definition and no responses. */
    constructor (initial: seq<D.Section>)
      ensures sections == initial && responses == []
      ensures Valid() <==> D.ValidSurvey(initial)
    {
      sections := initial;
      responses := [];
    }

    method AddSection(title: string, description: string, questions: seq<D.Question>)
      modifies this
      ensures sections == D.AddSection(old(sections), title, description, questions)
      ensures responses == old(responses)
      ensures old(Valid()) && D.DistinctQuestionIds(questions) ==> Valid()
    {
      if Valid() && D.DistinctQuestionIds(questions) {
        D.AddSectionKeepsValid(sections, title, description, questions);
      }
      sections := D.AddSection(sections, title, description, questions);
    }

    method UpdateSection(section: D.Section)
      modifies this
      ensures sections == D.UpdateSection(old(sections), section)
      ensures responses == old(responses)
      ensures old(Valid()) && D.DistinctQuestionIds(section.questions) ==> Valid()
    {
      if Valid() && D.DistinctQuestionIds(section.questions) {
        D.UpdateSectionKeepsValid(sections, section);
      }
      sections := D.UpdateSection(sections, section);
    }

    method DeleteSection(id: int)
      modifies this
      ensures sections == D.DeleteSection(old(sections), id)
      ensures responses == old(responses)
      ensures old(Valid()) ==> Valid()
    {
      if Valid() {
        D.DeleteSectionKeepsValid(sections, id);
      }
      sections := D.DeleteSection(sections, id);
    }

    method AddQuestion(sectionId: int, text: string, options: seq<string>, allowMultiple: bool, hasOther: bool)
      modifies this
      ensures sections == D.AddQuestion(old(sections), sectionId, text, options, allowMultiple, hasOther)
      ensures responses == old(responses)
      ensures old(Valid()) ==> Valid()
    {
      if Valid() {
        D.AddQuestionKeepsValid(sections, sectionId, text, options, allowMultiple, hasOther);
      }
      sections := D.AddQuestion(sections, sectionId, text, options, allowMultiple, hasOther);
    }

    method UpdateQuestion(sectionId: int, question: D.Question)
      modifies this
      ensures sections == D.UpdateQuestion(old(sections), sectionId, question)
      ensures responses == old(responses)
      ensures old(Valid()) ==> Valid()
    {
      if Valid() {
        D.UpdateQuestionKeepsValid(sections, sectionId, question);
      }
      sections := D.UpdateQuestion(sections, sectionId, question);
    }

    method DeleteQuestion(sectionId: int, questionId: int)
      modifies this
      ensures sections == D.DeleteQuestion(old(sections), sectionId, questionId)
      ensures responses == old(responses)
      ensures old(Valid()) ==> Valid()
    {
      if Valid() {
        D.DeleteQuestionKeepsValid(sections, sectionId, questionId);
      }
      sections := D.DeleteQuestion(sections, sectionId, questionId);
    }

    /** `now` is the clock reading that stamps the submission. */
    method SubmitResponse(userId: string, userName: string, userPhone: string, answers: seq<D.Answer>, now: int)
      modifies this
      ensures responses == D.SubmitResponse(old(responses), userId, userName, userPhone, answers, now)
      ensures sections == old(sections)
      ensures old(Valid()) ==> Valid()
    {
      if Valid() {
        D.SubmitLeavesOneEntry(responses, userId, userName, userPhone, answers, now);
      }
      responses := D.SubmitResponse(responses, userId, userName, userPhone, answers, now);
    }

    method DeleteResponse(userId: string)
      modifies this
      ensures responses == D.DeleteResponse(old(responses), userId)
      ensures sections == old(sections)
      ensures old(Valid()) ==> Valid()
    {
      if Valid() {
        D.DeleteResponseKeepsUnique(responses, userId);
      }
      responses := D.DeleteResponse(responses, userId);
    }
  }
}

/**
 * One section of the questionnaire as shown to a respondent. It holds no state: each click
 * computes the answer to hand to the page's `onChange` callback.
 */
module SurveySectionView {
  import opened Wrappers
  import opened Seqs
  import opened SurveyData

  /** The sentinel option value of the free-text "Autre" choice. */
  const OtherOption := "other"

  /** The stored answer a question shows: the first one with its (question, section) key. */
  function QuestionAnswer(section: Section, answers: seq<Answer>, question: Question): Option<Answer>
  {
    FindAnswer(answers, question.id, section.id)
  }

  /** `answer?.value || []`. */
  function SelectedOptions(answer: Option<Answer>): seq<string>
  {
    if answer.Some? then answer.value.value else []
  }

  /** `answer?.otherValue || ''`. */
  function OtherText(answer: Option<Answer>): string
  {
    if answer.Some? then answer.value.otherValue else ""
  }

  /** A question with no stored answer shows nothing selected and no free text. */
  lemma UnansweredQuestionIsEmpty(section: Section, answers: seq<Answer>, question: Question)
    requires forall j :: 0 <= j < |answers| ==> !HasKey(answers[j], question.id, section.id)
    ensures SelectedOptions(QuestionAnswer(section, answers, question)) == []
    ensures OtherText(QuestionAnswer(section, answers, question)) == ""
  {
  }

  /**
   * The selection after choosing `option`: a multi-select question toggles it (removing every
   * occurrence, or appending it at the end); a single-select question keeps just it.
   */
  function NewSelection(allowMultiple: bool, selected: seq<string>, option: string): (r: seq<string>)
    ensures !allowMultiple ==> r == [option]
    ensures allowMultiple && option in selected ==>
              option !in r && |r| < |selected|
              && (forall i :: 0 <= i < |selected| && selected[i] != option ==> selected[i] in r)
              && (forall i :: 0 <= i < |r| ==> r[i] in selected)
    ensures allowMultiple && option !in selected ==> r == selected + [option]
  {
    if allowMultiple then Toggle(selected, option) else [option]
  }

  /** On a multi-select question, choosing an unselected option twice restores the selection. */
  lemma ChooseTwiceRestores(selected: seq<string>, option: string)
    requires option !in selected
    ensures NewSelection(true, NewSelection(true, selected, option), option) == selected
  {
    ToggleTwiceRestores(selected, option);
  }

  /**
   * Choosing again keeps a selection free of duplicates, so every selection a user can reach
   * from the empty one holds each option at most once.
   */
  lemma NewSelectionKeepsNoDuplicates(allowMultiple: bool, selected: seq<string>, option: string)
    requires NoDuplicates(selected)
    ensures NoDuplicates(NewSelection(allowMultiple, selected, option))
  {
    if allowMultiple {
      ToggleKeepsNoDuplicates(selected, option);
    }
  }

  /**
   * In a duplicate-free multiple-choice selection, choosing a chosen option removes exactly its
   * position and leaves the other options in their order.
   */
  lemma DeselectKeepsOrder(selected: seq<string>, option: string)
    requires NoDuplicates(selected) && option in selected
    ensures exists k :: 0 <= k < |selected| && selected[k] == option
                        && NewSelection(true, selected, option) == selected[..k] + selected[k + 1..]
  {
    var k :| 0 <= k < |selected| && selected[k] == option;
    ToggleRemovesOne(selected, option, k);
  }

  /** `handleCheckboxChange`: the new selection, keyed to the question, with the free text passed through. */
  function CheckboxChange(question: Question, sectionId: int, answer: Option<Answer>, option: string): (c: Answer)
    ensures HasKey(c, question.id, sectionId)
    ensures c.value == NewSelection(question.allowMultiple, SelectedOptions(answer), option)
    ensures c.otherValue == OtherText(answer)
  {
    Answer(question.id, sectionId, NewSelection(question.allowMultiple, SelectedOptions(answer), option), OtherText(answer))
  }

  /** `handleOtherChange`: the selection unchanged, only the free text replaced. */
  function OtherChange(question: Question, sectionId: int, answer: Option<Answer>, text: string): (c: Answer)
    ensures HasKey(c, question.id, sectionId)
    ensures c.value == SelectedOptions(answer) && c.otherValue == text
  {
    Answer(question.id, sectionId, SelectedOptions(answer), text)
  }

  /**
   * A click in the free-text box: nothing when "other" is already selected; otherwise the same
   * change as a click on "other", which then becomes selected, the free text passed through.
   */
  function OtherBoxClick(question: Question, sectionId: int, answer: Option<Answer>): (c: Option<Answer>)
    ensures c.None? <==> OtherOption in SelectedOptions(answer)
    ensures c.Some? ==> HasKey(c.value, question.id, sectionId)
                        && OtherOption in c.value.value && c.value.otherValue == OtherText(answer)
    ensures c.Some? ==> forall i :: 0 <= i < |c.value.value| && c.value.value[i] != OtherOption ==>
                          c.value.value[i] in SelectedOptions(answer)
  {
    if OtherOption in SelectedOptions(answer) then None
    else Some(CheckboxChange(question, sectionId, answer, OtherOption))
  }
}

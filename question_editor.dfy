/**
 * The survey editor of the administration area: which sections are expanded, the section being
 * renamed, and the question draft being edited, saved through the survey store.
 */
module QuestionEditor {
  import opened Wrappers
  import opened Seqs
  import opened Text
  import D = SurveyData
  import SurveyStore

  /** The question being written: `questionId` is None for a question not saved yet. */
  datatype QuestionDraft = QuestionDraft(sectionId: int, questionId: Option<int>, text: string,
                                         options: seq<string>, allowMultiple: bool, hasOther: bool)

  const NewSectionTitle := "Nouvelle section"
  const NewSectionDescription := "Description de la nouvelle section"

  predicate NotBlank(option: string)
  {
    !IsBlank(option)
  }

  /** The options a save keeps: the non-blank ones, in their order; none only if all are blank. */
  function KeptOptions(options: seq<string>): (r: seq<string>)
    ensures |r| <= |options|
    ensures forall i :: 0 <= i < |r| ==> !IsBlank(r[i]) && r[i] in options
    ensures forall i :: 0 <= i < |options| && !IsBlank(options[i]) ==> options[i] in r
    ensures r == [] <==> forall i :: 0 <= i < |options| ==> IsBlank(options[i])
  {
    FilterMembers(options, NotBlank);
    var r := Filter(options, NotBlank);
    assert (forall i :: 0 <= i < |options| ==> IsBlank(options[i])) ==> r == [] by {
      if forall i :: 0 <= i < |options| ==> IsBlank(options[i]) {
        FilterDropsAll(options, NotBlank);
      }
    }
    r
  }

  /** Blank options are dropped without disturbing the order of the others. */
  lemma KeptOptionsConcat(a: seq<string>, b: seq<string>)
    ensures KeptOptions(a + b) == KeptOptions(a) + KeptOptions(b)
  {
    FilterConcat(a, b, NotBlank);
  }

  /** `handleDeleteOption`: drops the option at `index`; any other index changes nothing. */
  function RemoveAt(options: seq<string>, index: int): (r: seq<string>)
    ensures 0 <= index < |options| ==>
              |r| == |options| - 1
              && (forall i :: 0 <= i < index ==> r[i] == options[i])
              && (forall i :: index <= i < |r| ==> r[i] == options[i + 1])
    ensures !(0 <= index < |options|) ==> r == options
  {
    if 0 <= index < |options| then options[..index] + options[index + 1..] else options
  }

  /** Deleting the option just added restores the list. */
  lemma RemoveAddedOption(options: seq<string>)
    ensures RemoveAt(options + [""], |options|) == options
  {
  }

  /**
   * The section `handleSaveSection` writes back: the edited section, found by id, with the new
   * title and description. Nothing when no section is being edited, when its id is 0 (treated as
   * no id), or when it no longer exists.
   */
  function SectionToSave(sections: seq<D.Section>, editing: Option<int>, title: string, description: string)
    : (r: Option<D.Section>)
    ensures r.None? <==> editing.None? || editing.value == 0 || editing.value !in D.SectionIds(sections)
    ensures r.Some? ==> r.value.id == editing.value && r.value.title == title && r.value.description == description
    ensures r.Some? ==> exists k :: 0 <= k < |sections| && sections[k].id == r.value.id
                                    && sections[k].questions == r.value.questions
  {
    match editing
    case None => None
    case Some(id) =>
      if id == 0 then None
      else
        match Find(sections, D.SectionIdIs(id))
        case None => None
        case Some(section) => Some(section.(title := title, description := description))
  }

  /** With distinct section ids, saving a section changes its title and description and nothing else. */
  lemma SaveSectionEditsOnlyText(sections: seq<D.Section>, id: int, title: string, description: string)
    requires D.DistinctSectionIds(sections)
    requires SectionToSave(sections, Some(id), title, description).Some?
    ensures var r := D.UpdateSection(sections, SectionToSave(sections, Some(id), title, description).value);
            |r| == |sections|
            && (forall i :: 0 <= i < |r| ==> r[i].id == sections[i].id && r[i].questions == sections[i].questions)
            && (forall i :: 0 <= i < |r| && sections[i].id == id ==>
                  r[i].title == title && r[i].description == description)
            && (forall i :: 0 <= i < |r| && sections[i].id != id ==> r[i] == sections[i])
  {
    var saved := SectionToSave(sections, Some(id), title, description).value;
    var k :| 0 <= k < |sections| && sections[k].id == saved.id && sections[k].questions == saved.questions;
    forall i | 0 <= i < |sections| && sections[i].id == id
      ensures i == k
    {
    }
  }

  /**
   * The survey after `handleSaveQuestion`: None when every option is blank (the save is refused);
   * otherwise the draft is added to its section, or replaces the question with its id there.
   */
  function SaveQuestion(sections: seq<D.Section>, draft: QuestionDraft): (r: Option<seq<D.Section>>)
    ensures r.None? <==> forall i :: 0 <= i < |draft.options| ==> IsBlank(draft.options[i])
    ensures r.Some? ==> |r.value| == |sections| && D.SectionIds(r.value) == D.SectionIds(sections)
    ensures r.Some? ==> forall i :: 0 <= i < |sections| && sections[i].id != draft.sectionId ==>
                          r.value[i] == sections[i]
  {
    var kept := KeptOptions(draft.options);
    if kept == [] then None
    else
      match draft.questionId
      case None =>
        Some(D.AddQuestion(sections, draft.sectionId, draft.text, kept, draft.allowMultiple, draft.hasOther))
      case Some(id) =>
        Some(D.UpdateQuestion(sections, draft.sectionId, D.Question(id, draft.text, kept, draft.allowMultiple, draft.hasOther)))
  }

  /** A new question lands at the end of its section, numbered fresh, with the kept options. */
  lemma SaveNewQuestion(sections: seq<D.Section>, draft: QuestionDraft, k: nat)
    requires draft.questionId.None? && k < |sections| && sections[k].id == draft.sectionId
    requires SaveQuestion(sections, draft).Some?
    ensures var qs := SaveQuestion(sections, draft).value[k].questions;
            var n := |sections[k].questions|;
            |qs| == n + 1 && qs[..n] == sections[k].questions
            && qs[n] == D.Question(D.NextId(D.QuestionIds(sections[k].questions)), draft.text,
                                   KeptOptions(draft.options), draft.allowMultiple, draft.hasOther)
  {
  }

  /**
   * An edited question keeps its id and position and takes the draft's text, flags and kept
   * options; the other questions of its section are unchanged.
   */
  lemma SaveEditedQuestion(sections: seq<D.Section>, draft: QuestionDraft, k: nat, j: nat)
    requires draft.questionId.Some? && k < |sections| && sections[k].id == draft.sectionId
    requires j < |sections[k].questions| && sections[k].questions[j].id == draft.questionId.value
    requires SaveQuestion(sections, draft).Some?
    ensures var qs := SaveQuestion(sections, draft).value[k].questions;
            |qs| == |sections[k].questions|
            && qs[j] == D.Question(draft.questionId.value, draft.text, KeptOptions(draft.options),
                                   draft.allowMultiple, draft.hasOther)
            && forall i :: 0 <= i < |qs| && sections[k].questions[i].id != draft.questionId.value ==>
                 qs[i] == sections[k].questions[i]
  {
  }

  class Editor {
    var expandedSections: seq<int>
    var editingSectionId: Option<int>
    var newSectionTitle: string
    var newSectionDescription: string
    var editingQuestion: Option<QuestionDraft>

    /** Every section starts expanded; nothing is being edited. */
    constructor (sections: seq<D.Section>)
      ensures expandedSections == D.SectionIds(sections)
      ensures editingSectionId.None? && newSectionTitle == "" && newSectionDescription == ""
      ensures editingQuestion.None?
    {
      expandedSections := D.SectionIds(sections);
      editingSectionId := None;
      newSectionTitle := "";
      newSectionDescription := "";
      editingQuestion := None;
    }

    /** `toggleSection`: collapses an expanded section, expands a collapsed one. */
    method ToggleSection(sectionId: int)
      modifies this`expandedSections
      ensures expandedSections == Toggle(old(expandedSections), sectionId)
      ensures sectionId in old(expandedSections) <==> sectionId !in expandedSections
    {
      expandedSections := Toggle(expandedSections, sectionId);
    }

    /** `handleAddSection`: a new, empty section with the default title and description. */
    method HandleAddSection(store: SurveyStore.Store)
      modifies store
      ensures store.sections == D.AddSection(old(store.sections), NewSectionTitle, NewSectionDescription, [])
      ensures store.responses == old(store.responses)
      ensures old(store.Valid()) ==> store.Valid()
    {
      store.AddSection(NewSectionTitle, NewSectionDescription, []);
    }

    /** `handleEditSection`: starts editing the section's title and description. */
    method HandleEditSection(section: D.Section)
      modifies this`editingSectionId, this`newSectionTitle, this`newSectionDescription
      ensures editingSectionId == Some(section.id)
      ensures newSectionTitle == section.title && newSectionDescription == section.description
    {
      editingSectionId := Some(section.id);
      newSectionTitle := section.title;
      newSectionDescription := section.description;
    }

    /** `handleSaveSection`: writes the edited text back, then stops editing; otherwise does nothing. */
    method HandleSaveSection(store: SurveyStore.Store)
      modifies this`editingSectionId, this`newSectionTitle, this`newSectionDescription, store
      ensures var target := SectionToSave(old(store.sections), old(editingSectionId),
                                          old(newSectionTitle), old(newSectionDescription));
              if target.None? then
                store.sections == old(store.sections) && editingSectionId == old(editingSectionId)
                && newSectionTitle == old(newSectionTitle) && newSectionDescription == old(newSectionDescription)
              else
                store.sections == D.UpdateSection(old(store.sections), target.value)
                && editingSectionId.None? && newSectionTitle == "" && newSectionDescription == ""
      ensures store.responses == old(store.responses)
      ensures old(store.Valid()) ==> store.Valid()
    {
      if editingSectionId.None? || editingSectionId.value == 0 {
        return;
      }
      var section := Find(store.sections, D.SectionIdIs(editingSectionId.value));
      if section.None? {
        return;
      }
      store.UpdateSection(section.value.(title := newSectionTitle, description := newSectionDescription));
      editingSectionId := None;
      newSectionTitle := "";
      newSectionDescription := "";
    }

    /** `handleCancelEditSection`. */
    method HandleCancelEditSection()
      modifies this`editingSectionId, this`newSectionTitle, this`newSectionDescription
      ensures editingSectionId.None? && newSectionTitle == "" && newSectionDescription == ""
    {
      editingSectionId := None;
      newSectionTitle := "";
      newSectionDescription := "";
    }

    /** `handleDeleteSection`, once confirmed. */
    method HandleDeleteSection(store: SurveyStore.Store, sectionId: int)
      modifies store
      ensures store.sections == D.DeleteSection(old(store.sections), sectionId)
      ensures store.responses == old(store.responses)
      ensures old(store.Valid()) ==> store.Valid()
    {
      store.DeleteSection(sectionId);
    }

    /** `handleAddQuestion`: an empty draft with one empty option. */
    method HandleAddQuestion(sectionId: int)
      modifies this`editingQuestion
      ensures editingQuestion == Some(QuestionDraft(sectionId, None, "", [""], false, false))
    {
      editingQuestion := Some(QuestionDraft(sectionId, None, "", [""], false, false));
    }

    /** `handleEditQuestion`: a draft holding a copy of the question. */
    method HandleEditQuestion(sectionId: int, question: D.Question)
      modifies this`editingQuestion
      ensures editingQuestion == Some(QuestionDraft(sectionId, Some(question.id), question.text,
                                                    question.options, question.allowMultiple, question.hasOther))
    {
      editingQuestion := Some(QuestionDraft(sectionId, Some(question.id), question.text,
                                            question.options, question.allowMultiple, question.hasOther));
    }

    /**
     * `handleSaveQuestion`: with no draft, or with only blank options, nothing changes; otherwise
     * the survey becomes `SaveQuestion` of the draft and the draft is closed.
     */
    method HandleSaveQuestion(store: SurveyStore.Store)
      modifies this`editingQuestion, store
      ensures old(editingQuestion).None? ==>
                editingQuestion == old(editingQuestion) && store.sections == old(store.sections)
      ensures old(editingQuestion).Some? ==>
                var saved := SaveQuestion(old(store.sections), old(editingQuestion).value);
                if saved.None? then
                  editingQuestion == old(editingQuestion) && store.sections == old(store.sections)
                else
                  store.sections == saved.value && editingQuestion.None?
      ensures store.responses == old(store.responses)
      ensures old(store.Valid()) ==> store.Valid()
    {
      if editingQuestion.None? {
        return;
      }
      var draft := editingQuestion.value;
      var filteredOptions := KeptOptions(draft.options);
      if |filteredOptions| == 0 {
        return;
      }
      if draft.questionId.None? {
        store.AddQuestion(draft.sectionId, draft.text, filteredOptions, draft.allowMultiple, draft.hasOther);
      } else {
        store.UpdateQuestion(draft.sectionId,
          D.Question(draft.questionId.value, draft.text, filteredOptions, draft.allowMultiple, draft.hasOther));
      }
      editingQuestion := None;
    }

    /** `handleCancelEditQuestion`. */
    method HandleCancelEditQuestion()
      modifies this`editingQuestion
      ensures editingQuestion.None?
    {
      editingQuestion := None;
    }

    /** `handleDeleteQuestion`, once confirmed. */
    method HandleDeleteQuestion(store: SurveyStore.Store, sectionId: int, questionId: int)
      modifies store
      ensures store.sections == D.DeleteQuestion(old(store.sections), sectionId, questionId)
      ensures store.responses == old(store.responses)
      ensures old(store.Valid()) ==> store.Valid()
    {
      store.DeleteQuestion(sectionId, questionId);
    }

    /** `handleAddOption`: one more, empty, option at the end. */
    method HandleAddOption()
      modifies this`editingQuestion
      ensures old(editingQuestion).None? ==> editingQuestion.None?
      ensures old(editingQuestion).Some? ==>
                editingQuestion == Some(old(editingQuestion).value.(options := old(editingQuestion).value.options + [""]))
    {
      if editingQuestion.None? {
        return;
      }
      editingQuestion := Some(editingQuestion.value.(options := editingQuestion.value.options + [""]));
    }

    /** `handleChangeOption`: the option at `index` takes the new text; the others stay. */
    method HandleChangeOption(index: nat, value: string)
      requires editingQuestion.Some? ==> index < |editingQuestion.value.options|
      modifies this`editingQuestion
      ensures old(editingQuestion).None? ==> editingQuestion.None?
      ensures old(editingQuestion).Some? ==>
                var before := old(editingQuestion).value;
                editingQuestion.Some? && editingQuestion.value == before.(options := editingQuestion.value.options)
                && |editingQuestion.value.options| == |before.options|
                && editingQuestion.value.options[index] == value
                && forall i :: 0 <= i < |before.options| && i != index ==>
                     editingQuestion.value.options[i] == before.options[i]
    {
      if editingQuestion.None? {
        return;
      }
      var newOptions := editingQuestion.value.options;
      newOptions := newOptions[index := value];
      editingQuestion := Some(editingQuestion.value.(options := newOptions));
    }

    /** `handleDeleteOption`: the option at `index` goes; an index out of range changes nothing. */
    method HandleDeleteOption(index: int)
      modifies this`editingQuestion
      ensures old(editingQuestion).None? ==> editingQuestion.None?
      ensures old(editingQuestion).Some? ==>
                editingQuestion == Some(old(editingQuestion).value.(options := RemoveAt(old(editingQuestion).value.options, index)))
    {
      if editingQuestion.None? {
        return;
      }
      editingQuestion := Some(editingQuestion.value.(options := RemoveAt(editingQuestion.value.options, index)));
    }
  }
}

# Survey tool: a verified model

This project models the logic of a small client-side survey tool. Respondents log in with a name and a
French phone number and answer a questionnaire made of sections of multiple-choice questions. An
administrator edits the questionnaire, lists the responses and participants, and exports the responses
as comma-separated text.

The model covers these parts of the tool:

- **Survey store** (`SurveyData`, `SurveyStore`). The survey definition and the responses are two state
  cells. The `Store` class keeps them as `seq` fields. Each mutator reassigns a field with a pure
  function of `SurveyData`.
  - Section ids and question ids are numbered *largest existing id + 1*. Question ids are scoped to
    their section.
  - Responses are upserted by user id.
- **Questionnaire page** (`SurveyPage`, `SurveySectionView`).
  - The in-progress answers are upserted by their (question, section) key, through a `findIndex`
    loop and an in-place slot update.
  - The section cursor moves by one with guards.
  - Submission hands the answers to the store.
  - The section view computes the new selection of a click. A multi-select question toggles the
    option. A single-select question keeps only the option.
- **Administration views**.
  - `ResponsesView`: the answer display rule, the question-text lookup, the newest-first order and
    the export. The export is an imperative method proved equal to a specification of the whole
    document.
  - `UserManagement`: the first-occurrence de-duplication of users, as a loop, and the newest-first
    sort.
  - `QuestionEditor`: the `Editor` class with expanded sections, the section being renamed and the
    question draft.
- **Identity** (`Auth`, `Login`).
  - The allow-list check compares names ignoring case and phones exactly.
  - The login, administrator login and logout state changes.
  - The login form's checks. The phone pattern is a hand-written recogniser. Lemmas prove it
    accepts exactly the language of the pattern.

Generic sequence operations live in `Seqs`: `findIndex`/`find`, `filter`, the membership toggle and a
stable newest-first sort. The string primitives live in `Text`: ASCII `trim() === ''`,
`toLowerCase` and `join`. Clock readings (`Date.now()`, the submission time) and the locale date
formatting are parameters. Timestamps are integers.

A new id is the largest existing id plus one, not the smallest unused one. Deleting section 1 of
`[1, 2]` and then adding a section gives the new section id **3**. Deleting the section with the
largest id and then adding one can hand out that id again: deleting 2 of `[1, 2]` and adding gives
id **2** (`SurveyData.ReuseScenario`).

The store keeps an invariant, `SurveyStore.Store.Valid()`: section ids are distinct, question ids
are distinct within each section, and each user has at most one response. Every mutator keeps it,
except that `AddSection` and `UpdateSection` keep it only when the section's questions have distinct
ids. Every editor call meets that condition, so the editor handlers keep it unconditionally.
The mutators accept any state, as in the source, so each one states the invariant as kept rather
than demanding it.

## Model

| member | source | states |
|---|---|---|
| Seqs.FirstIndex | src/contexts/SurveyContext.tsx:207 | `findIndex`: -1 exactly when no element matches, otherwise the first matching position |
| Seqs.FirstIndexIsFirst | src/pages/Survey.tsx:27 | a position that matches, with no match before it, is the one `findIndex` returns |
| Seqs.FirstIndexSnoc | src/components/admin/UserManagement.tsx:10 | searching a sequence extended at the end finds the old first match, or else the new last element |
| Seqs.Find | src/components/admin/ResponsesView.tsx:15 | `find`: None iff nothing matches; otherwise the element at the first matching position |
| Seqs.FindCons | src/components/survey/SurveySection.tsx:17 | `find` on `[x] + s` is `x` when it matches, else `find` on `s` |
| Seqs.Filter | src/contexts/SurveyContext.tsx:162 | `filter` never lengthens the list |
| Seqs.FilterMembers | src/contexts/SurveyContext.tsx:162 | `filter`: the result holds only kept elements of the input, and every kept input element |
| Seqs.FilterConcat | src/contexts/SurveyContext.tsx:162 | filtering distributes over concatenation, so survivors keep their relative order |
| Seqs.FilterKeepsAll | src/contexts/SurveyContext.tsx:162 | a filter that keeps every element is the identity |
| Seqs.FilterDropsAll | src/components/admin/QuestionEditor.tsx:96 | a filter that keeps no element gives the empty sequence |
| Seqs.FilterRemovesOne | src/contexts/SurveyContext.tsx:162 | with one element failing the predicate, filtering removes exactly that position |
| Seqs.FilterShrinks | src/components/admin/QuestionEditor.tsx:27 | a filter that drops some element is strictly shorter |
| Seqs.Toggle | src/components/admin/QuestionEditor.tsx:27 | present: every occurrence removed and the list shorter; absent: appended at the end; nothing else gained or lost |
| Seqs.ToggleTwiceRestores | src/components/survey/SurveySection.tsx:41 | toggling an absent element twice restores the list |
| Seqs.ToggleRemovesOne | src/components/admin/QuestionEditor.tsx:27 | when the element occurs only at position `k`, toggling removes exactly position `k` and keeps the rest in order |
| Seqs.FilterKeepsDistinctKeys | src/contexts/SurveyContext.tsx:162 | filtering a list whose keys are distinct leaves the keys distinct |
| Seqs.ToggleKeepsNoDuplicates | src/components/survey/SurveySection.tsx:41 | toggling keeps a duplicate-free list duplicate-free |
| Seqs.InsertNewest | src/components/admin/UserManagement.tsx:27 | insertion step of the sort: one more element, same multiset |
| Seqs.InsertNewestSorted | src/components/admin/UserManagement.tsx:27 | inserting into a newest-first list keeps it newest first |
| Seqs.SortNewestFirst | src/components/admin/UserManagement.tsx:27 | the sort is a permutation and orders by non-increasing time |
| Seqs.InsertNewestStable | src/components/admin/UserManagement.tsx:27 | insertion keeps the relative order of elements with equal time |
| Seqs.SortNewestFirstStable | src/components/admin/UserManagement.tsx:27 | the sort is stable: the elements with any given time keep their input order |
| Text.ToLower | src/contexts/AuthContext.tsx:39 | `toLowerCase` keeps the length and lowers each character |
| Text.IsBlank | src/pages/Login.tsx:30 | `trim() === ''`: every character is white space |
| Text.EqualIgnoringCase | src/contexts/AuthContext.tsx:39 | `a.toLowerCase() === b.toLowerCase()`: the lowered strings are equal |
| Text.EqualIgnoringCaseByChars | src/contexts/AuthContext.tsx:39 | strings of equal length that agree character by character once lowered are equal ignoring case |
| Text.Join | src/components/admin/ResponsesView.tsx:24 | `join`: the items with the separator between each two; see `JoinEmpty` and `JoinAppend` |
| Text.JoinEmpty | src/components/admin/ResponsesView.tsx:24 | joining non-empty strings is empty iff there is nothing to join |
| Text.JoinAppend | src/components/admin/ResponsesView.tsx:24-26 | joining one more item appends the separator and the item |
| Seqs.FlatMapConcat | src/components/admin/ResponsesView.tsx:57-66 | the pieces for `a + b` are those for `a` followed by those for `b` |
| Seqs.FlatMapStep | src/components/admin/ResponsesView.tsx:57 | one more element adds its piece at the end |
| SurveyData.MaxId | src/contexts/SurveyContext.tsx:152 | `Math.max(0, ...ids)`: non-negative, at least every id, and 0 or one of the ids |
| SurveyData.NextId | src/contexts/SurveyContext.tsx:152 | the new id is at least 1 and above every id; it is 1 or one more than an existing id |
| SurveyData.NextIdIsLeast | src/contexts/SurveyContext.tsx:152 | the new id is no larger than any positive number above every id, so it is the least such number |
| SurveyData.AddSection | src/contexts/SurveyContext.tsx:151-157 | appends one section, earlier ones untouched; its id is above every section id, 1 on an empty survey; distinct ids stay distinct |
| SurveyData.UpdateSection | src/contexts/SurveyContext.tsx:158-160 | same length and ids; sections with the id replaced, others unchanged; no-op when the id is absent |
| SurveyData.DeleteSection | src/contexts/SurveyContext.tsx:161-163 | no section with the id remains; every other section survives; no-op when the id is absent |
| SurveyData.DeleteSectionKeepsOrder | src/contexts/SurveyContext.tsx:162 | deletion keeps the survivors' relative order |
| SurveyData.QuestionCountConcat | src/contexts/SurveyContext.tsx:161-163 | the question count of a concatenation is the sum of the counts |
| SurveyData.DeleteSectionCascade | src/contexts/SurveyContext.tsx:161-163 | with distinct ids, deleting section `k` removes exactly it and its questions |
| SurveyData.DeleteLargestThenAdd | src/contexts/SurveyContext.tsx:152-163 | after deleting the section with the largest id, the next id is at most that id, and equals it when it was 1 or the id just below is present |
| SurveyData.ReuseScenario | src/contexts/SurveyContext.tsx:152-163 | on sections 1 and 2: deleting 1 then adding gives id 3; deleting 2 then adding gives id 2 |
| SurveyData.SingleIdNext | src/contexts/SurveyContext.tsx:152 | a single non-negative id `i` gives the next id `i + 1` |
| SurveyData.AppendQuestion | src/contexts/SurveyContext.tsx:166-174 | the section gains one question at the end with a section-scoped fresh id; distinct ids stay distinct |
| SurveyData.AddQuestion | src/contexts/SurveyContext.tsx:164-178 | only the sections with the id gain the question; others unchanged; no-op when absent; count grows by the number of matching sections |
| SurveyData.AddQuestionCount | src/contexts/SurveyContext.tsx:164-178 | the question count grows by one per matching section |
| SurveyData.ReplaceQuestion | src/contexts/SurveyContext.tsx:184 | questions with the id replaced, the others and the ids kept; no-op when absent |
| SurveyData.UpdateQuestion | src/contexts/SurveyContext.tsx:179-189 | same sections and ids; only the named sections' questions are replaced; question count unchanged |
| SurveyData.SameShapeSameCount | src/contexts/SurveyContext.tsx:179-189 | sections with the same numbers of questions have the same total |
| SurveyData.RemoveQuestion | src/contexts/SurveyContext.tsx:195 | no question with the id remains; every other survives; no-op when absent |
| SurveyData.RemoveQuestionKeepsOrder | src/contexts/SurveyContext.tsx:195 | removal distributes over concatenation, so the remaining questions keep their relative order |
| SurveyData.RemoveQuestionAt | src/contexts/SurveyContext.tsx:195 | with distinct ids, removing the id of position `k` removes exactly that position |
| SurveyData.RemoveQuestionKeepsDistinct | src/contexts/SurveyContext.tsx:195 | removal keeps question ids distinct |
| SurveyData.DeleteQuestion | src/contexts/SurveyContext.tsx:190-200 | same sections and ids; only the named sections lose the matching questions; count does not grow |
| SurveyData.FewerQuestions | src/contexts/SurveyContext.tsx:190-200 | sections with no more questions each have no larger total |
| SurveyData.AddSectionKeepsValid | src/contexts/SurveyContext.tsx:151-157 | adding a section whose question ids are distinct keeps the survey invariant |
| SurveyData.UpdateSectionKeepsValid | src/contexts/SurveyContext.tsx:158-160 | writing back a section whose question ids are distinct keeps the survey invariant |
| SurveyData.DeleteSectionKeepsValid | src/contexts/SurveyContext.tsx:161-163 | deleting a section keeps the survey invariant |
| SurveyData.AddQuestionKeepsValid | src/contexts/SurveyContext.tsx:164-178 | adding a question keeps the survey invariant |
| SurveyData.UpdateQuestionKeepsValid | src/contexts/SurveyContext.tsx:179-189 | replacing a question keeps the survey invariant |
| SurveyData.DeleteQuestionKeepsValid | src/contexts/SurveyContext.tsx:190-200 | deleting a question keeps the survey invariant |
| SurveyData.ResponseIndex | src/contexts/SurveyContext.tsx:207 | `findIndex` by user id; its properties are those of `Seqs.FirstIndex` |
| SurveyData.SubmitResponse | src/contexts/SurveyContext.tsx:201-213 | an existing user's first response is replaced in place, others and length kept; otherwise the response is appended |
| SurveyData.SubmitLeavesOneEntry | src/contexts/SurveyContext.tsx:201-213 | with unique user ids before, they are unique after, and the user's entry is the new one |
| SurveyData.SubmitTwiceLatestWins | src/contexts/SurveyContext.tsx:201-213 | after two submissions by one user, ids stay unique and that user's only entry is the second submission |
| SurveyData.DeleteResponse | src/contexts/SurveyContext.tsx:214-216 | no response of the user remains; every other survives |
| SurveyData.DeleteResponseKeepsOrder | src/contexts/SurveyContext.tsx:215 | deletion keeps the other responses in relative order |
| SurveyData.DeleteResponseKeepsUnique | src/contexts/SurveyContext.tsx:214-216 | with one response per user before, there is one after |
| SurveyData.AnswerIndex | src/pages/Survey.tsx:27 | `findIndex` on the (question, section) key; its properties are those of `Seqs.FirstIndex` |
| SurveyData.FindAnswer | src/components/survey/SurveySection.tsx:17 | `find` on the (question, section) key; its properties are those of `Seqs.Find` |
| SurveyStore.Store.constructor | src/contexts/SurveyContext.tsx:131-132 | starts from the given sections and no responses; the invariant holds iff it holds of the given sections |
| SurveyStore.Store.AddSection | src/contexts/SurveyContext.tsx:151-157 | sections become `AddSection` of the old ones; responses unchanged; the invariant is kept when the new questions have distinct ids |
| SurveyStore.Store.UpdateSection | src/contexts/SurveyContext.tsx:158-160 | sections become `UpdateSection` of the old ones; responses unchanged; the invariant is kept when the section's questions have distinct ids |
| SurveyStore.Store.DeleteSection | src/contexts/SurveyContext.tsx:161-163 | sections become `DeleteSection` of the old ones; responses unchanged; the invariant is kept |
| SurveyStore.Store.AddQuestion | src/contexts/SurveyContext.tsx:164-178 | sections become `AddQuestion` of the old ones; responses unchanged; the invariant is kept |
| SurveyStore.Store.UpdateQuestion | src/contexts/SurveyContext.tsx:179-189 | sections become `UpdateQuestion` of the old ones; responses unchanged; the invariant is kept |
| SurveyStore.Store.DeleteQuestion | src/contexts/SurveyContext.tsx:190-200 | sections become `DeleteQuestion` of the old ones; responses unchanged; the invariant is kept |
| SurveyStore.Store.SubmitResponse | src/contexts/SurveyContext.tsx:201-213 | responses become `SubmitResponse` stamped with `now`; sections unchanged; the invariant is kept |
| SurveyStore.Store.DeleteResponse | src/contexts/SurveyContext.tsx:214-216 | responses become `DeleteResponse` of the old ones; sections unchanged; the invariant is kept |
| SurveySectionView.UnansweredQuestionIsEmpty | src/components/survey/SurveySection.tsx:35-36 | a question with no stored answer shows no selection and no free text |
| SurveySectionView.QuestionAnswer | src/components/survey/SurveySection.tsx:17 | the answer a question is shown: the first stored one with its question and section ids |
| SurveySectionView.SelectedOptions | src/components/survey/SurveySection.tsx:35 | `answer?.value \|\| []`: the stored selection, empty without an answer |
| SurveySectionView.OtherText | src/components/survey/SurveySection.tsx:36 | `answer?.otherValue \|\| ''`: the stored free text, empty without an answer |
| SurveySectionView.NewSelection | src/components/survey/SurveySection.tsx:37-45 | single-select: exactly `[option]`; multi-select: removes every occurrence, or appends at the end |
| SurveySectionView.ChooseTwiceRestores | src/components/survey/SurveySection.tsx:41 | choosing an unselected option twice on a multi-select question restores the selection |
| SurveySectionView.NewSelectionKeepsNoDuplicates | src/components/survey/SurveySection.tsx:37-45 | a click keeps a duplicate-free selection duplicate-free, so no reachable selection holds an option twice |
| SurveySectionView.DeselectKeepsOrder | src/components/survey/SurveySection.tsx:41 | in a duplicate-free multi-select selection, clicking a chosen option removes exactly its position and keeps the others in order |
| SurveySectionView.CheckboxChange | src/components/survey/SurveySection.tsx:37-47 | the change is keyed to the question and section, carries the new selection and passes the free text through |
| SurveySectionView.OtherChange | src/components/survey/SurveySection.tsx:48-50 | the selection is unchanged; only the free text is replaced |
| SurveySectionView.OtherBoxClick | src/components/survey/SurveySection.tsx:67-71 | a click in the free-text box changes nothing when "other" is selected; otherwise "other" becomes selected, nothing else is gained and the free text passes through |
| SurveyPage.SectionAnswers | src/pages/Survey.tsx:133 | the section view receives exactly the answers of the current section |
| SurveyPage.SectionLookupAgrees | src/pages/Survey.tsx:133 | looking an answer up among the section's answers gives what a lookup among all gives |
| SurveyPage.UpsertAnswer | src/pages/Survey.tsx:26-45 | the answer with the key is replaced in place, others and length kept, or the answer is appended; the lookup then finds it |
| SurveyPage.UpsertKeepsKeysUnique | src/pages/Survey.tsx:27-43 | with one answer per key before, there is one after, and the changed key holds the new answer |
| SurveyPage.FindAnswerIndex | src/pages/Survey.tsx:27 | the loop returns the first position with the key, or -1 |
| SurveyPage.PreviousIndex | src/pages/Survey.tsx:46-50 | back one unless on the first section |
| SurveyPage.NextIndex | src/pages/Survey.tsx:51-55 | forward one unless on `sections.length - 1` |
| SurveyPage.Navigate | src/pages/Survey.tsx:46-55 | the cursor after a sequence of clicks; see `NavigationStaysInRange` |
| SurveyPage.NavigationStaysInRange | src/pages/Survey.tsx:46-55 | with at least one section, any sequence of moves keeps the cursor on a section |
| SurveyPage.NoSectionsNeverStops | src/pages/Survey.tsx:51-55 | with no sections, "next" always moves on |
| SurveyPage.SurveyPage.constructor | src/pages/Survey.tsx:16-18 | no answers, first section, not submitted |
| SurveyPage.SurveyPage.CurrentSectionAnswers | src/pages/Survey.tsx:133 | a section is shown iff the cursor names one, with exactly its answers |
| SurveyPage.SurveyPage.HandleAnswerChange | src/pages/Survey.tsx:26-45 | answers become `UpsertAnswer` of the old answers |
| SurveyPage.SurveyPage.HandlePrevious | src/pages/Survey.tsx:46-50 | the cursor goes back one unless it is 0 |
| SurveyPage.SurveyPage.HandleNext | src/pages/Survey.tsx:51-55 | the cursor goes forward one unless it is on `sections.length - 1` |
| SurveyPage.SurveyPage.HandleSubmit | src/pages/Survey.tsx:56-64 | the store receives the user's id, name, phone and all answers and keeps its invariant; the page is marked submitted |
| SurveyPage.ClickIsVisible | src/components/survey/SurveySection.tsx:17 | after a click, the view's lookup for that question finds the change just made |
| ResponsesView.AnswerDisplay | src/components/admin/ResponsesView.tsx:20-29 | never empty; the placeholder when the answer is missing or has no value |
| ResponsesView.DisplayWithOther | src/components/admin/ResponsesView.tsx:24-27 | with "other" and free text: the other values, then `Autre: <text>`, joined by ", " |
| ResponsesView.DisplayWithoutOther | src/components/admin/ResponsesView.tsx:24-28 | otherwise the non-"other" values joined by ", " |
| ResponsesView.DisplayOnlyOtherWithoutText | src/components/admin/ResponsesView.tsx:28 | only "other" and no text gives the placeholder |
| ResponsesView.DisplayExample | src/components/admin/ResponsesView.tsx:24-28 | `["Santé", "other"]` with "Mutuelle" shows `Santé, Autre: Mutuelle` |
| ResponsesView.QuestionText | src/components/admin/ResponsesView.tsx:14-19 | the placeholder when no section has the id; otherwise the placeholder or a question text of that section with that id |
| ResponsesView.QuestionTextOfFirstMatch | src/components/admin/ResponsesView.tsx:14-19 | the text is that of the first matching question of the first matching section |
| ResponsesView.QuestionTextMissing | src/components/admin/ResponsesView.tsx:17-18 | the placeholder when that section lacks the question |
| ResponsesView.SortedResponses | src/components/admin/ResponsesView.tsx:31 | a permutation of the responses, newest first |
| ResponsesView.SectionColumns | src/components/admin/ResponsesView.tsx:41-47 | one column per question of the section |
| ResponsesView.ColumnsConcat | src/components/admin/ResponsesView.tsx:40-48 | columns go section by section, each section's questions in order |
| ResponsesView.Columns | src/components/admin/ResponsesView.tsx:40-48 | every question as a column, section by section; see `ColumnsConcat` and `ColumnCount` |
| ResponsesView.ColumnCount | src/components/admin/ResponsesView.tsx:40-48 | one column per question of the survey |
| ResponsesView.RowFields | src/components/admin/ResponsesView.tsx:57-64 | 3 + (number of columns) fields: name, phone, date, then each column's answer found by (question, section) |
| ResponsesView.HeaderLine | src/components/admin/ResponsesView.tsx:51-55 | the fixed columns, one quoted question text per column in order, then `\r\n` |
| ResponsesView.Row | src/components/admin/ResponsesView.tsx:58-65 | one response's fields, each quoted and comma-terminated, then `\r\n` |
| ResponsesView.Rows | src/components/admin/ResponsesView.tsx:57-66 | one row per response, in stored order |
| ResponsesView.CsvDocument | src/components/admin/ResponsesView.tsx:32-66 | None with no responses; otherwise the prefix, the header line and the rows |
| ResponsesView.QuotedFieldsStep | src/components/admin/ResponsesView.tsx:52-54 | each field adds one quoted, comma-terminated item at the end |
| ResponsesView.CollectColumns | src/components/admin/ResponsesView.tsx:40-48 | the nested loops produce exactly the columns |
| ResponsesView.WriteFields | src/components/admin/ResponsesView.tsx:52-54 | the loop appends exactly the quoted fields |
| ResponsesView.WriteHeader | src/components/admin/ResponsesView.tsx:50-55 | the prefix, the fixed columns, one quoted text per question, then `\r\n` |
| ResponsesView.WriteRow | src/components/admin/ResponsesView.tsx:58-65 | appends exactly the response's row |
| ResponsesView.WriteRows | src/components/admin/ResponsesView.tsx:57-66 | the response loop appends one row per response, in stored order |
| ResponsesView.ExportResponsesToCsv | src/components/admin/ResponsesView.tsx:32-66 | None with no responses; otherwise the header followed by one row per response in stored order |
| UserManagement.Users | src/components/admin/UserManagement.tsx:9-25 | the reduce yields at most one entry per response |
| UserManagement.RowFor | src/components/admin/UserManagement.tsx:12-17 | the entry a response adds: its user id, name, phone and submission time |
| UserManagement.UsersCover | src/components/admin/UserManagement.tsx:9-19 | a user is listed iff some response has their id |
| UserManagement.UsersDistinct | src/components/admin/UserManagement.tsx:10-11 | no user id is listed twice |
| UserManagement.ListedIndexUnchanged | src/components/admin/UserManagement.tsx:10 | a later response does not move a user's first response |
| UserManagement.NewUserIndex | src/components/admin/UserManagement.tsx:11-17 | a new user's first response is the one just read |
| UserManagement.UsersFromFirstResponses | src/components/admin/UserManagement.tsx:10-18 | each entry's name, phone and time come from the first response with its id |
| UserManagement.UsersInFirstResponseOrder | src/components/admin/UserManagement.tsx:9-25 | entries appear in the order of their first responses |
| UserManagement.UsersStep | src/components/admin/UserManagement.tsx:10-19 | one more response appends its user exactly when the user is not yet listed, and otherwise leaves the list alone |
| UserManagement.UniqueUsers | src/components/admin/UserManagement.tsx:9-25 | the loop computes exactly `Users` |
| UserManagement.SortedUsers | src/components/admin/UserManagement.tsx:27 | a permutation of the entries, newest submission first |
| QuestionEditor.KeptOptions | src/components/admin/QuestionEditor.tsx:96 | only non-blank options, each from the draft, every non-blank one kept; empty iff all are blank |
| QuestionEditor.KeptOptionsConcat | src/components/admin/QuestionEditor.tsx:96 | the kept options keep their order |
| QuestionEditor.RemoveAt | src/components/admin/QuestionEditor.tsx:145-151 | removes exactly position `index`, others in order; out of range, no change |
| QuestionEditor.RemoveAddedOption | src/components/admin/QuestionEditor.tsx:129-151 | deleting the option just added restores the list |
| QuestionEditor.SectionToSave | src/components/admin/QuestionEditor.tsx:42-50 | nothing iff not editing, id 0, or the id is gone; otherwise the found section with the new title and description |
| QuestionEditor.SaveSectionEditsOnlyText | src/components/admin/QuestionEditor.tsx:42-50 | with distinct ids, saving changes only the title and description of the edited section |
| QuestionEditor.SaveQuestion | src/components/admin/QuestionEditor.tsx:85-120 | refused iff every option is blank; otherwise same sections and ids, sections other than the draft's unchanged |
| QuestionEditor.SaveNewQuestion | src/components/admin/QuestionEditor.tsx:101-108 | a new question lands at the end of its section with a fresh id and the kept options |
| QuestionEditor.SaveEditedQuestion | src/components/admin/QuestionEditor.tsx:109-118 | an edited question keeps its id and place and takes the draft's text, flags and kept options; the other questions of its section are unchanged |
| QuestionEditor.Editor.constructor | src/components/admin/QuestionEditor.tsx:14-25 | all sections expanded; nothing being edited |
| QuestionEditor.Editor.ToggleSection | src/components/admin/QuestionEditor.tsx:26-28 | the expanded list is toggled; the section is expanded after iff it was not before |
| QuestionEditor.Editor.HandleAddSection | src/components/admin/QuestionEditor.tsx:30-36 | adds an empty section with the default title and description; the store keeps its invariant |
| QuestionEditor.Editor.HandleEditSection | src/components/admin/QuestionEditor.tsx:37-41 | starts editing the section's id, title and description |
| QuestionEditor.Editor.HandleSaveSection | src/components/admin/QuestionEditor.tsx:42-54 | no change when there is nothing to save; otherwise the section is updated and editing ends; the store keeps its invariant |
| QuestionEditor.Editor.HandleCancelEditSection | src/components/admin/QuestionEditor.tsx:55-59 | editing ends, fields cleared |
| QuestionEditor.Editor.HandleDeleteSection | src/components/admin/QuestionEditor.tsx:60-64 | the confirmed path deletes the section; the store keeps its invariant |
| QuestionEditor.Editor.HandleAddQuestion | src/components/admin/QuestionEditor.tsx:65-74 | a new draft with no id, empty text and one empty option |
| QuestionEditor.Editor.HandleEditQuestion | src/components/admin/QuestionEditor.tsx:75-84 | a draft copying the question |
| QuestionEditor.Editor.HandleSaveQuestion | src/components/admin/QuestionEditor.tsx:85-120 | no draft or all-blank options: nothing changes; otherwise the survey becomes `SaveQuestion` and the draft closes; the store keeps its invariant |
| QuestionEditor.Editor.HandleCancelEditQuestion | src/components/admin/QuestionEditor.tsx:121-123 | the draft closes |
| QuestionEditor.Editor.HandleDeleteQuestion | src/components/admin/QuestionEditor.tsx:124-128 | the confirmed path deletes the question; the store keeps its invariant |
| QuestionEditor.Editor.HandleAddOption | src/components/admin/QuestionEditor.tsx:129-135 | one more empty option at the end |
| QuestionEditor.Editor.HandleChangeOption | src/components/admin/QuestionEditor.tsx:136-144 | only position `index` changes, the length is kept |
| QuestionEditor.Editor.HandleDeleteOption | src/components/admin/QuestionEditor.tsx:145-151 | the options become `RemoveAt` of the old ones |
| Auth.AnyAdminMatches | src/contexts/AuthContext.tsx:39 | true iff some entry has a name equal ignoring case and exactly the phone |
| Auth.IsListedAdmin | src/contexts/AuthContext.tsx:39 | the name and phone match an entry of the fixed allow-list |
| Auth.AdminNameIgnoresCase | src/contexts/AuthContext.tsx:39 | "admin un" with the first phone is an administrator |
| Auth.AdminPhoneIsExact | src/contexts/AuthContext.tsx:39 | another entry's phone, or the right one with spaces, is refused |
| Auth.AuthState.constructor | src/contexts/AuthContext.tsx:30 | nobody is logged in |
| Auth.AuthState.IsAuthenticated | src/contexts/AuthContext.tsx:66 | `currentUser !== null` |
| Auth.AuthState.IsAdmin | src/contexts/AuthContext.tsx:66-67 | the current user's flag; false when nobody is logged in |
| Auth.AuthState.Login | src/contexts/AuthContext.tsx:38-48 | always logs in the given name and phone with the computed flag |
| Auth.AuthState.AdminLogin | src/contexts/AuthContext.tsx:49-56 | succeeds iff allow-listed, then logged in as administrator; on failure the user is unchanged |
| Auth.AuthState.Logout | src/contexts/AuthContext.tsx:57-60 | nobody logged in, not authenticated, not administrator |
| Login.AfterPrefix | src/pages/Login.tsx:35 | the rest after a `0` or `+33` prefix |
| Login.MatchGroups | src/pages/Login.tsx:35 | `([-. ]?[0-9]{2}){n}` on the whole string; see `GroupsMatch` and `MatchedGroups` |
| Login.IsFrenchPhone | src/pages/Login.tsx:35 | the anchored phone pattern; see `PhoneFromParts` and `PhoneToParts` |
| Login.GroupsMatch | src/pages/Login.tsx:35 | any concatenation of n groups matches the group recogniser |
| Login.MatchedGroups | src/pages/Login.tsx:35 | anything the group recogniser accepts splits into n groups |
| Login.PhoneFromParts | src/pages/Login.tsx:35 | every string of the pattern's language is accepted |
| Login.PhoneToParts | src/pages/Login.tsx:35 | every accepted string is in the pattern's language |
| Login.MatchGroupsShape | src/pages/Login.tsx:35 | n groups span 2n to 3n characters with exactly 2n digits |
| Login.AcceptedPhoneShape | src/pages/Login.tsx:35 | an accepted number has 10 to 16 characters and 9 digits after its prefix |
| Login.FormError | src/pages/Login.tsx:30-39 | the blank-field error iff a field is blank; the phone error iff the fields are filled but the phone fails; none iff both pass |
| Login.LoginPage.constructor | src/pages/Login.tsx:6-9 | empty fields, ordinary mode, no error |
| Login.LoginPage.SetName | src/pages/Login.tsx:6 | sets the name field |
| Login.LoginPage.SetPhone | src/pages/Login.tsx:7 | sets the phone field |
| Login.LoginPage.ToggleAdminLogin | src/pages/Login.tsx:8 | flips the administrator mode |
| Login.LoginPage.HandleSubmit | src/pages/Login.tsx:27-51 | a form error stops before any login; administrator mode reaches the admin area only through a successful `adminLogin`, else shows the credentials error; ordinary mode always logs in |

## Left out

- Persistence of the sections, responses and current user to browser storage, and their JSON
  (de)serialisation. This is browser I/O; the stores are in-memory state only.
- Clock readings. `Date.now()` as the user id and the submission time are parameters (`clockId`,
  `now`). Submission times are integers. ISO-string timestamps and `Date` parsing in the sorts are
  not modelled.
- Locale date formatting (`toLocaleString`) in the export is the parameter `formatDate`.
  `encodeURI`, the download link and the file name built from the current date are DOM calls and
  not modelled.
- The progress-bar percentage, which is floating point.
- Confirmation dialogs and alerts. Delete handlers model the confirmed path only. The refused
  question save models only the state staying unchanged.
- Unicode semantics of `trim` and `toLowerCase`. Only ASCII white space and ASCII upper-case
  letters are handled. The JavaScript regular-expression engine is replaced by a hand-written
  recogniser, proved equal to the pattern's language.
- Rendering and routing: the application shell, the admin page and the two route guards. Also the
  redirect on the login page when a user is already logged in.
- The expanded-user list of the responses view (`toggleUser`). It is the same membership toggle as
  `QuestionEditor.Editor.ToggleSection`, over user ids.
- The seed survey content, which is constant data.
- `otherValue` is optional in the source. The model uses the empty string for "absent". Every use
  goes through JavaScript truthiness, which does not tell the two apart.
- QuestionEditor.Editor.HandleChangeOption: requires `index` to name an existing option. Assigning
  past the end of a JavaScript array leaves holes, which a sequence of strings cannot hold. The
  editor only offers indices of existing options.
- SurveyPage.SurveyPage.HandleNext: takes the number of sections as a parameter rather than reading
  the store. With no sections it increments without bound, as in the source
  (`SurveyPage.NoSectionsNeverStops`).

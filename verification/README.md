# Exam answer sheet: a Dafny model

This project models the core of a browser answer sheet for multiple-choice
exams, together with the Python scripts that prepare exam definitions.

An exam definition carries a title, a number of options per question
(lettered A–E; any option past the fifth gets the value "undefined"), an
answer key and optional sections. A section is a
titled range of question numbers. The page works in four steps:

1. It validates a definition.
2. It renders one block of radio inputs per question, with a section title
   before the first question of each section.
3. It reads the checked radios back in question order.
4. It grades them against the key, crediting each correct answer to the
   first section whose range contains it.

The scripts convert between the YAML authoring form, where the key is a map
from question number to letter, and the JSON form the page loads, where the
key is a list. They also check a JSON definition before a page is pointed
at it.

The model is pure. Each operation is a function of its inputs. The DOM is a
sequence of `Radio` records in document order. The rendered HTML is a
sequence of `Item`s: a section title, or a numbered question with its
radios. JavaScript `null`/`undefined` and absent record fields are written
as `Option`. A Python `raise` is a `Failure` or `Fail`.

Modules:

- `Wrappers`: `Option`, `Result` and `Outcome`.
- `ExamData`: the definition record, its sections (a list, `null`, or
  another value), the errors, and the `Tiles` predicate. `Tiles` holds when consecutive sections partition
  1..N.
- `Decimal`: digit strings, `/\D/g` removal and `parseInt` of the
  remaining digits.
- `Grading`: src/gradingService.js.
- `ExamService`: src/examService.js.
- `FormUtils`: src/utils.js.
- `QuestionGenerator`: src/questionGenerator.js.
- `YamlToJson`: yaml_to_json.py.
- `JsonToYaml`: json_to_yaml.py.
- `EmbedExamData`: embed_exam_data.py.

Each operation is paired with an independent reference definition, an
inverse, or an invariant, and a lemma connects the two:

- Grading is compared with reference counts (`CountCorrect`, `Credited`,
  `Unattributed`).
- The two converters are each other's inverse (`ArrayRoundTrip`,
  `NumberedRoundTrip`, `ExamRoundTrip`).
- The generator is compared with a section-by-section construction of the
  sheet (`TiledSheet`).
- The reading of the form is tied to the generator: the answers come back
  in question order (`SheetAnswersInQuestionOrder`).

## Model

| member | source | states |
|---|---|---|
| Grading.GradeAnswers | src/gradingService.js:8-28 | one verdict per submitted answer, aligned with the questions; a verdict is true exactly when the question has a key entry strictly equal to the answer (extra answers and `null` answers are wrong); the correct count is the number of true verdicts and equals the reference count; the breakdown has one entry per section, in section order, with each title and, as its count, the reference number of correct answers credited to that section; the section counts plus the uncovered correct answers add up to the correct count |
| Grading.InitialBreakdown | src/gradingService.js:30-39 | one zero score per section, titles in section order; empty when the sections are absent |
| Grading.FirstCovering | src/gradingService.js:46-52 | the index of a section whose range contains the question, with no earlier section containing it; none exactly when no section contains it |
| Grading.UpdateBreakdown | src/gradingService.js:41-53 | adds one to exactly the first section that contains the question and changes nothing else (titles and all other counts are kept); with absent sections nothing changes |
| Grading.SectionTotalQuestions | src/gradingService.js:55-62 | 0 for absent sections or an index with no section; otherwise end - start + 1, the size of the section's range |
| Grading.SectionScoreBound | src/gradingService.js:41-53 | a section is never credited with more correct answers than it has questions among those graded, so never more than end - start + 1 when start <= end, and 0 otherwise |
| Grading.NoSectionsNoCredit | src/gradingService.js:41-44 | with absent sections no correct answer is credited to any section |
| Grading.TiledCredit | src/gradingService.js:46-52 | when the sections tile 1..N, question q is credited to section s exactly when s's range contains q |
| Grading.TiledSectionsCreditEverything | src/gradingService.js:41-53 | when the sections tile 1..N and at most N answers are graded, every correct answer is credited to some section, so the section scores sum to the correct count |
| Grading.PerfectScoreFillsSections | src/gradingService.js:8-62 | a submission equal to the key scores |key|, and each section of a tiling scores its full getSectionTotalQuestions |
| ExamService.NewExamService | src/examService.js:3-5 | a new service holds no definition |
| ExamService.SetExamData | src/examService.js:30-41 | storing returns the stored definition, and getExamData then yields it |
| ExamService.GetExamData | src/examService.js:38-40 | a new service yields `null`; after a store it yields the stored definition (stated with SetExamData and LastStoreWins) |
| ExamService.FirstValidationError | src/examService.js:90-115 | the first failed check, in the source's order, each error reported exactly when its check is the first to fail: missing title, then numberOfOptions, then correctAnswers; a key that is not an array; a stated question count different from the key's length; no error exactly when every check passes |
| ExamService.ValidateExamData | src/examService.js:90-115 | true exactly when title, numberOfOptions and correctAnswers are present, the key is an array, and numberOfQuestions is absent or equal to the key's length |
| ExamService.ValidationIgnoresSections | src/examService.js:90-115 | the sections field never changes the verdict; the validator reads only its argument, so it neither reads nor changes the stored definition |
| ExamService.LastStoreWins | src/examService.js:30-41 | after two stores, getExamData yields the later definition |
| YamlToJson.MaxKey | yaml_to_json.py:35 | the largest question number of a non-empty key map |
| YamlToJson.ArrayLength | yaml_to_json.py:35-39 | the length of the converted list: the largest key when it is at least 1, and 0 when every key is below 1 |
| YamlToJson.NumberedToArray | yaml_to_json.py:34-46 | position i-1 of the list holds the answer numbered i when there is one, and 'A' for a missing number |
| YamlToJson.ConvertYamlToJson | yaml_to_json.py:12-48 | fails for a missing title, numberOfOptions, sections or correctAnswers (in that order), for a key that is not a map, and for an empty map; otherwise it succeeds, replaces the map by its list and keeps every other field |
| JsonToYaml.ArrayToNumbered | json_to_yaml.py:20-28 | the numbered map has exactly the keys 1..|list|, and key i holds list entry i-1 |
| JsonToYaml.ConvertJsonToYaml | json_to_yaml.py:12-30 | a list key becomes its numbered map; every other field is kept; a definition whose key is not a list is returned unchanged |
| JsonToYaml.NumberedArrayLength | json_to_yaml.py:25-26 | the numbered map of a non-empty list converts back to a list of the same length |
| JsonToYaml.ArrayRoundTrip | json_to_yaml.py:20-28 | converting a non-empty list to its numbered map and back gives the same list |
| JsonToYaml.NumberedRoundTrip | yaml_to_json.py:34-46 | a map numbered exactly 1..n converts to a list and back to the same map |
| JsonToYaml.ExamRoundTrip | json_to_yaml.py:12-30 | a JSON definition with every field the YAML converter requires and a non-empty key list survives the JSON→YAML→JSON round trip unchanged |
| JsonToYaml.EmptyKeyRefused | yaml_to_json.py:28-29 | an empty key list makes the round trip fail with "cannot be empty" |
| EmbedExamData.CheckExamData | embed_exam_data.py:20-27 | fails for a missing title, numberOfOptions or correctAnswers (in that order) and for a key that is not a list; passes exactly otherwise |
| EmbedExamData.CheckAgreesWithBrowserValidator | embed_exam_data.py:20-27 | whatever the browser validator accepts passes the check; what passes is accepted unless a stated question count disagrees; a failure names the same first error as the browser validator |
| EmbedExamData.ConvertedYamlPassesCheck | embed_exam_data.py:20-27 | every definition the YAML converter produces passes the check |
| FormUtils.MakeLetterOptions | src/utils.js:76-79 | `slice(0, n)` of A–E: min(n, 5) letters for n >= 0 and, for negative n, the slice that ends n letters before the end; the letters are in order and distinct |
| FormUtils.Trim | src/utils.js:41 | the trimmed name is the slice s[a..b] of the input with only JavaScript whitespace before a and after b; it neither starts nor ends with whitespace, and is empty for a blank input |
| FormUtils.TrimEmptyIffBlank | src/utils.js:41 | trimming leaves nothing exactly when every character is JavaScript whitespace |
| FormUtils.IsStudentNameValid | src/utils.js:39-42 | valid exactly when the name input exists and contains a non-whitespace character |
| FormUtils.Distinct | src/utils.js:46-47 | the names of a `Set`: no name twice, and exactly the names that occur |
| FormUtils.FirstChecked | src/utils.js:50 | none exactly when no radio of that name is checked; otherwise the value of the first checked radio of that name in document order |
| FormUtils.AreAllQuestionsAnswered | src/utils.js:44-54 | true exactly when every radio's question has a checked radio |
| FormUtils.SortBy | src/utils.js:64-68 | the result is ordered by the number in each name and is a permutation of the input |
| FormUtils.SortSortedIsIdentity | src/utils.js:64-68 | names already in number order are left as they are |
| FormUtils.AnswerOrder | src/utils.js:59-68 | each radio name exactly once, no other names, ordered by the number the name contains |
| FormUtils.SelectedAnswers | src/utils.js:59-74 | one entry per distinct name in answer order; `null` exactly when no radio of that name is checked; otherwise the value of a checked radio of that name |
| FormUtils.CompleteFormHasNoNulls | src/utils.js:44-74 | when areAllQuestionsAnswered holds, getSelectedAnswers reports no `null` |
| Decimal.NameNumber | src/utils.js:65-66 | a number is read from a name exactly when the name contains a digit |
| Decimal.NatToStringRoundTrip | src/utils.js:65-66 | `parseInt` of the decimal digits of n is n |
| QuestionGenerator.QuestionNameNumber | src/questionGenerator.js:114 | the number read back from the name `question{q}` is q |
| QuestionGenerator.QuestionNamesDiffer | src/questionGenerator.js:114 | different questions have different radio names |
| QuestionGenerator.QuestionOptions | src/questionGenerator.js:107-120 | the right number of radios, max(k, 0), all named `question{q}` and unchecked; values A–E in order and the text "undefined" past the fifth |
| QuestionGenerator.HeaderBefore | src/questionGenerator.js:74-80 | a title is emitted before question q exactly when the cursor's section starts at q, and it is that section's title |
| QuestionGenerator.NextCursor | src/questionGenerator.js:95-101 | the cursor moves by one exactly when q is the end of the cursor's section; otherwise it stays |
| QuestionGenerator.Walk | src/questionGenerator.js:72-103 | the loop from question q renders something exactly when q <= N; every title is immediately followed by a question, so there is at most one title per question |
| QuestionGenerator.GenerateQuestions | src/questionGenerator.js:67-105 | the sheet is empty exactly when N < 1; every title is immediately followed by a question, whatever the sections, so there is at most one title per question; its question numbers and titles are stated by the lemmas below |
| QuestionGenerator.RenderSheet | src/questionGenerator.js:45-76 | rendering N questions throws, and the load-error message replaces the sheet, exactly when sections is `null` and N >= 1 (`typeof null` is "object", so `null.length` is read); otherwise the sheet holds questions 1..N, and none when N < 1 |
| QuestionGenerator.ExamSheet | src/questionGenerator.js:19-76 | the page's sheet uses the record's own numberOfQuestions: it fails exactly when sections is `null` and that count is at least 1, holds questions 1..count otherwise, and is empty when the count is absent |
| QuestionGenerator.QuestionCount | src/examService.js:105-112 | the count a definition stands for is its stated count when there is one, and the key's length for every definition the validator accepts |
| QuestionGenerator.IntendedExamSheet | src/questionGenerator.js:67-105 | the sheet rendered with the computed count fails exactly when sections is `null` and that count is at least 1, and otherwise holds questions 1..count |
| QuestionGenerator.SheetQuestionNumbers | src/questionGenerator.js:67-105 | the sheet holds exactly the questions 1..N, in increasing order, and is empty when N < 1 |
| QuestionGenerator.NoSectionsNoHeaders | src/questionGenerator.js:74-80 | with undefined or empty sections the sheet is the bare block of questions 1..N, with no title |
| QuestionGenerator.TiledSectionsSheet | src/questionGenerator.js:67-105 | when the sections tile 1..N, the sheet is each section's title followed by that section's questions, section after section |
| QuestionGenerator.SheetHeadersInSectionOrder | src/questionGenerator.js:67-105 | the titles on the sheet belong to sections taken in strictly increasing index order, so no section's title appears twice or out of order |
| QuestionGenerator.SheetAnswersInQuestionOrder | src/utils.js:59-74 | on a sheet of N questions (at least one option each), getSelectedAnswers reports N answers, and answer i is the checked value of question i+1, whatever is checked |
| QuestionGenerator.UncountedExamRendersNoQuestions | src/questionGenerator.js:19-72 | as written, a definition without numberOfQuestions renders an empty sheet, with no question |
| QuestionGenerator.UncountedExamExample | src/questionGenerator.js:19-72 | a concrete definition the validator accepts whose two-question sheet comes out empty |
| QuestionGenerator.ValidSheetCoversKey | src/examService.js:105-112 | with the count computed as the validator does, every accepted definition renders questions 1..|key|, unless its sections are `null` and the key is not empty, in which case rendering fails; a stated count gives the same sheet as written |
| QuestionGenerator.NullSectionsThrow | src/questionGenerator.js:52-76 | an accepted one-question definition with `sections: null` gets the load-error message instead of a sheet, while grading treats its sections as absent |
| ExamData.TiledSectionsCover | src/gradingService.js:46-52 | in a tiling of 1..N, every question in 1..N lies in exactly one section |

## Left out

- Loading and I/O are not modelled: `loadExamData`/`fetch`, the embedded-data
  lookup, the alerts and `console.error` messages, results rendering
  (src/resultsRenderer.js), input listeners (src/inputListeners.js), and the
  display toggling and HTML text of `generateExamSheet`. These are
  side effects or DOM calls with no logic to state. src/config.js is used
  only for its names; the sheet takes the option count as a parameter.
- The Python `main` functions, file reading and writing, and YAML/JSON
  parsing and printing are not modelled. The model starts from the parsed
  record. embed_exam_data.py also reads the HTML file but does nothing with
  it, so that step is left out.
- Record fields other than title, numberOfOptions, numberOfQuestions,
  correctAnswers and sections are not represented. The converters copy
  such fields unchanged.
- Value types are restricted:
  - Key entries are strings.
  - numberOfQuestions is an integer when present. A non-number value, which
    always fails the strict comparison, is not represented.
  - Sections are a list of records with integer bounds, `null`, or another
    non-list value. Such other values are taken to render no title. An
    object with a `length` but no entries, which would make
    `_generateQuestions` throw, is not represented.
  - A truthy non-array `sections` in `getSectionTotalQuestions` is not
    represented.
- Grading.SectionTotalQuestions: the value for a non-integer index is not
  modelled.
- FormUtils.AnswerOrder: requires every radio name to contain a digit.
  Otherwise the comparator returns NaN and the order depends on the engine.
  It also does not state that names with equal numbers keep their relative
  order. `parseInt` on very long digit strings (precision loss) is not
  modelled.
- FormUtils.Distinct: does not state that names come in order of first
  occurrence. The order is fixed afterwards by the sort, and what the model
  relies on is stated by `DistinctDisjointAppend`.
- FormUtils.SelectedAnswers: does not say which checked radio is reported
  when several of one name are checked. It is the first in document order
  (`FirstChecked`), which a browser radio group makes unique.
- CSS selector quoting of names and the `<label>` elements are not modelled.
- numberOfOptions above 5 is modelled as written: the extra radios carry the
  text "undefined" as their value, since nothing in the code bounds the
  count.

## Findings

| source | as written | input that shows it | evidently intended | confidence | as-written member | corrected member |
|---|---|---|---|---|---|---|
| src/questionGenerator.js:19-72 | the sheet's question count is the record's `numberOfQuestions`; when it is absent, `questionIndex <= undefined` is false and no question is rendered | `{title: "T", numberOfOptions: 4, correctAnswers: ["A", "B"]}`, which validateExamData accepts | when the count is absent, it is the key's length, as validateExamData computes it (src/examService.js:105-112) | medium (the page's loader is not part of this model and may fill the count); not executed | QuestionGenerator.UncountedExamExample | QuestionGenerator.ValidSheetCoversKey |

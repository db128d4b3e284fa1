/** The definition check of embed_exam_data.py: before pointing a page at a
    JSON definition it checks the required fields and the key's type. The
    page itself is read and left as it is. */
module EmbedExamData {
  import opened Wrappers
  import opened ExamData
  import ExamService
  import YamlToJson

  /** `create_exam_data_reference` after `json.load`: raises for a missing
      title, numberOfOptions or correctAnswers (in that order) and for a key
      that is not a list. */
  function CheckExamData(data: ExamRecord): (r: Outcome<ExamError>)
    ensures data.title.None? ==> r == Fail(MissingField("title"))
    ensures data.title.Some? && data.numberOfOptions.None? ==> r == Fail(MissingField("numberOfOptions"))
    ensures data.title.Some? && data.numberOfOptions.Some? && data.correctAnswers.None?
            ==> r == Fail(MissingField("correctAnswers"))
    ensures r == Fail(AnswersNotArray) <==>
      data.title.Some? && data.numberOfOptions.Some? && data.correctAnswers.Some?
      && !data.correctAnswers.value.AnswerList?
    ensures r.Pass? <==>
      data.title.Some? && data.numberOfOptions.Some? && data.correctAnswers.Some?
      && data.correctAnswers.value.AnswerList?
  {
    if data.title.None? then Fail(MissingField("title"))
    else if data.numberOfOptions.None? then Fail(MissingField("numberOfOptions"))
    else if data.correctAnswers.None? then Fail(MissingField("correctAnswers"))
    else if !data.correctAnswers.value.AnswerList? then Fail(AnswersNotArray)
    else Pass
  }

  /** The Python check is the browser validator without the question-count
      test: whatever the browser accepts passes it, and what passes it is
      accepted by the browser unless a stated question count disagrees. */
  lemma CheckAgreesWithBrowserValidator(data: ExamRecord)
    ensures ExamService.ValidateExamData(data) ==> CheckExamData(data).Pass?
    ensures CheckExamData(data).Pass? && data.numberOfQuestions.None? ==> ExamService.ValidateExamData(data)
    ensures CheckExamData(data).Pass? && !ExamService.ValidateExamData(data) ==>
      ExamService.FirstValidationError(data) == Some(QuestionCountMismatch)
    ensures CheckExamData(data).Fail? ==>
      ExamService.FirstValidationError(data) == Some(CheckExamData(data).error)
  {
  }

  /** Every definition the YAML converter produces passes the check. */
  lemma ConvertedYamlPassesCheck(data: ExamRecord)
    requires YamlToJson.ConvertYamlToJson(data).Success?
    ensures CheckExamData(YamlToJson.ConvertYamlToJson(data).value).Pass?
  {
  }
}

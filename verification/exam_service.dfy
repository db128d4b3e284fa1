/** The exam service (src/examService.js): the stored exam definition and
    the structural validation of a definition. */
module ExamService {
  import opened Wrappers
  import opened ExamData

  /** The service object; `examData` is `null` until something is stored. */
  datatype ExamService = ExamService(examData: Option<ExamRecord>)

  function NewExamService(): (svc: ExamService)
    ensures svc.examData.None?
  {
    ExamService(None)
  }

  /** `setExamData`: stores the definition and returns it. */
  function SetExamData(svc: ExamService, data: ExamRecord): (r: (ExamService, ExamRecord))
    ensures r.1 == data
    ensures GetExamData(r.0) == Some(data)
  {
    (svc.(examData := Some(data)), data)
  }

  /** `getExamData`: the stored definition, `null` before any is stored. */
  function GetExamData(svc: ExamService): (r: Option<ExamRecord>)
    ensures svc == NewExamService() ==> r.None?
  {
    svc.examData
  }

  /** A later store replaces an earlier one. */
  lemma LastStoreWins(svc: ExamService, d1: ExamRecord, d2: ExamRecord)
    ensures GetExamData(SetExamData(SetExamData(svc, d1).0, d2).0) == Some(d2)
  {
  }

  /** The first reason `validateExamData` rejects a definition, checking the
      required fields in the order title, numberOfOptions, correctAnswers,
      then the array type, then the question count. */
  function FirstValidationError(data: ExamRecord): (r: Option<ExamError>)
    ensures r == Some(MissingField("title")) <==> data.title.None?
    ensures r == Some(MissingField("numberOfOptions")) <==> data.title.Some? && data.numberOfOptions.None?
    ensures r == Some(MissingField("correctAnswers")) <==>
      data.title.Some? && data.numberOfOptions.Some? && data.correctAnswers.None?
    ensures r == Some(AnswersNotArray) <==>
      data.title.Some? && data.numberOfOptions.Some? && data.correctAnswers.Some?
      && !data.correctAnswers.value.AnswerList?
    ensures r == Some(QuestionCountMismatch) <==>
      && data.title.Some? && data.numberOfOptions.Some? && data.correctAnswers.Some?
      && data.correctAnswers.value.AnswerList?
      && data.numberOfQuestions.Some?
      && data.numberOfQuestions.value != |data.correctAnswers.value.items|
    ensures r.Some? ==> r.value in {MissingField("title"), MissingField("numberOfOptions"),
      MissingField("correctAnswers"), AnswersNotArray, QuestionCountMismatch}
    ensures r.None? <==>
      && data.title.Some?
      && data.numberOfOptions.Some?
      && data.correctAnswers.Some?
      && data.correctAnswers.value.AnswerList?
      && (data.numberOfQuestions.None? || data.numberOfQuestions.value == |data.correctAnswers.value.items|)
  {
    if data.title.None? then Some(MissingField("title"))
    else if data.numberOfOptions.None? then Some(MissingField("numberOfOptions"))
    else if data.correctAnswers.None? then Some(MissingField("correctAnswers"))
    else if !data.correctAnswers.value.AnswerList? then Some(AnswersNotArray)
    else if data.numberOfQuestions.Some? && data.numberOfQuestions.value != |data.correctAnswers.value.items|
    then Some(QuestionCountMismatch)
    else None
  }

  /** `validateExamData`: true exactly when the three required fields are
      present, the key is an array, and a given question count matches the
      key's length. It reads neither the sections nor the stored state. */
  function ValidateExamData(data: ExamRecord): (ok: bool)
    ensures ok <==>
      && data.title.Some?
      && data.numberOfOptions.Some?
      && data.correctAnswers.Some?
      && data.correctAnswers.value.AnswerList?
      && (data.numberOfQuestions.None? || data.numberOfQuestions.value == |data.correctAnswers.value.items|)
  {
    FirstValidationError(data).None?
  }

  /** The sections field never changes the verdict. */
  lemma ValidationIgnoresSections(data: ExamRecord, sections: Option<SectionsValue>)
    ensures ValidateExamData(data.(sections := sections)) == ValidateExamData(data)
  {
  }
}

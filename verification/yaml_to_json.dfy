/** The YAML-to-JSON converter (yaml_to_json.py) once the file is parsed:
    validates the definition and turns the numbered answer map into the
    dense answer list the browser code reads. */
module YamlToJson {
  import opened Wrappers
  import opened ExamData

  /** The answer filled in for a question number missing from the map. */
  const DefaultAnswer: string := "A"

  /** Every non-empty finite set of integers has a largest element. */
  lemma {:induction false} MaxExists(keys: set<int>)
    requires keys != {}
    ensures exists m :: m in keys && forall k :: k in keys ==> k <= m
    decreases |keys|
  {
    if forall y :: y !in keys {
      assert false;
    }
    var x :| x in keys;
    if keys != {x} {
      var others := keys - {x};
      MaxExists(others);
      var rest :| rest in others && forall k :: k in others ==> k <= rest;
      var m := if x < rest then rest else x;
      forall k | k in keys
        ensures k <= m
      {
        if k != x {
          assert k in others;
        }
      }
      assert m in keys;
    } else {
      assert forall k :: k in keys ==> k <= x;
    }
  }

  /** `max(numbered_answers.keys())`. */
  function MaxKey(keys: set<int>): (m: int)
    requires keys != {}
    ensures m in keys
    ensures forall k :: k in keys ==> k <= m
  {
    MaxExists(keys);
    var m :| m in keys && forall k :: k in keys ==> k <= m;
    m
  }

  /** Number of entries of the list built from the map: the largest question
      number, or none when no key is positive. */
  function ArrayLength(entries: map<int, string>): (n: nat)
    requires entries != map[]
    ensures n == 0 <==> forall k :: k in entries ==> k < 1
    ensures n > 0 ==> n in entries && forall k :: k in entries ==> k <= n
  {
    var m := MaxKey(entries.Keys);
    if m < 1 then 0 else m
  }

  /** The list built from a numbered map: position i-1 holds the answer to
      question i, or "A" when question i has no entry. */
  function NumberedToArray(entries: map<int, string>): (a: seq<string>)
    requires entries != map[]
    ensures |a| == ArrayLength(entries)
    ensures forall i :: 1 <= i <= |a| && i in entries ==> a[i - 1] == entries[i]
    ensures forall i :: 1 <= i <= |a| && i !in entries ==> a[i - 1] == DefaultAnswer
  {
    seq(ArrayLength(entries), i requires 0 <= i < ArrayLength(entries) =>
      if i + 1 in entries then entries[i + 1] else DefaultAnswer)
  }

  /** `convert_yaml_to_json` after `yaml.safe_load`: the required fields in
      the order title, numberOfOptions, sections, correctAnswers; then the key
      must be a non-empty dictionary; then only the key is replaced. */
  function ConvertYamlToJson(data: ExamRecord): (r: Result<ExamRecord, ExamError>)
    ensures data.title.None? ==> r == Failure(MissingField("title"))
    ensures data.title.Some? && data.numberOfOptions.None? ==> r == Failure(MissingField("numberOfOptions"))
    ensures data.title.Some? && data.numberOfOptions.Some? && data.sections.None?
            ==> r == Failure(MissingField("sections"))
    ensures data.title.Some? && data.numberOfOptions.Some? && data.sections.Some? && data.correctAnswers.None?
            ==> r == Failure(MissingField("correctAnswers"))
    ensures r.Success? <==>
      && data.title.Some? && data.numberOfOptions.Some? && data.sections.Some?
      && data.correctAnswers.Some? && data.correctAnswers.value.NumberedAnswers?
      && data.correctAnswers.value.entries != map[]
    ensures r == Failure(AnswersNotDictionary) <==>
      && data.title.Some? && data.numberOfOptions.Some? && data.sections.Some?
      && data.correctAnswers.Some? && !data.correctAnswers.value.NumberedAnswers?
    ensures r == Failure(AnswersEmpty) <==>
      && data.title.Some? && data.numberOfOptions.Some? && data.sections.Some?
      && data.correctAnswers.Some? && data.correctAnswers.value.NumberedAnswers?
      && data.correctAnswers.value.entries == map[]
    ensures r.Success? ==>
      && r.value.title == data.title
      && r.value.numberOfOptions == data.numberOfOptions
      && r.value.numberOfQuestions == data.numberOfQuestions
      && r.value.sections == data.sections
      && r.value.correctAnswers.Some? && r.value.correctAnswers.value.AnswerList?
      && |r.value.correctAnswers.value.items| == ArrayLength(data.correctAnswers.value.entries)
    ensures r.Success? ==>
      r.value == data.(correctAnswers := Some(AnswerList(NumberedToArray(data.correctAnswers.value.entries))))
  {
    if data.title.None? then Failure(MissingField("title"))
    else if data.numberOfOptions.None? then Failure(MissingField("numberOfOptions"))
    else if data.sections.None? then Failure(MissingField("sections"))
    else if data.correctAnswers.None? then Failure(MissingField("correctAnswers"))
    else if !data.correctAnswers.value.NumberedAnswers? then Failure(AnswersNotDictionary)
    else if data.correctAnswers.value.entries == map[] then Failure(AnswersEmpty)
    else Success(data.(correctAnswers := Some(AnswerList(NumberedToArray(data.correctAnswers.value.entries)))))
  }
}

/** The JSON-to-YAML converter (json_to_yaml.py) once the file is parsed:
    turns the dense answer list into a map from 1-based question number to
    answer, and is undone by the YAML-to-JSON converter. */
module JsonToYaml {
  import opened Wrappers
  import opened ExamData
  import YamlToJson

  /** The numbered map of a list, filled in list order as the loop over
      `enumerate(answers_array, 1)` does: its keys are exactly 1..|a| and
      question i maps to element i-1. */
  function ArrayToNumbered(a: seq<string>): (m: map<int, string>)
    ensures forall i :: i in m <==> 1 <= i <= |a|
    ensures forall i :: 1 <= i <= |a| ==> m[i] == a[i - 1]
  {
    if |a| == 0 then map[]
    else ArrayToNumbered(a[..|a| - 1])[|a| := a[|a| - 1]]
  }

  /** `convert_json_to_yaml` after `json.load`: only a list-valued key is
      rewritten; anything else comes back unchanged. */
  function ConvertJsonToYaml(data: ExamRecord): (r: ExamRecord)
    ensures r.title == data.title && r.numberOfOptions == data.numberOfOptions
    ensures r.numberOfQuestions == data.numberOfQuestions && r.sections == data.sections
    ensures !(data.correctAnswers.Some? && data.correctAnswers.value.AnswerList?) ==> r == data
    ensures data.correctAnswers.Some? && data.correctAnswers.value.AnswerList? ==>
      r.correctAnswers == Some(NumberedAnswers(ArrayToNumbered(data.correctAnswers.value.items)))
  {
    match data.correctAnswers
    case Some(AnswerList(a)) => data.(correctAnswers := Some(NumberedAnswers(ArrayToNumbered(a))))
    case _ => data
  }

  /** The largest question number of a list's numbered map is its length. */
  lemma {:induction false} NumberedArrayLength(a: seq<string>)
    requires |a| > 0
    ensures ArrayToNumbered(a) != map[]
    ensures YamlToJson.ArrayLength(ArrayToNumbered(a)) == |a|
  {
    var m := ArrayToNumbered(a);
    assert 1 in m;
    var n := YamlToJson.ArrayLength(m);
    assert |a| in m;
  }

  /** A non-empty list survives the trip to a numbered map and back, with no
      default answers filled in. */
  lemma {:induction false} ArrayRoundTrip(a: seq<string>)
    requires |a| > 0
    ensures ArrayToNumbered(a) != map[]
    ensures YamlToJson.NumberedToArray(ArrayToNumbered(a)) == a
  {
    NumberedArrayLength(a);
    var b := YamlToJson.NumberedToArray(ArrayToNumbered(a));
    assert forall i :: 0 <= i < |a| ==> b[i] == a[i] by {
      forall i | 0 <= i < |a| ensures b[i] == a[i] {
        assert i + 1 in ArrayToNumbered(a);
      }
    }
  }

  /** A numbered map whose keys are exactly 1..n survives the trip to a list
      and back. */
  lemma NumberedRoundTrip(m: map<int, string>, n: nat)
    requires n > 0
    requires forall i :: i in m <==> 1 <= i <= n
    ensures m != map[]
    ensures ArrayToNumbered(YamlToJson.NumberedToArray(m)) == m
  {
    assert n in m;
    var a := YamlToJson.NumberedToArray(m);
    assert |a| == n;
    var m' := ArrayToNumbered(a);
    assert m'.Keys == m.Keys;
    forall i | i in m ensures m'[i] == m[i] {
    }
  }

  /** Converting a complete JSON definition to YAML and back gives the same
      definition. */
  lemma ExamRoundTrip(data: ExamRecord)
    requires data.title.Some? && data.numberOfOptions.Some? && data.sections.Some?
    requires data.correctAnswers.Some? && data.correctAnswers.value.AnswerList?
    requires |data.correctAnswers.value.items| > 0
    ensures YamlToJson.ConvertYamlToJson(ConvertJsonToYaml(data)) == Success(data)
  {
    ArrayRoundTrip(data.correctAnswers.value.items);
  }

  /** An empty answer list does not survive: its YAML form is refused. */
  lemma EmptyKeyRefused(data: ExamRecord)
    requires data.title.Some? && data.numberOfOptions.Some? && data.sections.Some?
    requires data.correctAnswers == Some(AnswerList([]))
    ensures YamlToJson.ConvertYamlToJson(ConvertJsonToYaml(data)) == Failure(AnswersEmpty)
  {
    assert ArrayToNumbered([]) == map[];
  }
}

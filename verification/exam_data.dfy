/** The exam definition as it is loaded from JSON or YAML, shared by the
    grading service, the exam service, the question generator and the
    conversion scripts. */
module ExamData {
  import opened Wrappers

  /** One titled range of questions, inclusive and 1-based. */
  datatype Section = Section(title: string, start: int, end: int)

  /** The `correctAnswers` field: a dense list (JSON form), a map from question
      number to letter (YAML form), or any other value. */
  datatype AnswerKey =
    | AnswerList(items: seq<string>)
    | NumberedAnswers(entries: map<int, string>)
    | OtherValue

  /** The `sections` field: a list of sections, `null` (what YAML makes of an
      empty `sections:` entry), or any other value. */
  datatype SectionsValue = SectionList(items: seq<Section>) | NullValue | NotAList

  /** An exam definition object; a field that is `None` is absent from the
      object. Only the fields the core reads are represented. */
  datatype ExamRecord = ExamRecord(
    title: Option<string>,
    numberOfOptions: Option<int>,
    numberOfQuestions: Option<int>,
    correctAnswers: Option<AnswerKey>,
    sections: Option<SectionsValue>
  )

  /** The reasons an exam definition is refused, by the browser-side
      validator or by the Python tools. */
  datatype ExamError =
    | MissingField(field: string)
    | AnswersNotArray
    | AnswersNotDictionary
    | AnswersEmpty
    | QuestionCountMismatch

  /** The sections as the grading code sees them: `None` when the field is
      absent, `null` or not an array. */
  function SectionsOf(d: ExamRecord): (r: Option<seq<Section>>)
    ensures r.Some? <==> d.sections.Some? && d.sections.value.SectionList?
    ensures r.Some? ==> r.value == d.sections.value.items
  {
    match d.sections
    case Some(SectionList(s)) => Some(s)
    case _ => None
  }

  predicate Covers(sec: Section, q: int) {
    sec.start <= q <= sec.end
  }

  /** The sections partition the questions 1..n into consecutive, non-empty,
      ordered ranges: the layout the exam files are written for. */
  predicate Tiles(secs: seq<Section>, n: int) {
    if |secs| == 0 then n == 0
    else
      && secs[0].start == 1
      && secs[|secs| - 1].end == n
      && (forall k :: 0 <= k < |secs| ==> secs[k].start <= secs[k].end)
      && (forall k :: 0 <= k < |secs| - 1 ==> secs[k + 1].start == secs[k].end + 1)
  }

  /** In a tiling, an earlier section ends before a later one starts. */
  lemma {:induction false} TiledSectionsOrdered(secs: seq<Section>, n: int, j: int, k: int)
    requires Tiles(secs, n)
    requires 0 <= j < k < |secs|
    ensures secs[j].end < secs[k].start
    decreases k - j
  {
    if j + 1 < k {
      TiledSectionsOrdered(secs, n, j + 1, k);
    }
  }

  /** In a tiling, every section lies inside 1..n. */
  lemma {:induction false} TiledSectionsInRange(secs: seq<Section>, n: int, k: int)
    requires Tiles(secs, n)
    requires 0 <= k < |secs|
    ensures 1 <= secs[k].start <= secs[k].end <= n
  {
    if k > 0 {
      TiledSectionsOrdered(secs, n, 0, k);
    }
    if k < |secs| - 1 {
      TiledSectionsOrdered(secs, n, k, |secs| - 1);
    }
  }

  /** In a tiling, every question 1..n lies in exactly one section. */
  lemma {:induction false} TiledSectionsCover(secs: seq<Section>, n: int, q: int) returns (k: nat)
    requires Tiles(secs, n)
    requires 1 <= q <= n
    ensures k < |secs| && Covers(secs[k], q)
    ensures forall j :: 0 <= j < |secs| && j != k ==> !Covers(secs[j], q)
  {
    k := 0;
    while secs[k].end < q
      invariant k < |secs|
      invariant secs[k].start <= q
      decreases |secs| - k
    {
      k := k + 1;
    }
    forall j | 0 <= j < |secs| && j != k
      ensures !Covers(secs[j], q)
    {
      if j < k {
        TiledSectionsOrdered(secs, n, j, k);
      } else {
        TiledSectionsOrdered(secs, n, k, j);
      }
    }
  }

  /** A tiling covers a non-negative number of questions. */
  lemma TiledCountNonNegative(secs: seq<Section>, n: int)
    requires Tiles(secs, n)
    ensures n >= 0
  {
    if |secs| > 0 {
      TiledSectionsInRange(secs, n, |secs| - 1);
    }
  }
}

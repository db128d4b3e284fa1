/** The grading engine (src/gradingService.js): compares the submitted
    answers with the answer key question by question, counts the correct
    ones and credits each correct answer to the first section whose range
    contains its question. */
module Grading {
  import opened Wrappers
  import opened ExamData

  /** One entry of the per-section breakdown. */
  datatype SectionScore = SectionScore(title: string, correctCount: nat)

  /** What `gradeAnswers` returns. */
  datatype GradingResult = GradingResult(
    correctCount: nat,
    results: seq<bool>,
    sectionsBreakdown: seq<SectionScore>
  )

  /** Strict equality of the answer to question i+1 with the key. A key entry
      past the end of the key is `undefined`, which no answer equals, and an
      unanswered question (`null`) equals no key entry. */
  predicate IsCorrect(key: seq<string>, answers: seq<Option<string>>, i: int)
    requires 0 <= i < |answers|
  {
    i < |key| && answers[i] == Some(key[i])
  }

  /** Number of `true` entries. */
  function CountTrue(bs: seq<bool>): nat {
    if |bs| == 0 then 0
    else CountTrue(bs[..|bs| - 1]) + (if bs[|bs| - 1] then 1 else 0)
  }

  function NumSections(sections: Option<seq<Section>>): nat {
    if sections.Some? then |sections.value| else 0
  }

  /** Index of the first section whose range contains question q. */
  function FirstCovering(secs: seq<Section>, q: int): (r: Option<nat>)
    ensures r.Some? ==> r.value < |secs| && Covers(secs[r.value], q)
    ensures r.Some? ==> forall j :: 0 <= j < r.value ==> !Covers(secs[j], q)
    ensures r.None? <==> forall j :: 0 <= j < |secs| ==> !Covers(secs[j], q)
  {
    if |secs| == 0 then None
    else if Covers(secs[0], q) then Some(0)
    else match FirstCovering(secs[1..], q)
      case None => None
      case Some(j) => Some(j + 1)
  }

  /** The section credited for a correct answer to question q, if any. */
  function CreditedSection(sections: Option<seq<Section>>, q: int): (r: Option<nat>)
    ensures r.Some? ==> r.value < NumSections(sections)
  {
    if sections.Some? then FirstCovering(sections.value, q) else None
  }

  /** `_initializeSectionsBreakdown`: one zero score per section, titles in
      order; empty when the sections are absent or not an array. */
  function InitialBreakdown(sections: Option<seq<Section>>): (r: seq<SectionScore>)
    ensures |r| == NumSections(sections)
    ensures forall s :: 0 <= s < |r| ==>
      r[s].title == sections.value[s].title && r[s].correctCount == 0
  {
    if sections.Some? then
      seq(|sections.value|, s requires 0 <= s < |sections.value| =>
        SectionScore(sections.value[s].title, 0))
    else []
  }

  /** `_updateSectionBreakdown` for the question at 0-based index i: adds one
      to the first covering section, or leaves the breakdown as it is. */
  function UpdateBreakdown(sections: Option<seq<Section>>, i: int, bd: seq<SectionScore>): (r: seq<SectionScore>)
    requires |bd| == NumSections(sections)
    ensures |r| == |bd|
    ensures forall s :: 0 <= s < |r| ==> r[s].title == bd[s].title
    ensures forall s :: 0 <= s < |r| ==>
      r[s].correctCount == bd[s].correctCount + (if CreditedSection(sections, i + 1) == Some(s) then 1 else 0)
  {
    match CreditedSection(sections, i + 1)
    case None => bd
    case Some(s) => bd[s := bd[s].(correctCount := bd[s].correctCount + 1)]
  }

  /** Reference count: correct answers among the first n questions. */
  function CountCorrect(key: seq<string>, answers: seq<Option<string>>, n: nat): nat
    requires n <= |answers|
  {
    if n == 0 then 0
    else CountCorrect(key, answers, n - 1) + (if IsCorrect(key, answers, n - 1) then 1 else 0)
  }

  /** Reference count: correct answers among the first n questions that are
      credited to section s. */
  function Credited(key: seq<string>, sections: Option<seq<Section>>, answers: seq<Option<string>>, n: nat, s: nat): nat
    requires n <= |answers|
  {
    if n == 0 then 0
    else
      Credited(key, sections, answers, n - 1, s)
      + (if IsCorrect(key, answers, n - 1) && CreditedSection(sections, n) == Some(s) then 1 else 0)
  }

  /** Reference count: correct answers among the first n questions that no
      section covers. */
  function Unattributed(key: seq<string>, sections: Option<seq<Section>>, answers: seq<Option<string>>, n: nat): nat
    requires n <= |answers|
  {
    if n == 0 then 0
    else
      Unattributed(key, sections, answers, n - 1)
      + (if IsCorrect(key, answers, n - 1) && CreditedSection(sections, n).None? then 1 else 0)
  }

  /** Sum of the per-section counts. */
  function TotalScore(bd: seq<SectionScore>): nat {
    if |bd| == 0 then 0 else TotalScore(bd[..|bd| - 1]) + bd[|bd| - 1].correctCount
  }

  /** Adding one to a single entry adds one to the sum. */
  lemma {:induction false} TotalScoreBump(bd: seq<SectionScore>, s: nat)
    requires s < |bd|
    ensures TotalScore(bd[s := bd[s].(correctCount := bd[s].correctCount + 1)]) == TotalScore(bd) + 1
    decreases |bd|
  {
    var bd' := bd[s := bd[s].(correctCount := bd[s].correctCount + 1)];
    if s < |bd| - 1 {
      assert bd'[..|bd'| - 1] == bd[..|bd| - 1][s := bd[s].(correctCount := bd[s].correctCount + 1)];
      TotalScoreBump(bd[..|bd| - 1], s);
    } else {
      assert bd'[..|bd'| - 1] == bd[..|bd| - 1];
    }
  }

  /** A breakdown of zeros sums to zero. */
  lemma {:induction false} TotalScoreZero(bd: seq<SectionScore>)
    requires forall s :: 0 <= s < |bd| ==> bd[s].correctCount == 0
    ensures TotalScore(bd) == 0
    decreases |bd|
  {
    if |bd| > 0 {
      TotalScoreZero(bd[..|bd| - 1]);
    }
  }

  /** The breakdown after grading the first n questions, as the loop keeps it. */
  ghost predicate BreakdownAfter(key: seq<string>, sections: Option<seq<Section>>, answers: seq<Option<string>>,
                                 n: nat, bd: seq<SectionScore>)
    requires n <= |answers|
  {
    && |bd| == NumSections(sections)
    && (forall s :: 0 <= s < |bd| ==>
          && bd[s].title == sections.value[s].title
          && bd[s].correctCount == Credited(key, sections, answers, n, s))
  }

  /** The breakdown after one more turn of the grading loop. */
  function NextBreakdown(key: seq<string>, sections: Option<seq<Section>>, answers: seq<Option<string>>,
                         i: nat, bd: seq<SectionScore>): seq<SectionScore>
    requires i < |answers|
    requires |bd| == NumSections(sections)
  {
    if IsCorrect(key, answers, i) then UpdateBreakdown(sections, i, bd) else bd
  }

  /** One turn of the grading loop keeps the breakdown invariant. */
  lemma BreakdownStep(key: seq<string>, sections: Option<seq<Section>>, answers: seq<Option<string>>,
                      i: nat, bd: seq<SectionScore>)
    requires i < |answers|
    requires BreakdownAfter(key, sections, answers, i, bd)
    ensures BreakdownAfter(key, sections, answers, i + 1, NextBreakdown(key, sections, answers, i, bd))
  {
    var bd' := NextBreakdown(key, sections, answers, i, bd);
    forall s | 0 <= s < |bd'|
      ensures bd'[s].correctCount == Credited(key, sections, answers, i + 1, s)
    {
      assert bd[s].correctCount == Credited(key, sections, answers, i, s);
    }
  }

  /** One turn of the grading loop adds one to the section sum plus the
      unattributed count exactly when the answer is correct. */
  lemma TotalStep(key: seq<string>, sections: Option<seq<Section>>, answers: seq<Option<string>>,
                  i: nat, bd: seq<SectionScore>)
    requires i < |answers|
    requires |bd| == NumSections(sections)
    ensures TotalScore(NextBreakdown(key, sections, answers, i, bd)) + Unattributed(key, sections, answers, i + 1)
            == TotalScore(bd) + Unattributed(key, sections, answers, i) + (if IsCorrect(key, answers, i) then 1 else 0)
  {
    if IsCorrect(key, answers, i) {
      match CreditedSection(sections, i + 1)
      case Some(s) => TotalScoreBump(bd, s);
      case None =>
    }
  }

  /** One turn of the grading loop appends the verdict on question i+1 and
      keeps the correct count equal to the reference count. */
  lemma ResultsStep(key: seq<string>, answers: seq<Option<string>>, results: seq<bool>, i: nat)
    requires i == |results| < |answers|
    requires forall j :: 0 <= j < i ==> results[j] == IsCorrect(key, answers, j)
    requires CountTrue(results) == CountCorrect(key, answers, i)
    ensures var results' := results + [IsCorrect(key, answers, i)];
      && (forall j :: 0 <= j < i + 1 ==> results'[j] == IsCorrect(key, answers, j))
      && CountTrue(results') == CountCorrect(key, answers, i + 1)
  {
    var results' := results + [IsCorrect(key, answers, i)];
    assert results'[..i] == results;
  }

  /** `gradeAnswers`: the loop of the source, over the answers in order. */
  method GradeAnswers(key: seq<string>, sections: Option<seq<Section>>, answers: seq<Option<string>>)
    returns (report: GradingResult)
    ensures |report.results| == |answers|
    ensures forall i :: 0 <= i < |answers| ==> report.results[i] == IsCorrect(key, answers, i)
    ensures report.correctCount == CountTrue(report.results) == CountCorrect(key, answers, |answers|)
    ensures |report.sectionsBreakdown| == NumSections(sections)
    ensures forall s :: 0 <= s < |report.sectionsBreakdown| ==>
      && report.sectionsBreakdown[s].title == sections.value[s].title
      && report.sectionsBreakdown[s].correctCount == Credited(key, sections, answers, |answers|, s)
    ensures TotalScore(report.sectionsBreakdown) + Unattributed(key, sections, answers, |answers|)
            == report.correctCount
  {
    var correctCount: nat := 0;
    var results: seq<bool> := [];
    var bd := InitialBreakdown(sections);
    TotalScoreZero(bd);
    for i := 0 to |answers|
      invariant |results| == i
      invariant forall j :: 0 <= j < i ==> results[j] == IsCorrect(key, answers, j)
      invariant correctCount == CountTrue(results) == CountCorrect(key, answers, i)
      invariant BreakdownAfter(key, sections, answers, i, bd)
      invariant TotalScore(bd) + Unattributed(key, sections, answers, i) == correctCount
    {
      var isCorrect := IsCorrect(key, answers, i);
      BreakdownStep(key, sections, answers, i, bd);
      TotalStep(key, sections, answers, i, bd);
      ResultsStep(key, answers, results, i);
      results := results + [isCorrect];
      if isCorrect {
        correctCount := correctCount + 1;
        bd := UpdateBreakdown(sections, i, bd);
      }
    }
    report := GradingResult(correctCount, results, bd);
  }

  /** `getSectionTotalQuestions`: the size of section k by its bounds, or 0
      when the sections are absent or there is no section k. */
  function SectionTotalQuestions(sections: Option<seq<Section>>, k: int): (r: int)
    ensures sections.None? || k < 0 || k >= |sections.value| ==> r == 0
    ensures sections.Some? && 0 <= k < |sections.value| ==>
      r + sections.value[k].start == sections.value[k].end + 1
  {
    if sections.None? || k < 0 || k >= |sections.value| then 0
    else sections.value[k].end - sections.value[k].start + 1
  }

  /** Number of question numbers in 1..n that lie in the section's range:
      |[start, end] ∩ [1, n]|, written in closed form. */
  function InRangeCount(sec: Section, n: int): nat {
    var lo := if sec.start < 1 then 1 else sec.start;
    var hi := if sec.end < n then sec.end else n;
    if hi < lo then 0 else hi - lo + 1
  }

  lemma InRangeCountStep(sec: Section, n: nat)
    ensures InRangeCount(sec, n + 1) == InRangeCount(sec, n) + (if Covers(sec, n + 1) then 1 else 0)
  {
  }

  /** A section is never credited with more questions than it has among the
      graded ones, and so never more than its size. */
  lemma {:induction false} SectionScoreBound(key: seq<string>, secs: seq<Section>, answers: seq<Option<string>>,
                                            n: nat, s: nat)
    requires n <= |answers|
    requires s < |secs|
    ensures Credited(key, Some(secs), answers, n, s) <= InRangeCount(secs[s], n)
    ensures InRangeCount(secs[s], n) <= if secs[s].start <= secs[s].end then SectionTotalQuestions(Some(secs), s) else 0
  {
    if n > 0 {
      SectionScoreBound(key, secs, answers, n - 1, s);
      InRangeCountStep(secs[s], n - 1);
    }
  }

  /** When a section lies inside 1..n, the size reported by
      `getSectionTotalQuestions` is the number of questions it covers. */
  lemma SectionTotalCountsQuestions(secs: seq<Section>, k: nat, n: int)
    requires k < |secs|
    requires 1 <= secs[k].start <= secs[k].end <= n
    ensures SectionTotalQuestions(Some(secs), k) == InRangeCount(secs[k], n)
  {
  }

  /** Without sections every correct answer is left unattributed. */
  lemma {:induction false} NoSectionsNoCredit(key: seq<string>, answers: seq<Option<string>>, n: nat)
    requires n <= |answers|
    ensures Unattributed(key, None, answers, n) == CountCorrect(key, answers, n)
  {
    if n > 0 {
      NoSectionsNoCredit(key, answers, n - 1);
    }
  }

  /** When the sections tile the questions and no more answers than
      questions are graded, every correct answer is credited to a section, so
      the breakdown sums to the correct count. */
  lemma {:induction false} TiledSectionsCreditEverything(key: seq<string>, secs: seq<Section>,
                                                       answers: seq<Option<string>>, n: nat, total: int)
    requires Tiles(secs, total)
    requires n <= |answers| && n <= total
    ensures Unattributed(key, Some(secs), answers, n) == 0
  {
    if n > 0 {
      TiledSectionsCreditEverything(key, secs, answers, n - 1, total);
      var k := TiledSectionsCover(secs, total, n);
    }
  }

  /** A perfect submission answers every graded question correctly. */
  lemma {:induction false} PerfectAnswersAllCorrect(key: seq<string>, answers: seq<Option<string>>, n: nat)
    requires |answers| == |key|
    requires forall i :: 0 <= i < |key| ==> answers[i] == Some(key[i])
    requires n <= |answers|
    ensures CountCorrect(key, answers, n) == n
  {
    if n > 0 {
      PerfectAnswersAllCorrect(key, answers, n - 1);
      assert IsCorrect(key, answers, n - 1);
    }
  }

  /** A perfect submission credits a section with every graded question in
      its range, when exactly the questions in that range are credited to it
      (as tiled sections guarantee, see TiledCredit). */
  lemma {:induction false} PerfectScoreCreditsRange(key: seq<string>, secs: seq<Section>,
                                                  answers: seq<Option<string>>, n: nat, s: nat)
    requires |answers| == |key|
    requires forall i :: 0 <= i < |key| ==> answers[i] == Some(key[i])
    requires n <= |answers|
    requires s < |secs|
    requires forall q :: 1 <= q <= |key| ==> (CreditedSection(Some(secs), q) == Some(s) <==> Covers(secs[s], q))
    ensures Credited(key, Some(secs), answers, n, s) == InRangeCount(secs[s], n)
  {
    if n > 0 {
      PerfectScoreCreditsRange(key, secs, answers, n - 1, s);
      InRangeCountStep(secs[s], n - 1);
      assert IsCorrect(key, answers, n - 1);
      assert CreditedSection(Some(secs), n) == Some(s) <==> Covers(secs[s], n);
    }
  }

  /** Against tiled sections, question q is credited to a section exactly
      when that section's range contains q. */
  lemma TiledCredit(secs: seq<Section>, total: int, q: int, s: nat)
    requires Tiles(secs, total)
    requires 1 <= q <= total
    requires s < |secs|
    ensures CreditedSection(Some(secs), q) == Some(s) <==> Covers(secs[s], q)
  {
    var k := TiledSectionsCover(secs, total, q);
    assert FirstCovering(secs, q) == Some(k);
  }

  /** A perfect submission against a tiled exam scores every question, and
      every section scores its full size. */
  lemma {:induction false} PerfectScoreFillsSections(key: seq<string>, secs: seq<Section>, answers: seq<Option<string>>, s: nat)
    requires |answers| == |key|
    requires forall i :: 0 <= i < |key| ==> answers[i] == Some(key[i])
    requires Tiles(secs, |key|)
    requires s < |secs|
    ensures CountCorrect(key, answers, |answers|) == |key|
    ensures Credited(key, Some(secs), answers, |answers|, s) == SectionTotalQuestions(Some(secs), s)
  {
    PerfectAnswersAllCorrect(key, answers, |answers|);
    forall q | 1 <= q <= |key|
      ensures CreditedSection(Some(secs), q) == Some(s) <==> Covers(secs[s], q)
    {
      TiledCredit(secs, |key|, q, s);
    }
    PerfectScoreCreditsRange(key, secs, answers, |answers|, s);
    TiledSectionsInRange(secs, |key|, s);
    SectionTotalCountsQuestions(secs, s, |key|);
  }
}

/** The question sheet of src/questionGenerator.js, as a sequence of items
    instead of HTML: a section title, or a numbered question with its radio
    inputs. A section cursor walks the questions 1..N, emitting a title when
    a question is the current section's start and moving on when it is the
    section's end. */
module QuestionGenerator {
  import opened Wrappers
  import opened ExamData
  import ExamService
  import opened Decimal
  import opened FormUtils

  datatype Item = Header(title: string) | Question(number: nat, options: seq<Radio>)

  /** The `name` attribute of question q's radios. */
  function QuestionName(q: nat): string {
    "question" + NatToString(q)
  }

  /** The number in question q's name is q. */
  lemma QuestionNameNumber(q: nat)
    ensures NameNumber(QuestionName(q)) == Some(q)
    ensures NumberKey(QuestionName(q)) == q
  {
    DigitsOfAppend("question", NatToString(q));
    assert DigitsOf("question") == [] by {
      assert forall i :: 0 <= i < |"question"| ==> !IsDigit("question"[i]);
      DigitsPresent("question");
    }
    DigitsOfDigits(NatToString(q));
    NatToStringRoundTrip(q);
    assert DigitsOf(QuestionName(q)) == NatToString(q);
  }

  /** Different questions have different names. */
  lemma QuestionNamesDiffer(p: nat, q: nat)
    requires p != q
    ensures QuestionName(p) != QuestionName(q)
  {
    QuestionNameNumber(p);
    QuestionNameNumber(q);
  }

  /** The value of option i: `optionsInLetter[index]`, which past the last
      letter is `undefined` and is written into the page as "undefined". */
  function OptionValue(letters: seq<string>, i: nat): string {
    if i < |letters| then letters[i] else "undefined"
  }

  /** `_generateQuestionOptions`: one unchecked radio per option, all named
      after the question, carrying the letters in order. */
  function QuestionOptions(q: nat, numberOfOptions: int): (r: seq<Radio>)
    ensures |r| == (if numberOfOptions < 0 then 0 else numberOfOptions)
    ensures forall i :: 0 <= i < |r| ==> r[i].name == QuestionName(q) && !r[i].checked
    ensures forall i :: 0 <= i < |r| && i < 5 ==> r[i].value == OptionLetters[i]
    ensures forall i :: 5 <= i < |r| ==> r[i].value == "undefined"
    ensures numberOfOptions <= 5 ==>
      forall i :: 0 <= i < |r| ==> r[i].value == MakeLetterOptions(numberOfOptions)[i]
  {
    var letters := MakeLetterOptions(numberOfOptions);
    var n := if numberOfOptions < 0 then 0 else numberOfOptions;
    seq(n, i requires 0 <= i < n => Radio(QuestionName(q), OptionValue(letters, i), false))
  }

  /** Question q opens the section under the cursor. */
  predicate OpensSection(q: nat, cursor: nat, sections: Option<seq<Section>>) {
    sections.Some? && cursor < |sections.value| && q == sections.value[cursor].start
  }

  /** The title emitted before question q with the cursor at `cursor`. */
  function HeaderBefore(q: nat, cursor: nat, sections: Option<seq<Section>>): (r: seq<Item>)
    ensures |r| <= 1
    ensures |r| == 1 <==> OpensSection(q, cursor, sections)
    ensures |r| == 1 ==> r[0] == Header(sections.value[cursor].title)
  {
    if OpensSection(q, cursor, sections) then [Header(sections.value[cursor].title)] else []
  }

  /** The cursor after question q: one further exactly when q ends the
      current section. */
  function NextCursor(q: nat, cursor: nat, sections: Option<seq<Section>>): (c: nat)
    ensures c == cursor || c == cursor + 1
    ensures c == cursor + 1 <==> sections.Some? && cursor < |sections.value| && q == sections.value[cursor].end
  {
    if sections.Some? && cursor < |sections.value| && q == sections.value[cursor].end
    then cursor + 1
    else cursor
  }

  /** Every title on a sheet is immediately followed by a question, so no
      two titles are adjacent and none ends the sheet. */
  predicate TitleFollowedByQuestion(r: seq<Item>) {
    forall i :: 0 <= i < |r| && r[i].Header? ==> i + 1 < |r| && r[i + 1].Question?
  }

  /** The loop of `_generateQuestions` from question q with the cursor at
      `cursor`; each question brings at most one title with it. */
  function Walk(q: nat, n: int, cursor: nat, numberOfOptions: int, sections: Option<seq<Section>>): (r: seq<Item>)
    ensures r == [] <==> q > n
    ensures |r| <= 2 * (if q <= n then n - q + 1 else 0)
    ensures TitleFollowedByQuestion(r)
    decreases if q <= n then n - q + 1 else 0
  {
    if q > n then []
    else
      HeaderBefore(q, cursor, sections)
      + [Question(q, QuestionOptions(q, numberOfOptions))]
      + Walk(q + 1, n, NextCursor(q, cursor, sections), numberOfOptions, sections)
  }

  /** `_generateQuestions(numberOfQuestions, numberOfOptions, sections)`,
      with `None` for undefined sections. */
  function GenerateQuestions(n: int, numberOfOptions: int, sections: Option<seq<Section>>): (r: seq<Item>)
    ensures r == [] <==> n < 1
    ensures |r| <= 2 * (if n >= 1 then n else 0)
    ensures TitleFollowedByQuestion(r)
  {
    Walk(1, n, 0, numberOfOptions, sections)
  }

  /** The sheet `_generateQuestions` renders for question count n from a
      definition's options and sections, or `None` when it throws: `null`
      passes the `typeof sections !== 'undefined'` test, so the first turn
      of the loop reads `null.length`, and the caller then shows the
      load-error message instead of a sheet. Absent or non-array sections
      render no titles. */
  function RenderSheet(d: ExamRecord, n: int): (r: Option<seq<Item>>)
    ensures r.None? <==> d.sections == Some(NullValue) && n >= 1
    ensures r.Some? ==> QuestionNumbers(r.value) == Range(1, n)
    ensures r.Some? && n < 1 ==> r.value == []
  {
    if d.sections == Some(NullValue) && n >= 1 then None
    else
      SheetQuestionNumbers(n, d.numberOfOptions.GetOr(0), SectionsOf(d));
      Some(GenerateQuestions(n, d.numberOfOptions.GetOr(0), SectionsOf(d)))
  }

  /** The sheet of a loaded definition, as `generateExamSheet` builds it: it
      reads `numberOfQuestions` from the record itself, and an absent count
      or option count (`undefined`) fails every `<=` and `<` like 0. */
  function ExamSheet(d: ExamRecord): (r: Option<seq<Item>>)
    ensures r.None? <==> d.sections == Some(NullValue) && d.numberOfQuestions.GetOr(0) >= 1
    ensures r.Some? ==> QuestionNumbers(r.value) == Range(1, d.numberOfQuestions.GetOr(0))
    ensures d.numberOfQuestions.None? ==> r == Some([])
  {
    RenderSheet(d, d.numberOfQuestions.GetOr(0))
  }

  /** The question count a definition stands for: the stated count, or the
      length of the answer key when none is stated, as the validator
      computes it. */
  function QuestionCount(d: ExamRecord): (r: int)
    ensures d.numberOfQuestions.Some? ==> r == d.numberOfQuestions.value
    ensures ExamService.ValidateExamData(d) ==> r == |d.correctAnswers.value.items|
  {
    match d.numberOfQuestions
    case Some(n) => n
    case None => if d.correctAnswers.Some? && d.correctAnswers.value.AnswerList?
                 then |d.correctAnswers.value.items| else 0
  }

  /** The sheet with the question count the validator computes. */
  function IntendedExamSheet(d: ExamRecord): (r: Option<seq<Item>>)
    ensures r.None? <==> d.sections == Some(NullValue) && QuestionCount(d) >= 1
    ensures r.Some? ==> QuestionNumbers(r.value) == Range(1, QuestionCount(d))
  {
    RenderSheet(d, QuestionCount(d))
  }

  /** As written, a definition without `numberOfQuestions` renders no
      question at all, although the validator accepts it. */
  lemma UncountedExamRendersNoQuestions(d: ExamRecord)
    requires d.numberOfQuestions.None?
    ensures ExamSheet(d) == Some([])
    ensures QuestionNumbers(ExamSheet(d).value) == []
  {
  }

  /** A concrete accepted definition with a two-answer key whose sheet, as
      written, is empty. */
  lemma UncountedExamExample()
    ensures var d := ExamRecord(Some("T"), Some(4), None, Some(AnswerList(["A", "B"])), None);
      ExamService.ValidateExamData(d) && ExamSheet(d) == Some([])
  {
    var d := ExamRecord(Some("T"), Some(4), None, Some(AnswerList(["A", "B"])), None);
    UncountedExamRendersNoQuestions(d);
  }

  /** With the computed count, every accepted definition renders one
      question per key entry, numbered 1..|key|, unless its sections are
      `null`, and its stated count, when there is one, is that same
      number. */
  lemma ValidSheetCoversKey(d: ExamRecord)
    requires ExamService.ValidateExamData(d)
    ensures IntendedExamSheet(d).None? <==>
      d.sections == Some(NullValue) && |d.correctAnswers.value.items| >= 1
    ensures IntendedExamSheet(d).Some? ==>
      QuestionNumbers(IntendedExamSheet(d).value) == Range(1, |d.correctAnswers.value.items|)
    ensures d.numberOfQuestions.Some? ==> ExamSheet(d) == IntendedExamSheet(d)
  {
    assert QuestionCount(d) == |d.correctAnswers.value.items|;
  }

  /** An accepted one-question definition with `sections: null` gets the
      load-error message instead of a sheet, while grading the same
      definition treats its sections as absent. */
  lemma NullSectionsThrow()
    ensures var d := ExamRecord(Some("T"), Some(1), Some(1), Some(AnswerList(["A"])), Some(NullValue));
      && ExamService.ValidateExamData(d)
      && ExamSheet(d).None?
      && SectionsOf(d).None?
  {
  }

  /** The question numbers of a sheet, in order. */
  function QuestionNumbers(items: seq<Item>): seq<nat> {
    if |items| == 0 then []
    else QuestionNumbers(items[..|items| - 1])
         + (if items[|items| - 1].Question? then [items[|items| - 1].number] else [])
  }

  /** The section titles of a sheet, in order. */
  function Headers(items: seq<Item>): seq<string> {
    if |items| == 0 then []
    else Headers(items[..|items| - 1])
         + (if items[|items| - 1].Header? then [items[|items| - 1].title] else [])
  }

  lemma {:induction false} QuestionNumbersAppend(a: seq<Item>, b: seq<Item>)
    ensures QuestionNumbers(a + b) == QuestionNumbers(a) + QuestionNumbers(b)
    decreases |b|
  {
    if |b| > 0 {
      assert (a + b)[..|a + b| - 1] == a + b[..|b| - 1];
      QuestionNumbersAppend(a, b[..|b| - 1]);
    } else {
      assert a + b == a;
    }
  }

  lemma {:induction false} HeadersAppend(a: seq<Item>, b: seq<Item>)
    ensures Headers(a + b) == Headers(a) + Headers(b)
    decreases |b|
  {
    if |b| > 0 {
      assert (a + b)[..|a + b| - 1] == a + b[..|b| - 1];
      HeadersAppend(a, b[..|b| - 1]);
    } else {
      assert a + b == a;
    }
  }

  /** The numbers lo..hi in order. */
  function Range(lo: int, hi: int): (r: seq<nat>)
    requires lo >= 0
    ensures |r| == (if hi < lo then 0 else hi - lo + 1)
    ensures forall i :: 0 <= i < |r| ==> r[i] == lo + i
    decreases if lo <= hi then hi - lo + 1 else 0
  {
    if lo > hi then [] else [lo] + Range(lo + 1, hi)
  }

  /** From question q the walk emits the questions q..n, in order, whatever
      the sections are. */
  lemma {:induction false} WalkQuestionNumbers(q: nat, n: int, cursor: nat, k: int, sections: Option<seq<Section>>)
    ensures QuestionNumbers(Walk(q, n, cursor, k, sections)) == Range(q, n)
    decreases if q <= n then n - q + 1 else 0
  {
    if q <= n {
      var h := HeaderBefore(q, cursor, sections);
      var rest := Walk(q + 1, n, NextCursor(q, cursor, sections), k, sections);
      WalkQuestionNumbers(q + 1, n, NextCursor(q, cursor, sections), k, sections);
      QuestionNumbersAppend(h + [Question(q, QuestionOptions(q, k))], rest);
      QuestionNumbersAppend(h, [Question(q, QuestionOptions(q, k))]);
      assert QuestionNumbers(h) == [] by {
        if |h| == 1 {
          assert h[..0] == [];
        }
      }
      assert QuestionNumbers([Question(q, QuestionOptions(q, k))]) == [q] by {
        assert [Question(q, QuestionOptions(q, k))][..0] == [];
      }
    }
  }

  /** The sheet holds exactly the questions 1..N in order, none when N < 1. */
  lemma SheetQuestionNumbers(n: int, k: int, sections: Option<seq<Section>>)
    ensures QuestionNumbers(GenerateQuestions(n, k, sections)) == Range(1, n)
    ensures n < 1 ==> GenerateQuestions(n, k, sections) == []
  {
    WalkQuestionNumbers(1, n, 0, k, sections);
  }

  /** Reference sheet: the questions a..b with no titles. */
  function Block(a: nat, b: int, k: int): seq<Item>
    decreases if a <= b then b - a + 1 else 0
  {
    if a > b then [] else [Question(a, QuestionOptions(a, k))] + Block(a + 1, b, k)
  }

  lemma {:induction false} BlockHasNoHeaders(a: nat, b: int, k: int)
    ensures Headers(Block(a, b, k)) == []
    decreases if a <= b then b - a + 1 else 0
  {
    if a <= b {
      BlockHasNoHeaders(a + 1, b, k);
      HeadersAppend([Question(a, QuestionOptions(a, k))], Block(a + 1, b, k));
      assert [Question(a, QuestionOptions(a, k))][..0] == [];
    }
  }

  /** Once the cursor has run past the last section (or there are no
      sections) the walk emits bare questions. */
  lemma {:induction false} WalkWithoutSections(q: nat, n: int, cursor: nat, k: int, sections: Option<seq<Section>>)
    requires sections.None? || cursor >= |sections.value|
    ensures Walk(q, n, cursor, k, sections) == Block(q, n, k)
    decreases if q <= n then n - q + 1 else 0
  {
    if q <= n {
      WalkWithoutSections(q + 1, n, cursor, k, sections);
    }
  }

  /** Without sections, or with an empty list of sections, the sheet is the
      bare questions 1..N and carries no title. */
  lemma NoSectionsNoHeaders(n: int, k: int, sections: Option<seq<Section>>)
    requires sections.None? || sections == Some([])
    ensures GenerateQuestions(n, k, sections) == Block(1, n, k)
    ensures Headers(GenerateQuestions(n, k, sections)) == []
  {
    WalkWithoutSections(1, n, 0, k, sections);
    BlockHasNoHeaders(1, n, k);
  }

  /** Reference sheet for sections that tile 1..N: each section's title
      followed by its questions, section after section. */
  function TiledSheet(secs: seq<Section>, n: int, c: nat, k: int): seq<Item>
    requires Tiles(secs, n)
    requires c <= |secs|
    decreases |secs| - c
  {
    if c == |secs| then []
    else
      TiledSectionsInRange(secs, n, c);
      [Header(secs[c].title)] + Block(secs[c].start, secs[c].end, k) + TiledSheet(secs, n, c + 1, k)
  }

  /** Inside a tiled section the walk emits the rest of the section's
      questions and hands over to the next section at its start. */
  lemma {:induction false} WalkThroughSection(secs: seq<Section>, n: int, c: nat, q: nat, k: int)
    requires Tiles(secs, n)
    requires c < |secs|
    requires secs[c].start <= q <= secs[c].end
    ensures Walk(q, n, c, k, Some(secs))
            == HeaderBefore(q, c, Some(secs)) + Block(q, secs[c].end, k) + Walk(secs[c].end + 1, n, c + 1, k, Some(secs))
    decreases secs[c].end - q
  {
    TiledSectionsInRange(secs, n, c);
    var sections := Some(secs);
    var item := Question(q, QuestionOptions(q, k));
    var h := HeaderBefore(q, c, sections);
    assert Walk(q, n, c, k, sections) == h + [item] + Walk(q + 1, n, NextCursor(q, c, sections), k, sections);
    if q == secs[c].end {
      assert Block(q, secs[c].end, k) == [item];
    } else {
      WalkThroughSection(secs, n, c, q + 1, k);
      assert !OpensSection(q + 1, c, sections);
      var b := Block(q + 1, secs[c].end, k);
      var rest := Walk(secs[c].end + 1, n, c + 1, k, sections);
      assert Walk(q + 1, n, c, k, sections) == [] + b + rest;
      assert Block(q, secs[c].end, k) == [item] + b;
      ConcatRegroup(h, item, b, rest);
    }
  }

  lemma ConcatRegroup<T>(h: seq<T>, x: T, b: seq<T>, rest: seq<T>)
    ensures h + [x] + ([] + b + rest) == h + ([x] + b) + rest
  {
  }

  /** Where the walk stands when it reaches section c of a tiling: that
      section's start, or N+1 past the last section. */
  function TileStart(secs: seq<Section>, n: int, c: nat): nat
    requires Tiles(secs, n)
    requires c <= |secs|
  {
    if c < |secs| then TiledSectionsInRange(secs, n, c); secs[c].start
    else TiledCountNonNegative(secs, n); n + 1
  }

  /** From the start of section c the walk emits the tiled reference sheet
      from section c on. */
  lemma {:induction false} WalkTiled(secs: seq<Section>, n: int, c: nat, k: int)
    requires Tiles(secs, n)
    requires c <= |secs|
    ensures Walk(TileStart(secs, n, c), n, c, k, Some(secs)) == TiledSheet(secs, n, c, k)
    decreases |secs| - c
  {
    if |secs| > 0 {
      TiledSectionsInRange(secs, n, |secs| - 1);
    }
    if c < |secs| {
      TiledSectionsInRange(secs, n, c);
      var sec := secs[c];
      WalkThroughSection(secs, n, c, sec.start, k);
      WalkTiled(secs, n, c + 1, k);
      assert TileStart(secs, n, c + 1) == sec.end + 1;
      var tail := TiledSheet(secs, n, c + 1, k);
      assert [Header(sec.title)] + Block(sec.start, sec.end, k) + tail
             == TiledSheet(secs, n, c, k);
    }
  }

  /** When the sections tile 1..N, the sheet is exactly the reference: every
      section's title once, in section order, right before its first
      question, then that section's questions. */
  lemma TiledSectionsSheet(n: int, k: int, secs: seq<Section>)
    requires Tiles(secs, n)
    ensures GenerateQuestions(n, k, Some(secs)) == TiledSheet(secs, n, 0, k)
  {
    WalkTiled(secs, n, 0, k);
  }

  /** The section indices whose titles the walk emits, in emission order. */
  ghost function HeaderTrace(q: nat, n: int, cursor: nat, sections: Option<seq<Section>>): seq<nat>
    decreases if q <= n then n - q + 1 else 0
  {
    if q > n then []
    else
      (if OpensSection(q, cursor, sections) then [cursor] else [])
      + HeaderTrace(q + 1, n, NextCursor(q, cursor, sections), sections)
  }

  /** Titles of the sections at the given indices. */
  function TitlesAt(secs: seq<Section>, t: seq<nat>): (r: seq<string>)
    requires forall i :: 0 <= i < |t| ==> t[i] < |secs|
    ensures |r| == |t|
  {
    seq(|t|, i requires 0 <= i < |t| => secs[t[i]].title)
  }

  predicate StrictlyIncreasing(t: seq<nat>) {
    forall i, j :: 0 <= i < j < |t| ==> t[i] < t[j]
  }

  lemma PrependSmaller(c: nat, t: seq<nat>)
    requires StrictlyIncreasing(t)
    requires forall i :: 0 <= i < |t| ==> t[i] > c
    ensures StrictlyIncreasing([c] + t)
  {
    var t' := [c] + t;
    forall i, j | 0 <= i < j < |t'| ensures t'[i] < t'[j] {
      assert t'[j] == t[j - 1];
      if i > 0 {
        assert t'[i] == t[i - 1];
      }
    }
  }

  /** One step of the trace. */
  lemma HeaderTraceUnfold(q: nat, n: int, cursor: nat, sections: Option<seq<Section>>)
    requires q <= n
    ensures HeaderTrace(q, n, cursor, sections)
            == (if OpensSection(q, cursor, sections) then [cursor] else [])
               + HeaderTrace(q + 1, n, NextCursor(q, cursor, sections), sections)
  {
  }

  /** The trace's indices lie between the cursor and the number of sections. */
  lemma {:induction false} HeaderTraceBounds(q: nat, n: int, cursor: nat, secs: seq<Section>)
    requires cursor <= |secs|
    ensures var t := HeaderTrace(q, n, cursor, Some(secs));
      forall i :: 0 <= i < |t| ==> cursor <= t[i] < |secs|
    decreases if q <= n then n - q + 1 else 0
  {
    if q <= n {
      var next := NextCursor(q, cursor, Some(secs));
      HeaderTraceBounds(q + 1, n, next, secs);
      HeaderTraceUnfold(q, n, cursor, Some(secs));
    }
  }

  /** Once the walk is past the current section's start, that section never
      appears in the trace again. */
  lemma {:induction false} HeaderTraceAfterStart(q: nat, n: int, cursor: nat, secs: seq<Section>)
    requires cursor < |secs| && q > secs[cursor].start
    ensures var t := HeaderTrace(q, n, cursor, Some(secs));
      forall i :: 0 <= i < |t| ==> t[i] > cursor
    decreases if q <= n then n - q + 1 else 0
  {
    if q <= n {
      var next := NextCursor(q, cursor, Some(secs));
      if next == cursor {
        HeaderTraceAfterStart(q + 1, n, next, secs);
      } else {
        HeaderTraceBounds(q + 1, n, next, secs);
      }
      HeaderTraceUnfold(q, n, cursor, Some(secs));
    }
  }

  /** The trace only moves forward: its indices lie between the cursor and
      the number of sections and strictly increase, and once the walk is
      past the current section's start that section never appears. */
  lemma {:induction false} HeaderTraceIncreasing(q: nat, n: int, cursor: nat, secs: seq<Section>)
    requires cursor <= |secs|
    ensures var t := HeaderTrace(q, n, cursor, Some(secs));
      && (forall i :: 0 <= i < |t| ==> cursor <= t[i] < |secs|)
      && StrictlyIncreasing(t)
      && (cursor < |secs| && q > secs[cursor].start ==> forall i :: 0 <= i < |t| ==> t[i] > cursor)
    decreases if q <= n then n - q + 1 else 0
  {
    HeaderTraceBounds(q, n, cursor, secs);
    if cursor < |secs| && q > secs[cursor].start {
      HeaderTraceAfterStart(q, n, cursor, secs);
    }
    if q <= n {
      var sections := Some(secs);
      var next := NextCursor(q, cursor, sections);
      HeaderTraceIncreasing(q + 1, n, next, secs);
      HeaderTraceUnfold(q, n, cursor, sections);
      if OpensSection(q, cursor, sections) {
        var t' := HeaderTrace(q + 1, n, next, sections);
        if next == cursor {
          HeaderTraceAfterStart(q + 1, n, next, secs);
        } else {
          HeaderTraceBounds(q + 1, n, next, secs);
        }
        PrependSmaller(cursor, t');
      }
    }
  }

  /** The titles on the sheet are those of the sections in the trace. */
  lemma {:induction false} WalkHeadersFollowTrace(q: nat, n: int, cursor: nat, k: int, secs: seq<Section>)
    requires cursor <= |secs|
    ensures var t := HeaderTrace(q, n, cursor, Some(secs));
      && (forall i :: 0 <= i < |t| ==> t[i] < |secs|)
      && Headers(Walk(q, n, cursor, k, Some(secs))) == TitlesAt(secs, t)
    decreases if q <= n then n - q + 1 else 0
  {
    HeaderTraceIncreasing(q, n, cursor, secs);
    var sections := Some(secs);
    if q <= n {
      var h := HeaderBefore(q, cursor, sections);
      var next := NextCursor(q, cursor, sections);
      var item := Question(q, QuestionOptions(q, k));
      var rest := Walk(q + 1, n, next, k, sections);
      assert Walk(q, n, cursor, k, sections) == h + [item] + rest;
      WalkHeadersFollowTrace(q + 1, n, next, k, secs);
      HeaderTraceIncreasing(q + 1, n, next, secs);
      HeadersAppend(h + [item], rest);
      HeadersAppend(h, [item]);
      QuestionHasNoHeader(item);
      var t' := HeaderTrace(q + 1, n, next, sections);
      if OpensSection(q, cursor, sections) {
        SingleHeader(secs[cursor].title);
        assert h == [Header(secs[cursor].title)];
        TitlesAtPrepend(secs, cursor, t');
      } else {
        assert h == [];
      }
    }
  }

  lemma QuestionHasNoHeader(item: Item)
    requires item.Question?
    ensures Headers([item]) == []
  {
    assert [item][..0] == [];
  }

  lemma SingleHeader(title: string)
    ensures Headers([Header(title)]) == [title]
  {
    assert [Header(title)][..0] == [];
  }

  lemma TitlesAtPrepend(secs: seq<Section>, c: nat, t: seq<nat>)
    requires c < |secs|
    requires forall i :: 0 <= i < |t| ==> t[i] < |secs|
    ensures TitlesAt(secs, [c] + t) == [secs[c].title] + TitlesAt(secs, t)
  {
  }

  /** The titles of the whole sheet come from sections at strictly
      increasing indices. */
  lemma SheetHeadersInSectionOrder(n: int, k: int, secs: seq<Section>)
    ensures var t := HeaderTrace(1, n, 0, Some(secs));
      && (forall i :: 0 <= i < |t| ==> t[i] < |secs|)
      && StrictlyIncreasing(t)
      && Headers(GenerateQuestions(n, k, Some(secs))) == TitlesAt(secs, t)
  {
    HeaderTraceIncreasing(1, n, 0, secs);
    WalkHeadersFollowTrace(1, n, 0, k, secs);
  }

  /** The radio inputs of a sheet, in document order. */
  function SheetRadios(items: seq<Item>): seq<Radio> {
    if |items| == 0 then []
    else (if items[0].Question? then items[0].options else []) + SheetRadios(items[1..])
  }

  lemma {:induction false} SheetRadiosAppend(a: seq<Item>, b: seq<Item>)
    ensures SheetRadios(a + b) == SheetRadios(a) + SheetRadios(b)
    decreases |a|
  {
    if |a| > 0 {
      assert (a + b)[1..] == a[1..] + b;
      SheetRadiosAppend(a[1..], b);
    } else {
      assert a + b == b;
    }
  }

  /** The names question{q}..question{n}. */
  function NameRange(q: nat, n: int): (r: seq<string>)
    ensures |r| == (if n < q then 0 else n - q + 1)
    ensures forall i :: 0 <= i < |r| ==> r[i] == QuestionName(q + i)
  {
    var len := if n < q then 0 else n - q + 1;
    seq(len, i requires 0 <= i < len => QuestionName(q + i))
  }

  lemma NameRangeKeys(q: nat, n: int)
    ensures forall i :: 0 <= i < |NameRange(q, n)| ==> NumberKey(NameRange(q, n)[i]) == q + i
    ensures forall i :: 0 <= i < |NameRange(q, n)| ==> NameNumber(NameRange(q, n)[i]).Some?
    ensures SortedBy(NameRange(q, n), NumberKey)
  {
    forall i | 0 <= i < |NameRange(q, n)|
      ensures NumberKey(NameRange(q, n)[i]) == q + i && NameNumber(NameRange(q, n)[i]).Some?
    {
      QuestionNameNumber(q + i);
    }
  }

  /** The radios of the walk from question q: q's own, then the rest. */
  lemma WalkRadiosUnfold(q: nat, n: int, cursor: nat, k: int, sections: Option<seq<Section>>)
    requires q <= n
    ensures SheetRadios(Walk(q, n, cursor, k, sections))
            == QuestionOptions(q, k) + SheetRadios(Walk(q + 1, n, NextCursor(q, cursor, sections), k, sections))
  {
    var h := HeaderBefore(q, cursor, sections);
    var opts := QuestionOptions(q, k);
    var rest := Walk(q + 1, n, NextCursor(q, cursor, sections), k, sections);
    assert Walk(q, n, cursor, k, sections) == h + [Question(q, opts)] + rest;
    SheetRadiosAppend(h + [Question(q, opts)], rest);
    SheetRadiosAppend(h, [Question(q, opts)]);
    assert SheetRadios(h) == [] by {
      if |h| == 1 {
        assert h[1..] == [];
      }
    }
    assert SheetRadios([Question(q, opts)]) == opts by {
      assert [Question(q, opts)][1..] == [];
    }
  }

  /** Radios whose distinct names are question{q+1}.. carry no radio named
      question{q}. */
  lemma LaterNamesDiffer(q: nat, n: int, later: seq<Radio>)
    requires Distinct(Names(later)) == NameRange(q + 1, n)
    ensures QuestionName(q) !in Names(later)
  {
    var range := NameRange(q + 1, n);
    forall i | 0 <= i < |range|
      ensures range[i] != QuestionName(q)
    {
      QuestionNamesDiffer(q + 1 + i, q);
    }
  }

  lemma NameRangeCons(q: nat, n: int)
    requires q <= n
    ensures NameRange(q, n) == [QuestionName(q)] + NameRange(q + 1, n)
  {
  }

  /** The options of one question share its single name. */
  lemma OptionNames(q: nat, k: int)
    requires k >= 1
    ensures Distinct(Names(QuestionOptions(q, k))) == [QuestionName(q)]
  {
    DistinctCopies(QuestionName(q), Names(QuestionOptions(q, k)));
  }

  /** Question q's names followed by names of later questions have
      question{q} and then the later distinct names as distinct names. */
  lemma DistinctNamesStep(q: nat, n: int, k: int, later: seq<Radio>)
    requires k >= 1
    requires q <= n
    requires Distinct(Names(later)) == NameRange(q + 1, n)
    ensures Distinct(Names(QuestionOptions(q, k) + later)) == NameRange(q, n)
  {
    var opts := QuestionOptions(q, k);
    NamesAppend(opts, later);
    LaterNamesDiffer(q, n, later);
    forall x | x in Names(later)
      ensures x !in Names(opts)
    {
      assert x != QuestionName(q);
    }
    DistinctDisjointAppend(Names(opts), Names(later));
    OptionNames(q, k);
    NameRangeCons(q, n);
  }

  /** The distinct radio names the walk from question q produces are
      question{q}..question{n}, in order (given at least one option). */
  lemma {:induction false} WalkDistinctNames(q: nat, n: int, cursor: nat, k: int, sections: Option<seq<Section>>)
    requires k >= 1
    ensures Distinct(Names(SheetRadios(Walk(q, n, cursor, k, sections)))) == NameRange(q, n)
    decreases if q <= n then n - q + 1 else 0
  {
    if q <= n {
      var next := NextCursor(q, cursor, sections);
      WalkRadiosUnfold(q, n, cursor, k, sections);
      WalkDistinctNames(q + 1, n, next, k, sections);
      DistinctNamesStep(q, n, k, SheetRadios(Walk(q + 1, n, next, k, sections)));
    }
  }

  /** The radio names of a sheet of N questions, whatever the user has
      checked, are put in the order question1..questionN. */
  lemma SheetAnswerOrder(n: int, k: int, sections: Option<seq<Section>>, radios: seq<Radio>)
    requires k >= 1
    requires Names(radios) == Names(SheetRadios(GenerateQuestions(n, k, sections)))
    ensures NumberedNames(radios)
    ensures AnswerOrder(radios) == NameRange(1, n)
  {
    WalkDistinctNames(1, n, 0, k, sections);
    NameRangeKeys(1, n);
    forall i | 0 <= i < |radios|
      ensures NameNumber(radios[i].name).Some?
    {
      assert radios[i].name in Distinct(Names(radios));
    }
    SortSortedIsIdentity(NameRange(1, n), NumberKey);
  }

  /** The radios of a sheet of N questions, whatever the user has checked,
      are reported by `getSelectedAnswers` in question order: the k-th
      answer is question k+1's, the alignment grading relies on. */
  lemma {:induction false} SheetAnswersInQuestionOrder(n: int, k: int, sections: Option<seq<Section>>, radios: seq<Radio>)
    requires k >= 1
    requires |radios| == |SheetRadios(GenerateQuestions(n, k, sections))|
    requires forall i :: 0 <= i < |radios| ==> radios[i].name == SheetRadios(GenerateQuestions(n, k, sections))[i].name
    ensures NumberedNames(radios)
    ensures AnswerOrder(radios) == NameRange(1, n)
    ensures |SelectedAnswers(radios)| == (if n < 1 then 0 else n)
    ensures forall i :: 0 <= i < |SelectedAnswers(radios)| ==>
      SelectedAnswers(radios)[i] == FirstChecked(radios, QuestionName(i + 1))
  {
    var sheet := SheetRadios(GenerateQuestions(n, k, sections));
    assert Names(radios) == Names(sheet);
    SheetAnswerOrder(n, k, sections, radios);
  }
}

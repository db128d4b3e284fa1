/** The form helpers of src/utils.js that carry logic: the option letters,
    the student-name check, and reading the answers off the radio buttons.
    The page's radio inputs are a sequence of records in document order. */
module FormUtils {
  import opened Wrappers
  import opened Decimal

  /** A radio input of the question form. */
  datatype Radio = Radio(name: string, value: string, checked: bool)

  /** The letters an option can carry, in order. */
  const OptionLetters: seq<string> := ["A", "B", "C", "D", "E"]

  /** The end index `Array.prototype.slice(0, n)` uses on the five letters:
      a negative n counts back from the end. */
  function SliceEnd(n: int): (e: nat)
    ensures e <= |OptionLetters|
  {
    if n < 0 then (if 5 + n < 0 then 0 else 5 + n)
    else if n > 5 then 5 else n
  }

  /** `makeLetterOptions`: the first letters A..E, as many as asked for and
      at most five, all different. */
  function MakeLetterOptions(n: int): (r: seq<string>)
    ensures 0 <= n ==> |r| == (if n < 5 then n else 5)
    ensures n < 0 ==> |r| == (if n < -5 then 0 else 5 + n)
    ensures forall i :: 0 <= i < |r| ==> r[i] == OptionLetters[i]
    ensures forall i, j :: 0 <= i < j < |r| ==> r[i] != r[j]
  {
    OptionLetters[..SliceEnd(n)]
  }

  /** The characters `String.prototype.trim` removes: the ECMAScript
      WhiteSpace and LineTerminator code points. */
  predicate IsJsWhitespace(c: char) {
    || c == '\t' || c == '\n' || c == '\U{000B}' || c == '\U{000C}' || c == '\r' || c == ' '
    || c == '\U{00A0}' || c == '\U{1680}' || ('\U{2000}' <= c <= '\U{200A}')
    || c == '\U{2028}' || c == '\U{2029}' || c == '\U{202F}' || c == '\U{205F}'
    || c == '\U{3000}' || c == '\U{FEFF}'
  }

  predicate AllWhitespace(s: string) {
    forall i :: 0 <= i < |s| ==> IsJsWhitespace(s[i])
  }

  /** s without its leading whitespace. */
  function TrimStart(s: string): (r: string)
    ensures |r| <= |s| && r == s[|s| - |r|..]
    ensures AllWhitespace(s[..|s| - |r|])
    ensures |r| > 0 ==> !IsJsWhitespace(r[0])
  {
    if |s| > 0 && IsJsWhitespace(s[0]) then TrimStart(s[1..]) else s
  }

  /** s without its trailing whitespace. */
  function TrimEnd(s: string): (r: string)
    ensures |r| <= |s| && r == s[..|r|]
    ensures AllWhitespace(s[|r|..])
    ensures |r| > 0 ==> !IsJsWhitespace(r[|r| - 1])
  {
    if |s| > 0 && IsJsWhitespace(s[|s| - 1]) then TrimEnd(s[..|s| - 1]) else s
  }

  /** `String.prototype.trim`: the piece of s left once whitespace is cut
      from both ends; it neither starts nor ends with whitespace, and is
      nothing at all for a blank s. */
  function Trim(s: string): (r: string)
    ensures exists a, b :: 0 <= a <= b <= |s| && r == s[a..b] && AllWhitespace(s[..a]) && AllWhitespace(s[b..])
    ensures |r| <= |s|
    ensures |r| > 0 ==> !IsJsWhitespace(r[0]) && !IsJsWhitespace(r[|r| - 1])
    ensures AllWhitespace(s) ==> r == []
  {
    TrimCutsEnds(s, TrimStart(s), TrimEnd(TrimStart(s)));
    TrimEnd(TrimStart(s))
  }

  /** Cutting whitespace from the front of s (giving t) and then from the
      back of t (giving r) leaves r as the slice of s between the two
      cuts, with only whitespace outside it. */
  lemma TrimCutsEnds(s: string, t: string, r: string)
    requires |t| <= |s| && t == s[|s| - |t|..] && AllWhitespace(s[..|s| - |t|])
    requires |r| <= |t| && r == t[..|r|] && AllWhitespace(t[|r|..])
    ensures var a := |s| - |t|;
      r == s[a..a + |r|] && AllWhitespace(s[..a]) && AllWhitespace(s[a + |r|..])
  {
    SuffixSlices(s, |s| - |t|, t, |r|);
  }

  /** Slices of the suffix `s[a..]` are slices of s. */
  lemma SuffixSlices(s: string, a: nat, t: string, m: nat)
    requires a <= |s| && t == s[a..] && m <= |t|
    ensures t[..m] == s[a..a + m] && t[m..] == s[a + m..]
  {
  }

  /** Trimming leaves nothing exactly when the string is all whitespace. */
  lemma TrimEmptyIffBlank(s: string)
    ensures |Trim(s)| == 0 <==> AllWhitespace(s)
  {
    var t := TrimStart(s);
    var a := |s| - |t|;
    assert s == s[..a] + t;
    if |Trim(s)| == 0 {
      assert AllWhitespace(t[|Trim(s)|..]);
      assert t[0..] == t;
      assert |t| == 0;
      assert s[..a] == s;
    }
  }

  /** `isStudentNameValid`: the name input exists and holds a character
      other than whitespace. */
  function IsStudentNameValid(input: Option<string>): (ok: bool)
    ensures ok <==> input.Some? && exists i :: 0 <= i < |input.value| && !IsJsWhitespace(input.value[i])
  {
    if input.None? then false
    else
      TrimEmptyIffBlank(input.value);
      Trim(input.value) != ""
  }

  /** The names of the radios, in document order. */
  function Names(radios: seq<Radio>): (r: seq<string>)
    ensures |r| == |radios|
    ensures forall i :: 0 <= i < |radios| ==> r[i] == radios[i].name
  {
    seq(|radios|, i requires 0 <= i < |radios| => radios[i].name)
  }

  lemma NamesAppend(a: seq<Radio>, b: seq<Radio>)
    ensures Names(a + b) == Names(a) + Names(b)
  {
  }

  predicate NoDuplicates(s: seq<string>) {
    forall i, j :: 0 <= i < j < |s| ==> s[i] != s[j]
  }

  /** `Array.from(new Set(s))`: each element once, at its first occurrence. */
  function Distinct(s: seq<string>): (r: seq<string>)
    ensures NoDuplicates(r)
    ensures forall x :: x in r <==> x in s
    ensures |r| <= |s|
  {
    if |s| == 0 then []
    else
      var p := Distinct(s[..|s| - 1]);
      var x := s[|s| - 1];
      assert forall y :: y in s <==> y in s[..|s| - 1] || y == x;
      if x in p then p else p + [x]
  }

  /** Some radio with this name is checked. */
  predicate HasChecked(radios: seq<Radio>, name: string) {
    exists i :: 0 <= i < |radios| && radios[i].name == name && radios[i].checked
  }

  /** `document.querySelector('input[name="…"]:checked')`, reduced to its
      value: the value of the first checked radio with this name. */
  function FirstChecked(radios: seq<Radio>, name: string): (r: Option<string>)
    ensures r.None? <==> !HasChecked(radios, name)
    ensures r.Some? ==> exists i :: 0 <= i < |radios| && radios[i].name == name && radios[i].checked
                                    && radios[i].value == r.value
                                    && forall j :: 0 <= j < i ==> !(radios[j].name == name && radios[j].checked)
  {
    if |radios| == 0 then None
    else if radios[0].name == name && radios[0].checked then Some(radios[0].value)
    else
      var r := FirstChecked(radios[1..], name);
      HasCheckedTail(radios, name);
      if r.Some? then
        var i :| 0 <= i < |radios[1..]| && radios[1..][i].name == name && radios[1..][i].checked
                 && radios[1..][i].value == r.value
                 && forall j :: 0 <= j < i ==> !(radios[1..][j].name == name && radios[1..][j].checked);
        FirstCheckedShift(radios, name, i);
        r
      else r
  }

  /** When the first radio is not a checked one of this name, the rest
      decide whether one is. */
  lemma HasCheckedTail(radios: seq<Radio>, name: string)
    requires |radios| > 0 && !(radios[0].name == name && radios[0].checked)
    ensures HasChecked(radios, name) <==> HasChecked(radios[1..], name)
  {
    if HasChecked(radios, name) {
      var i :| 0 <= i < |radios| && radios[i].name == name && radios[i].checked;
      assert radios[1..][i - 1] == radios[i];
    }
    if HasChecked(radios[1..], name) {
      var i :| 0 <= i < |radios[1..]| && radios[1..][i].name == name && radios[1..][i].checked;
      assert radios[i + 1] == radios[1..][i];
    }
  }

  /** The first checked radio of a name in the rest is the first one in the
      whole sequence when the head is not a checked one of that name. */
  lemma FirstCheckedShift(radios: seq<Radio>, name: string, i: nat)
    requires |radios| > 0 && !(radios[0].name == name && radios[0].checked)
    requires i < |radios| - 1
    requires forall j :: 0 <= j < i ==> !(radios[1..][j].name == name && radios[1..][j].checked)
    ensures radios[i + 1] == radios[1..][i]
    ensures forall j :: 0 <= j < i + 1 ==> !(radios[j].name == name && radios[j].checked)
  {
    assert forall j :: 1 <= j < i + 1 ==> radios[j] == radios[1..][j - 1];
  }

  /** Every radio's question has a checked radio. */
  predicate AllAnswered(radios: seq<Radio>) {
    forall i :: 0 <= i < |radios| ==> HasChecked(radios, radios[i].name)
  }

  /** `areAllQuestionsAnswered`: walks the distinct names and stops at the
      first one with no checked radio. */
  method AreAllQuestionsAnswered(radios: seq<Radio>) returns (ok: bool)
    ensures ok <==> AllAnswered(radios)
  {
    var names := Distinct(Names(radios));
    for k := 0 to |names|
      invariant forall j :: 0 <= j < k ==> HasChecked(radios, names[j])
    {
      if FirstChecked(radios, names[k]).None? {
        assert names[k] in Names(radios);
        var i :| 0 <= i < |radios| && Names(radios)[i] == names[k];
        assert !HasChecked(radios, radios[i].name);
        return false;
      }
    }
    forall i | 0 <= i < |radios|
      ensures HasChecked(radios, radios[i].name)
    {
      assert Names(radios)[i] in names;
    }
    return true;
  }

  /** The number `parseInt(name.replace(/\D/g, ''))` reads from a name that
      contains a digit. */
  function NumberKey(name: string): nat {
    DigitsValue(DigitsOf(name))
  }

  predicate SortedBy<T>(s: seq<T>, key: T -> nat) {
    forall i, j :: 0 <= i < j < |s| ==> key(s[i]) <= key(s[j])
  }

  /** Inserts x before the first element whose key is not smaller, so equal
      keys keep their relative order. */
  function InsertBy<T>(x: T, s: seq<T>, key: T -> nat): (r: seq<T>)
    requires SortedBy(s, key)
    ensures SortedBy(r, key)
    ensures multiset(r) == multiset(s) + multiset{x}
    ensures |r| == |s| + 1
    ensures r[0] == x || (|s| > 0 && r[0] == s[0])
  {
    if |s| == 0 || key(x) <= key(s[0]) then [x] + s
    else
      var rest := InsertBy(x, s[1..], key);
      assert s == [s[0]] + s[1..];
      SortedCons(s[0], rest, key);
      [s[0]] + rest
  }

  /** An element no larger than the head of a sorted sequence may go first. */
  lemma SortedCons<T>(y: T, s: seq<T>, key: T -> nat)
    requires SortedBy(s, key)
    requires |s| > 0 ==> key(y) <= key(s[0])
    ensures SortedBy([y] + s, key)
  {
    var r := [y] + s;
    forall i, j | 0 <= i < j < |r|
      ensures key(r[i]) <= key(r[j])
    {
      assert r[j] == s[j - 1];
      if i > 0 {
        assert r[i] == s[i - 1];
      }
    }
  }

  /** A stable insertion sort by key. */
  function SortBy<T>(s: seq<T>, key: T -> nat): (r: seq<T>)
    ensures SortedBy(r, key)
    ensures multiset(r) == multiset(s)
    ensures |r| == |s|
  {
    if |s| == 0 then []
    else
      assert s == [s[0]] + s[1..];
      InsertBy(s[0], SortBy(s[1..], key), key)
  }

  /** Sorting an already sorted sequence leaves it as it is. */
  lemma {:induction false} SortSortedIsIdentity<T>(s: seq<T>, key: T -> nat)
    requires SortedBy(s, key)
    ensures SortBy(s, key) == s
    decreases |s|
  {
    if |s| > 0 {
      assert SortedBy(s[1..], key);
      SortSortedIsIdentity(s[1..], key);
      assert s == [s[0]] + s[1..];
    }
  }

  /** Appending an element adds it at the end unless it already occurs. */
  lemma DistinctSnoc(s: seq<string>, x: string)
    ensures Distinct(s + [x]) == if x in s then Distinct(s) else Distinct(s) + [x]
  {
    assert (s + [x])[..|s + [x]| - 1] == s;
  }

  /** Joining two sequences with no element in common keeps each one's
      distinct elements, in order. */
  lemma {:induction false} DistinctDisjointAppend(a: seq<string>, b: seq<string>)
    requires forall x :: x in b ==> x !in a
    ensures Distinct(a + b) == Distinct(a) + Distinct(b)
    decreases |b|
  {
    if |b| == 0 {
      assert a + b == a;
    } else {
      var b' := b[..|b| - 1];
      var y := b[|b| - 1];
      assert a + b == (a + b') + [y];
      assert b == b' + [y];
      DisjointInit(a, b);
      DistinctDisjointAppend(a, b');
      DistinctSnoc(a + b', y);
      DistinctSnoc(b', y);
      if y !in b' {
        assert y !in a + b';
        assert Distinct(a) + Distinct(b') + [y] == Distinct(a) + (Distinct(b') + [y]);
      }
    }
  }

  /** When nothing in b occurs in a, the same holds for b without its last
      element, and for that last element. */
  lemma DisjointInit(a: seq<string>, b: seq<string>)
    requires |b| > 0
    requires forall x :: x in b ==> x !in a
    ensures forall x :: x in b[..|b| - 1] ==> x !in a
    ensures b[|b| - 1] !in a
  {
    assert b == b[..|b| - 1] + [b[|b| - 1]];
  }

  /** k >= 1 copies of one name have that name as their only distinct
      element. */
  lemma {:induction false} DistinctCopies(x: string, s: seq<string>)
    requires |s| > 0
    requires forall i :: 0 <= i < |s| ==> s[i] == x
    ensures Distinct(s) == [x]
    decreases |s|
  {
    if |s| > 1 {
      DistinctCopies(x, s[..|s| - 1]);
    }
  }

  /** A sequence without duplicates has every multiplicity at most one. */
  lemma {:induction false} NoDuplicatesMultiplicity(s: seq<string>, x: string)
    requires NoDuplicates(s)
    ensures multiset(s)[x] <= 1
    decreases |s|
  {
    if |s| > 0 {
      assert s == [s[0]] + s[1..];
      NoDuplicatesMultiplicity(s[1..], x);
      if x == s[0] {
        assert x !in s[1..];
      }
    }
  }

  /** An element found at two positions occurs at least twice. */
  lemma RepeatedElementMultiplicity(r: seq<string>, i: nat, j: nat)
    requires i < j < |r|
    ensures r[i] == r[j] ==> multiset(r)[r[i]] >= 2
  {
    assert r == r[..j] + r[j..];
    assert r[..j][i] == r[i] && r[j..][0] == r[j];
    assert multiset(r[..j])[r[i]] >= 1 && multiset(r[j..])[r[j]] >= 1;
  }

  /** Rearranging a sequence without duplicates gives one without duplicates. */
  lemma NoDuplicatesPermutation(s: seq<string>, r: seq<string>)
    requires NoDuplicates(s)
    requires multiset(r) == multiset(s)
    ensures NoDuplicates(r)
  {
    forall i, j | 0 <= i < j < |r|
      ensures r[i] != r[j]
    {
      RepeatedElementMultiplicity(r, i, j);
      NoDuplicatesMultiplicity(s, r[i]);
    }
  }

  /** Rearranging a sequence keeps its members. */
  lemma PermutationMembers(s: seq<string>, r: seq<string>)
    requires multiset(r) == multiset(s)
    ensures forall x :: x in r <==> x in s
  {
    forall x
      ensures x in r <==> x in s
    {
      assert x in r <==> x in multiset(r);
      assert x in s <==> x in multiset(s);
    }
  }

  /** A name occurs in the list of names exactly when some radio has it. */
  lemma NamesMembers(radios: seq<Radio>)
    ensures forall x :: x in Names(radios) <==> exists i :: 0 <= i < |radios| && radios[i].name == x
  {
  }

  /** Every radio name contains a digit. Otherwise the comparator of the
      sort returns NaN and the order is left to the JavaScript engine. */
  predicate NumberedNames(radios: seq<Radio>) {
    forall i :: 0 <= i < |radios| ==> NameNumber(radios[i].name).Some?
  }

  /** The question names in the order `getSelectedAnswers` reports them: each
      distinct name once, ordered by the number in the name. */
  function AnswerOrder(radios: seq<Radio>): (names: seq<string>)
    requires NumberedNames(radios)
    ensures NoDuplicates(names)
    ensures forall x :: x in names <==> exists i :: 0 <= i < |radios| && radios[i].name == x
    ensures forall i, j :: 0 <= i < j < |names| ==> NumberKey(names[i]) <= NumberKey(names[j])
  {
    var distinct := Distinct(Names(radios));
    var sorted := SortBy(distinct, NumberKey);
    NoDuplicatesPermutation(distinct, sorted);
    PermutationMembers(distinct, sorted);
    NamesMembers(radios);
    sorted
  }

  /** `getSelectedAnswers`: for each name in answer order, the value of its
      checked radio, or `null` when none is checked. */
  function SelectedAnswers(radios: seq<Radio>): (answers: seq<Option<string>>)
    requires NumberedNames(radios)
    ensures |answers| == |AnswerOrder(radios)|
    ensures forall k :: 0 <= k < |answers| ==>
      (answers[k].None? <==> !HasChecked(radios, AnswerOrder(radios)[k]))
    ensures forall k :: 0 <= k < |answers| && answers[k].Some? ==>
      exists i :: 0 <= i < |radios| && radios[i].name == AnswerOrder(radios)[k]
                  && radios[i].checked && radios[i].value == answers[k].value
  {
    var names := AnswerOrder(radios);
    seq(|names|, k requires 0 <= k < |names| => FirstChecked(radios, names[k]))
  }

  /** Once every question is answered, no reported answer is `null`: the
      precondition the grading call relies on. */
  lemma {:induction false} CompleteFormHasNoNulls(radios: seq<Radio>)
    requires NumberedNames(radios)
    requires AllAnswered(radios)
    ensures forall k :: 0 <= k < |SelectedAnswers(radios)| ==> SelectedAnswers(radios)[k].Some?
  {
    var names := AnswerOrder(radios);
    forall k | 0 <= k < |names|
      ensures HasChecked(radios, names[k])
    {
      assert names[k] in names;
      var i :| 0 <= i < |radios| && radios[i].name == names[k];
    }
  }
}

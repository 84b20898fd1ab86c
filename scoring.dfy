/** score_answer: a question record and a submitted value give (score, correct). */
module Scoring {
  import opened QuizModel
  import StringOrder

  /** What score_answer produces: the pair it returns, or the TypeError that
      sorted(None) raises for a multi-select question with no submission. */
  datatype Outcome = Scored(score: nat, correct: bool) | TypeError

  /** Choice i is the first choice, in list order, marked correct. */
  predicate IsFirstCorrect(cs: seq<Choice>, i: int)
  {
    0 <= i < |cs| && cs[i].isCorrect && forall j :: 0 <= j < i ==> !cs[j].isCorrect
  }

  /** next((c['id'] for c in choices if c['is_correct']), None) */
  function FirstCorrectId(cs: seq<Choice>): (r: Option<string>)
    ensures r.None? <==> forall i :: 0 <= i < |cs| ==> !cs[i].isCorrect
    ensures r.Some? ==> exists i :: IsFirstCorrect(cs, i) && cs[i].id == r.value
  {
    if cs == [] then None
    else if cs[0].isCorrect then
      assert IsFirstCorrect(cs, 0);
      Some(cs[0].id)
    else
      var r := FirstCorrectId(cs[1..]);
      assert forall i :: 1 <= i < |cs| ==> cs[i] == cs[1..][i - 1];
      assert r.Some? ==> exists i :: IsFirstCorrect(cs, i) && cs[i].id == r.value by {
        if r.Some? {
          var i :| IsFirstCorrect(cs[1..], i) && cs[1..][i].id == r.value;
          assert IsFirstCorrect(cs, i + 1);
        }
      }
      r
  }

  /** At most one index is the first correct one. */
  lemma FirstCorrectUnique(cs: seq<Choice>, i: int, j: int)
    requires IsFirstCorrect(cs, i) && IsFirstCorrect(cs, j)
    ensures i == j
  {
  }

  /** Some choice marked correct carries the id x. */
  predicate IsCorrectId(cs: seq<Choice>, x: string)
  {
    exists i :: 0 <= i < |cs| && cs[i].isCorrect && cs[i].id == x
  }

  /** [c['id'] for c in choices if c['is_correct']], in list order. */
  function CorrectIds(cs: seq<Choice>): (r: seq<string>)
    ensures |r| <= |cs|
    ensures forall x :: x in r <==> IsCorrectId(cs, x)
  {
    if cs == [] then []
    else
      var rest := CorrectIds(cs[1..]);
      forall x | IsCorrectId(cs[1..], x) ensures IsCorrectId(cs, x) {
        var i :| 0 <= i < |cs[1..]| && cs[1..][i].isCorrect && cs[1..][i].id == x;
        assert cs[i + 1] == cs[1..][i];
      }
      forall x | IsCorrectId(cs, x) && x != cs[0].id ensures IsCorrectId(cs[1..], x) {
        var i :| 0 <= i < |cs| && cs[i].isCorrect && cs[i].id == x;
        assert cs[1..][i - 1] == cs[i];
      }
      if cs[0].isCorrect then [cs[0].id] + rest else rest
  }

  /** list(s) for a string: its characters, each a one-character string. */
  function Characters(s: string): (r: seq<string>)
    ensures |r| == |s|
    ensures forall i :: 0 <= i < |s| ==> r[i] == [s[i]]
  {
    seq(|s|, i requires 0 <= i < |s| => [s[i]])
  }

  /** The list sorted() receives for a multi-select question: a list of ids as it is, a
      string as its characters; None makes sorted() raise. */
  function SubmittedList(a: Submission): (r: Option<seq<string>>)
    ensures r.None? <==> a.NoAnswer?
    ensures a.Multiple? ==> r == Some(a.ids)
  {
    match a
    case NoAnswer => None
    case Single(id) => Some(Characters(id))
    case Multiple(ids) => Some(ids)
    case Text(t) => Some(Characters(t))
  }

  /** submitted_answer == correct_choice_id with Python's ==: a string equals a string with
      the same characters, None equals None, a list equals neither. */
  predicate EqualsExpectedId(a: Submission, expected: Option<string>)
  {
    match a
    case NoAnswer => expected.None?
    case Single(id) => expected == Some(id)
    case Multiple(_) => false
    case Text(t) => expected == Some(t)
  }

  function ScoreAnswer(q: Question, a: Submission): (r: Outcome)
    ensures r.TypeError? <==> q.kind.MultiSelect? && a.NoAnswer?
    ensures r.Scored? ==> r.score == (if r.correct then q.points else 0)
    ensures q.kind.OpenText? || q.kind.Unrecognised? ==> r == Scored(0, false)
  {
    match q.kind
    case SingleChoice =>
      if EqualsExpectedId(a, FirstCorrectId(q.choices)) then Scored(q.points, true) else Scored(0, false)
    case MultiSelect =>
      (match SubmittedList(a)
       case None => TypeError
       case Some(submitted) =>
         if StringOrder.Sort(CorrectIds(q.choices)) == StringOrder.Sort(submitted)
         then Scored(q.points, true) else Scored(0, false))
    case OpenText => Scored(0, false)
    case Unrecognised(_) => Scored(0, false)
  }

  /** Single choice: full points exactly when the submitted id is the id of the first choice
      marked correct; anything else scores (0, False). */
  lemma SingleChoiceScoring(q: Question, id: string)
    requires q.kind.SingleChoice?
    ensures ScoreAnswer(q, Single(id)) == Scored(q.points, true) || ScoreAnswer(q, Single(id)) == Scored(0, false)
    ensures ScoreAnswer(q, Single(id)).correct <==>
              exists i :: IsFirstCorrect(q.choices, i) && q.choices[i].id == id
  {
    var r := FirstCorrectId(q.choices);
    if exists i :: IsFirstCorrect(q.choices, i) && q.choices[i].id == id {
      var i :| IsFirstCorrect(q.choices, i) && q.choices[i].id == id;
      assert r.Some?;
      var j :| IsFirstCorrect(q.choices, j) && q.choices[j].id == r.value;
      FirstCorrectUnique(q.choices, i, j);
    }
  }

  /** A choice id that is not the first correct one (a later correct one included) scores
      nothing. */
  lemma SingleChoiceLaterCorrectChoiceFails(q: Question, i: nat, j: nat)
    requires q.kind.SingleChoice?
    requires IsFirstCorrect(q.choices, i) && i < j < |q.choices| && q.choices[j].isCorrect
    requires q.choices[j].id != q.choices[i].id
    ensures ScoreAnswer(q, Single(q.choices[j].id)) == Scored(0, false)
  {
    SingleChoiceScoring(q, q.choices[j].id);
    if ScoreAnswer(q, Single(q.choices[j].id)).correct {
      var k :| IsFirstCorrect(q.choices, k) && q.choices[k].id == q.choices[j].id;
      FirstCorrectUnique(q.choices, i, k);
    }
  }

  /** score_answer on its own treats None as matching a single-choice question that has no
      correct choice (None == None); submit_results never passes None to it. */
  lemma SingleChoiceNoneMatchesOnlyWithoutCorrectChoice(q: Question)
    requires q.kind.SingleChoice?
    ensures ScoreAnswer(q, NoAnswer).correct <==> forall i :: 0 <= i < |q.choices| ==> !q.choices[i].isCorrect
  {
  }

  /** Multi-select: full points exactly when the submitted ids are the correct ids, counted
      with multiplicity and in any order. */
  lemma MultiSelectScoring(q: Question, ids: seq<string>)
    requires q.kind.MultiSelect?
    ensures ScoreAnswer(q, Multiple(ids)).Scored?
    ensures ScoreAnswer(q, Multiple(ids)).correct <==> multiset(ids) == multiset(CorrectIds(q.choices))
  {
    StringOrder.SortEqualIffSameElements(CorrectIds(q.choices), ids);
  }

  /** The order of the submitted list never changes the result, for any question type. */
  lemma SubmissionOrderIrrelevant(q: Question, ids1: seq<string>, ids2: seq<string>)
    requires multiset(ids1) == multiset(ids2)
    ensures ScoreAnswer(q, Multiple(ids1)) == ScoreAnswer(q, Multiple(ids2))
  {
    if q.kind.MultiSelect? {
      MultiSelectScoring(q, ids1);
      MultiSelectScoring(q, ids2);
    }
  }

  /** One id too many, a repeated correct id included, turns a full-credit submission into
      (0, False): there is no partial credit. */
  lemma MultiSelectExtraIdFails(q: Question, ids: seq<string>, extra: string)
    requires q.kind.MultiSelect?
    requires multiset(ids) == multiset(CorrectIds(q.choices))
    ensures ScoreAnswer(q, Multiple(ids + [extra])) == Scored(0, false)
  {
    MultiSelectScoring(q, ids + [extra]);
    assert |multiset(ids + [extra])| == |ids| + 1;
    assert |multiset(CorrectIds(q.choices))| == |ids|;
  }

  /** Leaving out one of the correct ids also scores (0, False). */
  lemma MultiSelectMissingIdFails(q: Question, ids: seq<string>, missing: string)
    requires q.kind.MultiSelect?
    requires multiset(ids) + multiset{missing} == multiset(CorrectIds(q.choices))
    ensures ScoreAnswer(q, Multiple(ids)) == Scored(0, false)
  {
    MultiSelectScoring(q, ids);
    assert |multiset(ids) + multiset{missing}| == |ids| + 1;
  }
}

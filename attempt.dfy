/** The scoring half of submit_results: the recorded answers are matched against the quiz
    being taken through question_lookup, each matched answer becomes one answer row, and
    the row scores add up to total_score. */
module Attempt {
  import opened QuizModel
  import opened Scoring
  import Authoring

  // ---------------------------------------------------------------------------------------
  // question_lookup

  /** The questions of one module under their answer keys, filled in list order: a later
      question with the same key replaces an earlier one. */
  function ModuleLookup(subQuizId: string, qs: seq<Question>): map<string, Question>
    decreases |qs|
  {
    if qs == [] then map[]
    else ModuleLookup(subQuizId, qs[..|qs| - 1])[AnswerKey(subQuizId, qs[|qs| - 1].id) := qs[|qs| - 1]]
  }

  /** question_lookup as the two loops of submit_results fill it. */
  function QuestionLookup(sqs: seq<SubQuiz>): map<string, Question>
    decreases |sqs|
  {
    if sqs == [] then map[]
    else QuestionLookup(sqs[..|sqs| - 1]) + ModuleLookup(sqs[|sqs| - 1].id, sqs[|sqs| - 1].questions)
  }

  /** Position (i, j) is a question of the quiz and k is its answer key. */
  predicate KeyAt(sqs: seq<SubQuiz>, i: int, j: int, k: string)
  {
    0 <= i < |sqs| && 0 <= j < |sqs[i].questions| && k == AnswerKey(sqs[i].id, sqs[i].questions[j].id)
  }

  lemma {:induction false} ModuleLookupSpec(subQuizId: string, qs: seq<Question>)
    ensures forall j :: 0 <= j < |qs| ==> AnswerKey(subQuizId, qs[j].id) in ModuleLookup(subQuizId, qs)
    ensures forall k :: k in ModuleLookup(subQuizId, qs) ==>
              exists j :: 0 <= j < |qs| && k == AnswerKey(subQuizId, qs[j].id) && ModuleLookup(subQuizId, qs)[k] == qs[j]
    decreases |qs|
  {
    if qs != [] {
      var n := |qs|;
      var init := qs[..n - 1];
      ModuleLookupSpec(subQuizId, init);
      var m := ModuleLookup(subQuizId, qs);
      forall j | 0 <= j < n ensures AnswerKey(subQuizId, qs[j].id) in m {
        if j < n - 1 { assert qs[j] == init[j]; }
      }
      forall k | k in m ensures exists j :: 0 <= j < n && k == AnswerKey(subQuizId, qs[j].id) && m[k] == qs[j] {
        if k != AnswerKey(subQuizId, qs[n - 1].id) {
          var j :| 0 <= j < n - 1 && k == AnswerKey(subQuizId, init[j].id) && ModuleLookup(subQuizId, init)[k] == init[j];
          assert qs[j] == init[j];
        }
      }
    }
  }

  /** Every question of the quiz can be looked up by its key, and a key looks up one of the
      questions that have it. */
  lemma {:induction false} LookupSpec(sqs: seq<SubQuiz>)
    ensures forall i, j :: 0 <= i < |sqs| && 0 <= j < |sqs[i].questions| ==>
              AnswerKey(sqs[i].id, sqs[i].questions[j].id) in QuestionLookup(sqs)
    ensures forall k :: k in QuestionLookup(sqs) ==>
              exists i, j :: KeyAt(sqs, i, j, k) && QuestionLookup(sqs)[k] == sqs[i].questions[j]
    decreases |sqs|
  {
    if sqs != [] {
      var n := |sqs|;
      var init := sqs[..n - 1];
      LookupSpec(init);
      ModuleLookupSpec(sqs[n - 1].id, sqs[n - 1].questions);
      var l := QuestionLookup(sqs);
      forall i, j | 0 <= i < n && 0 <= j < |sqs[i].questions| ensures AnswerKey(sqs[i].id, sqs[i].questions[j].id) in l {
        if i < n - 1 { assert sqs[i] == init[i]; }
      }
      forall k | k in l ensures exists i, j :: KeyAt(sqs, i, j, k) && l[k] == sqs[i].questions[j] {
        var last := ModuleLookup(sqs[n - 1].id, sqs[n - 1].questions);
        if k in last {
          var j :| 0 <= j < |sqs[n - 1].questions| && k == AnswerKey(sqs[n - 1].id, sqs[n - 1].questions[j].id)
                   && last[k] == sqs[n - 1].questions[j];
          assert KeyAt(sqs, n - 1, j, k);
        } else {
          var i, j :| KeyAt(init, i, j, k) && QuestionLookup(init)[k] == init[i].questions[j];
          assert sqs[i] == init[i];
          assert KeyAt(sqs, i, j, k);
        }
      }
    }
  }

  /** No two questions of the quiz share an answer key. */
  predicate DistinctKeys(sqs: seq<SubQuiz>)
  {
    forall i1, j1, i2, j2 ::
      0 <= i1 < |sqs| && 0 <= j1 < |sqs[i1].questions| && 0 <= i2 < |sqs| && 0 <= j2 < |sqs[i2].questions| &&
      AnswerKey(sqs[i1].id, sqs[i1].questions[j1].id) == AnswerKey(sqs[i2].id, sqs[i2].questions[j2].id)
      ==> i1 == i2 && j1 == j2
  }

  /** When keys are distinct, each key looks up exactly its own question. */
  lemma LookupExact(sqs: seq<SubQuiz>, i: nat, j: nat)
    requires DistinctKeys(sqs)
    requires i < |sqs| && j < |sqs[i].questions|
    ensures AnswerKey(sqs[i].id, sqs[i].questions[j].id) in QuestionLookup(sqs)
    ensures QuestionLookup(sqs)[AnswerKey(sqs[i].id, sqs[i].questions[j].id)] == sqs[i].questions[j]
  {
    LookupSpec(sqs);
    var k := AnswerKey(sqs[i].id, sqs[i].questions[j].id);
    var i', j' :| KeyAt(sqs, i', j', k) && QuestionLookup(sqs)[k] == sqs[i'].questions[j'];
  }

  /** Digit-only module ids that differ and question ids that differ within a module (as
      a reloaded quiz has: str of distinct database ids) give distinct keys. */
  lemma DistinctIdsGiveDistinctKeys(sqs: seq<SubQuiz>)
    requires forall i :: 0 <= i < |sqs| ==> AllDigits(sqs[i].id)
    requires forall i1, i2 :: 0 <= i1 < i2 < |sqs| ==> sqs[i1].id != sqs[i2].id
    requires forall i, j1, j2 :: 0 <= i < |sqs| && 0 <= j1 < j2 < |sqs[i].questions| ==>
               sqs[i].questions[j1].id != sqs[i].questions[j2].id
    ensures DistinctKeys(sqs)
  {
    forall i1, j1, i2, j2 |
      0 <= i1 < |sqs| && 0 <= j1 < |sqs[i1].questions| && 0 <= i2 < |sqs| && 0 <= j2 < |sqs[i2].questions| &&
      AnswerKey(sqs[i1].id, sqs[i1].questions[j1].id) == AnswerKey(sqs[i2].id, sqs[i2].questions[j2].id)
      ensures i1 == i2 && j1 == j2
    {
      AnswerKeyInjective(sqs[i1].id, sqs[i1].questions[j1].id, sqs[i2].id, sqs[i2].questions[j2].id);
    }
  }

  /** The numbering every draft edit keeps ("1", "2", ... for modules and for the questions
      of each module) gives distinct keys, before the quiz is saved. */
  lemma DraftKeysDistinct(sqs: seq<SubQuiz>)
    requires Authoring.DraftInvariant(sqs)
    ensures DistinctKeys(sqs)
  {
    forall m: nat, n: nat | DecimalString(m) == DecimalString(n) ensures m == n {
      DecimalStringInjective(m, n);
    }
    DistinctIdsGiveDistinctKeys(sqs);
  }

  method BuildQuestionLookup(sqs: seq<SubQuiz>) returns (lookup: map<string, Question>)
    ensures lookup == QuestionLookup(sqs)
  {
    lookup := map[];
    var i := 0;
    while i < |sqs|
      invariant 0 <= i <= |sqs|
      invariant lookup == QuestionLookup(sqs[..i])
    {
      var sq := sqs[i];
      var before := lookup;
      var j := 0;
      while j < |sq.questions|
        invariant 0 <= j <= |sq.questions|
        invariant lookup == before + ModuleLookup(sq.id, sq.questions[..j])
      {
        var q := sq.questions[j];
        assert sq.questions[..j + 1][..j] == sq.questions[..j];
        lookup := lookup[AnswerKey(sq.id, q.id) := q];
        j := j + 1;
      }
      assert sq.questions[..j] == sq.questions;
      assert sqs[..i + 1][..i] == sqs[..i];
      i := i + 1;
    }
    assert sqs[..i] == sqs;
  }

  // ---------------------------------------------------------------------------------------
  // Answer rows

  /** What answers_to_insert holds for one answer; question_id is the question's id (the
      int() of a digit string is left as the string). */
  datatype AnswerRow = AnswerRow(questionId: string, submitted: string, isCorrect: nat, score: nat)

  /** `submitted is None or submitted == []` */
  predicate IsBlank(a: Submission)
  {
    a.NoAnswer? || a == Multiple([])
  }

  /** The items of a list of strings as str() prints them: 'a', 'b' */
  function QuotedItems(ids: seq<string>): string
    decreases |ids|
  {
    if ids == [] then ""
    else if |ids| == 1 then "'" + ids[0] + "'"
    else "'" + ids[0] + "', " + QuotedItems(ids[1..])
  }

  /** str(submitted) */
  function SubmittedText(a: Submission): string
  {
    match a
    case NoAnswer => "None"
    case Single(id) => id
    case Multiple(ids) => "[" + QuotedItems(ids) + "]"
    case Text(t) => t
  }

  /** One entry of answers_to_insert. A blank answer is recorded as "N/A" with no score; any
      other answer is scored by score_answer, which then never raises. */
  function AnswerRowFor(q: Question, a: Submission): (r: AnswerRow)
    ensures r.questionId == q.id
    ensures IsBlank(a) ==> r == AnswerRow(q.id, "N/A", 0, 0)
    ensures !IsBlank(a) ==> r.submitted == SubmittedText(a) && ScoreAnswer(q, a) == Scored(r.score, r.isCorrect == 1)
    ensures r.isCorrect <= 1 && (r.score == 0 || r.score == q.points) && (r.isCorrect == 1 ==> r.score == q.points)
  {
    if IsBlank(a) then AnswerRow(q.id, "N/A", 0, 0)
    else
      var outcome := ScoreAnswer(q, a);
      AnswerRow(q.id, SubmittedText(a), if outcome.correct then 1 else 0, outcome.score)
  }

  /** The answers dictionary iterates its keys in insertion order: `order` lists every key once. */
  predicate IsKeyOrder(answers: map<string, Submission>, order: seq<string>)
  {
    && (forall i, j :: 0 <= i < j < |order| ==> order[i] != order[j])
    && (forall k :: k in order ==> k in answers)
    && (forall k :: k in answers ==> k in order)
  }

  /** The rows the loop over answers.items() appends; keys without a question are skipped. */
  function AttemptRows(lookup: map<string, Question>, answers: map<string, Submission>, order: seq<string>): seq<AnswerRow>
    requires forall k :: k in order ==> k in answers
    decreases |order|
  {
    if order == [] then []
    else
      var key := order[|order| - 1];
      var rest := AttemptRows(lookup, answers, order[..|order| - 1]);
      if key in lookup then rest + [AnswerRowFor(lookup[key], answers[key])] else rest
  }

  /** The keys of `order` that the lookup knows, in the same order. */
  function MatchedKeys(lookup: map<string, Question>, order: seq<string>): (m: seq<string>)
    ensures forall k :: k in m <==> k in order && k in lookup
    decreases |order|
  {
    if order == [] then []
    else
      var key := order[|order| - 1];
      var rest := MatchedKeys(lookup, order[..|order| - 1]);
      assert forall k :: k in order <==> k in order[..|order| - 1] || k == key by {
        assert order == order[..|order| - 1] + [key];
      }
      if key in lookup then rest + [key] else rest
  }

  /** Matching keeps distinct keys distinct. */
  lemma {:induction false} MatchedKeysDistinct(lookup: map<string, Question>, order: seq<string>)
    requires forall i, j :: 0 <= i < j < |order| ==> order[i] != order[j]
    ensures var m := MatchedKeys(lookup, order); forall i, j :: 0 <= i < j < |m| ==> m[i] != m[j]
    decreases |order|
  {
    if order != [] {
      var init := order[..|order| - 1];
      MatchedKeysDistinct(lookup, init);
      var key := order[|order| - 1];
      assert key !in init;
      assert key !in MatchedKeys(lookup, init);
    }
  }

  /** Exactly one row per matched answer, in the order of the answers, each the row its
      question and answer give. */
  lemma {:induction false} AttemptRowsAreMatched(lookup: map<string, Question>, answers: map<string, Submission>, order: seq<string>)
    requires forall k :: k in order ==> k in answers
    ensures var rows := AttemptRows(lookup, answers, order);
            var m := MatchedKeys(lookup, order);
            && |rows| == |m|
            && forall i :: 0 <= i < |m| ==> m[i] in lookup && m[i] in answers && rows[i] == AnswerRowFor(lookup[m[i]], answers[m[i]])
    decreases |order|
  {
    if order != [] {
      AttemptRowsAreMatched(lookup, answers, order[..|order| - 1]);
    }
  }

  function SumScores(rows: seq<AnswerRow>): nat
    decreases |rows|
  {
    if rows == [] then 0 else SumScores(rows[..|rows| - 1]) + rows[|rows| - 1].score
  }

  /** The scoring loop of submit_results: the rows to insert and total_score. */
  method ScoreAttempt(sqs: seq<SubQuiz>, answers: map<string, Submission>, order: seq<string>)
    returns (rows: seq<AnswerRow>, total: nat)
    requires IsKeyOrder(answers, order)
    ensures rows == AttemptRows(QuestionLookup(sqs), answers, order)
    ensures total == SumScores(rows)
  {
    var lookup := BuildQuestionLookup(sqs);
    rows, total := [], 0;
    var n := 0;
    while n < |order|
      invariant 0 <= n <= |order|
      invariant rows == AttemptRows(lookup, answers, order[..n])
      invariant total == SumScores(rows)
    {
      var key := order[n];
      assert order[..n + 1][..n] == order[..n];
      if key in lookup {
        var row := AnswerRowFor(lookup[key], answers[key]);
        assert (rows + [row])[..|rows|] == rows;
        total := total + row.score;
        rows := rows + [row];
      }
      n := n + 1;
    }
    assert order[..n] == order;
  }

  // ---------------------------------------------------------------------------------------
  // total_score does not depend on the order of the answers

  function KeyScore(lookup: map<string, Question>, answers: map<string, Submission>, key: string): nat
  {
    if key in lookup && key in answers then AnswerRowFor(lookup[key], answers[key]).score else 0
  }

  /** The score each key contributes to total_score (0 for a key no question has). */
  function KeyScores(lookup: map<string, Question>, answers: map<string, Submission>): string -> nat
  {
    k => KeyScore(lookup, answers, k)
  }

  function SumBy(keys: seq<string>, f: string -> nat): nat
    decreases |keys|
  {
    if keys == [] then 0 else SumBy(keys[..|keys| - 1], f) + f(keys[|keys| - 1])
  }

  lemma {:induction false} SumScoresIsSumBy(lookup: map<string, Question>, answers: map<string, Submission>, keys: seq<string>)
    requires forall k :: k in keys ==> k in answers
    ensures SumScores(AttemptRows(lookup, answers, keys)) == SumBy(keys, KeyScores(lookup, answers))
    decreases |keys|
  {
    if keys != [] {
      var init := keys[..|keys| - 1];
      SumScoresIsSumBy(lookup, answers, init);
      var rest := AttemptRows(lookup, answers, init);
      var key := keys[|keys| - 1];
      if key in lookup {
        var row := AnswerRowFor(lookup[key], answers[key]);
        assert (rest + [row])[..|rest|] == rest;
      }
    }
  }

  lemma {:induction false} SumByAppend(a: seq<string>, b: seq<string>, f: string -> nat)
    ensures SumBy(a + b, f) == SumBy(a, f) + SumBy(b, f)
    decreases |b|
  {
    if b == [] {
      assert a + b == a;
    } else {
      var init := b[..|b| - 1];
      assert (a + b)[..|a + b| - 1] == a + init;
      SumByAppend(a, init, f);
    }
  }

  lemma SumBySnoc(x: seq<string>, c: string, f: string -> nat)
    ensures SumBy(x + [c], f) == SumBy(x, f) + f(c)
  {
    var xc := x + [c];
    assert xc[..|xc| - 1] == x;
  }

  /** Taking one key out of the sum. */
  lemma SumBySplit(front: seq<string>, c: string, back: seq<string>, f: string -> nat)
    ensures SumBy(front + [c] + back, f) == SumBy(front + back, f) + f(c)
  {
    SumByAppend(front + [c], back, f);
    SumBySnoc(front, c, f);
    SumByAppend(front, back, f);
  }

  /** A sum over keys does not depend on their order. */
  lemma {:induction false} SumByPermutation(a: seq<string>, b: seq<string>, f: string -> nat)
    requires multiset(a) == multiset(b)
    ensures SumBy(a, f) == SumBy(b, f)
    decreases |a|
  {
    if a == [] {
      assert |b| == |multiset(b)| == 0;
    } else {
      var n := |a|;
      var last := a[n - 1];
      assert last in multiset(b);
      var p :| 0 <= p < |b| && b[p] == last;
      PermutationRemove(a, b, n - 1, p);
      assert a[..n - 1] + a[n..] == a[..n - 1];
      SumByPermutation(a[..n - 1], b[..p] + b[p + 1..], f);
      SumByStep(a, b, p, f);
    }
  }

  /** The induction step of SumByPermutation: the last key of a matched with b[p]. */
  lemma SumByStep(a: seq<string>, b: seq<string>, p: nat, f: string -> nat)
    requires a != [] && p < |b| && b[p] == a[|a| - 1]
    requires SumBy(a[..|a| - 1], f) == SumBy(b[..p] + b[p + 1..], f)
    ensures SumBy(a, f) == SumBy(b, f)
  {
    var front, back := b[..p], b[p + 1..];
    assert b == front + [b[p]] + back;
    SumBySplit(front, b[p], back, f);
  }

  lemma {:induction false} DistinctMultiset(s: seq<string>)
    requires forall i, j :: 0 <= i < j < |s| ==> s[i] != s[j]
    ensures forall x :: multiset(s)[x] == if x in s then 1 else 0
    decreases |s|
  {
    if s != [] {
      DistinctMultiset(s[1..]);
      assert s == [s[0]] + s[1..];
      assert s[0] !in s[1..];
    }
  }

  /** Two iteration orders of the same answers give the same total_score. */
  lemma TotalIndependentOfOrder(sqs: seq<SubQuiz>, answers: map<string, Submission>, order1: seq<string>, order2: seq<string>)
    requires IsKeyOrder(answers, order1) && IsKeyOrder(answers, order2)
    ensures SumScores(AttemptRows(QuestionLookup(sqs), answers, order1))
         == SumScores(AttemptRows(QuestionLookup(sqs), answers, order2))
  {
    var lookup := QuestionLookup(sqs);
    DistinctMultiset(order1);
    DistinctMultiset(order2);
    assert multiset(order1) == multiset(order2);
    SumScoresIsSumBy(lookup, answers, order1);
    SumScoresIsSumBy(lookup, answers, order2);
    SumByPermutation(order1, order2, KeyScores(lookup, answers));
  }

  /** total_score is at most the points of the matched questions: the answered keys the
      lookup knows. */
  lemma TotalAtMostPoints(sqs: seq<SubQuiz>, answers: map<string, Submission>, order: seq<string>)
    requires IsKeyOrder(answers, order)
    ensures SumScores(AttemptRows(QuestionLookup(sqs), answers, order)) <= PointsOver(QuestionLookup(sqs), order)
  {
    var lookup := QuestionLookup(sqs);
    SumScoresIsSumBy(lookup, answers, order);
    KeyScoresAtMostPoints(lookup, answers, order);
  }

  /** A score never exceeds the points of the question it scores. */
  lemma {:induction false} KeyScoresAtMostPoints(lookup: map<string, Question>, answers: map<string, Submission>, keys: seq<string>)
    ensures SumBy(keys, KeyScores(lookup, answers)) <= PointsOver(lookup, keys)
    decreases |keys|
  {
    if keys != [] {
      KeyScoresAtMostPoints(lookup, answers, keys[..|keys| - 1]);
    }
  }

  function PointsOver(lookup: map<string, Question>, keys: seq<string>): nat
    decreases |keys|
  {
    if keys == [] then 0
    else PointsOver(lookup, keys[..|keys| - 1]) + (if keys[|keys| - 1] in lookup then lookup[keys[|keys| - 1]].points else 0)
  }

  /** The lookup over the first two default modules. */
  lemma DefaultQuizLookup()
    ensures var q := Authoring.GenerateQuestion(1);
            QuestionLookup([Authoring.GenerateSubQuiz(1), Authoring.GenerateSubQuiz(2)]) == map["1_1" := q, "2_1" := q]
  {
    var q := Authoring.GenerateQuestion(1);
    var sq1, sq2 := Authoring.GenerateSubQuiz(1), Authoring.GenerateSubQuiz(2);
    assert DecimalString(1) == "1" && DecimalString(2) == "2";
    assert q.id == "1" && sq1.id == "1" && sq2.id == "2";
    assert AnswerKey("1", "1") == "1_1" && AnswerKey("2", "1") == "2_1";
    var sqs := [sq1, sq2];
    assert sqs[..1] == [sq1] && [sq1][..0] == [] && sq1.questions[..0] == [] && sq2.questions[..0] == [];
    assert ModuleLookup(sq1.id, sq1.questions) == map["1_1" := q];
    assert ModuleLookup(sq2.id, sq2.questions) == map["2_1" := q];
    assert QuestionLookup(sqs[..1]) == map["1_1" := q] by {
      assert QuestionLookup([sq1][..0]) == map[];
      assert map[] + map["1_1" := q] == map["1_1" := q];
    }
    assert QuestionLookup(sqs) == map["1_1" := q] + map["2_1" := q];
  }

  /** The rows for the right answer to "1_1", a wrong one to "2_1" and a key no question has. */
  lemma DefaultQuizRows(l: map<string, Question>)
    requires l == map["1_1" := Authoring.GenerateQuestion(1), "2_1" := Authoring.GenerateQuestion(1)]
    ensures var answers := map["1_1" := Single("a"), "2_1" := Single("b"), "3_1" := Single("a")];
            AttemptRows(l, answers, ["1_1", "2_1", "3_1"]) == [AnswerRow("1", "a", 1, 1), AnswerRow("1", "b", 0, 0)]
  {
    var q := Authoring.GenerateQuestion(1);
    assert DecimalString(1) == "1";
    Authoring.DefaultQuestionScoring(1, Single("a"));
    Authoring.DefaultQuestionScoring(1, Single("b"));
    var answers := map["1_1" := Single("a"), "2_1" := Single("b"), "3_1" := Single("a")];
    var order := ["1_1", "2_1", "3_1"];
    assert order[..2] == ["1_1", "2_1"] && order[..2][..1] == ["1_1"] && order[..2][..1][..0] == [];
    assert AttemptRows(l, answers, ["1_1"]) == [AnswerRow("1", "a", 1, 1)];
  }

  /** Two default modules: the right answer in the first, a wrong one in the second and an
      answer under a key no question has. */
  lemma DefaultQuizAttempt()
    ensures var sqs := [Authoring.GenerateSubQuiz(1), Authoring.GenerateSubQuiz(2)];
            var answers := map["1_1" := Single("a"), "2_1" := Single("b"), "3_1" := Single("a")];
            var rows := AttemptRows(QuestionLookup(sqs), answers, ["1_1", "2_1", "3_1"]);
            rows == [AnswerRow("1", "a", 1, 1), AnswerRow("1", "b", 0, 0)] && SumScores(rows) == 1
  {
    DefaultQuizLookup();
    DefaultQuizRows(QuestionLookup([Authoring.GenerateSubQuiz(1), Authoring.GenerateSubQuiz(2)]));
    var rows := [AnswerRow("1", "a", 1, 1), AnswerRow("1", "b", 0, 0)];
    assert rows[..1] == [rows[0]] && [rows[0]][..0] == [];
  }
}

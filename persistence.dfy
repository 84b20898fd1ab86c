/** The relational side of a quiz: save_quiz flattens the authored tree into rows of four
    tables, get_quiz_by_code selects them back and regroups them into a tree. */
module Persistence {
  import opened QuizModel
  import AccessCode

  /** user_id, the creator every quiz is saved under. */
  const SessionCreatorId: string := "streamlite_creator_session"

  datatype QuizRow = QuizRow(id: nat, creatorId: string, title: string, accessCode: string)
  datatype SubQuizRow = SubQuizRow(id: nat, quizId: nat, title: string, orderIndex: nat)
  datatype QuestionRow = QuestionRow(id: nat, subQuizId: nat, text: string, kind: Kind, points: nat, orderIndex: nat)
  /** Is_Correct is stored as 1 or 0. */
  datatype ChoiceRow = ChoiceRow(id: nat, questionId: nat, text: string, isCorrect: nat)

  datatype Tables = Tables(quizzes: seq<QuizRow>, subQuizzes: seq<SubQuizRow>,
                           questions: seq<QuestionRow>, choices: seq<ChoiceRow>)

  /** 1 if choice['is_correct'] else 0 */
  function Bit(b: bool): (n: nat)
    ensures (n != 0) == b
  {
    if b then 1 else 0
  }

  /** Tables as AUTO_INCREMENT leaves them when no row is deleted and no insert is rolled
      back: row k has id k + 1, and every reference names an existing row. */
  predicate WellFormed(t: Tables)
  {
    && (forall k :: 0 <= k < |t.quizzes| ==> t.quizzes[k].id == k + 1)
    && (forall k :: 0 <= k < |t.subQuizzes| ==>
          t.subQuizzes[k].id == k + 1 && 1 <= t.subQuizzes[k].quizId <= |t.quizzes|)
    && (forall k :: 0 <= k < |t.questions| ==>
          t.questions[k].id == k + 1 && 1 <= t.questions[k].subQuizId <= |t.subQuizzes|)
    && (forall k :: 0 <= k < |t.choices| ==>
          t.choices[k].id == k + 1 && 1 <= t.choices[k].questionId <= |t.questions|)
  }

  // ---------------------------------------------------------------------------------------
  // Queries

  /** The columns the WHERE and ORDER BY clauses name. */
  function SubQuizQuizId(r: SubQuizRow): nat { r.quizId }
  function QuestionSubQuizId(r: QuestionRow): nat { r.subQuizId }
  function ChoiceQuestionId(r: ChoiceRow): nat { r.questionId }
  function SubQuizOrder(r: SubQuizRow): nat { r.orderIndex }
  function QuestionOrder(r: QuestionRow): nat { r.orderIndex }

  /** The rows `WHERE column = id` selects, in table order. */
  function Where<T>(rows: seq<T>, column: T -> nat, id: nat): (r: seq<T>)
    ensures forall k :: 0 <= k < |r| ==> r[k] in rows && column(r[k]) == id
    ensures forall x :: x in rows && column(x) == id ==> x in r
    decreases |rows|
  {
    if rows == [] then []
    else
      var init, last := rows[..|rows| - 1], rows[|rows| - 1];
      assert rows == init + [last];
      assert forall x :: x in init ==> x in rows;
      Where(init, column, id) + (if column(last) == id then [last] else [])
  }

  /** Every matching row is selected as often as it occurs, and no other row is. */
  lemma {:induction false} WhereCounts<T>(rows: seq<T>, column: T -> nat, id: nat, x: T)
    ensures multiset(Where(rows, column, id))[x] == if column(x) == id then multiset(rows)[x] else 0
    decreases |rows|
  {
    if rows != [] {
      var init, last := rows[..|rows| - 1], rows[|rows| - 1];
      assert rows == init + [last];
      WhereCounts(init, column, id, x);
    }
  }

  lemma {:induction false} WhereAppend<T>(a: seq<T>, b: seq<T>, column: T -> nat, id: nat)
    ensures Where(a + b, column, id) == Where(a, column, id) + Where(b, column, id)
    decreases |b|
  {
    if b == [] {
      assert a + b == a;
    } else {
      var init := b[..|b| - 1];
      assert (a + b)[..|a + b| - 1] == a + init;
      assert (a + b)[|a + b| - 1] == b[|b| - 1];
      WhereAppend(a, init, column, id);
    }
  }

  lemma {:induction false} WhereNone<T>(rows: seq<T>, column: T -> nat, id: nat)
    requires forall k :: 0 <= k < |rows| ==> column(rows[k]) != id
    ensures Where(rows, column, id) == []
    decreases |rows|
  {
    if rows != [] {
      WhereNone(rows[..|rows| - 1], column, id);
    }
  }

  lemma {:induction false} WhereAll<T>(rows: seq<T>, column: T -> nat, id: nat)
    requires forall k :: 0 <= k < |rows| ==> column(rows[k]) == id
    ensures Where(rows, column, id) == rows
    decreases |rows|
  {
    if rows != [] {
      var init, last := rows[..|rows| - 1], rows[|rows| - 1];
      WhereAll(init, column, id);
      assert Where(rows, column, id) == Where(init, column, id) + [last];
      assert rows == init + [last];
    }
  }

  /** A row of a well-formed table has an id no larger than the table. */
  lemma QuestionIdBound(t: Tables, row: QuestionRow)
    requires WellFormed(t) && row in t.questions
    ensures 1 <= row.id <= |t.questions|
  {
    var k :| 0 <= k < |t.questions| && t.questions[k] == row;
  }

  lemma SubQuizIdBound(t: Tables, row: SubQuizRow)
    requires WellFormed(t) && row in t.subQuizzes
    ensures 1 <= row.id <= |t.subQuizzes|
  {
    var k :| 0 <= k < |t.subQuizzes| && t.subQuizzes[k] == row;
  }

  // ---------------------------------------------------------------------------------------
  // save_quiz: the rows each INSERT adds; an id is the one AUTO_INCREMENT hands out
  // (cursor.lastrowid), one more than the rows already in the table.

  /** The Choices rows for cs, inserted one after the other below question questionId. */
  function ChoiceRowsFor(base: nat, questionId: nat, cs: seq<Choice>): (r: seq<ChoiceRow>)
    ensures |r| == |cs|
  {
    seq(|cs|, k requires 0 <= k < |cs| => ChoiceRow(base + k + 1, questionId, cs[k].text, Bit(cs[k].isCorrect)))
  }

  function InsertChoices(t: Tables, questionId: nat, cs: seq<Choice>): Tables
  {
    t.(choices := t.choices + ChoiceRowsFor(|t.choices|, questionId, cs))
  }

  /** One question row (Order_Index = its position), then its choices unless it is open text. */
  function InsertQuestion(t: Tables, subQuizId: nat, q: Question, orderIndex: nat): Tables
  {
    var questionId := |t.questions| + 1;
    var t1 := t.(questions := t.questions + [QuestionRow(questionId, subQuizId, q.text, q.kind, q.points, orderIndex)]);
    if q.kind.OpenText? then t1 else InsertChoices(t1, questionId, q.choices)
  }

  function InsertQuestions(t: Tables, subQuizId: nat, qs: seq<Question>): Tables
    decreases |qs|
  {
    if qs == [] then t
    else InsertQuestion(InsertQuestions(t, subQuizId, qs[..|qs| - 1]), subQuizId, qs[|qs| - 1], |qs| - 1)
  }

  function InsertSubQuiz(t: Tables, quizId: nat, sq: SubQuiz, orderIndex: nat): Tables
  {
    var subQuizId := |t.subQuizzes| + 1;
    InsertQuestions(t.(subQuizzes := t.subQuizzes + [SubQuizRow(subQuizId, quizId, sq.title, orderIndex)]),
                    subQuizId, sq.questions)
  }

  function InsertSubQuizzes(t: Tables, quizId: nat, sqs: seq<SubQuiz>): Tables
    decreases |sqs|
  {
    if sqs == [] then t
    else InsertSubQuiz(InsertSubQuizzes(t, quizId, sqs[..|sqs| - 1]), quizId, sqs[|sqs| - 1], |sqs| - 1)
  }

  /** Everything save_quiz inserts inside its transaction: the quiz row, then the tree. */
  function SaveQuizTables(t: Tables, creatorId: string, title: string, code: string, sqs: seq<SubQuiz>): Tables
  {
    var quizId := |t.quizzes| + 1;
    InsertSubQuizzes(t.(quizzes := t.quizzes + [QuizRow(quizId, creatorId, title, code)]), quizId, sqs)
  }

  // ---------------------------------------------------------------------------------------
  // What the tables hold for one quiz

  /** The choice rows of question row questionId hold q's choices, in order; an open-text
      question has none. */
  predicate StoresChoices(t: Tables, questionId: nat, q: Question)
  {
    var rows := Where(t.choices, ChoiceQuestionId, questionId);
    var expected := if q.kind.OpenText? then [] else q.choices;
    |rows| == |expected| &&
    forall k :: 0 <= k < |rows| ==> rows[k].text == expected[k].text && rows[k].isCorrect == Bit(expected[k].isCorrect)
  }

  predicate StoresQuestion(t: Tables, row: QuestionRow, q: Question, position: nat)
  {
    && row.text == q.text && row.kind == q.kind && row.points == q.points
    && row.orderIndex == position
    && StoresChoices(t, row.id, q)
  }

  /** The question rows of sub-quiz row subQuizId hold qs, Order_Index = position. */
  predicate StoresQuestions(t: Tables, subQuizId: nat, qs: seq<Question>)
  {
    var rows := Where(t.questions, QuestionSubQuizId, subQuizId);
    |rows| == |qs| && forall j :: 0 <= j < |rows| ==> StoresQuestion(t, rows[j], qs[j], j)
  }

  predicate StoresSubQuiz(t: Tables, row: SubQuizRow, sq: SubQuiz, position: nat)
  {
    row.title == sq.title && row.orderIndex == position && StoresQuestions(t, row.id, sq.questions)
  }

  /** The sub-quiz rows of quiz quizId hold sqs, Order_Index = position. */
  predicate StoresSubQuizzes(t: Tables, quizId: nat, sqs: seq<SubQuiz>)
  {
    var rows := Where(t.subQuizzes, SubQuizQuizId, quizId);
    |rows| == |sqs| && forall i :: 0 <= i < |rows| ==> StoresSubQuiz(t, rows[i], sqs[i], i)
  }

  lemma StoresChoicesFrame(t1: Tables, t2: Tables, questionId: nat, q: Question)
    requires t1.choices <= t2.choices
    requires forall k :: |t1.choices| <= k < |t2.choices| ==> t2.choices[k].questionId != questionId
    requires StoresChoices(t1, questionId, q)
    ensures StoresChoices(t2, questionId, q)
  {
    var added := t2.choices[|t1.choices|..];
    assert t2.choices == t1.choices + added;
    WhereAppend(t1.choices, added, ChoiceQuestionId, questionId);
    WhereNone(added, ChoiceQuestionId, questionId);
  }

  /** The question rows stored for a sub-quiz stay as they are while rows that hang below a
      different sub-quiz, or below newer questions, are appended. */
  lemma StoresQuestionsFrame(t1: Tables, t2: Tables, subQuizId: nat, qs: seq<Question>)
    requires WellFormed(t1)
    requires t1.questions <= t2.questions && t1.choices <= t2.choices
    requires forall k :: |t1.questions| <= k < |t2.questions| ==> t2.questions[k].subQuizId != subQuizId
    requires forall k :: |t1.choices| <= k < |t2.choices| ==> t2.choices[k].questionId > |t1.questions|
    requires StoresQuestions(t1, subQuizId, qs)
    ensures StoresQuestions(t2, subQuizId, qs)
  {
    var added := t2.questions[|t1.questions|..];
    assert t2.questions == t1.questions + added;
    WhereAppend(t1.questions, added, QuestionSubQuizId, subQuizId);
    WhereNone(added, QuestionSubQuizId, subQuizId);
    var rows := Where(t1.questions, QuestionSubQuizId, subQuizId);
    forall j | 0 <= j < |rows| ensures StoresQuestion(t2, rows[j], qs[j], j) {
      QuestionIdBound(t1, rows[j]);
      StoresChoicesFrame(t1, t2, rows[j].id, qs[j]);
    }
  }

  lemma AppendChoiceRowsWellFormed(p: Tables, rows: seq<ChoiceRow>)
    requires WellFormed(p)
    requires forall k :: 0 <= k < |rows| ==> rows[k].id == |p.choices| + k + 1 && 1 <= rows[k].questionId <= |p.questions|
    ensures WellFormed(p.(choices := p.choices + rows))
  {
    var r := p.(choices := p.choices + rows);
    forall k | 0 <= k < |r.choices| ensures r.choices[k].id == k + 1 && 1 <= r.choices[k].questionId <= |r.questions| {
      if k >= |p.choices| {
        assert r.choices[k] == rows[k - |p.choices|];
      }
    }
  }

  /** The choice rows of a new question: appended after the others, all below it. */
  lemma InsertChoicesShape(p: Tables, qid: nat, cs: seq<Choice>)
    requires WellFormed(p) && qid == |p.questions| && qid >= 1
    ensures var r := InsertChoices(p, qid, cs);
      && WellFormed(r)
      && r.quizzes == p.quizzes && r.subQuizzes == p.subQuizzes && r.questions == p.questions
      && p.choices <= r.choices
      && (forall k :: |p.choices| <= k < |r.choices| ==> r.choices[k].questionId == qid)
      && Where(r.choices, ChoiceQuestionId, qid) == Where(p.choices, ChoiceQuestionId, qid) + ChoiceRowsFor(|p.choices|, qid, cs)
  {
    var added := ChoiceRowsFor(|p.choices|, qid, cs);
    var r := InsertChoices(p, qid, cs);
    assert forall k :: 0 <= k < |added| ==> added[k].questionId == qid && added[k].id == |p.choices| + k + 1;
    AppendChoiceRowsWellFormed(p, added);
    forall k | |p.choices| <= k < |r.choices| ensures r.choices[k].questionId == qid {
      assert r.choices[k] == added[k - |p.choices|];
    }
    WhereAppend(p.choices, added, ChoiceQuestionId, qid);
    WhereAll(added, ChoiceQuestionId, qid);
  }

  /** A new question has no choice rows yet. */
  lemma NoChoicesForNewQuestion(p: Tables)
    requires WellFormed(p)
    ensures Where(p.choices, ChoiceQuestionId, |p.questions| + 1) == []
  {
    WhereNone(p.choices, ChoiceQuestionId, |p.questions| + 1);
  }

  /** The choices of a new multiple- or single-choice question are what its rows hold. */
  lemma InsertChoicesStores(p: Tables, qid: nat, q: Question)
    requires qid >= 1 && !q.kind.OpenText?
    requires Where(p.choices, ChoiceQuestionId, qid) == []
    ensures StoresChoices(InsertChoices(p, qid, q.choices), qid, q)
  {
    var added := ChoiceRowsFor(|p.choices|, qid, q.choices);
    assert forall k :: 0 <= k < |added| ==> ChoiceQuestionId(added[k]) == qid;
    WhereAppend(p.choices, added, ChoiceQuestionId, qid);
    WhereAll(added, ChoiceQuestionId, qid);
    var rows := Where(p.choices + added, ChoiceQuestionId, qid);
    assert rows == added by {
      assert rows == [] + added;
    }
    forall k | 0 <= k < |rows| ensures rows[k].text == q.choices[k].text && rows[k].isCorrect == Bit(q.choices[k].isCorrect) {
      assert rows[k] == added[k];
    }
  }

  lemma InsertQuestionKeepsShape(p: Tables, subQuizId: nat, q: Question, position: nat)
    requires WellFormed(p) && 1 <= subQuizId <= |p.subQuizzes|
    ensures var r := InsertQuestion(p, subQuizId, q, position);
      && WellFormed(r)
      && r.quizzes == p.quizzes && r.subQuizzes == p.subQuizzes
      && r.questions == p.questions + [QuestionRow(|p.questions| + 1, subQuizId, q.text, q.kind, q.points, position)]
      && p.choices <= r.choices
      && (forall k :: |p.choices| <= k < |r.choices| ==> r.choices[k].questionId == |p.questions| + 1)
      && StoresChoices(r, |p.questions| + 1, q)
  {
    var qid := |p.questions| + 1;
    var row := QuestionRow(qid, subQuizId, q.text, q.kind, q.points, position);
    var p1 := p.(questions := p.questions + [row]);
    AppendQuestionRowWellFormed(p, row);
    NoChoicesForNewQuestion(p);
    assert Where(p1.choices, ChoiceQuestionId, qid) == [];
    if !q.kind.OpenText? {
      InsertChoicesShape(p1, qid, q.choices);
      InsertChoicesStores(p1, qid, q);
    }
  }

  lemma AppendQuestionRowWellFormed(p: Tables, row: QuestionRow)
    requires WellFormed(p)
    requires row.id == |p.questions| + 1 && 1 <= row.subQuizId <= |p.subQuizzes|
    ensures WellFormed(p.(questions := p.questions + [row]))
  {
    var r := p.(questions := p.questions + [row]);
    forall k | 0 <= k < |r.questions| ensures r.questions[k].id == k + 1 && 1 <= r.questions[k].subQuizId <= |r.subQuizzes| {
      if k < |p.questions| {
        assert r.questions[k] == p.questions[k];
      }
    }
    forall k | 0 <= k < |r.choices| ensures 1 <= r.choices[k].questionId <= |r.questions| {
      assert r.choices[k] == p.choices[k];
    }
  }

  /** r is t with the rows for qs inserted below sub-quiz row subQuizId: still well formed,
      earlier rows in place, every new row below the sub-quiz or one of its new questions,
      and qs stored. */
  predicate QuestionsInserted(t: Tables, r: Tables, subQuizId: nat, qs: seq<Question>)
  {
      && WellFormed(r)
      && r.quizzes == t.quizzes && r.subQuizzes == t.subQuizzes
      && t.questions <= r.questions && t.choices <= r.choices
      && (forall k :: |t.questions| <= k < |r.questions| ==> r.questions[k].subQuizId == subQuizId)
      && (forall k :: |t.choices| <= k < |r.choices| ==> r.choices[k].questionId > |t.questions|)
      && StoresQuestions(r, subQuizId, qs)
  }

  /** Inserting a sub-quiz's questions stores them below it, Order_Index = position, each
      with its choices, and leaves every earlier row in place. */
  lemma {:induction false} InsertQuestionsStores(t: Tables, subQuizId: nat, qs: seq<Question>)
    requires WellFormed(t) && 1 <= subQuizId <= |t.subQuizzes|
    requires Where(t.questions, QuestionSubQuizId, subQuizId) == []
    ensures QuestionsInserted(t, InsertQuestions(t, subQuizId, qs), subQuizId, qs)
    decreases |qs|
  {
    if qs != [] {
      var n := |qs|;
      InsertQuestionsStores(t, subQuizId, qs[..n - 1]);
      var p := InsertQuestions(t, subQuizId, qs[..n - 1]);
      var r := InsertQuestions(t, subQuizId, qs);
      assert r == InsertQuestion(p, subQuizId, qs[n - 1], n - 1);
      InsertQuestionsStep(t, p, r, subQuizId, qs);
    }
  }

  /** The induction step of InsertQuestionsStores: what holds after the first n - 1 questions
      holds after one more. */
  lemma InsertQuestionsStep(t: Tables, p: Tables, r: Tables, subQuizId: nat, qs: seq<Question>)
    requires qs != [] && 1 <= subQuizId <= |t.subQuizzes|
    requires QuestionsInserted(t, p, subQuizId, qs[..|qs| - 1])
    requires r == InsertQuestion(p, subQuizId, qs[|qs| - 1], |qs| - 1)
    ensures QuestionsInserted(t, r, subQuizId, qs)
  {
    var n := |qs|;
    InsertQuestionKeepsShape(p, subQuizId, qs[n - 1], n - 1);
    NewRowsStayBelow(t, p, r, subQuizId);
    QuestionsStoredAfterAppend(p, r, subQuizId, qs);
  }

  /** The facts about new rows carry over one more question. */
  lemma NewRowsStayBelow(t: Tables, p: Tables, r: Tables, subQuizId: nat)
    requires t.questions <= p.questions <= r.questions && t.choices <= p.choices <= r.choices
    requires forall k :: |t.questions| <= k < |p.questions| ==> p.questions[k].subQuizId == subQuizId
    requires forall k :: |t.choices| <= k < |p.choices| ==> p.choices[k].questionId > |t.questions|
    requires forall k :: |p.questions| <= k < |r.questions| ==> r.questions[k].subQuizId == subQuizId
    requires forall k :: |p.choices| <= k < |r.choices| ==> r.choices[k].questionId > |p.questions|
    ensures forall k :: |t.questions| <= k < |r.questions| ==> r.questions[k].subQuizId == subQuizId
    ensures forall k :: |t.choices| <= k < |r.choices| ==> r.choices[k].questionId > |t.questions|
  {
    forall k | |t.questions| <= k < |p.questions| ensures r.questions[k].subQuizId == subQuizId {
      assert r.questions[k] == p.questions[k];
    }
    forall k | |t.choices| <= k < |p.choices| ensures r.choices[k].questionId > |t.questions| {
      assert r.choices[k] == p.choices[k];
    }
  }

  /** One more question inserted after the first n - 1: the earlier ones stay stored and the
      new one is stored at position n - 1. */
  lemma QuestionsStoredAfterAppend(p: Tables, r: Tables, subQuizId: nat, qs: seq<Question>)
    requires qs != [] && WellFormed(p) && 1 <= subQuizId <= |p.subQuizzes|
    requires StoresQuestions(p, subQuizId, qs[..|qs| - 1])
    requires r == InsertQuestion(p, subQuizId, qs[|qs| - 1], |qs| - 1)
    ensures StoresQuestions(r, subQuizId, qs)
  {
    var n := |qs|;
    InsertQuestionKeepsShape(p, subQuizId, qs[n - 1], n - 1);
    var row := QuestionRow(|p.questions| + 1, subQuizId, qs[n - 1].text, qs[n - 1].kind, qs[n - 1].points, n - 1);
    WhereAppend(p.questions, [row], QuestionSubQuizId, subQuizId);
    var before := Where(p.questions, QuestionSubQuizId, subQuizId);
    var rows := Where(r.questions, QuestionSubQuizId, subQuizId);
    assert rows == before + [row];
    forall j | 0 <= j < n ensures StoresQuestion(r, rows[j], qs[j], j) {
      if j < n - 1 {
        assert rows[j] == before[j] && qs[j] == qs[..n - 1][j];
        assert StoresQuestion(p, before[j], qs[..n - 1][j], j);
        QuestionIdBound(p, before[j]);
        StoresChoicesFrame(p, r, before[j].id, qs[j]);
      }
    }
  }

  lemma InsertSubQuizKeepsShape(p: Tables, quizId: nat, sq: SubQuiz, position: nat)
    requires WellFormed(p) && 1 <= quizId <= |p.quizzes|
    ensures var r := InsertSubQuiz(p, quizId, sq, position);
      && WellFormed(r)
      && r.quizzes == p.quizzes
      && r.subQuizzes == p.subQuizzes + [SubQuizRow(|p.subQuizzes| + 1, quizId, sq.title, position)]
      && p.questions <= r.questions && p.choices <= r.choices
      && (forall k :: |p.questions| <= k < |r.questions| ==> r.questions[k].subQuizId == |p.subQuizzes| + 1)
      && (forall k :: |p.choices| <= k < |r.choices| ==> r.choices[k].questionId > |p.questions|)
      && StoresQuestions(r, |p.subQuizzes| + 1, sq.questions)
  {
    var sid := |p.subQuizzes| + 1;
    var p1 := p.(subQuizzes := p.subQuizzes + [SubQuizRow(sid, quizId, sq.title, position)]);
    assert WellFormed(p1);
    WhereNone(p1.questions, QuestionSubQuizId, sid);
    InsertQuestionsStores(p1, sid, sq.questions);
  }

  /** r is t with the rows for sqs inserted below quiz row quizId, in the same sense. */
  predicate SubQuizzesInserted(t: Tables, r: Tables, quizId: nat, sqs: seq<SubQuiz>)
  {
      && WellFormed(r)
      && r.quizzes == t.quizzes
      && t.subQuizzes <= r.subQuizzes && t.questions <= r.questions && t.choices <= r.choices
      && (forall k :: |t.subQuizzes| <= k < |r.subQuizzes| ==> r.subQuizzes[k].quizId == quizId)
      && (forall k :: |t.questions| <= k < |r.questions| ==> r.questions[k].subQuizId > |t.subQuizzes|)
      && (forall k :: |t.choices| <= k < |r.choices| ==> r.choices[k].questionId > |t.questions|)
      && StoresSubQuizzes(r, quizId, sqs)
  }

  /** Inserting the sub-quizzes of a quiz stores them below it, Order_Index = position, each
      with its questions, and leaves every earlier row in place. */
  lemma {:induction false} InsertSubQuizzesStores(t: Tables, quizId: nat, sqs: seq<SubQuiz>)
    requires WellFormed(t) && 1 <= quizId <= |t.quizzes|
    requires Where(t.subQuizzes, SubQuizQuizId, quizId) == []
    ensures SubQuizzesInserted(t, InsertSubQuizzes(t, quizId, sqs), quizId, sqs)
    decreases |sqs|
  {
    if sqs != [] {
      var n := |sqs|;
      var init := sqs[..n - 1];
      InsertSubQuizzesStores(t, quizId, init);
      var p := InsertSubQuizzes(t, quizId, init);
      var r := InsertSubQuizzes(t, quizId, sqs);
      assert r == InsertSubQuiz(p, quizId, sqs[n - 1], n - 1);
      InsertSubQuizzesStep(t, p, r, quizId, sqs);
    }
  }

  /** The induction step of InsertSubQuizzesStores. */
  lemma InsertSubQuizzesStep(t: Tables, p: Tables, r: Tables, quizId: nat, sqs: seq<SubQuiz>)
    requires sqs != [] && 1 <= quizId <= |t.quizzes|
    requires SubQuizzesInserted(t, p, quizId, sqs[..|sqs| - 1])
    requires r == InsertSubQuiz(p, quizId, sqs[|sqs| - 1], |sqs| - 1)
    ensures SubQuizzesInserted(t, r, quizId, sqs)
  {
    var n := |sqs|;
    InsertSubQuizKeepsShape(p, quizId, sqs[n - 1], n - 1);
    NewSubQuizRowsStayBelow(t, p, r, quizId);
    SubQuizzesStoredAfterAppend(p, r, quizId, sqs);
  }

  /** The facts about new rows carry over one more sub-quiz. */
  lemma NewSubQuizRowsStayBelow(t: Tables, p: Tables, r: Tables, quizId: nat)
    requires t.subQuizzes <= p.subQuizzes <= r.subQuizzes
    requires t.questions <= p.questions <= r.questions && t.choices <= p.choices <= r.choices
    requires forall k :: |t.subQuizzes| <= k < |p.subQuizzes| ==> p.subQuizzes[k].quizId == quizId
    requires forall k :: |t.questions| <= k < |p.questions| ==> p.questions[k].subQuizId > |t.subQuizzes|
    requires forall k :: |t.choices| <= k < |p.choices| ==> p.choices[k].questionId > |t.questions|
    requires forall k :: |p.subQuizzes| <= k < |r.subQuizzes| ==> r.subQuizzes[k].quizId == quizId
    requires forall k :: |p.questions| <= k < |r.questions| ==> r.questions[k].subQuizId > |p.subQuizzes|
    requires forall k :: |p.choices| <= k < |r.choices| ==> r.choices[k].questionId > |p.questions|
    ensures forall k :: |t.subQuizzes| <= k < |r.subQuizzes| ==> r.subQuizzes[k].quizId == quizId
    ensures forall k :: |t.questions| <= k < |r.questions| ==> r.questions[k].subQuizId > |t.subQuizzes|
    ensures forall k :: |t.choices| <= k < |r.choices| ==> r.choices[k].questionId > |t.questions|
  {
    forall k | |t.subQuizzes| <= k < |p.subQuizzes| ensures r.subQuizzes[k].quizId == quizId {
      assert r.subQuizzes[k] == p.subQuizzes[k];
    }
    forall k | |t.questions| <= k < |p.questions| ensures r.questions[k].subQuizId > |t.subQuizzes| {
      assert r.questions[k] == p.questions[k];
    }
    forall k | |t.choices| <= k < |p.choices| ensures r.choices[k].questionId > |t.questions| {
      assert r.choices[k] == p.choices[k];
    }
  }

  /** One more sub-quiz inserted after the first n - 1: the earlier ones stay stored and the
      new one is stored at position n - 1. */
  lemma SubQuizzesStoredAfterAppend(p: Tables, r: Tables, quizId: nat, sqs: seq<SubQuiz>)
    requires sqs != [] && WellFormed(p) && 1 <= quizId <= |p.quizzes|
    requires StoresSubQuizzes(p, quizId, sqs[..|sqs| - 1])
    requires r == InsertSubQuiz(p, quizId, sqs[|sqs| - 1], |sqs| - 1)
    ensures StoresSubQuizzes(r, quizId, sqs)
  {
    var n := |sqs|;
    InsertSubQuizKeepsShape(p, quizId, sqs[n - 1], n - 1);
    var row := SubQuizRow(|p.subQuizzes| + 1, quizId, sqs[n - 1].title, n - 1);
    WhereAppend(p.subQuizzes, [row], SubQuizQuizId, quizId);
    var before := Where(p.subQuizzes, SubQuizQuizId, quizId);
    var rows := Where(r.subQuizzes, SubQuizQuizId, quizId);
    assert rows == before + [row];
    forall i | 0 <= i < n ensures StoresSubQuiz(r, rows[i], sqs[i], i) {
      if i < n - 1 {
        assert rows[i] == before[i] && sqs[i] == sqs[..n - 1][i];
        assert StoresSubQuiz(p, before[i], sqs[..n - 1][i], i);
        SubQuizIdBound(p, before[i]);
        StoresQuestionsFrame(p, r, before[i].id, sqs[i].questions);
      }
    }
  }

  /** save_quiz appends one quiz row and stores the whole tree below it: every sub-quiz and
      question with Order_Index equal to its position, no choice rows for open-text
      questions. Rows already in the tables are left as they were. */
  lemma SaveQuizStores(t: Tables, creatorId: string, title: string, code: string, sqs: seq<SubQuiz>)
    requires WellFormed(t)
    ensures var r := SaveQuizTables(t, creatorId, title, code, sqs);
      && WellFormed(r)
      && r.quizzes == t.quizzes + [QuizRow(|t.quizzes| + 1, creatorId, title, code)]
      && t.subQuizzes <= r.subQuizzes && t.questions <= r.questions && t.choices <= r.choices
      && (forall k :: |t.subQuizzes| <= k < |r.subQuizzes| ==> r.subQuizzes[k].quizId == |t.quizzes| + 1)
      && (forall k :: |t.questions| <= k < |r.questions| ==> r.questions[k].subQuizId > |t.subQuizzes|)
      && (forall k :: |t.choices| <= k < |r.choices| ==> r.choices[k].questionId > |t.questions|)
      && StoresSubQuizzes(r, |t.quizzes| + 1, sqs)
  {
    var quizId := |t.quizzes| + 1;
    var t1 := t.(quizzes := t.quizzes + [QuizRow(quizId, creatorId, title, code)]);
    assert WellFormed(t1);
    WhereNone(t1.subQuizzes, SubQuizQuizId, quizId);
    InsertSubQuizzesStores(t1, quizId, sqs);
  }

  /** A save changes no earlier quiz: the SELECTs for an older quiz's modules, for an older
      module's questions and for an older question's choices return the same rows as before. */
  lemma SaveKeepsOtherQuizzes(t: Tables, creatorId: string, title: string, code: string, sqs: seq<SubQuiz>,
                              quizId: nat, subQuizId: nat, questionId: nat)
    requires WellFormed(t)
    requires quizId != |t.quizzes| + 1 && subQuizId <= |t.subQuizzes| && questionId <= |t.questions|
    ensures var r := SaveQuizTables(t, creatorId, title, code, sqs);
      && Where(r.subQuizzes, SubQuizQuizId, quizId) == Where(t.subQuizzes, SubQuizQuizId, quizId)
      && Where(r.questions, QuestionSubQuizId, subQuizId) == Where(t.questions, QuestionSubQuizId, subQuizId)
      && Where(r.choices, ChoiceQuestionId, questionId) == Where(t.choices, ChoiceQuestionId, questionId)
  {
    var r := SaveQuizTables(t, creatorId, title, code, sqs);
    SaveQuizStores(t, creatorId, title, code, sqs);
    WhereExtendedUnchanged(t.subQuizzes, r.subQuizzes, SubQuizQuizId, quizId);
    WhereExtendedUnchanged(t.questions, r.questions, QuestionSubQuizId, subQuizId);
    WhereExtendedUnchanged(t.choices, r.choices, ChoiceQuestionId, questionId);
  }

  /** Rows appended after a prefix that all miss the wanted value leave the selection as it was. */
  lemma WhereExtendedUnchanged<T>(a: seq<T>, b: seq<T>, column: T -> nat, id: nat)
    requires a <= b && forall k :: |a| <= k < |b| ==> column(b[k]) != id
    ensures Where(b, column, id) == Where(a, column, id)
  {
    var tail := b[|a|..];
    assert b == a + tail;
    assert forall k :: 0 <= k < |tail| ==> column(tail[k]) != id by {
      forall k | 0 <= k < |tail| ensures column(tail[k]) != id {
        assert tail[k] == b[|a| + k];
      }
    }
    WhereAppend(a, tail, column, id);
    WhereNone(tail, column, id);
  }

  // ---------------------------------------------------------------------------------------
  // get_quiz_by_code: what the SELECTs return and how the tree is rebuilt from it

  /** The rows one question's SELECT on Choices returned. */
  datatype FetchedQuestion = FetchedQuestion(row: QuestionRow, choiceRows: seq<ChoiceRow>)
  /** A sub-quiz row and, for it, what the SELECT on Questions returned. */
  datatype FetchedSubQuiz = FetchedSubQuiz(row: SubQuizRow, questions: seq<FetchedQuestion>)

  function SubQuizRowsOf(f: seq<FetchedSubQuiz>): (r: seq<SubQuizRow>)
    ensures |r| == |f| && forall i :: 0 <= i < |f| ==> r[i] == f[i].row
  {
    seq(|f|, i requires 0 <= i < |f| => f[i].row)
  }

  function QuestionRowsOf(f: seq<FetchedQuestion>): (r: seq<QuestionRow>)
    ensures |r| == |f| && forall j :: 0 <= j < |f| ==> r[j] == f[j].row
  {
    seq(|f|, j requires 0 <= j < |f| => f[j].row)
  }

  predicate SortedBy<T>(rows: seq<T>, key: T -> nat)
  {
    forall i, j :: 0 <= i < j < |rows| ==> key(rows[i]) <= key(rows[j])
  }

  /** A SELECT with ORDER BY returns the selected rows sorted by the key, rows with equal
      keys in any order. */
  predicate IsOrderedSelection<T(==)>(result: seq<T>, selected: seq<T>, key: T -> nat)
  {
    multiset(result) == multiset(selected) && SortedBy(result, key)
  }

  /** The Choices SELECT of a choice question has no ORDER BY: its rows in any order. An
      open-text question issues no query. */
  predicate ValidQuestionFetch(t: Tables, fq: FetchedQuestion)
  {
    !fq.row.kind.OpenText? ==> multiset(fq.choiceRows) == multiset(Where(t.choices, ChoiceQuestionId, fq.row.id))
  }

  predicate ValidSubQuizFetch(t: Tables, fs: FetchedSubQuiz)
  {
    && IsOrderedSelection(QuestionRowsOf(fs.questions), Where(t.questions, QuestionSubQuizId, fs.row.id), QuestionOrder)
    && forall j :: 0 <= j < |fs.questions| ==> ValidQuestionFetch(t, fs.questions[j])
  }

  /** Every answer the database may give to the queries of get_quiz_by_code for quiz quizId. */
  predicate ValidFetch(t: Tables, quizId: nat, f: seq<FetchedSubQuiz>)
  {
    && IsOrderedSelection(SubQuizRowsOf(f), Where(t.subQuizzes, SubQuizQuizId, quizId), SubQuizOrder)
    && forall i :: 0 <= i < |f| ==> ValidSubQuizFetch(t, f[i])
  }

  /** The quiz dictionaries rebuilt from the rows; ids become str(DB id). */
  function ChoiceFromRow(r: ChoiceRow): Choice
  {
    Choice(DecimalString(r.id), r.text, r.isCorrect != 0)
  }

  function ChoicesFromRows(rows: seq<ChoiceRow>): (cs: seq<Choice>)
    ensures |cs| == |rows| && forall k :: 0 <= k < |rows| ==> cs[k] == ChoiceFromRow(rows[k])
  {
    seq(|rows|, k requires 0 <= k < |rows| => ChoiceFromRow(rows[k]))
  }

  function QuestionFromFetch(fq: FetchedQuestion): Question
  {
    Question(DecimalString(fq.row.id), fq.row.text, fq.row.kind, fq.row.points,
             if fq.row.kind.OpenText? then [] else ChoicesFromRows(fq.choiceRows))
  }

  function QuestionsFromFetch(f: seq<FetchedQuestion>): (qs: seq<Question>)
    ensures |qs| == |f| && forall j :: 0 <= j < |f| ==> qs[j] == QuestionFromFetch(f[j])
  {
    seq(|f|, j requires 0 <= j < |f| => QuestionFromFetch(f[j]))
  }

  function SubQuizFromFetch(fs: FetchedSubQuiz): SubQuiz
  {
    SubQuiz(DecimalString(fs.row.id), fs.row.title, QuestionsFromFetch(fs.questions))
  }

  function Regroup(f: seq<FetchedSubQuiz>): (sqs: seq<SubQuiz>)
    ensures |sqs| == |f| && forall i :: 0 <= i < |f| ==> sqs[i] == SubQuizFromFetch(f[i])
  {
    seq(|f|, i requires 0 <= i < |f| => SubQuizFromFetch(f[i]))
  }

  /** The quiz header fetchone() returns. The SELECT has no ORDER BY; the model takes the
      first row with the code in table order. */
  function FindQuizByCode(quizzes: seq<QuizRow>, code: string): (r: Option<QuizRow>)
    ensures r.Some? ==> r.value in quizzes && r.value.accessCode == code
    ensures r.None? <==> forall k :: 0 <= k < |quizzes| ==> quizzes[k].accessCode != code
    ensures r.Some? ==> exists k :: 0 <= k < |quizzes| && quizzes[k] == r.value &&
                                    forall j :: 0 <= j < k ==> quizzes[j].accessCode != code
  {
    if quizzes == [] then None
    else if quizzes[0].accessCode == code then Some(quizzes[0])
    else
      assert forall k :: 1 <= k < |quizzes| ==> quizzes[k] == quizzes[1..][k - 1];
      FindQuizByCode(quizzes[1..], code)
  }

  /** quiz_data and quiz_doc_id as get_quiz_by_code returns them. */
  datatype LoadedQuiz = LoadedQuiz(quizId: nat, title: string, creatorId: string, accessCode: string,
                                   subQuizzes: seq<SubQuiz>)

  function LoadQuiz(t: Tables, code: string, f: seq<FetchedSubQuiz>): Option<LoadedQuiz>
  {
    match FindQuizByCode(t.quizzes, code)
    case None => None
    case Some(h) => Some(LoadedQuiz(h.id, h.title, h.creatorId, code, Regroup(f)))
  }

  // ---------------------------------------------------------------------------------------
  // Distinct ids in what the queries return

  /** The id columns. */
  function SubQuizRowId(r: SubQuizRow): nat { r.id }
  function QuestionRowId(r: QuestionRow): nat { r.id }

  /** A sequence with no repeated element holds each value at most once. */
  lemma {:induction false} DistinctCountAtMostOne<T>(s: seq<T>, x: T)
    requires forall i, j :: 0 <= i < j < |s| ==> s[i] != s[j]
    ensures multiset(s)[x] <= 1
    decreases |s|
  {
    if s != [] {
      assert s == [s[0]] + s[1..];
      assert forall i, j :: 0 <= i < j < |s[1..]| ==> s[1..][i] == s[i + 1] && s[1..][j] == s[j + 1];
      DistinctCountAtMostOne(s[1..], x);
      if x == s[0] {
        assert forall k :: 0 <= k < |s[1..]| ==> s[1..][k] != s[0] by {
          forall k | 0 <= k < |s[1..]| ensures s[1..][k] != s[0] {
            assert s[1..][k] == s[k + 1];
          }
        }
        assert x !in s[1..];
      }
    }
  }

  /** A value at two positions is counted at least twice. */
  lemma RepeatCountsTwice<T>(s: seq<T>, i: nat, j: nat)
    requires i < j < |s|
    ensures s[i] == s[j] ==> multiset(s)[s[i]] >= 2
  {
    if s[i] == s[j] {
      assert s == s[..j] + [s[j]] + s[j + 1..];
      assert s[..j][i] == s[i];
    }
  }

  /** Rows numbered by position plus one, selected by a WHERE and returned in any order,
      carry distinct ids. */
  lemma SelectedIdsDistinct<T>(table: seq<T>, idOf: T -> nat, column: T -> nat, v: nat, result: seq<T>)
    requires forall k :: 0 <= k < |table| ==> idOf(table[k]) == k + 1
    requires multiset(result) == multiset(Where(table, column, v))
    ensures forall i, j :: 0 <= i < j < |result| ==> idOf(result[i]) != idOf(result[j])
  {
    assert forall i, j :: 0 <= i < j < |table| ==> table[i] != table[j] by {
      forall i, j | 0 <= i < j < |table| ensures table[i] != table[j] {
        assert idOf(table[i]) != idOf(table[j]);
      }
    }
    forall i, j | 0 <= i < j < |result| ensures idOf(result[i]) != idOf(result[j]) {
      var x, y := result[i], result[j];
      assert x in multiset(result) && y in multiset(result);
      assert x in Where(table, column, v) && y in Where(table, column, v);
      WhereCounts(table, column, v, x);
      DistinctCountAtMostOne(table, x);
      RepeatCountsTwice(result, i, j);
      var k1 :| 0 <= k1 < |table| && table[k1] == x;
      var k2 :| 0 <= k2 < |table| && table[k2] == y;
    }
  }

  /** In a fetch from well-formed tables, the modules have distinct ids, and so do the
      questions within each module. */
  lemma FetchedIdsDistinct(t: Tables, quizId: nat, f: seq<FetchedSubQuiz>)
    requires WellFormed(t) && ValidFetch(t, quizId, f)
    ensures forall i1, i2 :: 0 <= i1 < i2 < |f| ==> f[i1].row.id != f[i2].row.id
    ensures forall i, j1, j2 :: 0 <= i < |f| && 0 <= j1 < j2 < |f[i].questions| ==>
              f[i].questions[j1].row.id != f[i].questions[j2].row.id
  {
    SelectedIdsDistinct(t.subQuizzes, SubQuizRowId, SubQuizQuizId, quizId, SubQuizRowsOf(f));
    forall i | 0 <= i < |f|
      ensures forall j1, j2 :: 0 <= j1 < j2 < |f[i].questions| ==> f[i].questions[j1].row.id != f[i].questions[j2].row.id
    {
      SelectedIdsDistinct(t.questions, QuestionRowId, QuestionSubQuizId, f[i].row.id, QuestionRowsOf(f[i].questions));
    }
  }

  // ---------------------------------------------------------------------------------------
  // The round trip

  datatype ChoiceContent = ChoiceContent(text: string, isCorrect: bool)

  function ContentsOf(cs: seq<Choice>): (r: seq<ChoiceContent>)
    ensures |r| == |cs| && forall k :: 0 <= k < |cs| ==> r[k] == ChoiceContent(cs[k].text, cs[k].isCorrect)
  {
    seq(|cs|, k requires 0 <= k < |cs| => ChoiceContent(cs[k].text, cs[k].isCorrect))
  }

  /** A reloaded question equals the authored one up to ids and the order of its choices;
      an open-text question comes back with no choices. */
  predicate SameQuestion(loaded: Question, authored: Question)
  {
    && loaded.text == authored.text && loaded.kind == authored.kind && loaded.points == authored.points
    && if authored.kind.OpenText? then loaded.choices == []
       else multiset(ContentsOf(loaded.choices)) == multiset(ContentsOf(authored.choices))
  }

  predicate SameSubQuiz(loaded: SubQuiz, authored: SubQuiz)
  {
    && loaded.title == authored.title && |loaded.questions| == |authored.questions|
    && forall j :: 0 <= j < |loaded.questions| ==> SameQuestion(loaded.questions[j], authored.questions[j])
  }

  predicate SameTree(loaded: seq<SubQuiz>, authored: seq<SubQuiz>)
  {
    |loaded| == |authored| && forall i :: 0 <= i < |loaded| ==> SameSubQuiz(loaded[i], authored[i])
  }

  /** The last row of such an ORDER BY result is the last selected row. */
  lemma OrderedSelectionLast<T>(selected: seq<T>, result: seq<T>, key: T -> nat)
    requires forall i :: 0 <= i < |selected| ==> key(selected[i]) == i
    requires IsOrderedSelection(result, selected, key) && selected != []
    ensures |result| == |selected| && result[|result| - 1] == selected[|selected| - 1]
  {
    assert |result| == |multiset(result)| == |multiset(selected)| == |selected|;
    var n := |selected|;
    var last := selected[n - 1];
    assert last in multiset(result);
    var k :| 0 <= k < n && result[k] == last;
    assert key(result[n - 1]) >= n - 1 by {
      if k < n - 1 { assert key(result[k]) <= key(result[n - 1]); }
    }
    assert result[n - 1] in multiset(selected);
    var m :| 0 <= m < n && selected[m] == result[n - 1];
    assert key(selected[m]) == m;
  }

  /** Dropping that last row from both keeps the hypotheses. */
  lemma OrderedSelectionInit<T>(selected: seq<T>, result: seq<T>, key: T -> nat)
    requires forall i :: 0 <= i < |selected| ==> key(selected[i]) == i
    requires IsOrderedSelection(result, selected, key) && selected != []
    requires |result| == |selected| && result[|result| - 1] == selected[|selected| - 1]
    ensures var s', r' := selected[..|selected| - 1], result[..|result| - 1];
      (forall i :: 0 <= i < |s'| ==> key(s'[i]) == i) && IsOrderedSelection(r', s', key)
  {
    var n := |selected|;
    var s', r' := selected[..n - 1], result[..n - 1];
    PermutationRemove(result, selected, n - 1, n - 1);
    assert result[..n - 1] + result[n..] == r' && selected[..n - 1] + selected[n..] == s';
    forall i | 0 <= i < |s'| ensures key(s'[i]) == i { assert s'[i] == selected[i]; }
    forall i, j | 0 <= i < j < |r'| ensures key(r'[i]) <= key(r'[j]) {
      assert r'[i] == result[i] && r'[j] == result[j];
    }
  }

  /** An ORDER BY result over rows whose keys are their positions is the rows themselves. */
  lemma {:induction false} OrderedSelectionIsUnique<T>(selected: seq<T>, result: seq<T>, key: T -> nat)
    requires forall i :: 0 <= i < |selected| ==> key(selected[i]) == i
    requires IsOrderedSelection(result, selected, key)
    ensures result == selected
    decreases |selected|
  {
    if selected == [] {
      assert |result| == |multiset(result)| == |multiset(selected)| == 0;
    } else {
      var n := |selected|;
      OrderedSelectionLast(selected, result, key);
      OrderedSelectionInit(selected, result, key);
      OrderedSelectionIsUnique(selected[..n - 1], result[..n - 1], key);
      assert selected == selected[..n - 1] + [selected[n - 1]];
      assert result == result[..n - 1] + [result[n - 1]];
    }
  }

  lemma MultisetPick<T>(x: seq<T>, c: T, y: seq<T>)
    ensures multiset(x + ([c] + y)) == multiset(x + y) + multiset{c}
  {
  }

  /** Choice contents as the row stores them. */
  function RowContent(r: ChoiceRow): ChoiceContent
  {
    ChoiceContent(r.text, r.isCorrect != 0)
  }

  function RowContents(rows: seq<ChoiceRow>): (r: seq<ChoiceContent>)
    ensures |r| == |rows| && forall k :: 0 <= k < |rows| ==> r[k] == RowContent(rows[k])
  {
    seq(|rows|, k requires 0 <= k < |rows| => RowContent(rows[k]))
  }

  lemma RowContentsConcat(x: seq<ChoiceRow>, y: seq<ChoiceRow>)
    ensures RowContents(x + y) == RowContents(x) + RowContents(y)
  {
    var xy := x + y;
    var l, r := RowContents(x), RowContents(y);
    forall k | 0 <= k < |xy| ensures RowContents(xy)[k] == (l + r)[k] {
      if k < |x| { assert xy[k] == x[k]; } else { assert xy[k] == y[k - |x|]; }
    }
  }

  /** Taking the row at position k out of the contents. */
  lemma RowContentsSplit(b: seq<ChoiceRow>, k: nat)
    requires k < |b|
    ensures multiset(RowContents(b)) == multiset(RowContents(b[..k] + b[k + 1..])) + multiset{RowContent(b[k])}
  {
    var front, back := b[..k], b[k + 1..];
    assert b == front + ([b[k]] + back);
    RowContentsConcat(front, [b[k]] + back);
    RowContentsConcat([b[k]], back);
    RowContentsConcat(front, back);
    var l, r := RowContents(front), RowContents(back);
    assert RowContents([b[k]]) == [RowContent(b[k])];
    MultisetPick(l, RowContent(b[k]), r);
  }

  lemma RowContentsCons(a: seq<ChoiceRow>)
    requires a != []
    ensures multiset(RowContents(a)) == multiset(RowContents(a[1..])) + multiset{RowContent(a[0])}
  {
    var whole, r := RowContents(a), RowContents(a[1..]);
    assert whole == [RowContent(a[0])] + r;
    assert multiset(whole) == multiset([RowContent(a[0])] + r);
  }

  lemma RowContentsStep(a: seq<ChoiceRow>, b: seq<ChoiceRow>, k: nat)
    requires a != [] && k < |b| && b[k] == a[0]
    requires multiset(RowContents(a[1..])) == multiset(RowContents(b[..k] + b[k + 1..]))
    ensures multiset(RowContents(a)) == multiset(RowContents(b))
  {
    RowContentsSplit(b, k);
    RowContentsCons(a);
  }

  /** Rows in another order carry the same contents, counted with multiplicity. */
  lemma {:induction false} RowContentsPermutation(a: seq<ChoiceRow>, b: seq<ChoiceRow>)
    requires multiset(a) == multiset(b)
    ensures multiset(RowContents(a)) == multiset(RowContents(b))
    decreases |a|
  {
    if a == [] {
      assert |b| == |multiset(b)| == 0;
    } else {
      assert a[0] in multiset(b);
      var k :| 0 <= k < |b| && b[k] == a[0];
      PermutationRemove(a, b, 0, k);
      assert a[..0] + a[1..] == a[1..];
      RowContentsPermutation(a[1..], b[..k] + b[k + 1..]);
      RowContentsStep(a, b, k);
    }
  }

  lemma ChoicesFromRowsContents(rows: seq<ChoiceRow>)
    ensures ContentsOf(ChoicesFromRows(rows)) == RowContents(rows)
  {
    assert forall k :: 0 <= k < |rows| ==> ContentsOf(ChoicesFromRows(rows))[k] == RowContents(rows)[k];
  }

  lemma LoadedQuestionMatches(t: Tables, fq: FetchedQuestion, q: Question, position: nat)
    requires StoresQuestion(t, fq.row, q, position)
    requires ValidQuestionFetch(t, fq)
    ensures SameQuestion(QuestionFromFetch(fq), q)
  {
    if !q.kind.OpenText? {
      var stored := Where(t.choices, ChoiceQuestionId, fq.row.id);
      assert RowContents(stored) == ContentsOf(q.choices) by {
        assert forall k :: 0 <= k < |stored| ==> RowContents(stored)[k] == ContentsOf(q.choices)[k];
      }
      RowContentsPermutation(fq.choiceRows, stored);
      ChoicesFromRowsContents(fq.choiceRows);
    }
  }

  lemma LoadedSubQuizMatches(t: Tables, fs: FetchedSubQuiz, sq: SubQuiz, position: nat)
    requires StoresSubQuiz(t, fs.row, sq, position)
    requires ValidSubQuizFetch(t, fs)
    ensures SameSubQuiz(SubQuizFromFetch(fs), sq)
  {
    var stored := Where(t.questions, QuestionSubQuizId, fs.row.id);
    OrderedSelectionIsUnique(stored, QuestionRowsOf(fs.questions), QuestionOrder);
    forall j | 0 <= j < |fs.questions| ensures SameQuestion(QuestionFromFetch(fs.questions[j]), sq.questions[j]) {
      assert fs.questions[j].row == stored[j];
      LoadedQuestionMatches(t, fs.questions[j], sq.questions[j], j);
    }
  }

  /** Whatever order the database returns within the guarantees of its queries, the tree
      rebuilt from the rows stored for a quiz is that quiz: modules and questions in
      Order_Index order, the same texts, types and points, the same choices up to order, and
      no choices for open-text questions. */
  lemma LoadedTreeMatches(t: Tables, quizId: nat, sqs: seq<SubQuiz>, f: seq<FetchedSubQuiz>)
    requires StoresSubQuizzes(t, quizId, sqs)
    requires ValidFetch(t, quizId, f)
    ensures SameTree(Regroup(f), sqs)
  {
    var stored := Where(t.subQuizzes, SubQuizQuizId, quizId);
    OrderedSelectionIsUnique(stored, SubQuizRowsOf(f), SubQuizOrder);
    forall i | 0 <= i < |f| ensures SameSubQuiz(Regroup(f)[i], sqs[i]) {
      assert f[i].row == stored[i];
      LoadedSubQuizMatches(t, f[i], sqs[i], i);
    }
  }

  lemma {:induction false} FindAppendedCode(quizzes: seq<QuizRow>, row: QuizRow)
    requires forall k :: 0 <= k < |quizzes| ==> quizzes[k].accessCode != row.accessCode
    ensures FindQuizByCode(quizzes + [row], row.accessCode) == Some(row)
    decreases |quizzes|
  {
    if quizzes != [] {
      assert (quizzes + [row])[1..] == quizzes[1..] + [row];
      FindAppendedCode(quizzes[1..], row);
    }
  }

  /** A quiz saved under a code no other quiz has is found by that code and comes back as
      the tree that was saved, for every answer the database may give to the queries. */
  lemma SaveThenLoad(t: Tables, creatorId: string, title: string, code: string,
                     sqs: seq<SubQuiz>, f: seq<FetchedSubQuiz>)
    requires WellFormed(t)
    requires forall k :: 0 <= k < |t.quizzes| ==> t.quizzes[k].accessCode != code
    requires ValidFetch(SaveQuizTables(t, creatorId, title, code, sqs), |t.quizzes| + 1, f)
    ensures LoadQuiz(SaveQuizTables(t, creatorId, title, code, sqs), code, f)
            == Some(LoadedQuiz(|t.quizzes| + 1, title, creatorId, code, Regroup(f)))
    ensures SameTree(Regroup(f), sqs)
  {
    SaveQuizStores(t, creatorId, title, code, sqs);
    FindAppendedCode(t.quizzes, QuizRow(|t.quizzes| + 1, creatorId, title, code));
    LoadedTreeMatches(SaveQuizTables(t, creatorId, title, code, sqs), |t.quizzes| + 1, sqs, f);
  }

  /** The rows in table order, one of the answers the database may give. */
  function TableOrderFetch(t: Tables, quizId: nat): seq<FetchedSubQuiz>
  {
    var sqRows := Where(t.subQuizzes, SubQuizQuizId, quizId);
    seq(|sqRows|, i requires 0 <= i < |sqRows| =>
      var qRows := Where(t.questions, QuestionSubQuizId, sqRows[i].id);
      FetchedSubQuiz(sqRows[i], seq(|qRows|, j requires 0 <= j < |qRows| =>
        FetchedQuestion(qRows[j], if qRows[j].kind.OpenText? then [] else Where(t.choices, ChoiceQuestionId, qRows[j].id)))))
  }

  /** For a stored quiz, the table-order answer is a valid one, so SaveThenLoad is not
      about an empty set of answers. */
  lemma TableOrderFetchIsValid(t: Tables, quizId: nat, sqs: seq<SubQuiz>)
    requires StoresSubQuizzes(t, quizId, sqs)
    ensures ValidFetch(t, quizId, TableOrderFetch(t, quizId))
  {
    var f := TableOrderFetch(t, quizId);
    var sqRows := Where(t.subQuizzes, SubQuizQuizId, quizId);
    assert SubQuizRowsOf(f) == sqRows;
    forall i | 0 <= i < |f| ensures ValidSubQuizFetch(t, f[i]) {
      var qRows := Where(t.questions, QuestionSubQuizId, sqRows[i].id);
      assert StoresSubQuiz(t, sqRows[i], sqs[i], i);
      assert QuestionRowsOf(f[i].questions) == qRows;
      assert forall j :: 0 <= j < |qRows| ==> StoresQuestion(t, qRows[j], sqs[i].questions[j], j);
    }
  }

  // ---------------------------------------------------------------------------------------
  // The loops of save_quiz and get_quiz_by_code

  method SaveChoices(t: Tables, questionId: nat, cs: seq<Choice>) returns (r: Tables)
    ensures r == InsertChoices(t, questionId, cs)
  {
    r := t;
    var k := 0;
    while k < |cs|
      invariant 0 <= k <= |cs|
      invariant r == t.(choices := t.choices + ChoiceRowsFor(|t.choices|, questionId, cs[..k]))
    {
      var c := cs[k];
      var isCorrectInt := if c.isCorrect then 1 else 0;
      assert ChoiceRowsFor(|t.choices|, questionId, cs[..k + 1])
          == ChoiceRowsFor(|t.choices|, questionId, cs[..k]) + [ChoiceRow(|r.choices| + 1, questionId, c.text, isCorrectInt)];
      r := r.(choices := r.choices + [ChoiceRow(|r.choices| + 1, questionId, c.text, isCorrectInt)]);
      k := k + 1;
    }
    assert cs[..k] == cs;
  }

  method SaveQuestions(t: Tables, subQuizId: nat, qs: seq<Question>) returns (r: Tables)
    ensures r == InsertQuestions(t, subQuizId, qs)
  {
    r := t;
    var j := 0;
    while j < |qs|
      invariant 0 <= j <= |qs|
      invariant r == InsertQuestions(t, subQuizId, qs[..j])
    {
      var q := qs[j];
      var questionId := |r.questions| + 1;
      r := r.(questions := r.questions + [QuestionRow(questionId, subQuizId, q.text, q.kind, q.points, j)]);
      if !q.kind.OpenText? {
        r := SaveChoices(r, questionId, q.choices);
      }
      assert qs[..j + 1][..j] == qs[..j];
      j := j + 1;
    }
    assert qs[..j] == qs;
  }

  method SaveSubQuizzes(t: Tables, quizId: nat, sqs: seq<SubQuiz>) returns (r: Tables)
    ensures r == InsertSubQuizzes(t, quizId, sqs)
  {
    r := t;
    var i := 0;
    while i < |sqs|
      invariant 0 <= i <= |sqs|
      invariant r == InsertSubQuizzes(t, quizId, sqs[..i])
    {
      var subQuizId := |r.subQuizzes| + 1;
      r := r.(subQuizzes := r.subQuizzes + [SubQuizRow(subQuizId, quizId, sqs[i].title, i)]);
      r := SaveQuestions(r, subQuizId, sqs[i].questions);
      assert sqs[..i + 1][..i] == sqs[..i];
      i := i + 1;
    }
    assert sqs[..i] == sqs;
  }

  /** save_quiz: the access code comes from the random draws `picks`; all rows are computed
      inside the transaction and become visible only if the commit succeeds. On any error
      the rollback leaves the tables as they were. */
  method SaveQuiz(t: Tables, title: string, sqs: seq<SubQuiz>, picks: seq<nat>, commitSucceeds: bool)
    returns (r: Tables, savedCode: Option<string>)
    requires |picks| == AccessCode.DefaultLength && AccessCode.ValidPicks(picks)
    ensures commitSucceeds ==>
              && savedCode == Some(AccessCode.GenerateAccessCode(AccessCode.DefaultLength, picks))
              && r == SaveQuizTables(t, SessionCreatorId, title, savedCode.value, sqs)
    ensures !commitSucceeds ==> r == t && savedCode.None?
  {
    var code := AccessCode.GenerateAccessCode(AccessCode.DefaultLength, picks);
    var quizId := |t.quizzes| + 1;
    var pending := t.(quizzes := t.quizzes + [QuizRow(quizId, SessionCreatorId, title, code)]);
    pending := SaveSubQuizzes(pending, quizId, sqs);
    if commitSucceeds {
      r, savedCode := pending, Some(code);
    } else {
      r, savedCode := t, None;
    }
  }

  method RegroupChoices(rows: seq<ChoiceRow>) returns (cs: seq<Choice>)
    ensures cs == ChoicesFromRows(rows)
  {
    cs := [];
    var k := 0;
    while k < |rows|
      invariant 0 <= k <= |rows|
      invariant cs == ChoicesFromRows(rows[..k])
    {
      cs := cs + [Choice(DecimalString(rows[k].id), rows[k].text, rows[k].isCorrect != 0)];
      k := k + 1;
    }
    assert rows[..k] == rows;
  }

  method RegroupQuestions(f: seq<FetchedQuestion>) returns (qs: seq<Question>)
    ensures qs == QuestionsFromFetch(f)
  {
    qs := [];
    var j := 0;
    while j < |f|
      invariant 0 <= j <= |f|
      invariant qs == QuestionsFromFetch(f[..j])
    {
      var row := f[j].row;
      var choices := [];
      if !row.kind.OpenText? {
        choices := RegroupChoices(f[j].choiceRows);
      }
      qs := qs + [Question(DecimalString(row.id), row.text, row.kind, row.points, choices)];
      j := j + 1;
    }
    assert f[..j] == f;
  }

  method RegroupSubQuizzes(f: seq<FetchedSubQuiz>) returns (sqs: seq<SubQuiz>)
    ensures sqs == Regroup(f)
  {
    sqs := [];
    var i := 0;
    while i < |f|
      invariant 0 <= i <= |f|
      invariant sqs == Regroup(f[..i])
    {
      var questions := RegroupQuestions(f[i].questions);
      sqs := sqs + [SubQuiz(DecimalString(f[i].row.id), f[i].row.title, questions)];
      i := i + 1;
    }
    assert f[..i] == f;
  }

  /** get_quiz_by_code: None when the connection does not open (line 115) or a query raises
      a MySQL Error (lines 179-181), and when no quiz has the code; otherwise the header and
      the tree rebuilt from what the queries returned (f). */
  method GetQuizByCode(t: Tables, code: string, f: seq<FetchedSubQuiz>, connected: bool, queriesSucceed: bool)
    returns (r: Option<LoadedQuiz>)
    ensures !connected || !queriesSucceed ==> r.None?
    ensures connected && queriesSucceed ==> r == LoadQuiz(t, code, f)
  {
    if !connected {
      return None;
    }
    var header := FindQuizByCode(t.quizzes, code);
    if header.None? {
      return None;
    }
    var subQuizzes := RegroupSubQuizzes(f);
    if !queriesSucceed {
      return None;
    }
    r := Some(LoadedQuiz(header.value.id, header.value.title, header.value.creatorId, code, subQuizzes));
  }
}

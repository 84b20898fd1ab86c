/** The quiz being built in the creator screens: the default builders and the in-place edits
    create_quiz_mode makes to the session's list of sub-quizzes. */
module Authoring {
  import opened QuizModel
  import Scoring

  const DefaultQuizTitle: string := "New Injection Molding Quiz"
  const MinPoints: nat := 1
  const MaxPoints: nat := 10

  /** string.ascii_lowercase */
  const Lowercase: string := "abcdefghijklmnopqrstuvwxyz"

  /** The types the editor's select box offers. */
  predicate IsEditorKind(k: Kind) { k.SingleChoice? || k.MultiSelect? || k.OpenText? }

  predicate DistinctChoiceIds(cs: seq<Choice>)
  {
    forall i, j :: 0 <= i < j < |cs| ==> cs[i].id != cs[j].id
  }

  /** What a choice question needs before it can be answered: two choices or more, one of
      them correct. */
  predicate HasUsableChoices(q: Question)
  {
    q.kind.OpenText? || (|q.choices| >= 2 && exists i :: 0 <= i < |q.choices| && q.choices[i].isCorrect)
  }

  /** generate_question_data(i) */
  function GenerateQuestion(i: nat): (q: Question)
    ensures q.id == DecimalString(i) && q.kind.SingleChoice? && q.points == MinPoints
    ensures HasUsableChoices(q) && DistinctChoiceIds(q.choices)
  {
    var q := Question(DecimalString(i),
                      "Question " + DecimalString(i) + " text (e.g., What is the primary polymer used in injection molding?)",
                      SingleChoice, 1,
                      [Choice("a", "Choice A", true), Choice("b", "Choice B", false), Choice("c", "Choice C", false)]);
    assert q.choices[0].isCorrect;
    q
  }

  /** generate_subquiz_data(i) */
  function GenerateSubQuiz(i: nat): (sq: SubQuiz)
    ensures sq.id == DecimalString(i) && sq.questions == [GenerateQuestion(1)]
  {
    SubQuiz(DecimalString(i), "Sub-Quiz Module " + DecimalString(i), [GenerateQuestion(1)])
  }

  /** A default question scores its one point exactly for a submission equal to "a", the id
      of its first choice, the one marked correct; every other submission scores (0, False). */
  lemma DefaultQuestionScoring(i: nat, a: Submission)
    ensures Scoring.ScoreAnswer(GenerateQuestion(i), a) ==
              if a == Single("a") || a == Text("a") then Scoring.Scored(1, true) else Scoring.Scored(0, false)
  {
    var q := GenerateQuestion(i);
    assert Scoring.FirstCorrectId(q.choices) == Some("a");
  }

  /** The two choices the editor puts back when a choice question has fewer than two
      (lines 402-405); neither is marked correct. */
  const RegeneratedChoices: seq<Choice> := [Choice("a", "Choice A", false), Choice("b", "Choice B", false)]

  /** Questions j of a module carry the ids "1", "2", ... (new_q_id = len + 1) and the
      points the number input allows. */
  predicate QuestionsInvariant(qs: seq<Question>)
  {
    && |qs| >= 1
    && forall j :: 0 <= j < |qs| ==>
         qs[j].id == DecimalString(j + 1) && MinPoints <= qs[j].points <= MaxPoints && IsEditorKind(qs[j].kind)
  }

  /** What every edit keeps: at least one module, modules numbered "1", "2", ...
      (new_id = len + 1), each with at least one question (nothing deletes a module or
      a question). */
  predicate DraftInvariant(sqs: seq<SubQuiz>)
  {
    && |sqs| >= 1
    && forall i :: 0 <= i < |sqs| ==> sqs[i].id == DecimalString(i + 1) && QuestionsInvariant(sqs[i].questions)
  }

  /** The draft with question j of module s replaced by q. */
  function WithQuestion(sqs: seq<SubQuiz>, s: nat, j: nat, q: Question): (r: seq<SubQuiz>)
    requires s < |sqs| && j < |sqs[s].questions|
    ensures |r| == |sqs| && |r[s].questions| == |sqs[s].questions| && r[s].questions[j] == q
  {
    sqs[s := sqs[s].(questions := sqs[s].questions[j := q])]
  }

  lemma WithQuestionKeepsInvariant(sqs: seq<SubQuiz>, s: nat, j: nat, q: Question)
    requires DraftInvariant(sqs) && s < |sqs| && j < |sqs[s].questions|
    requires q.id == sqs[s].questions[j].id && MinPoints <= q.points <= MaxPoints && IsEditorKind(q.kind)
    ensures DraftInvariant(WithQuestion(sqs, s, j, q))
  {
    var r := WithQuestion(sqs, s, j, q);
    forall i | 0 <= i < |r| ensures r[i].id == DecimalString(i + 1) && QuestionsInvariant(r[i].questions) {
      if i == s {
        assert r[i].questions == sqs[s].questions[j := q];
      } else {
        assert r[i] == sqs[i];
      }
    }
  }

  /** st.session_state['new_quiz_title'] and st.session_state['sub_quizzes'] while a quiz is
      being built. */
  class QuizDraft {
    var title: string
    var subQuizzes: seq<SubQuiz>

    ghost predicate Valid()
      reads this
    {
      DraftInvariant(subQuizzes)
    }

    /** "Create New Quiz" (lines 331-335). */
    constructor ()
      ensures Valid()
      ensures title == DefaultQuizTitle && subQuizzes == [GenerateSubQuiz(1)]
    {
      title := DefaultQuizTitle;
      subQuizzes := [GenerateSubQuiz(1)];
    }

    /** "Add New Sub-Quiz": a default module numbered after the existing ones. */
    method AddSubQuiz()
      requires Valid()
      modifies this
      ensures Valid()
      ensures title == old(title)
      ensures subQuizzes == old(subQuizzes) + [GenerateSubQuiz(|old(subQuizzes)| + 1)]
    {
      var newId := |subQuizzes| + 1;
      subQuizzes := subQuizzes + [GenerateSubQuiz(newId)];
    }

    /** "Add Question" on module s: a default question numbered after the module's others. */
    method AddQuestion(s: nat)
      requires Valid() && s < |subQuizzes|
      modifies this
      ensures Valid()
      ensures title == old(title) && |subQuizzes| == |old(subQuizzes)|
      ensures subQuizzes[s].questions == old(subQuizzes[s].questions) + [GenerateQuestion(|old(subQuizzes[s].questions)| + 1)]
      ensures subQuizzes == old(subQuizzes)[s := old(subQuizzes[s]).(questions := subQuizzes[s].questions)]
    {
      var sq := subQuizzes[s];
      var newQuestionId := |sq.questions| + 1;
      subQuizzes := subQuizzes[s := sq.(questions := sq.questions + [GenerateQuestion(newQuestionId)])];
      assert subQuizzes[s].questions[|sq.questions|].id == DecimalString(|sq.questions| + 1);
      forall i | 0 <= i < |subQuizzes| ensures subQuizzes[i].id == DecimalString(i + 1) && QuestionsInvariant(subQuizzes[i].questions) {
        if i != s { assert subQuizzes[i] == old(subQuizzes[i]); }
      }
    }

    /** The "at least 2 choices" loop of a choice question (lines 399-406): the choices are
        replaced by two defaults, neither correct. An open-text question is not touched. */
    method EnsureTwoChoices(s: nat, j: nat)
      requires Valid() && s < |subQuizzes| && j < |subQuizzes[s].questions|
      modifies this
      ensures Valid() && title == old(title)
      ensures var q := old(subQuizzes[s].questions[j]);
              subQuizzes == WithQuestion(old(subQuizzes), s, j,
                              if !q.kind.OpenText? && |q.choices| < 2 then q.(choices := RegeneratedChoices) else q)
      ensures !subQuizzes[s].questions[j].kind.OpenText? ==> |subQuizzes[s].questions[j].choices| >= 2
    {
      var q := subQuizzes[s].questions[j];
      if !q.kind.OpenText? {
        while |q.choices| < 2
          invariant q == old(subQuizzes[s].questions[j]) || q == old(subQuizzes[s].questions[j]).(choices := RegeneratedChoices)
          invariant q != old(subQuizzes[s].questions[j]) ==> |old(subQuizzes[s].questions[j]).choices| < 2
          decreases 2 - |q.choices|
        {
          q := q.(choices := RegeneratedChoices);
        }
      }
      WithQuestionKeepsInvariant(subQuizzes, s, j, q);
      subQuizzes := WithQuestion(subQuizzes, s, j, q);
    }

    /** "Add Choice" on a choice question: a choice whose id is the letter the random draw
        picked (pick is its position in ascii_lowercase), not marked correct. Its id may
        repeat an existing one. An open-text question shows no such button. */
    method AddChoice(s: nat, j: nat, pick: nat)
      requires Valid() && s < |subQuizzes| && j < |subQuizzes[s].questions|
      requires pick < |Lowercase|
      modifies this
      ensures Valid() && title == old(title)
      ensures var q := old(subQuizzes[s].questions[j]);
              var letter := Lowercase[pick];
              subQuizzes == WithQuestion(old(subQuizzes), s, j,
                              if q.kind.OpenText? then q
                              else q.(choices := q.choices + [Choice([letter], "Choice " + [UpperAscii(letter)], false)]))
    {
      var q := subQuizzes[s].questions[j];
      if !q.kind.OpenText? {
        var newChoiceId := [Lowercase[pick]];
        q := q.(choices := q.choices + [Choice(newChoiceId, "Choice " + [UpperAscii(Lowercase[pick])], false)]);
      }
      WithQuestionKeepsInvariant(subQuizzes, s, j, q);
      subQuizzes := WithQuestion(subQuizzes, s, j, q);
    }

    /** The "X" button of choice c: `del question['choices'][c_idx]`. */
    method DeleteChoice(s: nat, j: nat, c: nat)
      requires Valid() && s < |subQuizzes| && j < |subQuizzes[s].questions|
      requires c < |subQuizzes[s].questions[j].choices|
      modifies this
      ensures Valid() && title == old(title)
      ensures var q := old(subQuizzes[s].questions[j]);
              subQuizzes == WithQuestion(old(subQuizzes), s, j,
                              if q.kind.OpenText? then q else q.(choices := q.choices[..c] + q.choices[c + 1..]))
    {
      var q := subQuizzes[s].questions[j];
      if !q.kind.OpenText? {
        q := q.(choices := q.choices[..c] + q.choices[c + 1..]);
      }
      WithQuestionKeepsInvariant(subQuizzes, s, j, q);
      subQuizzes := WithQuestion(subQuizzes, s, j, q);
    }

    /** The type select box. Switching to OPEN_TEXT keeps the choices in the draft; saving
        skips them. */
    method SetQuestionKind(s: nat, j: nat, k: Kind)
      requires Valid() && s < |subQuizzes| && j < |subQuizzes[s].questions|
      requires IsEditorKind(k)
      modifies this
      ensures Valid() && title == old(title)
      ensures subQuizzes == WithQuestion(old(subQuizzes), s, j, old(subQuizzes[s].questions[j]).(kind := k))
    {
      var q := subQuizzes[s].questions[j].(kind := k);
      WithQuestionKeepsInvariant(subQuizzes, s, j, q);
      subQuizzes := WithQuestion(subQuizzes, s, j, q);
    }

    /** The points input, bounded to 1..10 by the widget. */
    method SetPoints(s: nat, j: nat, p: nat)
      requires Valid() && s < |subQuizzes| && j < |subQuizzes[s].questions|
      requires MinPoints <= p <= MaxPoints
      modifies this
      ensures Valid() && title == old(title)
      ensures subQuizzes == WithQuestion(old(subQuizzes), s, j, old(subQuizzes[s].questions[j]).(points := p))
    {
      var q := subQuizzes[s].questions[j].(points := p);
      WithQuestionKeepsInvariant(subQuizzes, s, j, q);
      subQuizzes := WithQuestion(subQuizzes, s, j, q);
    }

    /** The "Correct" checkbox of choice c, shown only for a choice question. */
    method SetChoiceCorrect(s: nat, j: nat, c: nat, correct: bool)
      requires Valid() && s < |subQuizzes| && j < |subQuizzes[s].questions|
      requires c < |subQuizzes[s].questions[j].choices|
      modifies this
      ensures Valid() && title == old(title)
      ensures var q := old(subQuizzes[s].questions[j]);
              subQuizzes == WithQuestion(old(subQuizzes), s, j,
                              if q.kind.OpenText? then q else q.(choices := q.choices[c := q.choices[c].(isCorrect := correct)]))
    {
      var q := subQuizzes[s].questions[j];
      if !q.kind.OpenText? {
        q := q.(choices := q.choices[c := q.choices[c].(isCorrect := correct)]);
      }
      WithQuestionKeepsInvariant(subQuizzes, s, j, q);
      subQuizzes := WithQuestion(subQuizzes, s, j, q);
    }
  }

  /** str.upper() on an ASCII character. */
  function UpperAscii(c: char): (u: char)
    ensures 'a' <= c <= 'z' ==> 'A' <= u <= 'Z' && u as int - 'A' as int == c as int - 'a' as int
    ensures !('a' <= c <= 'z') ==> u == c
  {
    if 'a' <= c <= 'z' then (c as int - 'a' as int + 'A' as int) as char else c
  }
}

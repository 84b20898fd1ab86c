/** The quiz tree that authoring builds, persistence flattens and reloads, and the taking
    session walks: sub-quizzes (modules) own questions, questions own choices. */
module QuizModel {

  datatype Option<T> = None | Some(value: T)

  /** Question_Type. A stored row may carry a name other than the three the editor offers;
      such a question reaches the scorer as Unrecognised. */
  datatype Kind = SingleChoice | MultiSelect | OpenText | Unrecognised(name: OtherKindName)

  /** A Question_Type name other than the three the program knows. */
  type OtherKindName = s: string | s != "SINGLE_CHOICE" && s != "MULTI_SELECT" && s != "OPEN_TEXT" witness ""

  datatype Choice = Choice(id: string, text: string, isCorrect: bool)

  datatype Question = Question(id: string, text: string, kind: Kind, points: nat, choices: seq<Choice>)

  datatype SubQuiz = SubQuiz(id: string, title: string, questions: seq<Question>)

  /** The value the taking screen stores for a question. In the program it is a dynamically
      typed value: None, a choice id (str), a list of choice ids, or the free text (str).
      Single and Text are both Python strings, and the scorer compares them as such. */
  datatype Submission = NoAnswer | Single(id: string) | Multiple(ids: seq<string>) | Text(text: string)

  predicate IsDigit(c: char) { '0' <= c <= '9' }

  function DigitChar(d: nat): (c: char)
    requires d < 10
    ensures IsDigit(c) && c as int - '0' as int == d
  {
    ('0' as int + d) as char
  }

  /** str(n) for a non-negative int: the ids of the default builders and of reloaded rows. */
  function DecimalString(n: nat): (s: string)
    ensures |s| >= 1
    ensures forall i :: 0 <= i < |s| ==> IsDigit(s[i])
    ensures n >= 10 ==> |s| >= 2
    decreases n
  {
    if n < 10 then [DigitChar(n)] else DecimalString(n / 10) + [DigitChar(n % 10)]
  }

  /** `{n}` is one-to-one: distinct numbers print differently. */
  lemma {:induction false} DecimalStringInjective(m: nat, n: nat)
    requires DecimalString(m) == DecimalString(n)
    ensures m == n
    decreases m
  {
    var sm, sn := DecimalString(m), DecimalString(n);
    if m < 10 && n < 10 {
      assert sm[0] == DigitChar(m) && sn[0] == DigitChar(n);
    } else if m >= 10 && n >= 10 {
      assert sm == DecimalString(m / 10) + [DigitChar(m % 10)];
      assert sn == DecimalString(n / 10) + [DigitChar(n % 10)];
      assert sm[|sm| - 1] == DigitChar(m % 10) && sn[|sn| - 1] == DigitChar(n % 10);
      assert DecimalString(m / 10) == sm[..|sm| - 1] == sn[..|sn| - 1] == DecimalString(n / 10);
      DecimalStringInjective(m / 10, n / 10);
    }
  }

  /** The session key of an answer, f"{subquiz['id']}_{question['id']}". */
  function AnswerKey(subQuizId: string, questionId: string): (k: string)
    ensures |k| == |subQuizId| + 1 + |questionId|
    ensures k[|subQuizId|] == '_'
  {
    subQuizId + "_" + questionId
  }

  predicate AllDigits(s: string) { forall i :: 0 <= i < |s| ==> IsDigit(s[i]) }

  /** Between digit-only ids (the ids a reloaded quiz carries), the key determines both ids:
      the '_' separator can only sit at one place. */
  lemma AnswerKeyInjective(a: string, b: string, c: string, d: string)
    requires AllDigits(a) && AllDigits(c)
    requires AnswerKey(a, b) == AnswerKey(c, d)
    ensures a == c && b == d
  {
    var k := AnswerKey(a, b);
    if |a| != |c| {
      assert false;
    }
    assert a == k[..|a|] && c == AnswerKey(c, d)[..|c|];
    assert b == k[|a| + 1..] && d == AnswerKey(c, d)[|c| + 1..];
  }

  // ---------------------------------------------------------------------------------------
  // Permutations

  /** Removing position k takes one occurrence of b[k] out of the multiset. */
  lemma MultisetRemoveAt<T>(b: seq<T>, k: nat)
    requires k < |b|
    ensures multiset(b[..k] + b[k + 1..]) == multiset(b) - multiset{b[k]}
  {
    var front, back := b[..k], b[k + 1..];
    assert b == front + ([b[k]] + back);
    assert multiset(b) == multiset(front) + multiset([b[k]] + back);
    assert multiset(front + back) == multiset(front) + multiset(back);
  }

  /** Taking a matching element out of two permutations of each other leaves permutations. */
  lemma PermutationRemove<T>(a: seq<T>, b: seq<T>, i: nat, k: nat)
    requires multiset(a) == multiset(b) && i < |a| && k < |b| && a[i] == b[k]
    ensures multiset(a[..i] + a[i + 1..]) == multiset(b[..k] + b[k + 1..])
  {
    MultisetRemoveAt(a, i);
    MultisetRemoveAt(b, k);
  }
}

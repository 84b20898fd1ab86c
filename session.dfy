/** The taking screens of taker_mode: looking a quiz up by its access code, entering the
    taker's name, then the QUIZ_ACTIVE cursor that walks the modules question by question,
    stores each answer under its key and finally submits the attempt. */
module Session {
  import opened QuizModel
  import AccessCode
  import Authoring
  import Persistence
  import Attempt

  // ---------------------------------------------------------------------------------------
  // The cursor

  /** The number of questions of each module. */
  function Sizes(sqs: seq<SubQuiz>): (r: seq<nat>)
    ensures |r| == |sqs| && forall i :: 0 <= i < |sqs| ==> r[i] == |sqs[i].questions|
  {
    seq(|sqs|, i requires 0 <= i < |sqs| => |sqs[i].questions|)
  }

  /** What one rerun of the QUIZ_ACTIVE screen does at cursor (sq, q): submit once the
      module index has run past the last module, move to the next module once the question
      index has run past the current one's questions, else show question q of module sq. */
  datatype Phase = Submit | NextModule | ShowQuestion

  function PhaseAt(sizes: seq<nat>, sq: nat, q: nat): Phase
  {
    if sq >= |sizes| then Submit else if q >= sizes[sq] then NextModule else ShowQuestion
  }

  /** The positions shown, in order, when Next is pressed on every question from (sq, q) on. */
  function Walk(sizes: seq<nat>, sq: nat, q: nat): seq<(nat, nat)>
    decreases |sizes| - sq, if sq < |sizes| && q < sizes[sq] then sizes[sq] - q else 0
  {
    if sq >= |sizes| then []
    else if q >= sizes[sq] then Walk(sizes, sq + 1, 0)
    else [(sq, q)] + Walk(sizes, sq, q + 1)
  }

  /** (sq, q) names a question. */
  predicate IsPosition(sizes: seq<nat>, p: (nat, nat))
  {
    p.0 < |sizes| && p.1 < sizes[p.0]
  }

  /** Module order first, then question order. */
  predicate Before(p: (nat, nat), p': (nat, nat))
  {
    p.0 < p'.0 || (p.0 == p'.0 && p.1 < p'.1)
  }

  /** The questions of modules i, i + 1, ..., module by module, each in list order. */
  function PositionsFrom(sizes: seq<nat>, i: nat): seq<(nat, nat)>
    decreases |sizes| - i
  {
    if i >= |sizes| then []
    else ModulePositions(sizes, i, 0) + PositionsFrom(sizes, i + 1)
  }

  function Sum(s: seq<nat>): nat
    decreases |s|
  {
    if s == [] then 0 else Sum(s[..|s| - 1]) + s[|s| - 1]
  }

  /** total_questions */
  function TotalQuestions(sizes: seq<nat>): nat
  {
    Sum(sizes)
  }

  /** questions_completed: the questions of the modules before sq, plus q. */
  function Completed(sizes: seq<nat>, sq: nat, q: nat): nat
    requires sq <= |sizes|
  {
    Sum(sizes[..sq]) + q
  }

  lemma SumStep(sizes: seq<nat>, i: nat)
    requires i < |sizes|
    ensures Sum(sizes[..i + 1]) == Sum(sizes[..i]) + sizes[i]
  {
    assert sizes[..i + 1][..i] == sizes[..i];
  }

  /** A module's questions all come before the next module's first one. */
  lemma {:induction false} SumPrefixGrows(sizes: seq<nat>, i: nat, i': nat)
    requires i < i' <= |sizes|
    ensures Sum(sizes[..i]) + sizes[i] <= Sum(sizes[..i'])
    decreases i'
  {
    SumStep(sizes, i' - 1);
    if i < i' - 1 {
      SumPrefixGrows(sizes, i, i' - 1);
    }
  }

  /** While a current question exists, questions_completed < total_questions. */
  lemma ProgressBelowTotal(sizes: seq<nat>, sq: nat, q: nat)
    requires sq < |sizes| && q < sizes[sq]
    ensures Completed(sizes, sq, q) < TotalQuestions(sizes)
  {
    SumPrefixGrows(sizes, sq, |sizes|);
    assert sizes[..|sizes|] == sizes;
  }

  /** The counter is strictly increasing in the walking order, so no two questions share a
      number. */
  lemma CompletedIncreasing(sizes: seq<nat>, p: (nat, nat), p': (nat, nat))
    requires IsPosition(sizes, p) && IsPosition(sizes, p') && Before(p, p')
    ensures Completed(sizes, p.0, p.1) < Completed(sizes, p'.0, p'.1)
  {
    if p.0 < p'.0 {
      SumPrefixGrows(sizes, p.0, p'.0);
    }
  }

  /** Modules of sizes [3, 2] with the cursor at (1, 1): question 4 of 5 has been reached. */
  lemma ProgressExample()
    ensures Completed([3, 2], 1, 1) == 4 && TotalQuestions([3, 2]) == 5
  {
    assert [3, 2][..1] == [3] && [3][..0] == [] && [3, 2][..2 - 1] == [3];
  }

  /** The questions q, q + 1, ... of module sq. */
  function ModulePositions(sizes: seq<nat>, sq: nat, q: nat): seq<(nat, nat)>
    requires sq < |sizes|
    decreases sizes[sq] - q
  {
    if q >= sizes[sq] then [] else [(sq, q)] + ModulePositions(sizes, sq, q + 1)
  }

  lemma {:induction false} ModulePositionsSpec(sizes: seq<nat>, sq: nat, q: nat)
    requires sq < |sizes| && q <= sizes[sq]
    ensures var m := ModulePositions(sizes, sq, q);
            |m| == sizes[sq] - q && forall k :: 0 <= k < |m| ==> m[k] == (sq, q + k)
    decreases sizes[sq] - q
  {
    if q < sizes[sq] {
      ModulePositionsSpec(sizes, sq, q + 1);
    }
  }

  lemma {:induction false} WalkWithinModule(sizes: seq<nat>, sq: nat, q: nat)
    requires sq < |sizes|
    ensures Walk(sizes, sq, q) == ModulePositions(sizes, sq, q) + PositionsFrom(sizes, sq + 1)
    decreases |sizes| - sq, 1, if q < sizes[sq] then sizes[sq] - q else 0
  {
    if q < sizes[sq] {
      WalkWithinModule(sizes, sq, q + 1);
    } else {
      WalkFromModule(sizes, sq + 1);
    }
  }

  lemma {:induction false} WalkFromModule(sizes: seq<nat>, i: nat)
    ensures Walk(sizes, i, 0) == PositionsFrom(sizes, i)
    decreases |sizes| - i, 2, 0
  {
    if i < |sizes| {
      WalkWithinModule(sizes, i, 0);
    }
  }

  lemma {:induction false} PositionsFromSpec(sizes: seq<nat>, i: nat)
    requires i <= |sizes|
    ensures var w := PositionsFrom(sizes, i);
            && |w| + Sum(sizes[..i]) == Sum(sizes)
            && forall k :: 0 <= k < |w| ==> IsPosition(sizes, w[k]) && Completed(sizes, w[k].0, w[k].1) == Sum(sizes[..i]) + k
    decreases |sizes| - i
  {
    if i == |sizes| {
      assert sizes[..i] == sizes;
    } else {
      PositionsFromSpec(sizes, i + 1);
      SumStep(sizes, i);
      ModulePositionsSpec(sizes, i, 0);
      var head := ModulePositions(sizes, i, 0);
      var w := PositionsFrom(sizes, i);
      assert w == head + PositionsFrom(sizes, i + 1);
      forall k | 0 <= k < |w| ensures IsPosition(sizes, w[k]) && Completed(sizes, w[k].0, w[k].1) == Sum(sizes[..i]) + k {
        if k >= sizes[i] {
          assert w[k] == PositionsFrom(sizes, i + 1)[k - sizes[i]];
        }
      }
    }
  }

  /** From (0, 0), pressing Next on every question shows each question of the quiz exactly
      once, module by module and in list order, before submission; the k-th question shown
      is numbered k by the progress counter. */
  lemma WalkVisitsEveryQuestionOnce(sizes: seq<nat>)
    ensures var w := Walk(sizes, 0, 0);
            && |w| == TotalQuestions(sizes)
            && (forall k :: 0 <= k < |w| ==> IsPosition(sizes, w[k]) && Completed(sizes, w[k].0, w[k].1) == k)
            && (forall k, k' :: 0 <= k < k' < |w| ==> Before(w[k], w[k']))
            && (forall p :: IsPosition(sizes, p) ==> p in w)
  {
    WalkFromModule(sizes, 0);
    PositionsFromSpec(sizes, 0);
    assert sizes[..0] == [];
    var w := Walk(sizes, 0, 0);
    forall k, k' | 0 <= k < k' < |w| ensures Before(w[k], w[k']) {
      if !Before(w[k], w[k']) {
        if w[k] != w[k'] {
          CompletedIncreasing(sizes, w[k'], w[k]);
        }
      }
    }
    forall p | IsPosition(sizes, p) ensures p in w {
      var k := Completed(sizes, p.0, p.1);
      ProgressBelowTotal(sizes, p.0, p.1);
      if w[k] != p {
        if Before(w[k], p) { CompletedIncreasing(sizes, w[k], p); } else { CompletedIncreasing(sizes, p, w[k]); }
      }
    }
  }

  // ---------------------------------------------------------------------------------------
  // Choice labels and the answer a widget gives

  /** string.ascii_lowercase[idx]: the letter the choice at position idx gets. */
  function UiLabel(idx: nat): char
    requires idx < |Authoring.Lowercase|
  {
    Authoring.Lowercase[idx]
  }

  /** Every choice question has at most 26 choices, so every choice gets a letter; otherwise
      preparing the quiz for the taking screen raises IndexError. */
  predicate LabelsFit(sqs: seq<SubQuiz>)
  {
    forall i, j :: 0 <= i < |sqs| && 0 <= j < |sqs[i].questions| && !sqs[i].questions[j].kind.OpenText? ==>
      |sqs[i].questions[j].choices| <= |Authoring.Lowercase|
  }

  lemma QuestionLabelsFit(sqs: seq<SubQuiz>, i: nat, j: nat)
    requires LabelsFit(sqs) && i < |sqs| && j < |sqs[i].questions|
    ensures var q := sqs[i].questions[j]; !q.kind.OpenText? ==> |q.choices| <= |Authoring.Lowercase|
  {
  }

  /** next((c for c in choices if c['ui_id'] == letter), None), searching from position `start`. */
  function LabelSearch(cs: seq<Choice>, letter: char, start: nat): Option<Choice>
    requires |cs| <= |Authoring.Lowercase|
    decreases |cs| - start
  {
    if start >= |cs| then None
    else if UiLabel(start) == letter then Some(cs[start])
    else LabelSearch(cs, letter, start + 1)
  }

  function ChoiceForLabel(cs: seq<Choice>, letter: char): Option<Choice>
    requires |cs| <= |Authoring.Lowercase|
  {
    LabelSearch(cs, letter, 0)
  }

  lemma LowercaseLetters()
    ensures forall i :: 0 <= i < |Authoring.Lowercase| ==> Authoring.Lowercase[i] as int == 'a' as int + i
  {
  }

  lemma {:induction false} LabelSearchFinds(cs: seq<Choice>, k: nat, start: nat)
    requires |cs| <= |Authoring.Lowercase| && start <= k < |cs|
    ensures LabelSearch(cs, UiLabel(k), start) == Some(cs[k])
    decreases |cs| - start
  {
    LowercaseLetters();
    if start < k {
      LabelSearchFinds(cs, k, start + 1);
    }
  }

  lemma {:induction false} LabelSearchMisses(cs: seq<Choice>, letter: char, start: nat)
    requires |cs| <= |Authoring.Lowercase|
    requires forall k :: start <= k < |cs| ==> UiLabel(k) != letter
    ensures LabelSearch(cs, letter, start) == None
    decreases |cs| - start
  {
    if start < |cs| {
      LabelSearchMisses(cs, letter, start + 1);
    }
  }

  /** The radio button's letter k selects the choice at position k; a letter past the last
      choice selects nothing. */
  lemma LabelSelectsPosition(cs: seq<Choice>, letter: char)
    requires |cs| <= |Authoring.Lowercase|
    ensures forall k :: 0 <= k < |cs| && letter == UiLabel(k) ==> ChoiceForLabel(cs, letter) == Some(cs[k])
    ensures (forall k :: 0 <= k < |cs| ==> letter != UiLabel(k)) ==> ChoiceForLabel(cs, letter) == None
  {
    forall k | 0 <= k < |cs| && letter == UiLabel(k) ensures ChoiceForLabel(cs, letter) == Some(cs[k]) {
      LabelSearchFinds(cs, k, 0);
    }
    if forall k :: 0 <= k < |cs| ==> letter != UiLabel(k) {
      LabelSearchMisses(cs, letter, 0);
    }
  }

  /** The values of whichever widget the current question renders: the radio button's
      letter, the checkbox states in choice order, the text area. */
  datatype WidgetInput = WidgetInput(radio: Option<char>, checked: seq<bool>, text: string)

  /** The positions from start below n whose checkbox is ticked, each once and ascending. */
  function TickedPositions(checked: seq<bool>, n: nat, start: nat): (r: seq<nat>)
    ensures forall i :: 0 <= i < |r| ==> start <= r[i] < n && r[i] < |checked| && checked[r[i]]
    ensures forall i, j :: 0 <= i < j < |r| ==> r[i] < r[j]
    ensures forall k :: start <= k < n && k < |checked| && checked[k] ==> k in r
    decreases n - start
  {
    if start >= n || start >= |checked| then []
    else
      var rest := TickedPositions(checked, n, start + 1);
      if checked[start] then [start] + rest else rest
  }

  /** The ids of the ticked choices, in choice order: the loop appends c['id'] for every
      checkbox that returns True. */
  function CheckedIds(cs: seq<Choice>, checked: seq<bool>): (ids: seq<string>)
    ensures |ids| == |TickedPositions(checked, |cs|, 0)| <= |cs|
    ensures ids == [] <==> forall k :: 0 <= k < |cs| && k < |checked| ==> !checked[k]
    ensures forall x :: x in ids ==> exists k :: 0 <= k < |cs| && k < |checked| && checked[k] && cs[k].id == x
    ensures forall k :: 0 <= k < |cs| && k < |checked| && checked[k] ==> cs[k].id in ids
  {
    var pos := TickedPositions(checked, |cs|, 0);
    TickedPositionsBound(checked, |cs|, 0);
    var ids := seq(|pos|, i requires 0 <= i < |pos| => cs[pos[i]].id);
    assert forall k :: 0 <= k < |cs| && k < |checked| && checked[k] ==> cs[k].id in ids by {
      forall k | 0 <= k < |cs| && k < |checked| && checked[k] ensures cs[k].id in ids {
        var i :| 0 <= i < |pos| && pos[i] == k;
        assert ids[i] == cs[k].id;
      }
    }
    assert ids != [] ==> pos[0] < |cs| && pos[0] < |checked| && checked[pos[0]];
    ids
  }

  /** At most one position per place in the range. */
  lemma {:induction false} TickedPositionsBound(checked: seq<bool>, n: nat, start: nat)
    ensures |TickedPositions(checked, n, start)| <= if start <= n then n - start else 0
    decreases n - start
  {
    if start < n && start < |checked| {
      TickedPositionsBound(checked, n, start + 1);
    }
  }

  /** answer_db_id for the current question: the id of the choice whose letter the radio
      button returned (None if none), the ticked ids ([] if none), the text, or None for a
      type the screen does not render. */
  function AnswerFromInput(q: Question, w: WidgetInput): (a: Submission)
    requires !q.kind.OpenText? ==> |q.choices| <= |Authoring.Lowercase|
    ensures q.kind.SingleChoice? ==> a.NoAnswer? || exists k :: 0 <= k < |q.choices| && a == Single(q.choices[k].id)
    ensures q.kind.SingleChoice? ==>
              && (w.radio.None? ==> a.NoAnswer?)
              && (forall k :: 0 <= k < |q.choices| && w.radio == Some(UiLabel(k)) ==> a == Single(q.choices[k].id))
              && (w.radio.Some? && (forall k :: 0 <= k < |q.choices| ==> w.radio.value != UiLabel(k)) ==> a.NoAnswer?)
    ensures q.kind.MultiSelect? ==> a == Multiple(CheckedIds(q.choices, w.checked))
    ensures q.kind.MultiSelect? ==> a.Multiple? && (a.ids == [] <==> forall k :: 0 <= k < |q.choices| && k < |w.checked| ==> !w.checked[k])
    ensures q.kind.OpenText? ==> a == Text(w.text)
    ensures q.kind.Unrecognised? ==> a.NoAnswer?
  {
    match q.kind
    case SingleChoice =>
      (match w.radio
       case None => NoAnswer
       case Some(letter) =>
         LowercaseSelect(q.choices, letter);
         LabelSelectsPosition(q.choices, letter);
         match ChoiceForLabel(q.choices, letter)
         case None => NoAnswer
         case Some(c) => Single(c.id))
    case MultiSelect => Multiple(CheckedIds(q.choices, w.checked))
    case OpenText => Text(w.text)
    case Unrecognised(_) => NoAnswer
  }

  /** Whatever letter the radio button returns, it selects nothing or one of the choices. */
  lemma LowercaseSelect(cs: seq<Choice>, letter: char)
    requires |cs| <= |Authoring.Lowercase|
    ensures ChoiceForLabel(cs, letter).None? || exists k :: 0 <= k < |cs| && ChoiceForLabel(cs, letter) == Some(cs[k])
  {
    if exists k :: 0 <= k < |cs| && letter == UiLabel(k) {
      var k :| 0 <= k < |cs| && letter == UiLabel(k);
      LabelSelectsPosition(cs, letter);
    } else {
      LabelSelectsPosition(cs, letter);
    }
  }

  // ---------------------------------------------------------------------------------------
  // The access code as typed

  /** The characters below U+0080 that str.strip() removes: space, \t to \r, and \x1c to \x1f. */
  predicate IsBlankChar(c: char)
  {
    c == ' ' || c == '\t' || c == '\n' || c == '\r' || c == '\U{000B}' || c == '\U{000C}' ||
    c == '\U{001C}' || c == '\U{001D}' || c == '\U{001E}' || c == '\U{001F}'
  }

  function StripLeading(s: string): (r: string)
    ensures |r| <= |s| && (r == [] || !IsBlankChar(r[0]))
    decreases |s|
  {
    if s != [] && IsBlankChar(s[0]) then StripLeading(s[1..]) else s
  }

  function StripTrailing(s: string): (r: string)
    ensures |r| <= |s| && (r == [] || !IsBlankChar(r[|r| - 1]))
    decreases |s|
  {
    if s != [] && IsBlankChar(s[|s| - 1]) then StripTrailing(s[..|s| - 1]) else s
  }

  function UpperAll(s: string): (r: string)
    ensures |r| == |s|
  {
    seq(|s|, i requires 0 <= i < |s| => Authoring.UpperAscii(s[i]))
  }

  /** st.text_input(...).strip().upper() */
  function NormalizeCode(s: string): string
  {
    UpperAll(StripTrailing(StripLeading(s)))
  }

  lemma {:induction false} StripLeadingPadding(pad: string, s: string)
    requires forall i :: 0 <= i < |pad| ==> IsBlankChar(pad[i])
    requires s == [] || !IsBlankChar(s[0])
    ensures StripLeading(pad + s) == s
    decreases |pad|
  {
    if pad == [] {
      assert pad + s == s;
    } else {
      assert (pad + s)[1..] == pad[1..] + s;
      StripLeadingPadding(pad[1..], s);
    }
  }

  lemma {:induction false} StripTrailingPadding(s: string, pad: string)
    requires forall i :: 0 <= i < |pad| ==> IsBlankChar(pad[i])
    requires s == [] || !IsBlankChar(s[|s| - 1])
    ensures StripTrailing(s + pad) == s
    decreases |pad|
  {
    if pad == [] {
      assert s + pad == s;
    } else {
      assert (s + pad)[..|s + pad| - 1] == s + pad[..|pad| - 1];
      StripTrailingPadding(s, pad[..|pad| - 1]);
    }
  }

  /** A generated code typed with blanks around it still looks up the quiz it was saved under. */
  lemma TypedCodeNormalizes(pad: string, code: string, pad': string)
    requires forall i :: 0 <= i < |pad| ==> IsBlankChar(pad[i])
    requires forall i :: 0 <= i < |pad'| ==> IsBlankChar(pad'[i])
    requires code != [] && forall i :: 0 <= i < |code| ==> AccessCode.IsCodeChar(code[i])
    ensures NormalizeCode(pad + code + pad') == code
  {
    var typed := pad + code + pad';
    calc {
      StripTrailing(StripLeading(typed));
      == { assert typed == pad + (code + pad'); StripLeadingPadding(pad, code + pad'); }
      StripTrailing(code + pad');
      == { StripTrailingPadding(code, pad'); }
      code;
    }
    UpperAllKeepsCode(code);
  }

  /** A quiz loaded from well-formed tables has distinct answer keys: its ids are str() of
      distinct row ids. So Attempt.LookupExact applies to the quiz a session holds, and
      every question of it is found under its own key when the attempt is scored. */
  lemma LoadedQuizKeysDistinct(t: Persistence.Tables, quizId: nat, f: seq<Persistence.FetchedSubQuiz>)
    requires Persistence.WellFormed(t) && Persistence.ValidFetch(t, quizId, f)
    ensures Attempt.DistinctKeys(Persistence.Regroup(f))
  {
    Persistence.FetchedIdsDistinct(t, quizId, f);
    forall m: nat, n: nat | DecimalString(m) == DecimalString(n) ensures m == n {
      DecimalStringInjective(m, n);
    }
    var sqs := Persistence.Regroup(f);
    forall i, j1, j2 | 0 <= i < |sqs| && 0 <= j1 < j2 < |sqs[i].questions|
      ensures sqs[i].questions[j1].id != sqs[i].questions[j2].id
    {
      assert sqs[i].questions == Persistence.QuestionsFromFetch(f[i].questions);
    }
    Attempt.DistinctIdsGiveDistinctKeys(sqs);
  }

  /** A saved quiz's code, typed with blanks around it, looks up that quiz: its id, title,
      creator and code, and a tree that matches the saved one. */
  lemma TypedCodeLoadsSavedQuiz(t: Persistence.Tables, creatorId: string, title: string, code: string,
                                sqs: seq<SubQuiz>, f: seq<Persistence.FetchedSubQuiz>, pad: string, pad': string)
    requires Persistence.WellFormed(t)
    requires forall k :: 0 <= k < |t.quizzes| ==> t.quizzes[k].accessCode != code
    requires Persistence.ValidFetch(Persistence.SaveQuizTables(t, creatorId, title, code, sqs), |t.quizzes| + 1, f)
    requires forall i :: 0 <= i < |pad| ==> IsBlankChar(pad[i])
    requires forall i :: 0 <= i < |pad'| ==> IsBlankChar(pad'[i])
    requires code != [] && forall i :: 0 <= i < |code| ==> AccessCode.IsCodeChar(code[i])
    ensures var loaded := Persistence.LoadQuiz(Persistence.SaveQuizTables(t, creatorId, title, code, sqs),
                                               NormalizeCode(pad + code + pad'), f);
            && loaded == Some(Persistence.LoadedQuiz(|t.quizzes| + 1, title, creatorId, code, Persistence.Regroup(f)))
            && Persistence.SameTree(loaded.value.subQuizzes, sqs)
  {
    TypedCodeNormalizes(pad, code, pad');
    Persistence.SaveThenLoad(t, creatorId, title, code, sqs, f);
  }

  /** upper() leaves a code of upper-case letters and digits as it is. */
  lemma UpperAllKeepsCode(code: string)
    requires forall i :: 0 <= i < |code| ==> AccessCode.IsCodeChar(code[i])
    ensures UpperAll(code) == code
  {
    forall i | 0 <= i < |code| ensures UpperAll(code)[i] == code[i] {
      assert AccessCode.IsCodeChar(code[i]);
    }
  }

  lemma {:induction false} StripLeadingIdempotent(s: string)
    ensures StripLeading(StripLeading(s)) == StripLeading(s)
    decreases |s|
  {
    if s != [] && IsBlankChar(s[0]) {
      StripLeadingIdempotent(s[1..]);
    }
  }

  lemma {:induction false} StripTrailingKeepsHead(s: string)
    requires s != [] && !IsBlankChar(s[0])
    ensures StripTrailing(s) == [] || StripTrailing(s)[0] == s[0]
    decreases |s|
  {
    if IsBlankChar(s[|s| - 1]) && |s| > 1 {
      StripTrailingKeepsHead(s[..|s| - 1]);
    }
  }

  /** strip().upper() applied twice is applied once: the code the lookup uses is already
      normal. */
  lemma NormalizeIdempotent(s: string)
    ensures NormalizeCode(NormalizeCode(s)) == NormalizeCode(s)
  {
    var t := StripTrailing(StripLeading(s));
    var u := UpperAll(t);
    if t != [] {
      var l := StripLeading(s);
      StripTrailingKeepsHead(l);
      assert !IsBlankChar(u[0]) && !IsBlankChar(u[|u| - 1]);
    }
    StripLeadingPadding([], u);
    StripTrailingPadding(u, []);
    assert [] + u == u && u + [] == u;
    assert UpperAll(u) == u;
  }

  // ---------------------------------------------------------------------------------------
  // The session

  /** current_step of quiz_to_take; Lookup is the state before quiz_to_take exists and
      Complete is mode QUIZ_COMPLETE. */
  datatype Step = Lookup | NameInput | QuizActive | Complete

  datatype LookupOutcome = NotPressed | EmptyCode | NotFound | LabelOverflow | Loaded

  /** What submit_results hands to the INSERTs into QuizTakers and Answers. */
  datatype SubmittedAttempt = SubmittedAttempt(quizId: nat, takerName: string, totalScore: nat,
                                               rows: seq<Attempt.AnswerRow>)

  /** Storing an answer keeps the recorded key order: a new key goes last, an existing key
      keeps its place. */
  lemma StoreKeepsKeyOrder(answers: map<string, Submission>, order: seq<string>, key: string, a: Submission)
    requires Attempt.IsKeyOrder(answers, order)
    ensures Attempt.IsKeyOrder(answers[key := a], if key in answers then order else order + [key])
  {
  }

  /** Pressing Next on the current question moves it from the questions ahead to the ones
      passed. */
  lemma NextKeepsWalk(sizes: seq<nat>, passed: seq<(nat, nat)>, sq: nat, q: nat)
    requires sq < |sizes| && q < sizes[sq]
    requires passed + Walk(sizes, sq, q) == Walk(sizes, 0, 0)
    ensures (passed + [(sq, q)]) + Walk(sizes, sq, q + 1) == Walk(sizes, 0, 0)
  {
    assert Walk(sizes, sq, q) == [(sq, q)] + Walk(sizes, sq, q + 1);
    assert (passed + [(sq, q)]) + Walk(sizes, sq, q + 1) == passed + ([(sq, q)] + Walk(sizes, sq, q + 1));
  }

  /** Moving to the next module when the current one has no questions left does not change
      the questions ahead. */
  lemma NextModuleKeepsWalk(sizes: seq<nat>, sq: nat, q: nat)
    requires sq < |sizes| && q >= sizes[sq]
    ensures Walk(sizes, sq, q) == Walk(sizes, sq + 1, 0)
  {
  }

  class TakerSession {
    var step: Step
    var quizId: nat
    var quizTitle: string
    var subQuizzes: seq<SubQuiz>
    var takerName: string
    var sqIndex: nat
    var qIndex: nat
    var answers: map<string, Submission>
    /** The keys of answers in insertion order, the order the dict iterates them. */
    var answerOrder: seq<string>
    var finalScore: nat
    /** The questions the taker has pressed Next on, in order. */
    ghost var passed: seq<(nat, nat)>

    ghost predicate Valid()
      reads this
    {
      && Attempt.IsKeyOrder(answers, answerOrder)
      && (step != Lookup ==> LabelsFit(subQuizzes))
      && (step == QuizActive ==>
            passed + Walk(Sizes(subQuizzes), sqIndex, qIndex) == Walk(Sizes(subQuizzes), 0, 0))
    }

    constructor()
      ensures Valid() && step == Lookup && answers == map[] && answerOrder == []
    {
      step := Lookup;
      quizId, quizTitle, subQuizzes, takerName := 0, "", [], "";
      sqIndex, qIndex := 0, 0;
      answers, answerOrder := map[], [];
      finalScore := 0;
      passed := [];
    }

    /** The lookup screen. `t` is the database and `f` the rows its queries return for the
        normalised code; `connected` and `queriesSucceed` say whether the connection opens and
        the queries run without a MySQL Error. get_quiz_by_code runs only when Find Quiz is
        pressed on a non-empty code; when it fails, the code is reported as not found. */
    method FindQuiz(typed: string, findPressed: bool, t: Persistence.Tables, f: seq<Persistence.FetchedSubQuiz>,
                    connected: bool, queriesSucceed: bool)
      returns (outcome: LookupOutcome)
      requires Valid() && step == Lookup
      modifies this
      ensures Valid()
      ensures !findPressed ==> outcome == NotPressed
      ensures findPressed && NormalizeCode(typed) == [] ==> outcome == EmptyCode
      ensures findPressed && NormalizeCode(typed) != [] ==>
                var loaded := if connected && queriesSucceed then Persistence.LoadQuiz(t, NormalizeCode(typed), f) else None;
                outcome == (if loaded.None? then NotFound
                            else if !LabelsFit(loaded.value.subQuizzes) then LabelOverflow
                            else Loaded)
      ensures outcome == Loaded ==>
                var loaded := if connected && queriesSucceed then Persistence.LoadQuiz(t, NormalizeCode(typed), f) else None;
                && loaded.Some?
                && step == NameInput && quizId == loaded.value.quizId && quizTitle == loaded.value.title
                && subQuizzes == loaded.value.subQuizzes && takerName == ""
                && answers == map[] && answerOrder == []
                && sqIndex == old(sqIndex) && qIndex == old(qIndex) && finalScore == old(finalScore)
      ensures outcome != Loaded ==> unchanged(this)
    {
      var code := NormalizeCode(typed);
      if !findPressed {
        return NotPressed;
      }
      if code == [] {
        return EmptyCode;
      }
      var loaded := Persistence.GetQuizByCode(t, code, f, connected, queriesSucceed);
      if loaded.None? {
        return NotFound;
      }
      if !LabelsFit(loaded.value.subQuizzes) {
        return LabelOverflow;
      }
      step := NameInput;
      quizId, quizTitle, subQuizzes := loaded.value.quizId, loaded.value.title, loaded.value.subQuizzes;
      takerName := "";
      answers, answerOrder := map[], [];
      outcome := Loaded;
    }

    /** The name screen: the name typed so far is kept; Start (shown only for a non-empty
        name) opens the first question of the first module. */
    method EnterName(name: string, startPressed: bool)
      requires Valid() && step == NameInput
      modifies this
      ensures Valid()
      ensures takerName == name
      ensures name != [] && startPressed ==> step == QuizActive && sqIndex == 0 && qIndex == 0 && passed == []
      ensures !(name != [] && startPressed) ==> step == NameInput && sqIndex == old(sqIndex) && qIndex == old(qIndex)
      ensures quizId == old(quizId) && quizTitle == old(quizTitle) && subQuizzes == old(subQuizzes)
      ensures answers == old(answers) && answerOrder == old(answerOrder) && finalScore == old(finalScore)
    {
      takerName := name;
      if name != [] && startPressed {
        step := QuizActive;
        sqIndex, qIndex := 0, 0;
        passed := [];
      }
    }

    /** The cursor has run past the last module: submit_results scores the stored answers
        and, if the connection opens and the commit succeeds, the session is complete. */
    method SubmitAttempt(connected: bool, commitSucceeds: bool) returns (submitted: Option<SubmittedAttempt>)
      requires Valid() && step == QuizActive && sqIndex >= |subQuizzes|
      modifies this
      ensures Valid()
      ensures quizId == old(quizId) && quizTitle == old(quizTitle) && subQuizzes == old(subQuizzes)
      ensures takerName == old(takerName) && sqIndex == old(sqIndex) && qIndex == old(qIndex)
      ensures answers == old(answers) && answerOrder == old(answerOrder) && passed == old(passed)
      ensures var rows := Attempt.AttemptRows(Attempt.QuestionLookup(subQuizzes), answers, answerOrder);
              if connected && commitSucceeds then
                && step == Complete && finalScore == Attempt.SumScores(rows)
                && submitted == Some(SubmittedAttempt(quizId, takerName, Attempt.SumScores(rows), rows))
              else step == QuizActive && finalScore == old(finalScore) && submitted.None?
    {
      submitted := None;
      if !connected {
        return;
      }
      var rows, total := Attempt.ScoreAttempt(subQuizzes, answers, answerOrder);
      if commitSucceeds {
        step := Complete;
        finalScore := total;
        submitted := Some(SubmittedAttempt(quizId, takerName, total, rows));
      }
    }

    /** The current module has no questions left: move to the first question of the next. */
    method AdvanceModule()
      requires Valid() && step == QuizActive
      requires sqIndex < |subQuizzes| && qIndex >= |subQuizzes[sqIndex].questions|
      modifies this
      ensures Valid()
      ensures sqIndex == old(sqIndex) + 1 && qIndex == 0
      ensures step == old(step) && quizId == old(quizId) && quizTitle == old(quizTitle)
      ensures subQuizzes == old(subQuizzes) && takerName == old(takerName)
      ensures answers == old(answers) && answerOrder == old(answerOrder)
      ensures finalScore == old(finalScore) && passed == old(passed)
    {
      NextModuleKeepsWalk(Sizes(subQuizzes), sqIndex, qIndex);
      sqIndex, qIndex := sqIndex + 1, 0;
    }

    /** The current question is on screen: its widget's value is stored under its answer
        key, and Next moves to the following question of the module. */
    method AnswerQuestion(input: WidgetInput, nextPressed: bool)
      requires Valid() && step == QuizActive
      requires sqIndex < |subQuizzes| && qIndex < |subQuizzes[sqIndex].questions|
      modifies this
      ensures Valid()
      ensures step == old(step) && sqIndex == old(sqIndex) && quizId == old(quizId)
      ensures quizTitle == old(quizTitle) && subQuizzes == old(subQuizzes)
      ensures qIndex == old(qIndex) + (if nextPressed then 1 else 0)
      ensures var q := subQuizzes[sqIndex].questions[old(qIndex)];
              var key := AnswerKey(subQuizzes[sqIndex].id, q.id);
              && answers == old(answers)[key := AnswerFromInput(q, input)]
              && answerOrder == (if key in old(answers) then old(answerOrder) else old(answerOrder) + [key])
      ensures takerName == old(takerName) && finalScore == old(finalScore)
    {
      var sq := subQuizzes[sqIndex];
      var q := sq.questions[qIndex];
      var key := AnswerKey(sq.id, q.id);
      QuestionLabelsFit(subQuizzes, sqIndex, qIndex);
      var answer := AnswerFromInput(q, input);
      StoreAnswer(key, answer);
      if nextPressed {
        PressNext();
      }
    }

    /** st.session_state.answers[key] = ...: the key joins the insertion order the first time. */
    method StoreAnswer(key: string, answer: Submission)
      requires Valid()
      modifies this
      ensures Valid()
      ensures answers == old(answers)[key := answer]
      ensures answerOrder == (if key in old(answers) then old(answerOrder) else old(answerOrder) + [key])
      ensures step == old(step) && sqIndex == old(sqIndex) && qIndex == old(qIndex) && passed == old(passed)
      ensures quizId == old(quizId) && quizTitle == old(quizTitle) && subQuizzes == old(subQuizzes)
      ensures takerName == old(takerName) && finalScore == old(finalScore)
    {
      StoreKeepsKeyOrder(answers, answerOrder, key, answer);
      if key !in answers {
        answerOrder := answerOrder + [key];
      }
      answers := answers[key := answer];
    }

    /** The Next button: the cursor moves to the following question of the module. */
    method PressNext()
      requires Valid() && step == QuizActive
      requires sqIndex < |subQuizzes| && qIndex < |subQuizzes[sqIndex].questions|
      modifies this
      ensures Valid()
      ensures qIndex == old(qIndex) + 1
      ensures step == old(step) && sqIndex == old(sqIndex) && answers == old(answers) && answerOrder == old(answerOrder)
      ensures quizId == old(quizId) && quizTitle == old(quizTitle) && subQuizzes == old(subQuizzes)
      ensures takerName == old(takerName) && finalScore == old(finalScore)
    {
      NextKeepsWalk(Sizes(subQuizzes), passed, sqIndex, qIndex);
      passed := passed + [(sqIndex, qIndex)];
      qIndex := qIndex + 1;
    }

    /** Start New Quiz on the completion screen deletes quiz_to_take and final_score and sets
        mode HOME. With quiz_to_take gone, the next Take Quiz opens the lookup screen, which
        Lookup stands for. */
    method StartNewQuiz()
      requires Valid() && step == Complete
      modifies this
      ensures Valid() && step == Lookup && answers == map[] && answerOrder == [] && finalScore == 0
    {
      step := Lookup;
      answers, answerOrder := map[], [];
      finalScore := 0;
    }

    /** One rerun of the QUIZ_ACTIVE screen: which of the three it does depends only on the
        cursor. `input` holds the values of the current question's widget; `connected` and
        `commitSucceeds` say how the database behaves if the attempt is submitted. */
    method Render(input: WidgetInput, nextPressed: bool, connected: bool, commitSucceeds: bool)
      returns (submitted: Option<SubmittedAttempt>)
      requires Valid() && step == QuizActive
      modifies this
      ensures Valid()
      ensures subQuizzes == old(subQuizzes) && quizId == old(quizId) && quizTitle == old(quizTitle)
      ensures takerName == old(takerName)
      ensures PhaseAt(Sizes(subQuizzes), old(sqIndex), old(qIndex)) != Submit ==>
                step == QuizActive && submitted.None? && finalScore == old(finalScore)
      ensures submitted.Some? ==> step == Complete && submitted.value.totalScore == finalScore
      ensures PhaseAt(Sizes(subQuizzes), old(sqIndex), old(qIndex)) == Submit ==>
                && sqIndex == old(sqIndex) && qIndex == old(qIndex)
                && answers == old(answers) && answerOrder == old(answerOrder)
                && var rows := Attempt.AttemptRows(Attempt.QuestionLookup(subQuizzes), answers, answerOrder);
                   if connected && commitSucceeds then
                     && step == Complete && finalScore == Attempt.SumScores(rows)
                     && submitted == Some(SubmittedAttempt(quizId, takerName, Attempt.SumScores(rows), rows))
                   else step == QuizActive && finalScore == old(finalScore) && submitted.None?
      ensures PhaseAt(Sizes(subQuizzes), old(sqIndex), old(qIndex)) == NextModule ==>
                && sqIndex == old(sqIndex) + 1 && qIndex == 0
                && answers == old(answers) && answerOrder == old(answerOrder)
      ensures PhaseAt(Sizes(subQuizzes), old(sqIndex), old(qIndex)) == ShowQuestion ==>
                && old(sqIndex) < |subQuizzes| && old(qIndex) < |subQuizzes[old(sqIndex)].questions|
                && sqIndex == old(sqIndex) && qIndex == old(qIndex) + (if nextPressed then 1 else 0)
                && var q := subQuizzes[sqIndex].questions[old(qIndex)];
                   var key := AnswerKey(subQuizzes[sqIndex].id, q.id);
                   && answers == old(answers)[key := AnswerFromInput(q, input)]
                   && answerOrder == (if key in old(answers) then old(answerOrder) else old(answerOrder) + [key])
    {
      submitted := None;
      if sqIndex >= |subQuizzes| {
        submitted := SubmitAttempt(connected, commitSucceeds);
      } else if qIndex >= |subQuizzes[sqIndex].questions| {
        AdvanceModule();
      } else {
        AnswerQuestion(input, nextPressed);
      }
    }
  }

  /** Once the attempt is submitted, the questions passed are every question of the quiz, each
      once, in walking order. */
  lemma SubmittedAfterEveryQuestion(sizes: seq<nat>, passed: seq<(nat, nat)>, sq: nat, q: nat)
    requires passed + Walk(sizes, sq, q) == Walk(sizes, 0, 0)
    requires PhaseAt(sizes, sq, q) == Submit
    ensures passed == Walk(sizes, 0, 0)
    ensures |passed| == TotalQuestions(sizes)
    ensures forall p :: IsPosition(sizes, p) ==> p in passed
    ensures forall k, k' :: 0 <= k < k' < |passed| ==> Before(passed[k], passed[k'])
  {
    assert passed + [] == passed;
    WalkVisitsEveryQuestionOnce(sizes);
  }
}

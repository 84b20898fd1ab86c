# Quiz app: a verified model of its core

`Quiz_app/main.py` is a Streamlit application backed by MySQL. A creator builds a quiz out of
modules ("sub-quizzes"). Each module holds questions of type SINGLE_CHOICE, MULTI_SELECT or
OPEN_TEXT, and each question carries points and a list of choices. Saving writes the quiz to
four tables and hands out a six-character access code. A taker types the code and then a name,
answers the questions one at a time, and submits. The answers are then scored and stored.

This Dafny project models those pieces and proves properties about them:

- `quiz_model.dfy` (module `QuizModel`) holds the quiz tree as values: `Choice`, `Question`,
  `SubQuiz` and the `Submission` variant. A submission is one id, a list of ids, a text, or no
  answer. The module also defines `str(i)` on naturals and the `"<module id>_<question id>"`
  answer key.
- `string_order.dfy` (module `StringOrder`) gives Python's ordering of strings and `sorted()`.
  The multi-select comparison relies on these.
- `scoring.dfy` (module `Scoring`) is `score_answer`.
- `access_code.dfy` (module `AccessCode`) is `generate_access_code`. The random draws are a
  parameter.
- `authoring.dfy` (module `Authoring`) holds the default builders. It also has the class
  `QuizDraft` for the edits `create_quiz_mode` makes to the quiz in the session.
- `persistence.dfy` (module `Persistence`) covers the four tables and the row-insert loops of
  `save_quiz`. It models the queries and the regrouping of `get_quiz_by_code`, and proves the
  round trip from a save to a load.
- `attempt.dfy` (module `Attempt`) is the scoring half of `submit_results`: the question lookup,
  one answer row per matched answer, and the total score.
- `session.dfy` (module `Session`) is `taker_mode`. It has the lookup and name screens, and the
  cursor over modules and questions with its progress counter. It also covers the choice
  labels, the answer read from the current widget, and submission. All of this lives in the
  class `TakerSession`.

The database is a value of type `Persistence.Tables`.

- AUTO_INCREMENT ids are modelled as the row's position plus one. This holds while no insert
  is ever rolled back (see "Left out").
- A query with `ORDER BY Order_Index` may return the matching rows in any order sorted by that
  column. `IsOrderedSelection` states this.
- The choice query has no `ORDER BY`, so for it only the multiset of rows is fixed.
- The rows a load returns are therefore a parameter, constrained by `ValidFetch`.

## Model

| member | source | states |
|---|---|---|
| QuizModel.DecimalString | Quiz_app/main.py:47 | `str(i)` is a non-empty string of decimal digits, and has at least two digits from 10 on |
| QuizModel.DecimalStringInjective | Quiz_app/main.py:364-365 | different numbers give different `str()` ids, so the ids `len + 1` that new modules and questions get never repeat |
| QuizModel.AnswerKeyInjective | Quiz_app/main.py:529 | for digit-only ids, the key `"<module id>_<question id>"` determines both ids |
| StringOrder.SortEqualIffSameElements | Quiz_app/main.py:80-82 | `sorted(a) == sorted(b)` holds exactly when a and b hold the same strings with the same multiplicities |
| StringOrder.SortedUnique | Quiz_app/main.py:80-81 | at most one sorted list exists with given elements |
| Scoring.FirstCorrectId | Quiz_app/main.py:73 | `next(...)` yields the id of the first choice marked correct, or None when no choice is |
| Scoring.ScoreAnswer | Quiz_app/main.py:66-91 | TypeError exactly for a MULTI_SELECT question with no answer, because `sorted(None)` raises; otherwise the score is the points when correct and 0 when not; OPEN_TEXT and an unknown type always give (0, False) |
| Scoring.SingleChoiceScoring | Quiz_app/main.py:71-76 | a single choice earns (points, True) exactly when the submitted id is the id of the first correct choice, and (0, False) otherwise |
| Scoring.SingleChoiceLaterCorrectChoiceFails | Quiz_app/main.py:73-74 | a correct choice after the first correct one, with a different id, scores (0, False) |
| Scoring.SingleChoiceNoneMatchesOnlyWithoutCorrectChoice | Quiz_app/main.py:73-76 | called on its own, no answer counts as correct exactly when the question has no correct choice (None == None) |
| Scoring.MultiSelectScoring | Quiz_app/main.py:78-84 | a list of ids earns full points exactly when it holds the correct ids with the same multiplicities |
| Scoring.SubmissionOrderIrrelevant | Quiz_app/main.py:80-82 | reordering the submitted ids never changes the outcome, for any question type |
| Scoring.MultiSelectExtraIdFails | Quiz_app/main.py:80-84 | one id more than a full-credit submission, a duplicate included, gives (0, False) |
| Scoring.MultiSelectMissingIdFails | Quiz_app/main.py:80-84 | leaving out one correct id gives (0, False) |
| AccessCode.GenerateAccessCode | Quiz_app/main.py:39-42 | the code has the requested length and uses only upper-case letters and digits |
| AccessCode.EveryCodeIsReachable | Quiz_app/main.py:39-42 | every string of that length over that alphabet comes from some sequence of draws |
| Authoring.GenerateQuestion | Quiz_app/main.py:44-56 | a default question has id `str(i)`, is SINGLE_CHOICE, is worth 1 point, and has distinct choice ids with at least two choices, one of them correct |
| Authoring.GenerateSubQuiz | Quiz_app/main.py:58-64 | a default module has id `str(i)` and holds exactly one default question, numbered 1 |
| Authoring.DefaultQuestionScoring | Quiz_app/main.py:44-56 | a default question scores (1, True) for the answer "a" and (0, False) for every other answer |
| Authoring.WithQuestionKeepsInvariant | Quiz_app/main.py:386-425 | editing one question's text, type, points or choices keeps the module numbering and the question numbering |
| Authoring.QuizDraft.constructor | Quiz_app/main.py:331-335 | a new draft has the default title and one default module |
| Authoring.QuizDraft.AddSubQuiz | Quiz_app/main.py:363-365 | appends a default module numbered `len + 1` and changes nothing else |
| Authoring.QuizDraft.AddQuestion | Quiz_app/main.py:376-378 | appends a default question numbered `len + 1` to one module and changes nothing else |
| Authoring.QuizDraft.EnsureTwoChoices | Quiz_app/main.py:396-405 | a choice question with fewer than two choices gets the two regenerated choices, neither marked correct; nothing else changes |
| Authoring.QuizDraft.AddChoice | Quiz_app/main.py:408-412 | a choice question gets one more choice, not correct, whose id is the drawn letter and whose text is "Choice " plus that letter in upper case |
| Authoring.QuizDraft.DeleteChoice | Quiz_app/main.py:423-424 | removes exactly the choice at that position |
| Authoring.QuizDraft.SetQuestionKind | Quiz_app/main.py:391-393 | changes only the type; OPEN_TEXT keeps its choices in the draft |
| Authoring.QuizDraft.SetPoints | Quiz_app/main.py:388 | changes only the points, which stay within 1 to 10 |
| Authoring.QuizDraft.SetChoiceCorrect | Quiz_app/main.py:396-419 | for a choice question, changes only the correctness flag of one choice; an OPEN_TEXT question, whose checkboxes are not shown, is left as it is |
| Persistence.Bit | Quiz_app/main.py:221 | `1 if is_correct else 0` is a flag that `bool()` turns back into the same value |
| Persistence.Where | Quiz_app/main.py:133 | `WHERE` returns only rows of the table that have the wanted column value, and every such row |
| Persistence.WhereCounts | Quiz_app/main.py:133 | each matching row is returned as many times as the table holds it, and no other row is returned |
| Persistence.WhereAppend | Quiz_app/main.py:133 | selecting from the table with a row appended is the old selection followed by that row, if it matches |
| Persistence.InsertQuestionKeepsShape | Quiz_app/main.py:213-222 | one question's INSERTs append its row with Order_Index = its position; they append one choice row per choice, each pointing at the new question, and none for OPEN_TEXT; the table stays well-formed |
| Persistence.InsertQuestionsStores | Quiz_app/main.py:211-222 | the questions of a module are stored in list order: text, type, points, Order_Index = position, and their choices |
| Persistence.InsertSubQuizzesStores | Quiz_app/main.py:206-222 | the modules of a quiz are stored in list order with Order_Index = position, each with its questions |
| Persistence.SaveQuizStores | Quiz_app/main.py:199-222 | saving appends the quiz row and stores the whole tree under it; earlier rows are unchanged, every new module row points at the new quiz, every new question row at a new module and every new choice row at a new question; the tables stay well-formed |
| Persistence.SaveKeepsOtherQuizzes | Quiz_app/main.py:199-222 | after a save, the SELECTs for an earlier quiz's modules, an earlier module's questions and an earlier question's choices return the same rows as before |
| Persistence.SaveChoices | Quiz_app/main.py:219-222 | the choice loop inserts what `InsertChoices` describes |
| Persistence.SaveQuestions | Quiz_app/main.py:211-222 | the question loop inserts what `InsertQuestions` describes |
| Persistence.SaveSubQuizzes | Quiz_app/main.py:206-222 | the module loop inserts what `InsertSubQuizzes` describes |
| Persistence.SaveQuiz | Quiz_app/main.py:186-235 | on commit, the tables are `SaveQuizTables` under the generated code and the session's creator id; on an error the rollback leaves the tables unchanged |
| Persistence.FindQuizByCode | Quiz_app/main.py:123-126 | a quiz row with the code, and no earlier row in table order has it; None exactly when no row has it |
| Persistence.OrderedSelectionIsUnique | Quiz_app/main.py:133-142 | when the stored Order_Index values are 0, 1, 2, ..., an `ORDER BY Order_Index` result is the stored rows in order |
| Persistence.RowContentsPermutation | Quiz_app/main.py:157 | rows returned in any order carry the same choice texts and flags |
| Persistence.LoadedTreeMatches | Quiz_app/main.py:133-172 | the tree rebuilt from a stored quiz has its modules and questions in order, the same texts, types and points, an empty choice list for OPEN_TEXT, and the same choices as a multiset |
| Persistence.SaveThenLoad | Quiz_app/main.py:123-222 | for a code no earlier quiz has, loading after a save finds the new quiz with its title, creator and code; the tree it rebuilds matches the saved one, up to ids and choice order |
| Persistence.TableOrderFetchIsValid | Quiz_app/main.py:133-158 | the fetch that returns rows in table order is one the queries may return, so `SaveThenLoad` applies to at least one fetch |
| Persistence.RegroupChoices | Quiz_app/main.py:160-168 | the choice loop builds `ChoicesFromRows` |
| Persistence.RegroupQuestions | Quiz_app/main.py:145-170 | the question loop builds `QuestionsFromFetch` |
| Persistence.RegroupSubQuizzes | Quiz_app/main.py:136-172 | the module loop builds `Regroup` |
| Persistence.GetQuizByCode | Quiz_app/main.py:112-181 | None when the connection does not open or a query raises a MySQL Error; otherwise what `LoadQuiz` describes, None when no quiz has the code |
| Persistence.SelectedIdsDistinct | Quiz_app/main.py:133-148 | rows of a table numbered by AUTO_INCREMENT, selected by a WHERE and returned in any order, have distinct ids |
| Persistence.FetchedIdsDistinct | Quiz_app/main.py:133-148 | in what the queries return from well-formed tables, module ids are distinct, and so are question ids within a module |
| Attempt.ModuleLookupSpec | Quiz_app/main.py:261-265 | each question of a module is in the lookup under its key, and every key maps to a question with that key |
| Attempt.LookupSpec | Quiz_app/main.py:261-265 | every question of the quiz can be looked up by its key, and every key looks up a question of the quiz with that key |
| Attempt.LookupExact | Quiz_app/main.py:261-265 | when keys are distinct, a key looks up exactly its own question |
| Attempt.DistinctIdsGiveDistinctKeys | Quiz_app/main.py:264 | distinct digit-only module ids and distinct question ids within each module give distinct keys |
| Attempt.DraftKeysDistinct | Quiz_app/main.py:363-378 | the numbering the draft edits keep ("1", "2", ... per level) gives distinct answer keys |
| Attempt.BuildQuestionLookup | Quiz_app/main.py:261-265 | the two loops build `QuestionLookup` |
| Attempt.AnswerRowFor | Quiz_app/main.py:272-289 | no answer or `[]` gives "N/A", incorrect, score 0; any other answer is scored by `score_answer` without raising; the score is 0 or the points |
| Attempt.MatchedKeys | Quiz_app/main.py:268-270 | a key is matched exactly when it is answered and known to the lookup |
| Attempt.MatchedKeysDistinct | Quiz_app/main.py:268 | every matched key appears once |
| Attempt.AttemptRowsAreMatched | Quiz_app/main.py:268-290 | one row per matched answer, in iteration order; keys the lookup does not know are skipped |
| Attempt.ScoreAttempt | Quiz_app/main.py:257-291 | the loop returns the rows `AttemptRows` describes, and `total_score` is the sum of their scores |
| Attempt.TotalIndependentOfOrder | Quiz_app/main.py:268-280 | the total does not depend on the order in which the answers are iterated |
| Attempt.TotalAtMostPoints | Quiz_app/main.py:268-291 | the `total_score` of an attempt is at most the summed points of the answered questions the lookup knows |
| Attempt.DefaultQuizAttempt | Quiz_app/main.py:259-291 | two default modules and three answers (right, wrong, unknown key) give two rows and a total of 1 |
| Session.ProgressBelowTotal | Quiz_app/main.py:520-521 | while a current question exists, `questions_completed < total_questions` |
| Session.CompletedIncreasing | Quiz_app/main.py:521 | the progress number strictly increases in module-then-question order |
| Session.ProgressExample | Quiz_app/main.py:520-521 | modules of sizes [3, 2] with the cursor at (1, 1) give 4 of 5 |
| Session.WalkVisitsEveryQuestionOnce | Quiz_app/main.py:502-564 | from (0, 0), pressing Next on every question shows each question exactly once, in module-then-question order; the k-th question shown is numbered k |
| Session.SubmittedAfterEveryQuestion | Quiz_app/main.py:502-505 | when submission comes, the questions passed are exactly all questions, each once, in order |
| Session.NextKeepsWalk | Quiz_app/main.py:563-564 | Next moves the current question from the ones ahead to the ones passed |
| Session.NextModuleKeepsWalk | Quiz_app/main.py:510-513 | skipping to the next module leaves the questions ahead unchanged |
| Session.LabelSelectsPosition | Quiz_app/main.py:544-547 | the label `ascii_lowercase[k]` selects the choice at position k; a letter past the last choice selects none |
| Session.TickedPositions | Quiz_app/main.py:551-553 | exactly the ticked positions of the range, each once, in ascending order |
| Session.CheckedIds | Quiz_app/main.py:549-555 | one id per ticked position; every ticked choice's id is in the list and every id in it belongs to a ticked choice; empty exactly when nothing is ticked |
| Session.AnswerFromInput | Quiz_app/main.py:530-558 | SINGLE_CHOICE: no radio value gives None, the letter `ascii_lowercase[k]` gives the id of choice k, and a letter past the last choice gives None; MULTI_SELECT gives the list `CheckedIds` describes, empty exactly when nothing is ticked; OPEN_TEXT gives the text; any other type gives None |
| Session.TypedCodeNormalizes | Quiz_app/main.py:450 | a generated code typed with blanks around it normalises to itself |
| Session.NormalizeIdempotent | Quiz_app/main.py:450 | `strip().upper()` applied twice equals it applied once |
| Session.StoreKeepsKeyOrder | Quiz_app/main.py:561 | storing an answer keeps the dict's iteration order: a new key goes last, an existing key keeps its place |
| Session.TakerSession.constructor | Quiz_app/main.py:447 | a session starts on the lookup screen with no answers |
| Session.TakerSession.FindQuiz | Quiz_app/main.py:447-483 | Find Quiz outcomes: nothing happens until pressed; an empty code warns; a code `LoadQuiz` does not find in the tables, a connection that does not open or a MySQL Error all give "No quiz found"; more than 26 choices raise IndexError; otherwise the loaded quiz is kept for the taker, with an empty name and no answers, and the name screen is next; only that last case changes state |
| Session.LoadedQuizKeysDistinct | Quiz_app/main.py:136-172 | a quiz loaded from well-formed tables has distinct answer keys, so scoring finds each of its questions under its own key |
| Session.TypedCodeLoadsSavedQuiz | Quiz_app/main.py:450-453 | after a save, the new quiz's code typed with blanks around it loads that quiz, with a tree matching the saved one |
| Session.TakerSession.EnterName | Quiz_app/main.py:485-493 | the name is kept; Start with a non-empty name opens question (0, 0) |
| Session.TakerSession.SubmitAttempt | Quiz_app/main.py:240-322 | past the last module, the attempt is scored; if the connection opens and the commit succeeds, the session is complete with `final_score` set to the total, and the rows are handed over for insertion; otherwise nothing changes |
| Session.TakerSession.AdvanceModule | Quiz_app/main.py:510-513 | past a module's last question: module index + 1, question index 0, nothing else changes |
| Session.TakerSession.AnswerQuestion | Quiz_app/main.py:517-565 | stores the widget's answer under the question's key; a new key goes last in order, a rewritten key keeps its place, other keys are unchanged; Next adds 1 to the question index only |
| Session.TakerSession.StoreAnswer | Quiz_app/main.py:561 | the answer is stored under its key; a new key goes last in the iteration order, a rewritten one keeps its place; the cursor and the rest of the session are unchanged |
| Session.TakerSession.PressNext | Quiz_app/main.py:563-564 | Next Question adds 1 to the question index and changes nothing else the program can see |
| Session.TakerSession.StartNewQuiz | Quiz_app/main.py:574-579 | Start New Quiz deletes the attempt and the final score; mode becomes HOME, and the next Take Quiz opens the lookup screen |
| Session.TakerSession.Render | Quiz_app/main.py:495-565 | one rerun of the active screen, chosen by the cursor alone. Past the last module it submits: on commit the session is complete with the scored rows and their total as the final score, otherwise nothing changes. Past a module's last question it moves to the next module's first question. Otherwise it stores the widget's answer under the question's key and, on Next, moves to the next question. The quiz, the name and the other answers are unchanged |

## Left out

- MySQL plumbing is not modelled. This covers `get_db_connection`, cursors, `lastrowid`, transactions and `NOW()`. Whether the connection opens, whether a commit succeeds and whether the load's queries run without a MySQL Error are boolean parameters. For a save, a connection that does not open falls under the failed commit, since both leave the tables unchanged. The rows a load returns are a parameter constrained by what the queries guarantee.
- `get_quiz_list` and `view_results_mode` are read-only display code and are not modelled.
- The INSERTs of `submit_results` are not modelled. `SubmitAttempt` hands back the rows and the total they would store.
- Streamlit widgets, reruns, toasts, balloons, the progress bar and the `main` dispatcher are not modelled. Widget values are parameters (`WidgetInput`, button flags). The float ratio at line 523 is replaced by the integer counts.
- `random.choice` / `random.choices` draws are parameters (`picks`, `pick`). The unused `choice_internal_id` at line 163 is not modelled.
- `json.dumps` / `json.loads` (lines 175, 456) are taken to be the identity on the tree.
- AccessCode.GenerateAccessCode: uniqueness of codes is not claimed. Nothing checks it at lines 200-202, and with a duplicate code the lookup may return any of the matching quizzes.
- Persistence.FindQuizByCode: the header SELECT (lines 123-126) has no ORDER BY, so MySQL may return any row with the code. The model takes the first in table order.
- Attempt.AnswerRowFor: the question id is kept as its decimal string instead of `int(q_data['id'])`.
- Attempt.SubmittedText: this is `str()` of the answer with list items quoted. It does not model the escaping Python's `repr` applies to quotes and backslashes.
- Session.NormalizeCode: `strip()` removes the characters below U+0080 that Python counts as whitespace (space, `\t` to `\r`, `\x1c` to `\x1f`). Whitespace from U+0080 on and non-ASCII case mapping are not modelled.
- Persistence.FindQuizByCode: it compares codes exactly. MySQL's default case-insensitive collation is not modelled.
- `all_questions_map` in `submit_results` (lines 250-255) is filled but never read, so it is not modelled.
- A string submitted to a MULTI_SELECT question is compared by its characters, as `sorted(str)` does. The taking screen never produces one.
- Four behaviours of the code that the model follows:
  - Cursor indices are set by Start (lines 490-492), not when the quiz is found.
  - The regenerated choices (lines 402-405) are both marked incorrect.
  - A question switched to OPEN_TEXT keeps its choices in the draft; only saving leaves them out.
  - `save_quiz` (lines 186-235) never validates the quiz before saving. A choice question with no correct choice, for example, is saved as it is.
- Persistence.SaveQuiz: a rolled-back save leaves no rows behind, but InnoDB does not hand back the AUTO_INCREMENT ids it used. The model assumes no insert is ever rolled back, so ids stay equal to position plus one; it does not capture the gaps a failed save leaves.
- Session.TakerSession.SubmitAttempt: the model merges the app's `mode` into the taker step, so a successful submission is final. In the program, a successful submit (lines 313-315) sets only `mode` and `final_score`. `quiz_to_take` stays at QUIZ_ACTIVE with the module index past the end. The sidebar's Take Quiz button (lines 676-684), pressed directly or after Home, re-enters `taker_mode`, which calls `submit_results` again and stores a second QuizTakers row with its Answers. The model does not capture this re-submission.
- Session.TakerSession.FindQuiz: a quiz with more than 26 choices on one question makes `ascii_lowercase[idx]` raise IndexError. This is modelled as the outcome `LabelOverflow` with no state change.

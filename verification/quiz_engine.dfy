/**
 * The quiz engine: one question at a time, select an option, submit it, move
 * on, and see a banded result at the end. The state is the six pieces of
 * component state; each handler is a pure function from state to state.
 *
 * The handlers guard less than the page does. `handleOptionSelect` does not
 * check that the option belongs to the question, and `handleNextQuestion`
 * does not check that the answer was submitted: the page only ever renders
 * the radio items of the current question, and renders the Next button only
 * after submission. The handlers are modelled as written; what the page
 * offers is the separate predicate `Enabled`, and `Step` applies an action
 * only when it is enabled.
 */
module QuizEngine {
  import opened Wrappers

  /** An option as the engine sees it; its label is display text. */
  datatype Choice = Choice(id: string)

  /** A question as the engine sees it: the question text and the explanation are display text. */
  datatype Question = Question(id: string, options: seq<Choice>, correct: string)

  /** The component state: index, selection (`null` is None), submitted flag, score, answers by question id, completed flag. */
  datatype Quiz = Quiz(
    index: nat,
    selected: Option<string>,
    submitted: bool,
    score: nat,
    answers: map<string, string>,
    completed: bool)

  /** The initial `useState` values. */
  const Init: Quiz := Quiz(0, None, false, 0, map[], false)

  predicate OptionIdsUnique(question: Question) {
    forall i, j :: 0 <= i < j < |question.options| ==> question.options[i].id != question.options[j].id
  }

  predicate HasOption(question: Question, id: string) {
    exists i :: 0 <= i < |question.options| && question.options[i].id == id
  }

  /**
   * What the page needs of its question list: at least one question (it
   * renders `questions[0]` at once), distinct question ids (answers are keyed
   * by them), distinct non-empty option ids, and a correct id among them.
   */
  predicate WellFormedQuestion(question: Question) {
    OptionIdsUnique(question)
    && (forall i :: 0 <= i < |question.options| ==> question.options[i].id != "")
    && HasOption(question, question.correct)
  }

  predicate DistinctIds(qs: seq<Question>) {
    forall i, j :: 0 <= i < j < |qs| ==> qs[i].id != qs[j].id
  }

  predicate WellFormed(qs: seq<Question>) {
    |qs| > 0
    && DistinctIds(qs)
    && (forall i :: 0 <= i < |qs| ==> WellFormedQuestion(qs[i]))
  }

  /** JavaScript truthiness of `selectedOptionId`: neither `null` nor the empty string. */
  predicate HasSelection(q: Quiz) {
    q.selected.Some? && q.selected.value != ""
  }

  /** `handleOptionSelect`: the selection changes only before submission. */
  function SelectOption(q: Quiz, id: string): (r: Quiz)
    ensures q.submitted ==> r == q
    ensures !q.submitted ==> r.selected == Some(id)
    ensures r.(selected := q.selected) == q
  {
    if !q.submitted then q.(selected := Some(id)) else q
  }

  /** `handleSubmitAnswer`. */
  function SubmitAnswer(qs: seq<Question>, q: Quiz): (r: Quiz)
    requires q.index < |qs|
    ensures !HasSelection(q) || q.submitted ==> r == q
    ensures HasSelection(q) && !q.submitted ==>
      && r.submitted
      && r.answers == q.answers[qs[q.index].id := q.selected.value]
      && (r.score == q.score + 1 <==> q.selected.value == qs[q.index].correct)
      && (r.score == q.score <==> q.selected.value != qs[q.index].correct)
      && r.(submitted := false, answers := q.answers, score := q.score) == q
  {
    if !HasSelection(q) || q.submitted then q
    else
      var question := qs[q.index];
      var sel := q.selected.value;
      q.(submitted := true,
         answers := q.answers[question.id := sel],
         score := if sel == question.correct then q.score + 1 else q.score)
  }

  /** `handleNextQuestion`: the new state, and the `onComplete(score, total)` call when there is one. */
  function NextQuestion(qs: seq<Question>, q: Quiz): (r: (Quiz, Option<(nat, nat)>))
    ensures q.index + 1 < |qs| ==>
      r.1 == None && r.0 == q.(index := q.index + 1, selected := None, submitted := false)
    ensures q.index + 1 >= |qs| ==>
      r.1 == Some((q.score, |qs|)) && r.0 == q.(completed := true)
  {
    if q.index < |qs| - 1 then (q.(index := q.index + 1, selected := None, submitted := false), None)
    else (q.(completed := true), Some((q.score, |qs|)))
  }

  /** `handleRestartQuiz`: every field back to its initial value. */
  function RestartQuiz(q: Quiz): (r: Quiz)
    ensures r.index == 0 && r.selected == None && !r.submitted
    ensures r.score == 0 && r.answers == map[] && !r.completed
  {
    Init
  }

  datatype Action = Select(id: string) | Submit | Next | Restart

  /**
   * What the page lets the user do: the radio items of the current question
   * before submission, Submit when something is selected (the button is
   * disabled otherwise), Next after submission, Restart on the results screen.
   */
  predicate Enabled(qs: seq<Question>, q: Quiz, a: Action)
    requires q.index < |qs|
  {
    match a
    case Select(id) => !q.completed && !q.submitted && HasOption(qs[q.index], id)
    case Submit => !q.completed && !q.submitted && HasSelection(q)
    case Next => !q.completed && q.submitted
    case Restart => q.completed
  }

  /** One user action, applied only when the page offers it. */
  function Step(qs: seq<Question>, q: Quiz, a: Action): (r: Quiz)
    requires q.index < |qs|
    ensures !Enabled(qs, q, a) ==> r == q
  {
    if !Enabled(qs, q, a) then q
    else match a
      case Select(id) => SelectOption(q, id)
      case Submit => SubmitAnswer(qs, q)
      case Next => NextQuestion(qs, q).0
      case Restart => RestartQuiz(q)
  }

  /** Whether the recorded answer to `question` is its correct option. */
  predicate AnsweredCorrectly(question: Question, answers: map<string, string>) {
    question.id in answers && answers[question.id] == question.correct
  }

  /** How many of the first `n` questions have their correct option recorded. */
  function CorrectCount(qs: seq<Question>, answers: map<string, string>, n: nat): (c: nat)
    requires n <= |qs|
    ensures c <= n
  {
    if n == 0 then 0
    else CorrectCount(qs, answers, n - 1) + (if AnsweredCorrectly(qs[n - 1], answers) then 1 else 0)
  }

  /** How many questions have been submitted: those before the current one, and the current one once submitted. */
  function Answered(q: Quiz): nat {
    q.index + (if q.submitted then 1 else 0)
  }

  function AnsweredIds(qs: seq<Question>, n: nat): set<string>
    requires n <= |qs|
  {
    set i | 0 <= i < n :: qs[i].id
  }

  /**
   * The invariant of the quiz: the index stays on a question, the results
   * screen comes only after the last question is submitted, exactly the
   * submitted questions have a recorded answer, the current question's
   * recorded answer is the selection, and the score counts the correct ones.
   */
  predicate Inv(qs: seq<Question>, q: Quiz) {
    && q.index < |qs|
    && (q.completed ==> q.submitted && q.index == |qs| - 1)
    && (q.submitted ==> HasSelection(q) && qs[q.index].id in q.answers && q.answers[qs[q.index].id] == q.selected.value)
    && q.answers.Keys == AnsweredIds(qs, Answered(q))
    && q.score == CorrectCount(qs, q.answers, Answered(q))
  }

  lemma InitInv(qs: seq<Question>)
    requires WellFormed(qs)
    ensures Inv(qs, Init)
    ensures Inv(qs, RestartQuiz(Init))
  {
    assert AnsweredIds(qs, 0) == {};
  }

  /** Changing answers only for ids outside the first `n` questions leaves the count alone. */
  lemma {:induction false} CorrectCountFrame(qs: seq<Question>, a: map<string, string>, b: map<string, string>, n: nat)
    requires n <= |qs|
    requires forall i :: 0 <= i < n ==> (qs[i].id in a <==> qs[i].id in b)
    requires forall i :: 0 <= i < n && qs[i].id in a ==> a[qs[i].id] == b[qs[i].id]
    ensures CorrectCount(qs, a, n) == CorrectCount(qs, b, n)
  {
    if n > 0 {
      CorrectCountFrame(qs, a, b, n - 1);
    }
  }

  lemma AnsweredIdsSnoc(qs: seq<Question>, n: nat)
    requires n < |qs|
    ensures AnsweredIds(qs, n + 1) == AnsweredIds(qs, n) + {qs[n].id}
  {
    assert qs[n].id in AnsweredIds(qs, n + 1);
  }

  /** Submitting when enabled keeps the invariant and scores exactly the current question. */
  lemma SubmitInv(qs: seq<Question>, q: Quiz)
    requires WellFormed(qs) && Inv(qs, q) && Enabled(qs, q, Submit)
    ensures Inv(qs, SubmitAnswer(qs, q))
  {
    var r := SubmitAnswer(qs, q);
    SubmitFields(qs, q);
    SubmitKeys(qs, q);
    SubmitScore(qs, q);
    assert Answered(r) == q.index + 1;
    assert r.index < |qs|;
    assert r.completed ==> r.submitted && r.index == |qs| - 1;
    assert r.submitted ==> HasSelection(r) && qs[r.index].id in r.answers && r.answers[qs[r.index].id] == r.selected.value;
    assert r.answers.Keys == AnsweredIds(qs, Answered(r));
    assert r.score == CorrectCount(qs, r.answers, Answered(r));
  }

  lemma SubmitFields(qs: seq<Question>, q: Quiz)
    requires q.index < |qs| && !q.submitted && !q.completed && HasSelection(q)
    ensures var r := SubmitAnswer(qs, q);
      && r.index == q.index && r.submitted && !r.completed && HasSelection(r)
      && qs[q.index].id in r.answers && r.answers[qs[q.index].id] == r.selected.value
  {
  }

  lemma SubmitKeys(qs: seq<Question>, q: Quiz)
    requires q.index < |qs| && !q.submitted && HasSelection(q)
    requires q.answers.Keys == AnsweredIds(qs, q.index)
    ensures SubmitAnswer(qs, q).answers.Keys == AnsweredIds(qs, q.index + 1)
  {
    AnsweredIdsSnoc(qs, q.index);
  }

  lemma SubmitScore(qs: seq<Question>, q: Quiz)
    requires q.index < |qs| && !q.submitted && HasSelection(q) && DistinctIds(qs)
    requires q.score == CorrectCount(qs, q.answers, q.index)
    ensures SubmitAnswer(qs, q).score == CorrectCount(qs, SubmitAnswer(qs, q).answers, q.index + 1)
  {
    var r := SubmitAnswer(qs, q);
    var n := q.index;
    forall i | 0 <= i < n ensures qs[i].id != qs[n].id {
    }
    CorrectCountFrame(qs, q.answers, r.answers, n);
  }

  /** Advancing when enabled keeps the invariant. */
  lemma NextInv(qs: seq<Question>, q: Quiz)
    requires WellFormed(qs) && Inv(qs, q) && Enabled(qs, q, Next)
    ensures Inv(qs, NextQuestion(qs, q).0)
  {
    var r := NextQuestion(qs, q).0;
    assert Answered(r) == Answered(q) == q.index + 1;
    assert r.answers == q.answers && r.score == q.score;
  }

  /** Every action the page offers keeps the invariant. */
  lemma StepInv(qs: seq<Question>, q: Quiz, a: Action)
    requires WellFormed(qs) && Inv(qs, q)
    ensures Inv(qs, Step(qs, q, a))
  {
    if Enabled(qs, q, a) {
      match a
      case Select(id) =>
      case Submit => SubmitInv(qs, q);
      case Next => NextInv(qs, q);
      case Restart => InitInv(qs);
    }
  }

  /** Actions applied in order. */
  function Run(qs: seq<Question>, q: Quiz, acts: seq<Action>): Quiz
    decreases |acts|
  {
    if acts == [] || q.index >= |qs| then q
    else Run(qs, Step(qs, q, acts[0]), acts[1..])
  }

  /** The invariant holds after any sequence of actions. */
  lemma {:induction false} RunInv(qs: seq<Question>, q: Quiz, acts: seq<Action>)
    requires WellFormed(qs) && Inv(qs, q)
    ensures Inv(qs, Run(qs, q, acts))
    decreases |acts|
  {
    if acts != [] {
      StepInv(qs, q, acts[0]);
      RunInv(qs, Step(qs, q, acts[0]), acts[1..]);
    }
  }

  lemma RunCons(qs: seq<Question>, q: Quiz, a: Action, rest: seq<Action>)
    requires q.index < |qs|
    ensures Run(qs, q, [a] + rest) == Run(qs, Step(qs, q, a), rest)
  {
    assert ([a] + rest)[1..] == rest;
  }

  /** No sequence of actions scores a question twice: the score never exceeds the submissions, nor the questions. */
  lemma {:induction false} ScoreBounded(qs: seq<Question>, acts: seq<Action>)
    requires WellFormed(qs)
    ensures Run(qs, Init, acts).score <= Answered(Run(qs, Init, acts)) <= |qs|
  {
    InitInv(qs);
    RunInv(qs, Init, acts);
  }

  /** After submission, selecting another option changes nothing. */
  lemma SelectAfterSubmit(qs: seq<Question>, q: Quiz, id: string)
    requires q.index < |qs| && q.submitted
    ensures SelectOption(q, id) == q
    ensures Step(qs, q, Select(id)) == q
  {
  }

  /** A second submission before advancing changes nothing. */
  lemma SubmitTwice(qs: seq<Question>, q: Quiz)
    requires q.index < |qs|
    ensures SubmitAnswer(qs, SubmitAnswer(qs, q)) == SubmitAnswer(qs, q)
  {
  }

  /** The results screen, once reached, reports the number of correct answers out of all questions. */
  lemma CompletionReport(qs: seq<Question>, q: Quiz)
    requires WellFormed(qs) && Inv(qs, q) && Enabled(qs, q, Next) && q.index == |qs| - 1
    ensures NextQuestion(qs, q).1 == Some((CorrectCount(qs, q.answers, |qs|), |qs|))
    ensures NextQuestion(qs, q).0.completed
  {
    assert Answered(q) == |qs|;
  }

  /** Answering each remaining question in turn: select, submit, next. */
  function Script(ids: seq<string>): (acts: seq<Action>)
    ensures |acts| == 3 * |ids|
  {
    if ids == [] then [] else [Select(ids[0]), Submit, Next] + Script(ids[1..])
  }

  /** One round of select, submit and next from a fresh question. */
  lemma Round(qs: seq<Question>, q: Quiz, id: string, rest: seq<Action>)
    requires WellFormed(qs) && Inv(qs, q) && !q.submitted && !q.completed
    requires HasOption(qs[q.index], id)
    ensures
      var q2 := SubmitAnswer(qs, SelectOption(q, id));
      && Run(qs, q, [Select(id), Submit, Next] + rest) == Run(qs, NextQuestion(qs, q2).0, rest)
      && q2.answers == q.answers[qs[q.index].id := id]
      && Inv(qs, q2)
  {
    var k :| 0 <= k < |qs[q.index].options| && qs[q.index].options[k].id == id;
    assert WellFormedQuestion(qs[q.index]);
    assert id != "";
    var q1 := SelectOption(q, id);
    assert Step(qs, q, Select(id)) == q1;
    var q2 := SubmitAnswer(qs, q1);
    assert Step(qs, q1, Submit) == q2;
    SubmitInv(qs, q1);
    assert Step(qs, q2, Next) == NextQuestion(qs, q2).0;
    assert [Select(id), Submit, Next] + rest == [Select(id)] + ([Submit] + ([Next] + rest));
    RunCons(qs, q, Select(id), [Submit] + ([Next] + rest));
    RunCons(qs, q1, Submit, [Next] + rest);
    RunCons(qs, q2, Next, rest);
  }

  /**
   * Answering every remaining question with an option of that question ends
   * on the results screen with exactly those answers recorded, the earlier
   * ones kept.
   */
  lemma {:induction false} RunScript(qs: seq<Question>, q: Quiz, ids: seq<string>)
    requires WellFormed(qs) && Inv(qs, q) && !q.submitted && !q.completed
    requires |ids| >= 1 && q.index + |ids| == |qs|
    requires OptionsOf(qs, q.index, ids)
    ensures Run(qs, q, Script(ids)).completed
    ensures Records(qs, Run(qs, q, Script(ids)).answers, q.index, ids)
    decreases |ids|, 1
  {
    var n := q.index;
    var q3 := FirstRound(qs, q, ids);
    if |ids| == 1 {
      RecordsOne(qs, q3.answers, n, ids);
    } else {
      RunScriptRest(qs, n, q3, ids);
    }
  }

  /** The first select, submit and next of a script: it records the first answer and leaves the rest of the script to run. */
  lemma FirstRound(qs: seq<Question>, q: Quiz, ids: seq<string>) returns (q3: Quiz)
    requires WellFormed(qs) && Inv(qs, q) && !q.submitted && !q.completed
    requires |ids| >= 1 && q.index + |ids| == |qs|
    requires OptionsOf(qs, q.index, ids)
    ensures Run(qs, q, Script(ids)) == Run(qs, q3, Script(ids[1..]))
    ensures Inv(qs, q3) && qs[q.index].id in q3.answers && q3.answers[qs[q.index].id] == ids[0]
    ensures |ids| == 1 ==> q3.completed && Run(qs, q, Script(ids)) == q3
    ensures |ids| >= 2 ==> q3.index == q.index + 1 && !q3.submitted && !q3.completed
  {
    var n := q.index;
    assert HasOption(qs[n + 0], ids[0]);
    Round(qs, q, ids[0], Script(ids[1..]));
    var q2 := SubmitAnswer(qs, SelectOption(q, ids[0]));
    q3 := NextQuestion(qs, q2).0;
    NextInv(qs, q2);
    assert Script(ids) == [Select(ids[0]), Submit, Next] + Script(ids[1..]);
    if |ids| == 1 {
      assert Script(ids[1..]) == [];
    }
  }

  lemma RecordsOne(qs: seq<Question>, answers: map<string, string>, n: nat, ids: seq<string>)
    requires |ids| == 1 && n + 1 <= |qs|
    requires qs[n].id in answers && answers[qs[n].id] == ids[0]
    ensures Records(qs, answers, n, ids)
  {
    assert Recorded(answers, qs[n + 0], ids[0]);
  }

  /** After the first round of a script of two or more, the rest of it finishes the quiz and keeps the first answer. */
  lemma {:induction false} RunScriptRest(qs: seq<Question>, n: nat, q3: Quiz, ids: seq<string>)
    requires WellFormed(qs) && Inv(qs, q3) && q3.index == n + 1 && !q3.submitted && !q3.completed
    requires |ids| >= 2 && n + |ids| == |qs| && OptionsOf(qs, n, ids)
    requires qs[n].id in q3.answers && q3.answers[qs[n].id] == ids[0]
    ensures Run(qs, q3, Script(ids[1..])).completed
    ensures Records(qs, Run(qs, q3, Script(ids[1..])).answers, n, ids)
    decreases |ids|, 0
  {
    var acts := Script(ids[1..]);
    OptionsOfTail(qs, n, ids);
    RunScript(qs, q3, ids[1..]);
    ScriptNoRestart(ids[1..]);
    RunKeepsAnswer(qs, q3, acts, n);
    RecordsCons(qs, Run(qs, q3, acts).answers, n, ids);
  }

  /** Each `ids[j]` is an option of question `start + j`. */
  predicate OptionsOf(qs: seq<Question>, start: nat, ids: seq<string>) {
    start + |ids| <= |qs| && forall j :: 0 <= j < |ids| ==> HasOption(qs[start + j], ids[j])
  }

  /** The answer recorded for question `start + j` is `ids[j]`. */
  predicate Records(qs: seq<Question>, answers: map<string, string>, start: nat, ids: seq<string>) {
    start + |ids| <= |qs|
    && forall j :: 0 <= j < |ids| ==> Recorded(answers, qs[start + j], ids[j])
  }

  predicate Recorded(answers: map<string, string>, question: Question, id: string) {
    question.id in answers && answers[question.id] == id
  }

  lemma OptionsOfTail(qs: seq<Question>, start: nat, ids: seq<string>)
    requires ids != [] && OptionsOf(qs, start, ids)
    ensures OptionsOf(qs, start + 1, ids[1..])
  {
    forall j | 0 <= j < |ids| - 1 ensures HasOption(qs[start + 1 + j], ids[1..][j]) {
      assert HasOption(qs[start + (j + 1)], ids[j + 1]);
    }
  }

  lemma RecordsCons(qs: seq<Question>, answers: map<string, string>, start: nat, ids: seq<string>)
    requires ids != [] && start + |ids| <= |qs|
    requires qs[start].id in answers && answers[qs[start].id] == ids[0]
    requires Records(qs, answers, start + 1, ids[1..])
    ensures Records(qs, answers, start, ids)
  {
    forall j | 0 <= j < |ids| ensures Recorded(answers, qs[start + j], ids[j]) {
      if j > 0 {
        assert Recorded(answers, qs[start + 1 + (j - 1)], ids[1..][j - 1]);
      }
    }
  }

  lemma ScriptNoRestart(ids: seq<string>)
    ensures forall t :: 0 <= t < |Script(ids)| ==> !Script(ids)[t].Restart?
  {
    if ids != [] {
      ScriptNoRestart(ids[1..]);
      var acts := Script(ids);
      forall t | 3 <= t < |acts| ensures acts[t] == Script(ids[1..])[t - 3] {
      }
    }
  }

  /** How many of the first `n` chosen option ids are the correct option of their question. */
  function MatchCount(qs: seq<Question>, ids: seq<string>, n: nat): (c: nat)
    requires n <= |qs| && n <= |ids|
    ensures c <= n
  {
    if n == 0 then 0
    else MatchCount(qs, ids, n - 1) + (if ids[n - 1] == qs[n - 1].correct then 1 else 0)
  }

  lemma {:induction false} CorrectCountRecords(qs: seq<Question>, answers: map<string, string>, ids: seq<string>, n: nat)
    requires n <= |ids| && Records(qs, answers, 0, ids)
    ensures CorrectCount(qs, answers, n) == MatchCount(qs, ids, n)
  {
    if n > 0 {
      CorrectCountRecords(qs, answers, ids, n - 1);
      assert qs[0 + (n - 1)] == qs[n - 1];
    }
  }

  /**
   * The whole quiz from the start: answering question `j` with `ids[j]` for
   * every `j` reaches the results screen with a score equal to the number of
   * correct choices, and the percentage shown is that score out of the total.
   */
  lemma FullRun(qs: seq<Question>, ids: seq<string>)
    requires WellFormed(qs) && |ids| == |qs| && OptionsOf(qs, 0, ids)
    ensures Run(qs, Init, Script(ids)).completed
    ensures Run(qs, Init, Script(ids)).score == MatchCount(qs, ids, |qs|)
    ensures |qs| > 0 ==> Percent(Run(qs, Init, Script(ids)).score, |qs|) == Percent(MatchCount(qs, ids, |qs|), |qs|)
  {
    InitInv(qs);
    RunScript(qs, Init, ids);
    var r := Run(qs, Init, Script(ids));
    RunInv(qs, Init, Script(ids));
    assert Answered(r) == |qs|;
    CorrectCountRecords(qs, r.answers, ids, |qs|);
  }

  /** Once recorded, an answer to a question before the current one never changes, unless the quiz restarts. */
  lemma {:induction false} RunKeepsAnswer(qs: seq<Question>, q: Quiz, acts: seq<Action>, i: nat)
    requires WellFormed(qs) && Inv(qs, q) && i < q.index
    requires forall t :: 0 <= t < |acts| ==> !acts[t].Restart?
    ensures qs[i].id in Run(qs, q, acts).answers
    ensures Run(qs, q, acts).answers[qs[i].id] == q.answers[qs[i].id]
    decreases |acts|
  {
    assert qs[i].id in AnsweredIds(qs, Answered(q));
    if acts != [] {
      var q1 := Step(qs, q, acts[0]);
      StepInv(qs, q, acts[0]);
      assert !acts[0].Restart?;
      if Enabled(qs, q, acts[0]) && acts[0].Submit? {
        assert qs[i].id != qs[q.index].id;
      }
      assert q1.index >= q.index;
      assert q1.answers[qs[i].id] == q.answers[qs[i].id];
      forall t | 0 <= t < |acts[1..]| ensures !acts[1..][t].Restart? {
        assert acts[1..][t] == acts[t + 1];
      }
      RunKeepsAnswer(qs, q1, acts[1..], i);
    }
  }

  /** `Math.round(score / total * 100)`, computed exactly: the nearest whole percent, halves rounded up. */
  function Percent(score: nat, total: nat): (p: nat)
    requires total > 0
    ensures 2 * total * p <= 200 * score + total < 2 * total * (p + 1)
  {
    var p := (200 * score + total) / (2 * total);
    DivBounds(200 * score + total, 2 * total);
    p
  }

  lemma DivBounds(a: nat, b: nat)
    requires b > 0
    ensures b * (a / b) <= a < b * (a / b + 1)
  {
  }

  /** A score of at most the total is at most 100 percent; a full score is exactly 100, and none is 0. */
  lemma PercentRange(score: nat, total: nat)
    requires 0 < total && score <= total
    ensures Percent(score, total) <= 100
    ensures score == total ==> Percent(score, total) == 100
    ensures score == 0 ==> Percent(score, total) == 0
  {
    var p := Percent(score, total);
    assert 200 * score + total <= 201 * total;
    if p >= 101 {
      MulLe(2 * total, 101, p);
      assert false;
    }
    if score == total && p <= 99 {
      MulLe(2 * total, p + 1, 100);
      assert false;
    }
    if score == 0 && p >= 1 {
      MulLe(2 * total, 1, p);
      assert false;
    }
  }

  lemma MulLe(a: nat, b: nat, c: nat)
    requires b <= c
    ensures a * b <= a * c
  {
  }

  datatype Tier = Excellent | Good | Review

  /** The performance assessment: at least 80, at least 60, or below. */
  function Assessment(percent: nat): (t: Tier)
    ensures t == Excellent <==> percent >= 80
    ensures t == Good <==> 60 <= percent < 80
    ensures t == Review <==> percent < 60
  {
    if percent >= 80 then Excellent else if percent >= 60 then Good else Review
  }

  /** The styling of one option: highlighted while chosen, then marked right or wrong after submission. */
  datatype Mark = Plain | Highlighted | MarkedCorrect | MarkedIncorrect

  function OptionMark(question: Question, q: Quiz, optionId: string): (m: Mark)
    ensures m == MarkedCorrect <==> q.submitted && optionId == question.correct
    ensures m == MarkedIncorrect <==> q.submitted && q.selected == Some(optionId) && optionId != question.correct
    ensures m == Highlighted <==> !q.submitted && q.selected == Some(optionId)
  {
    var isSelected := q.selected == Some(optionId);
    var isCorrect := optionId == question.correct;
    if !q.submitted then (if isSelected then Highlighted else Plain)
    else if isCorrect then MarkedCorrect
    else if isSelected then MarkedIncorrect
    else Plain
  }

  function Marks(question: Question, q: Quiz): (ms: seq<Mark>)
    ensures |ms| == |question.options|
    ensures forall i :: 0 <= i < |ms| ==> ms[i] == OptionMark(question, q, question.options[i].id)
  {
    seq(|question.options|, i requires 0 <= i < |question.options| => OptionMark(question, q, question.options[i].id))
  }

  /** Before submission no option is marked right or wrong. */
  lemma MarksBeforeSubmit(question: Question, q: Quiz)
    requires !q.submitted
    ensures forall i :: 0 <= i < |Marks(question, q)| ==>
      Marks(question, q)[i] != MarkedCorrect && Marks(question, q)[i] != MarkedIncorrect
  {
  }

  /**
   * After submission exactly one option, the correct one, is marked correct,
   * and an option is marked incorrect only when it is the wrong selection.
   */
  lemma MarksAfterSubmit(question: Question, q: Quiz)
    requires WellFormedQuestion(question) && q.submitted
    ensures exists i :: 0 <= i < |question.options| && Marks(question, q)[i] == MarkedCorrect
    ensures forall i, j ::
      (0 <= i < |question.options| && 0 <= j < |question.options|
       && Marks(question, q)[i] == MarkedCorrect && Marks(question, q)[j] == MarkedCorrect) ==> i == j
    ensures forall i, j ::
      (0 <= i < |question.options| && 0 <= j < |question.options|
       && Marks(question, q)[i] == MarkedIncorrect && Marks(question, q)[j] == MarkedIncorrect) ==> i == j
    ensures forall i :: 0 <= i < |question.options| ==>
      (Marks(question, q)[i] == MarkedIncorrect <==> q.selected == Some(question.options[i].id) && !AnswerIsCorrect(question, q))
  {
    var ms := Marks(question, q);
    var k :| 0 <= k < |question.options| && question.options[k].id == question.correct;
    assert ms[k] == MarkedCorrect;
  }

  /** `isCorrectAnswer`: the selection is the current question's correct option. */
  predicate AnswerIsCorrect(question: Question, q: Quiz) {
    q.selected == Some(question.correct)
  }
}

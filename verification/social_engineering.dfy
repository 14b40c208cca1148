/**
 * The social-engineering page: a catalogue of scenarios, each with choices
 * of which some are correct, and the page state that scores a choice, marks
 * the scenario completed, and lets the user try again or go back.
 *
 * "Try Again" clears only the selection and the result, so the same
 * scenario can be scored again: the score is bounded by the number of
 * choices made, not by the number of scenarios completed.
 */
module SocialEngineering {
  import opened Wrappers

  datatype ScenarioType = Email | Phone | Physical | SocialMedia

  /** A choice as the page scores it; its label and explanation are display text. */
  datatype Choice = Choice(id: string, isCorrect: bool)

  datatype Scenario = Scenario(id: string, kind: ScenarioType, choices: seq<Choice>)

  predicate ChoiceIdsUnique(choices: seq<Choice>) {
    forall i, j :: 0 <= i < j < |choices| ==> choices[i].id != choices[j].id
  }

  /** How many of the choices are correct. */
  function CorrectCount(choices: seq<Choice>): (n: nat)
    ensures n <= |choices|
  {
    if choices == [] then 0 else (if choices[0].isCorrect then 1 else 0) + CorrectCount(choices[1..])
  }

  /** A correct choice exists exactly when the count is positive. */
  lemma {:induction false} CorrectCountPositive(choices: seq<Choice>)
    ensures CorrectCount(choices) > 0 <==> exists i :: 0 <= i < |choices| && choices[i].isCorrect
  {
    if choices != [] {
      CorrectCountPositive(choices[1..]);
      if choices[0].isCorrect {
        assert choices[0].isCorrect;
      } else if exists i :: 0 <= i < |choices| && choices[i].isCorrect {
        var i :| 0 <= i < |choices| && choices[i].isCorrect;
        assert choices[1..][i - 1].isCorrect;
      }
    }
  }

  /** A scenario the page can present: distinct choice ids and something right to do. */
  predicate WellFormed(sc: Scenario) {
    ChoiceIdsUnique(sc.choices) && CorrectCount(sc.choices) >= 1
  }

  /** `choices.find(c => c.id === id)`: the first choice with that id. */
  function FindChoice(choices: seq<Choice>, id: string): (r: Option<Choice>)
    ensures r.Some? ==> r.value in choices && r.value.id == id
    ensures r.None? <==> forall i :: 0 <= i < |choices| ==> choices[i].id != id
  {
    if choices == [] then None
    else if choices[0].id == id then Some(choices[0])
    else FindChoice(choices[1..], id)
  }

  /** With distinct ids, looking a choice up by its id finds that very choice. */
  lemma {:induction false} FindUnique(choices: seq<Choice>, i: nat)
    requires ChoiceIdsUnique(choices) && i < |choices|
    ensures FindChoice(choices, choices[i].id) == Some(choices[i])
  {
    if i > 0 {
      assert choices[0].id != choices[i].id;
      assert choices[1..][i - 1] == choices[i];
      FindUnique(choices[1..], i - 1);
    }
  }

  /** The scenario ids of a catalogue. */
  function Ids(catalog: seq<Scenario>): (ids: set<string>)
    ensures forall sc :: sc in catalog ==> sc.id in ids
    ensures |ids| <= |catalog|
  {
    if catalog == [] then {} else {catalog[0].id} + Ids(catalog[1..])
  }

  /** The page: the open scenario (None for the list), the chosen choice, whether the result is shown, the completed ids and the score. */
  datatype Page = Page(current: Option<Scenario>, selected: Option<string>, showResult: bool, completed: set<string>, score: nat)

  const Initial: Page := Page(None, None, false, {}, 0)

  /** `handleChoiceSelect`: show the result; in an open scenario, score a correct choice and mark the scenario completed. */
  function ChoiceSelect(p: Page, choiceId: string): (r: Page)
    ensures r.selected == Some(choiceId) && r.showResult && r.current == p.current
    ensures p.current.None? ==> r.completed == p.completed && r.score == p.score
    ensures p.current.Some? ==> r.completed == p.completed + {p.current.value.id}
    ensures p.score <= r.score <= p.score + 1
  {
    var shown := p.(selected := Some(choiceId), showResult := true);
    match p.current
    case None => shown
    case Some(sc) =>
      var choice := FindChoice(sc.choices, choiceId);
      var gained := if choice.Some? && choice.value.isCorrect then 1 else 0;
      shown.(score := p.score + gained, completed := p.completed + {sc.id})
  }

  /** `resetScenario` ("Try Again"): clear the choice and the result, keep everything else. */
  function ResetScenario(p: Page): (r: Page)
    ensures r.selected.None? && !r.showResult
    ensures r.current == p.current && r.completed == p.completed && r.score == p.score
  {
    p.(selected := None, showResult := false)
  }

  /** `startScenario`: open a scenario with nothing chosen. */
  function StartScenario(p: Page, sc: Scenario): (r: Page)
    ensures r == ResetScenario(p).(current := Some(sc))
  {
    ResetScenario(p.(current := Some(sc)))
  }

  datatype Event = Open(sc: Scenario) | Pick(choiceId: string) | TryAgain | Back

  /**
   * What the page lets happen: scenarios are opened from the list, a choice
   * is one of the open scenario's buttons and is disabled while a result is
   * shown, "Try Again" appears with a result, and "Back" inside a scenario.
   */
  predicate Enabled(catalog: seq<Scenario>, p: Page, e: Event) {
    match e
    case Open(sc) => p.current.None? && sc in catalog
    case Pick(choiceId) => p.current.Some? && !p.showResult && FindChoice(p.current.value.choices, choiceId).Some?
    case TryAgain => p.current.Some? && p.showResult && p.selected.Some?
    case Back => p.current.Some?
  }

  function Step(catalog: seq<Scenario>, p: Page, e: Event): (r: Page)
    ensures !Enabled(catalog, p, e) ==> r == p
  {
    if !Enabled(catalog, p, e) then p
    else match e
      case Open(sc) => StartScenario(p, sc)
      case Pick(choiceId) => ChoiceSelect(p, choiceId)
      case TryAgain => ResetScenario(p)
      case Back => p.(current := None)
  }

  /**
   * The page's invariant: only catalogue scenarios are open or completed, a
   * result goes with a choice, and the scenario whose result is shown is
   * counted as completed.
   */
  predicate Inv(catalog: seq<Scenario>, p: Page) {
    p.completed <= Ids(catalog)
    && (p.current.Some? ==> p.current.value in catalog)
    && (p.showResult <==> p.selected.Some?)
    && (p.current.Some? && p.showResult ==> p.current.value.id in p.completed)
  }

  lemma InitialInv(catalog: seq<Scenario>)
    ensures Inv(catalog, Initial)
  {
  }

  lemma StepInv(catalog: seq<Scenario>, p: Page, e: Event)
    requires Inv(catalog, p)
    ensures Inv(catalog, Step(catalog, p, e))
  {
  }

  lemma SubsetCard(a: set<string>, b: set<string>)
    requires a <= b
    ensures |a| <= |b|
  {
    assert b == a + (b - a);
  }

  /** Completed scenarios never outnumber the catalogue, so the completion bar stays within 100%. */
  lemma CompletedBound(catalog: seq<Scenario>, p: Page)
    requires Inv(catalog, p)
    ensures |p.completed| <= |catalog|
    ensures CompletionPercent(catalog, p) <= 100
  {
    assert |p.completed| <= |catalog| by {
      SubsetCard(p.completed, Ids(catalog));
    }
    if |catalog| > 0 {
      PercentWithin(|p.completed|, |catalog|);
    }
  }

  /** A part of a whole is at most 100 percent of it. */
  lemma PercentWithin(part: nat, whole: nat)
    requires 0 < whole && part <= whole
    ensures part * 100 / whole <= 100
  {
    var q := part * 100 / whole;
    DivBracket(part * 100, whole);
    MulMono(part, whole, 100);
    MulCancel(q, 100, whole);
  }

  lemma MulCancel(q: nat, m: nat, w: nat)
    requires 0 < w && q * w <= m * w
    ensures q <= m
  {
  }

  lemma MulMono(a: nat, b: nat, c: nat)
    requires a <= b
    ensures a * c <= b * c
  {
  }

  /** The completion bar's value, `completed / scenarios * 100`, in whole percent. */
  function CompletionPercent(catalog: seq<Scenario>, p: Page): (r: nat)
    ensures |catalog| > 0 ==> r * |catalog| <= |p.completed| * 100 < r * |catalog| + |catalog|
  {
    if |catalog| == 0 then 0 else DivBracket(|p.completed| * 100, |catalog|); |p.completed| * 100 / |catalog|
  }

  /** The "Correct Responses" bar's value, `score / completed * 100` (0 with nothing completed), in whole percent. */
  function CorrectPercent(p: Page): (r: nat)
    ensures |p.completed| == 0 ==> r == 0
    ensures |p.completed| > 0 ==> r * |p.completed| <= p.score * 100 < r * |p.completed| + |p.completed|
  {
    if |p.completed| == 0 then 0 else DivBracket(p.score * 100, |p.completed|); p.score * 100 / |p.completed|
  }

  /** Whole-number division rounds down: the quotient is the largest `q` with `q * b <= a`. */
  lemma DivBracket(a: nat, b: nat)
    requires b > 0
    ensures a / b * b <= a < a / b * b + b
  {
  }

  /** Picking a choice of the open scenario scores 1 exactly when that choice is correct. */
  lemma PickScores(p: Page, sc: Scenario, i: nat)
    requires p.current == Some(sc) && ChoiceIdsUnique(sc.choices) && i < |sc.choices|
    ensures ChoiceSelect(p, sc.choices[i].id).score == p.score + 1 <==> sc.choices[i].isCorrect
    ensures ChoiceSelect(p, sc.choices[i].id).score == p.score <==> !sc.choices[i].isCorrect
  {
    FindUnique(sc.choices, i);
  }

  /** Completing a scenario again leaves the completed set as it was. */
  lemma RecompleteUnchanged(p: Page, choiceId: string)
    requires p.current.Some? && p.current.value.id in p.completed
    ensures ChoiceSelect(p, choiceId).completed == p.completed
  {
  }

  /** While a result is shown, the choices do nothing. */
  lemma NoPickDuringResult(catalog: seq<Scenario>, p: Page, choiceId: string)
    requires p.showResult
    ensures Step(catalog, p, Pick(choiceId)) == p
  {
  }

  /** How the choices look: after the result, every correct choice is marked right and a wrongly chosen one wrong. */
  datatype Mark = Unmarked | MarkedRight | MarkedWrong

  function ChoiceMark(p: Page, c: Choice): (m: Mark)
    ensures !p.showResult ==> m == Unmarked
    ensures m == MarkedRight <==> p.showResult && c.isCorrect
    ensures m == MarkedWrong <==> p.showResult && !c.isCorrect && p.selected == Some(c.id)
  {
    if !p.showResult then Unmarked
    else if c.isCorrect then MarkedRight
    else if p.selected == Some(c.id) then MarkedWrong
    else Unmarked
  }

  /** The chosen choice is marked right exactly when picking it scored. */
  lemma MarkMatchesScore(p: Page, sc: Scenario, i: nat)
    requires p.current == Some(sc) && ChoiceIdsUnique(sc.choices) && i < |sc.choices|
    ensures var r := ChoiceSelect(p, sc.choices[i].id);
            ChoiceMark(r, sc.choices[i]) == MarkedRight <==> r.score == p.score + 1
  {
    PickScores(p, sc, i);
  }

  /** Events applied in order. */
  function Run(catalog: seq<Scenario>, p: Page, events: seq<Event>): (r: Page)
    decreases |events|
  {
    if events == [] then p else Run(catalog, Step(catalog, p, events[0]), events[1..])
  }

  function Picks(events: seq<Event>): nat {
    if events == [] then 0 else (if events[0].Pick? then 1 else 0) + Picks(events[1..])
  }

  /** The score grows by at most one per choice made. */
  lemma {:induction false} RunScoreBound(catalog: seq<Scenario>, p: Page, events: seq<Event>)
    ensures p.score <= Run(catalog, p, events).score <= p.score + Picks(events)
    decreases |events|
  {
    if events != [] {
      RunScoreBound(catalog, Step(catalog, p, events[0]), events[1..]);
    }
  }

  /** Any run from the start keeps the invariant. */
  lemma {:induction false} RunInv(catalog: seq<Scenario>, p: Page, events: seq<Event>)
    requires Inv(catalog, p)
    ensures Inv(catalog, Run(catalog, p, events))
    decreases |events|
  {
    if events != [] {
      StepInv(catalog, p, events[0]);
      RunInv(catalog, Step(catalog, p, events[0]), events[1..]);
    }
  }

  /**
   * Trying again scores the same scenario twice: the score passes the
   * completed count and the "Correct Responses" bar reaches 200%.
   */
  lemma RetryScoresTwice(catalog: seq<Scenario>, sc: Scenario, i: nat)
    requires sc in catalog && ChoiceIdsUnique(sc.choices) && i < |sc.choices| && sc.choices[i].isCorrect
    ensures var r := Run(catalog, Initial, [Open(sc), Pick(sc.choices[i].id), TryAgain, Pick(sc.choices[i].id)]);
            r.score == 2 && r.completed == {sc.id} && r.score > |r.completed| && CorrectPercent(r) == 200
  {
    var id := sc.choices[i].id;
    FindUnique(sc.choices, i);
    var p1 := Step(catalog, Initial, Open(sc));
    assert p1 == Page(Some(sc), None, false, {}, 0);
    var p2 := Step(catalog, p1, Pick(id));
    assert p2 == Page(Some(sc), Some(id), true, {sc.id}, 1);
    var p3 := Step(catalog, p2, TryAgain);
    assert p3 == Page(Some(sc), None, false, {sc.id}, 1);
    var p4 := Step(catalog, p3, Pick(id));
    assert p4 == Page(Some(sc), Some(id), true, {sc.id}, 2);
    var evs := [Open(sc), Pick(id), TryAgain, Pick(id)];
    assert evs[1..] == [Pick(id), TryAgain, Pick(id)];
    assert evs[2..] == [TryAgain, Pick(id)];
    assert evs[3..] == [Pick(id)];
    assert Run(catalog, p4, []) == p4;
    assert Run(catalog, p3, evs[3..]) == p4;
    assert Run(catalog, p2, evs[2..]) == p4;
    assert Run(catalog, p1, evs[1..]) == p4;
    assert Run(catalog, Initial, evs) == p4;
    assert |{sc.id}| == 1;
  }
}

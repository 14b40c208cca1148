/**
 * The system-protection page: a security score over three settings, the
 * verdict text for the score, and an attack simulation whose findings depend
 * on the settings at the moment it was started.
 *
 * Each settings handler calls the setter and then `updateSecurityScore` in the
 * same render, so the score it stores is computed from the settings as they
 * were before the change. `StepAsWritten` keeps that behaviour; `Step` is the
 * corrected page, which scores the new settings.
 */
module SystemProtection {
  import opened Wrappers

  datatype Settings = Settings(firewall: bool, ids: bool, level: nat)

  /** The slider offers access-control levels 1 to 4. */
  predicate ValidLevel(s: Settings) {
    1 <= s.level <= 4
  }

  /** `updateSecurityScore`'s formula. */
  function Score(s: Settings): (score: nat)
    ensures ValidLevel(s) ==> 10 <= score <= 100
    ensures ValidLevel(s) ==> (score == 100 <==> s.firewall && s.ids && s.level == 4)
    ensures score % 10 == 0
  {
    (if s.firewall then 30 else 0) + (if s.ids then 30 else 0) + s.level * 10
  }

  const PortScan: string := "Port scanning detected"
  const Unauthorized: string := "Unauthorized access attempt"
  const Suspicious: string := "Suspicious network activity"

  /** What the simulation reports: one finding per missing defence, in a fixed order. */
  function Findings(s: Settings): (r: seq<string>)
    ensures PortScan in r <==> !s.firewall
    ensures Unauthorized in r <==> s.level < 3
    ensures Suspicious in r <==> !s.ids
    ensures r == [] <==> s.firewall && s.level >= 3 && s.ids
    ensures forall i, j :: 0 <= i < j < |r| ==> Rank(r[i]) < Rank(r[j])
  {
    (if !s.firewall then [PortScan] else [])
    + (if s.level < 3 then [Unauthorized] else [])
    + (if !s.ids then [Suspicious] else [])
  }

  /** The position of a finding in the order the simulation checks them. */
  function Rank(finding: string): nat {
    if finding == PortScan then 0 else if finding == Unauthorized then 1 else 2
  }

  /** The verdict lines under the score bar; each is rendered only when its condition holds. */
  function Verdicts(score: nat): (shown: seq<string>) {
    (if score < 30 then ["Your system is highly vulnerable to attacks."] else [])
    + (if score >= 30 && score < 60 then ["Your system has basic protection but remains vulnerable."] else [])
    + (if score >= 60 && score < 90 then ["Your system has good protection against common threats."] else [])
    + (if score >= 90 then ["Your system has excellent protection against most threats."] else [])
  }

  /** The four bands partition the scores: exactly one verdict is shown, whatever the score. */
  lemma ExactlyOneVerdict(score: nat)
    ensures |Verdicts(score)| == 1
    ensures score < 30 ==> Verdicts(score)[0] == "Your system is highly vulnerable to attacks."
    ensures score >= 90 ==> Verdicts(score)[0] == "Your system has excellent protection against most threats."
  {
  }

  /** The page state: the settings, the stored score, the findings shown, and the pending simulation's snapshot of the settings. */
  datatype Page = Page(settings: Settings, displayed: nat, attacks: seq<string>, inProgress: bool, pending: Option<Settings>)

  const Initial: Page := Page(Settings(false, false, 1), 0, [], false, None)

  datatype Event = SetFirewall(on: bool) | SetIds(on: bool) | SetLevel(level: nat) | Simulate | TimerFires

  /** What the page lets happen: the button is disabled during a simulation, the slider gives 1 to 4, and the timer fires only for a started simulation. */
  predicate Enabled(p: Page, e: Event) {
    match e
    case SetLevel(level) => 1 <= level <= 4
    case Simulate => !p.inProgress
    case TimerFires => p.pending.Some?
    case _ => true
  }

  function WithSettings(p: Page, e: Event): (s: Settings) {
    match e
    case SetFirewall(on) => p.settings.(firewall := on)
    case SetIds(on) => p.settings.(ids := on)
    case SetLevel(level) => p.settings.(level := level)
    case _ => p.settings
  }

  /** The simulation's start and end, the same on both pages. */
  function Simulation(p: Page, e: Event): (r: Page)
    requires e.Simulate? || e.TimerFires?
    ensures e.Simulate? ==> r.inProgress && r.attacks == [] && r.pending == Some(p.settings)
    ensures e.TimerFires? && p.pending.Some? ==>
      !r.inProgress && r.pending == None && r.attacks == Findings(p.pending.value)
    ensures r.settings == p.settings && r.displayed == p.displayed
  {
    match e
    case Simulate => p.(inProgress := true, attacks := [], pending := Some(p.settings))
    case TimerFires =>
      match p.pending
      case Some(snapshot) => p.(attacks := Findings(snapshot), inProgress := false, pending := None)
      case None => p
  }

  /** The page as written: a settings change stores the score of the settings before it. */
  function StepAsWritten(p: Page, e: Event): (r: Page)
    ensures !Enabled(p, e) ==> r == p
  {
    if !Enabled(p, e) then p
    else if e.Simulate? || e.TimerFires? then Simulation(p, e)
    else p.(settings := WithSettings(p, e), displayed := Score(p.settings))
  }

  /** The corrected page: a settings change stores the score of the new settings. */
  function Step(p: Page, e: Event): (r: Page)
    ensures !Enabled(p, e) ==> r == p
  {
    if !Enabled(p, e) then p
    else if e.Simulate? || e.TimerFires? then Simulation(p, e)
    else
      var s := WithSettings(p, e);
      p.(settings := s, displayed := Score(s))
  }

  /** The page's invariant: the level stays in range, a pending snapshot exists exactly during a simulation, and the stored score is the untouched 0 or the score of the settings. */
  predicate Inv(p: Page) {
    ValidLevel(p.settings)
    && (p.inProgress <==> p.pending.Some?)
    && (p.pending.Some? ==> ValidLevel(p.pending.value))
    && (p.displayed == 0 || p.displayed == Score(p.settings))
  }

  lemma InitialInv()
    ensures Inv(Initial)
  {
  }

  /** The corrected page keeps its invariant, and after any settings change shows the current score. */
  lemma StepInv(p: Page, e: Event)
    requires Inv(p)
    ensures Inv(Step(p, e))
    ensures Enabled(p, e) && (e.SetFirewall? || e.SetIds? || e.SetLevel?) ==>
      Step(p, e).displayed == Score(Step(p, e).settings)
  {
  }

  /** As written, the stored score lags one change behind: it is the score of the settings before the change. */
  lemma AsWrittenLags(p: Page, e: Event)
    requires Enabled(p, e) && (e.SetFirewall? || e.SetIds? || e.SetLevel?)
    ensures StepAsWritten(p, e).displayed == Score(p.settings)
  {
  }

  /** Turning the firewall on from the start shows 10 instead of 40. */
  lemma StaleScoreExample()
    ensures StepAsWritten(Initial, SetFirewall(true)).displayed == 10
    ensures Score(StepAsWritten(Initial, SetFirewall(true)).settings) == 40
    ensures Step(Initial, SetFirewall(true)).displayed == 40
  {
  }

  /** A new simulation cannot start while one is running. */
  lemma NoRestartWhileRunning(p: Page)
    requires p.inProgress
    ensures Step(p, Simulate) == p && StepAsWritten(p, Simulate) == p
  {
  }

  /** The findings shown are those of the settings when the simulation started, whatever changed meanwhile. */
  lemma FindingsUseSnapshot(p: Page, changes: Event)
    requires Inv(p) && !p.inProgress
    requires changes.SetFirewall? || changes.SetIds? || changes.SetLevel?
    ensures Step(Step(Step(p, Simulate), changes), TimerFires).attacks == Findings(p.settings)
  {
  }
}

/** Activity probing and pause eligibility of one Workspace, as pure functions on status values. */
module ActivityModel {
  import opened Prelude

  // ---------- time ----------

  /** Instants and durations are nanoseconds; status fields are milliseconds. */
  const MILLI := 1_000_000
  const SECOND := 1_000_000_000

  /** Latest clock reading (in milliseconds) for which millisecond-to-nanosecond products fit in 64 bits. */
  const MAX_MS := 9223372036854

  function UnixMilli(t: int): (ms: int)
    ensures ms * MILLI <= t < (ms + 1) * MILLI
  {
    t / MILLI
  }

  lemma UnixMilliMonotone(a: int, b: int)
    requires a <= b
    ensures UnixMilli(a) <= UnixMilli(b)
  {}

  // ---------- data ----------

  datatype State = Running | Paused | Pending | Terminating | Error | Unknown

  datatype Outcome = Success | Failure | Timeout

  /** What a probe says about itself; `Detail` is text made up by the probe runner. */
  datatype Message =
    | PodNotReady | PortNotFound | ProberNotConfigured | ExecutorNotConfigured | NoProbeType
    | JupyterSucceeded | PodExecSucceeded | InvalidOutput | Detail(text: string)

  /** Result of executing a probe; times are instants. */
  datatype ProbeResult = ProbeResult(start: int, end: int, outcome: Outcome, message: Message, lastActivity: Option<int>)

  /** Record of the last probe in the status; times are milliseconds. */
  datatype LastProbe = LastProbe(startTime: int, endTime: int, outcome: Outcome, message: Message)

  /** `pauseWorkspace` holds `eligibleAfter`. */
  datatype RulesStatus = RulesStatus(pauseWorkspace: Option<int>)

  datatype Activity = Activity(lastActivity: int, lastUpdate: int, lastProbe: Option<LastProbe>, rules: Option<RulesStatus>)

  const NO_ACTIVITY := Activity(0, 0, None, None)

  datatype Status = Status(state: State, lastRunningTime: int, activity: Activity)

  datatype RuleMatch = RuleMatch(matchNamespace: Option<LabelSelector>, matchPodConfig: Option<LabelSelector>)

  datatype ActivityRule = ActivityRule(
    secondsSinceActive: int32,
    minRunningSeconds: Option<int32>,
    criteria: Option<RuleMatch>,
    pauseWorkspace: Option<bool>)

  /** `jupyter` holds the port id of a Jupyter probe. */
  datatype ActivityProbe = ActivityProbe(
    minProbeIntervalSeconds: Option<int32>,
    probeIntervalSeconds: Option<int32>,
    jupyter: Option<string>,
    podExec: bool)
  {
    function MinSeconds(): int32 {
      if minProbeIntervalSeconds.Some? then minProbeIntervalSeconds.value else 300
    }

    function IntervalSeconds(): int32 {
      if probeIntervalSeconds.Some? then probeIntervalSeconds.value else 3600
    }
  }

  datatype Kind = Kind(activityProbe: Option<ActivityProbe>, activityRules: seq<ActivityRule>)

  // ---------- probe schedule ----------

  /** Interval that must separate the start of the probe recorded as `last` from the next one. */
  function RequiredInterval(last: LastProbe, minInterval: int, interval: int): int {
    if last.outcome.Success? then interval else minInterval
  }

  /** None when a probe is due, otherwise the time to wait. */
  function TimeUntilProbeDue(last: Option<LastProbe>, now: int, minInterval: int, interval: int): (remaining: Option<int>) {
    if last.None? || last.value.startTime <= 0 then None
    else
      var elapsed := Wrap64(Wrap64(now - last.value.startTime) * MILLI);
      var required := RequiredInterval(last.value, minInterval, interval);
      if elapsed < required then Some(Wrap64(required - elapsed)) else None
  }

  /** Clock readings in the range where no product overflows. */
  predicate Readable(ms: int) {
    0 < ms <= MAX_MS
  }

  /** The machine arithmetic agrees with exact arithmetic for every int32 interval. */
  lemma DueIsExact(last: LastProbe, now: int, minSeconds: int32, seconds: int32)
    requires Readable(last.startTime) && last.startTime <= now <= MAX_MS
    ensures Fits64(minSeconds * SECOND) && Fits64(seconds * SECOND)
    ensures var required := RequiredInterval(last, minSeconds, seconds);
            TimeUntilProbeDue(Some(last), now, minSeconds * SECOND, seconds * SECOND) ==
            if now - last.startTime >= required * 1000 then None
            else Some((required * 1000 - (now - last.startTime)) * MILLI)
  {
    assert Fits64((now - last.startTime) * MILLI);
  }

  /** While a probe is not due the wait is positive and minimal: no earlier instant is due, the
      instant reached by waiting is. */
  lemma WaitIsTight(last: LastProbe, now: int, later: int, minSeconds: int32, seconds: int32)
    requires Readable(last.startTime) && last.startTime <= now <= later <= MAX_MS
    requires TimeUntilProbeDue(Some(last), now, minSeconds * SECOND, seconds * SECOND).Some?
    ensures var wait := TimeUntilProbeDue(Some(last), now, minSeconds * SECOND, seconds * SECOND).value;
            && wait > 0 && wait % MILLI == 0
            && (TimeUntilProbeDue(Some(last), later, minSeconds * SECOND, seconds * SECOND).None?
                <==> later >= now + wait / MILLI)
  {
    DueIsExact(last, now, minSeconds, seconds);
    DueIsExact(last, later, minSeconds, seconds);
  }

  // ---------- probe execution ----------

  /** JSON written by a podExec probe; `lastActivity` holds None when the timestamp does not parse. */
  datatype ExecOutput = Empty | Invalid | Object(hasActivity: Option<bool>, lastActivity: Option<Option<int>>)

  datatype ExecReply = ExecTimeout(message: string) | ExecFailed(message: string) | ExecOutput(output: ExecOutput)

  datatype JupyterReply = JupyterTimeout(message: string) | JupyterFailed(message: string) | JupyterActivity(at: int)

  /** Everything a probe depends on. `clock` is read on entry; `start` and `end` by the probe itself. */
  datatype ProbeEnv = ProbeEnv(
    podIP: Option<string>,
    ports: Option<seq<(string, int32)>>,
    httpProber: bool,
    podExecutor: bool,
    clock: int,
    start: int,
    end: int,
    jupyter: JupyterReply,
    exec: ExecReply)
  {
    predicate Ordered() {
      clock <= start <= end
    }
  }

  /** Ok(None) leaves `lastActivity` as it is. */
  function ParsePodExecOutput(output: ExecOutput, end: int): (r: Result<Option<int>, Message>) {
    match output
    case Empty => Ok(Some(end))
    case Invalid => Err(InvalidOutput)
    case Object(hasActivity, lastActivity) =>
      if hasActivity.Some? then
        if hasActivity.value then Ok(Some(end)) else Ok(None)
      else if lastActivity.Some? then
        if lastActivity.value.Some? then Ok(Some(lastActivity.value.value)) else Err(InvalidOutput)
      else Ok(Some(end))
  }

  predicate HasPort(ports: Option<seq<(string, int32)>>, id: string) {
    ports.Some? && exists i :: 0 <= i < |ports.value| && ports.value[i].0 == id
  }

  function RunProbe(probe: ActivityProbe, env: ProbeEnv): (r: ProbeResult) {
    if env.podIP.None? || env.podIP.value == "" then
      ProbeResult(env.clock, env.clock, Failure, PodNotReady, None)
    else if probe.jupyter.Some? then
      if !HasPort(env.ports, probe.jupyter.value) then
        ProbeResult(env.clock, env.clock, Failure, PortNotFound, None)
      else if !env.httpProber then
        ProbeResult(env.clock, env.clock, Failure, ProberNotConfigured, None)
      else
        match env.jupyter {
          case JupyterTimeout(m) => ProbeResult(env.start, env.end, Timeout, Detail(m), None)
          case JupyterFailed(m) => ProbeResult(env.start, env.end, Failure, Detail(m), None)
          case JupyterActivity(at) => ProbeResult(env.start, env.end, Success, JupyterSucceeded, Some(at))
        }
    else if probe.podExec then
      if !env.podExecutor then
        ProbeResult(env.clock, env.clock, Failure, ExecutorNotConfigured, None)
      else
        match env.exec {
          case ExecTimeout(m) => ProbeResult(env.start, env.end, Timeout, Detail(m), None)
          case ExecFailed(m) => ProbeResult(env.start, env.end, Failure, Detail(m), None)
          case ExecOutput(output) =>
            var parsed := ParsePodExecOutput(output, env.end);
            if parsed.Ok? then ProbeResult(env.start, env.end, Success, PodExecSucceeded, parsed.value)
            else ProbeResult(env.start, env.end, Failure, parsed.error, None)
        }
    else
      ProbeResult(env.clock, env.clock, Failure, NoProbeType, None)
  }

  predicate Reachable(env: ProbeEnv) {
    env.podIP.Some? && env.podIP.value != ""
  }

  predicate JupyterReady(probe: ActivityProbe, env: ProbeEnv) {
    && Reachable(env) && probe.jupyter.Some? && env.httpProber
    && env.ports.Some? && exists i :: 0 <= i < |env.ports.value| && env.ports.value[i].0 == probe.jupyter.value
  }

  predicate PodExecReady(probe: ActivityProbe, env: ProbeEnv) {
    Reachable(env) && probe.jupyter.None? && probe.podExec && env.podExecutor
  }

  /** A probe that cannot be run is a failure of no duration. */
  lemma UnreadyProbeFails(probe: ActivityProbe, env: ProbeEnv)
    requires !JupyterReady(probe, env) && !PodExecReady(probe, env)
    ensures var r := RunProbe(probe, env);
            r.outcome.Failure? && r.start == r.end == env.clock && r.lastActivity.None?
    ensures RunProbe(probe, env).message ==
            if !Reachable(env) then PodNotReady
            else if probe.jupyter.Some? then if HasPort(env.ports, probe.jupyter.value) then ProberNotConfigured else PortNotFound
            else if probe.podExec then ExecutorNotConfigured
            else NoProbeType
  {}

  /** A Jupyter probe, which takes precedence, reports the time Jupyter answers with, or does not succeed. */
  lemma JupyterProbeByReply(probe: ActivityProbe, env: ProbeEnv)
    requires JupyterReady(probe, env)
    ensures var r := RunProbe(probe, env);
            && r.start == env.start && r.end == env.end
            && (r.outcome.Success? <==> env.jupyter.JupyterActivity?)
            && (r.outcome.Timeout? <==> env.jupyter.JupyterTimeout?)
            && r.lastActivity == (if env.jupyter.JupyterActivity? then Some(env.jupyter.at) else None)
            && r.message == if env.jupyter.JupyterActivity? then JupyterSucceeded else Detail(env.jupyter.message)
  {}

  /** A podExec probe that reports activity, or reports nothing, is active at its own end. */
  predicate ReportsActive(o: ExecOutput) {
    o.Empty? || (o.Object? && (o.hasActivity == Some(true) || (o.hasActivity.None? && o.lastActivity.None?)))
  }

  predicate ReportsInactive(o: ExecOutput) {
    o.Object? && o.hasActivity == Some(false)
  }

  /** It names the time of the last activity, which counts only without a plain yes or no. */
  predicate ReportsTime(o: ExecOutput, at: int) {
    o.Object? && o.hasActivity.None? && o.lastActivity == Some(Some(at))
  }

  /** A podExec probe by what its script writes. */
  lemma PodExecProbeByReply(probe: ActivityProbe, env: ProbeEnv)
    requires PodExecReady(probe, env)
    ensures var r := RunProbe(probe, env);
            && r.start == env.start && r.end == env.end
            && (r.outcome.Timeout? <==> env.exec.ExecTimeout?)
            && (r.outcome.Success? <==>
                  env.exec.ExecOutput? && (ReportsActive(env.exec.output) || ReportsInactive(env.exec.output)
                                           || exists at :: ReportsTime(env.exec.output, at)))
            && (env.exec.ExecOutput? && ReportsActive(env.exec.output) ==> r.lastActivity == Some(env.end))
            && (env.exec.ExecOutput? ==> forall at :: ReportsTime(env.exec.output, at) ==> r.lastActivity == Some(at))
            && (r.lastActivity.Some? ==> env.exec.ExecOutput? && !ReportsInactive(env.exec.output) && r.outcome.Success?)
            && r.message == if r.outcome.Success? then PodExecSucceeded else if env.exec.ExecOutput? then InvalidOutput else Detail(env.exec.message)
  {
    if env.exec.ExecOutput? && env.exec.output.Object? && env.exec.output.lastActivity.Some? && env.exec.output.lastActivity.value.Some? {
      var at := env.exec.output.lastActivity.value.value;
      assert env.exec.output.hasActivity.None? ==> ReportsTime(env.exec.output, at);
    }
  }

  // ---------- status updates ----------

  function ApplyProbe(a: Activity, lastRunningTime: int, r: ProbeResult): Activity {
    var recorded := a.(lastProbe := Some(LastProbe(UnixMilli(r.start), UnixMilli(r.end), r.outcome, r.message)));
    if !r.outcome.Success? then recorded
    else
      recorded.(
        lastUpdate := UnixMilli(r.end),
        lastActivity :=
          if r.lastActivity.Some? then UnixMilli(r.lastActivity.value)
          else if a.lastActivity <= 0 && lastRunningTime > 0 then lastRunningTime
          else a.lastActivity)
  }

  function RecordRunningTransition(s: Status, newState: State, clock: int): Status {
    if newState.Running? && (!s.state.Running? || s.lastRunningTime == 0)
    then Status(newState, UnixMilli(clock), NO_ACTIVITY)
    else s.(state := newState)
  }

  // ---------- rules ----------

  datatype Decision = Decision(matched: bool, value: bool, secondsSinceActive: int32, minRunningSeconds: int32)

  function SelectorMatches(compile: Compiler, selector: LabelSelector, labels: Labels): Result<bool, string> {
    var compiled := compile(selector);
    if compiled.None? then Err("invalid selector") else Ok(compiled.value(labels))
  }

  /** An unset selector holds; an invalid one is an error only when it is reached. */
  function ClauseMatches(compile: Compiler, clause: Option<LabelSelector>, labels: Labels): Result<bool, string> {
    if clause.None? then Ok(true) else SelectorMatches(compile, clause.value, labels)
  }

  function RuleMatches(compile: Compiler, m: Option<RuleMatch>, namespaceLabels: Labels, podConfigLabels: Labels): Result<bool, string> {
    if m.None? then Ok(true)
    else
      var first := ClauseMatches(compile, m.value.matchNamespace, namespaceLabels);
      if first != Ok(true) then first else ClauseMatches(compile, m.value.matchPodConfig, podConfigLabels)
  }

  /** A rule is looked at only if it configures the effect. */
  function Verdict(compile: Compiler, rule: ActivityRule, namespaceLabels: Labels, podConfigLabels: Labels): Result<bool, string> {
    if rule.pauseWorkspace.None? then Ok(false) else RuleMatches(compile, rule.criteria, namespaceLabels, podConfigLabels)
  }

  function DecisionOf(rule: ActivityRule): Decision
    requires rule.pauseWorkspace.Some?
  {
    Decision(true, rule.pauseWorkspace.value, rule.secondsSinceActive,
             if rule.minRunningSeconds.Some? then rule.minRunningSeconds.value else 0)
  }

  function EvaluateRules(compile: Compiler, rules: seq<ActivityRule>, namespaceLabels: Labels, podConfigLabels: Labels): Result<Decision, string> {
    if rules == [] then Ok(Decision(false, false, 0, 0))
    else
      var v := Verdict(compile, rules[0], namespaceLabels, podConfigLabels);
      if v.Err? then Err(v.error)
      else if v.value then Ok(DecisionOf(rules[0]))
      else EvaluateRules(compile, rules[1..], namespaceLabels, podConfigLabels)
  }

  /** A selector that is not set accepts everything; one that is set has to compile and accept the labels. */
  predicate Accepts(compile: Compiler, clause: Option<LabelSelector>, labels: Labels) {
    clause.Some? ==> compile(clause.value).Some? && compile(clause.value).value(labels)
  }

  predicate Broken(compile: Compiler, clause: Option<LabelSelector>) {
    clause.Some? && compile(clause.value).None?
  }

  /** The rule configures the effect, its namespace selector accepts the namespace's labels, and its podConfig selector those of the podConfig. */
  predicate Applies(compile: Compiler, rule: ActivityRule, namespaceLabels: Labels, podConfigLabels: Labels) {
    && rule.pauseWorkspace.Some?
    && (rule.criteria.Some? ==>
          && Accepts(compile, rule.criteria.value.matchNamespace, namespaceLabels)
          && Accepts(compile, rule.criteria.value.matchPodConfig, podConfigLabels))
  }

  /** A selector that is reached does not compile: the podConfig selector is reached only if the namespace selector accepts. */
  predicate Breaks(compile: Compiler, rule: ActivityRule, namespaceLabels: Labels) {
    && rule.pauseWorkspace.Some? && rule.criteria.Some?
    && (|| Broken(compile, rule.criteria.value.matchNamespace)
        || (Accepts(compile, rule.criteria.value.matchNamespace, namespaceLabels) && Broken(compile, rule.criteria.value.matchPodConfig)))
  }

  lemma VerdictExactly(compile: Compiler, rule: ActivityRule, ns: Labels, pod: Labels)
    ensures Verdict(compile, rule, ns, pod) == Ok(true) <==> Applies(compile, rule, ns, pod)
    ensures Verdict(compile, rule, ns, pod).Err? <==> Breaks(compile, rule, ns)
  {}

  /** Rule `i` is the first that applies or breaks. */
  ghost predicate Decides(compile: Compiler, rules: seq<ActivityRule>, namespaceLabels: Labels, podConfigLabels: Labels, i: nat) {
    && i < |rules|
    && (Applies(compile, rules[i], namespaceLabels, podConfigLabels) || Breaks(compile, rules[i], namespaceLabels))
    && forall j :: 0 <= j < i ==>
         !Applies(compile, rules[j], namespaceLabels, podConfigLabels) && !Breaks(compile, rules[j], namespaceLabels)
  }

  /** The decision is what a rule says. */
  predicate Says(d: Decision, rule: ActivityRule) {
    && d.matched && rule.pauseWorkspace == Some(d.value) && d.secondsSinceActive == rule.secondsSinceActive
    && d.minRunningSeconds == if rule.minRunningSeconds.Some? then rule.minRunningSeconds.value else 0
  }

  /** First match wins, and a later invalid rule cannot turn an earlier match into an error. */
  lemma {:induction false} FirstDecidingRuleWins(compile: Compiler, rules: seq<ActivityRule>, ns: Labels, pod: Labels, i: nat)
    requires Decides(compile, rules, ns, pod, i)
    ensures EvaluateRules(compile, rules, ns, pod).Err? <==> Breaks(compile, rules[i], ns)
    ensures Applies(compile, rules[i], ns, pod) ==>
              EvaluateRules(compile, rules, ns, pod).Ok? && Says(EvaluateRules(compile, rules, ns, pod).value, rules[i])
  {
    VerdictExactly(compile, rules[0], ns, pod);
    if i > 0 {
      hide Verdict, Applies, Breaks;
      var tail := rules[1..];
      assert !Applies(compile, rules[0], ns, pod) && !Breaks(compile, rules[0], ns);
      assert forall j :: 0 <= j < |tail| ==> tail[j] == rules[j + 1];
      assert Decides(compile, tail, ns, pod, i - 1);
      FirstDecidingRuleWins(compile, tail, ns, pod, i - 1);
    }
  }

  lemma {:induction false} NoDecidingRule(compile: Compiler, rules: seq<ActivityRule>, ns: Labels, pod: Labels)
    requires forall j :: 0 <= j < |rules| ==> !Applies(compile, rules[j], ns, pod) && !Breaks(compile, rules[j], ns)
    ensures EvaluateRules(compile, rules, ns, pod) == Ok(Decision(false, false, 0, 0))
  {
    if rules != [] {
      hide Verdict, Applies, Breaks;
      VerdictExactly(compile, rules[0], ns, pod);
      assert !Applies(compile, rules[0], ns, pod) && !Breaks(compile, rules[0], ns);
      assert forall j :: 0 <= j < |rules[1..]| ==> rules[1..][j] == rules[j + 1];
      NoDecidingRule(compile, rules[1..], ns, pod);
    }
  }

  /** What the rules decide, from the rules as they are written. */
  ghost predicate DecidedBy(compile: Compiler, rules: seq<ActivityRule>, ns: Labels, pod: Labels, decision: Result<Decision, string>) {
    && (forall i: nat :: Decides(compile, rules, ns, pod, i) ==>
          && (decision.Err? <==> Breaks(compile, rules[i], ns))
          && (Applies(compile, rules[i], ns, pod) ==> decision.Ok? && Says(decision.value, rules[i])))
    && ((forall i: nat :: !Decides(compile, rules, ns, pod, i)) ==> decision.Ok? && !decision.value.matched)
  }

  lemma RulesDecide(compile: Compiler, rules: seq<ActivityRule>, ns: Labels, pod: Labels)
    ensures DecidedBy(compile, rules, ns, pod, EvaluateRules(compile, rules, ns, pod))
  {
    hide EvaluateRules, Says, Applies, Breaks;
    forall i: nat | Decides(compile, rules, ns, pod, i)
      ensures EvaluateRules(compile, rules, ns, pod).Err? <==> Breaks(compile, rules[i], ns)
      ensures Applies(compile, rules[i], ns, pod) ==>
                EvaluateRules(compile, rules, ns, pod).Ok? && Says(EvaluateRules(compile, rules, ns, pod).value, rules[i])
    {
      FirstDecidingRuleWins(compile, rules, ns, pod, i);
    }
    if forall i: nat :: !Decides(compile, rules, ns, pod, i) {
      NoneDecides(compile, rules, ns, pod, |rules|);
      NoDecidingRule(compile, rules, ns, pod);
    }
  }

  lemma {:induction false} NoneDecides(compile: Compiler, rules: seq<ActivityRule>, ns: Labels, pod: Labels, n: nat)
    requires n <= |rules| && forall i: nat :: !Decides(compile, rules, ns, pod, i)
    ensures forall j :: 0 <= j < n ==> !Applies(compile, rules[j], ns, pod) && !Breaks(compile, rules[j], ns)
  {
    hide Applies, Breaks;
    if n > 0 {
      NoneDecides(compile, rules, ns, pod, n - 1);
      assert !Decides(compile, rules, ns, pod, n - 1);
    }
  }

  // ---------- eligibility ----------

  function CalculateEligibleAfter(lastActivity: int, secondsSinceActive: int32): int {
    if lastActivity <= 0 then 0 else Wrap64(lastActivity + secondsSinceActive * 1000)
  }

  function IsEligibleForPause(lastActivity: int, lastRunningTime: int, now: int, secondsSinceActive: int32, minRunningSeconds: int32): bool {
    if lastActivity <= 0 then false
    else if now < CalculateEligibleAfter(lastActivity, secondsSinceActive) then false
    else if minRunningSeconds > 0 then
      if lastRunningTime <= 0 then false
      else Wrap64(Wrap64(now - lastRunningTime) * MILLI) >= minRunningSeconds * SECOND
    else true
  }

  /** First millisecond at which both the idle time and the running time are long enough. */
  function EligibleAt(lastActivity: int, lastRunningTime: int, secondsSinceActive: int32, minRunningSeconds: int32): int {
    var idle, ran := lastActivity + 1000 * secondsSinceActive, lastRunningTime + 1000 * minRunningSeconds;
    if minRunningSeconds > 0 && ran > idle then ran else idle
  }

  /** Exactly when a Workspace may be paused: activity is known, idle long enough, running long enough. */
  lemma EligibleExactly(lastActivity: int, lastRunningTime: int, now: int, ssa: int32, minRunning: int32)
    requires Readable(now) && Fits64(lastActivity + 1000 * ssa) && 0 <= lastRunningTime <= MAX_MS
    ensures IsEligibleForPause(lastActivity, lastRunningTime, now, ssa, minRunning) <==>
            && lastActivity > 0
            && (minRunning > 0 ==> lastRunningTime > 0)
            && now >= EligibleAt(lastActivity, lastRunningTime, ssa, minRunning)
  {
    assert Fits64((now - lastRunningTime) * MILLI);
  }

  /** `eligibleAfter` alone does not decide: the status documents it as the time after which the
      Workspace would be paused, but the minimum running time is a second condition. */
  lemma EligibleAfterIsNotEnough()
    ensures var after := CalculateEligibleAfter(1_000, 16);
            0 < after <= 20_000 && !IsEligibleForPause(1_000, 19_000, 20_000, 16, 300)
  {}

  // ---------- one reconcile ----------

  datatype PauseOutcome = PauseOutcome(activity: Activity, paused: bool, failed: bool)

  function ClearPauseRule(a: Activity): Activity {
    if a.rules.Some? then a.(rules := Some(RulesStatus(None))) else a
  }

  function EvaluatePauseDecision(compile: Compiler, a: Activity, lastRunningTime: int, rules: seq<ActivityRule>,
                                 ns: Labels, pod: Labels, now: int, allowPause: bool): PauseOutcome
  {
    if rules == [] then PauseOutcome(ClearPauseRule(a), false, false)
    else
      var decision := EvaluateRules(compile, rules, ns, pod);
      if decision.Err? then PauseOutcome(a, false, true)
      else if !decision.value.matched || !decision.value.value then PauseOutcome(ClearPauseRule(a), false, false)
      else
        var d := decision.value;
        var eligible := IsEligibleForPause(a.lastActivity, lastRunningTime, now, d.secondsSinceActive, d.minRunningSeconds);
        var after := CalculateEligibleAfter(a.lastActivity, d.secondsSinceActive);
        PauseOutcome(a.(rules := Some(RulesStatus(Some(after)))), eligible && allowPause, false)
  }

  /** Inputs of one reconcile of one Workspace: the WorkspaceKind, what the cluster reports and
      what the clock shows. `namespaceLabels` is None when they cannot be read. */
  datatype Tick = Tick(
    kind: Kind,
    newState: State,
    transitionClock: int,
    now: int,
    namespaceLabels: Option<Labels>,
    podConfigLabels: Labels,
    probeEnv: ProbeEnv,
    proxyFailed: bool,
    writeOk: bool,
    returned: int)

  /** `requeue` is 0 when no wake-up is requested. `probed` holds the probe that ran, if any. */
  datatype Reconciled = Reconciled(status: Status, requeue: int, paused: bool, failed: bool, probed: Option<ProbeResult>)

  function ReconcileActivity(compile: Compiler, s: Status, t: Tick): Reconciled {
    if t.kind.activityProbe.None? || !s.state.Running? then Reconciled(s, 0, false, false, None)
    else if t.namespaceLabels.None? then Reconciled(s, 0, false, true, None)
    else
      var probe := t.kind.activityProbe.value;
      var now := UnixMilli(t.now);
      var minInterval := probe.MinSeconds() * SECOND;
      var interval := probe.IntervalSeconds() * SECOND;
      var wait := TimeUntilProbeDue(s.activity.lastProbe, now, minInterval, interval);
      if wait.Some? then
        var d := EvaluatePauseDecision(compile, s.activity, s.lastRunningTime, t.kind.activityRules,
                                       t.namespaceLabels.value, t.podConfigLabels, now, false);
        Reconciled(s.(activity := d.activity), if d.failed then 0 else wait.value, false, d.failed, None)
      else
        var result := RunProbe(probe, t.probeEnv);
        var updated := ApplyProbe(s.activity, s.lastRunningTime, result);
        var d := EvaluatePauseDecision(compile, updated, s.lastRunningTime, t.kind.activityRules,
                                       t.namespaceLabels.value, t.podConfigLabels, now, result.outcome.Success?);
        Reconciled(s.(activity := d.activity),
                   if d.failed then 0 else if result.outcome.Success? then interval else minInterval,
                   d.paused && !d.failed, d.failed, Some(result))
  }
}

/** When a Workspace is paused: never on stored activity alone, and what the reports of its probes have to do with it. */
module ActivityPauses {
  import opened Prelude
  import opened ActivityModel
  import opened ActivityRuns

  // ---------- one reconcile ----------

  /** The conditions on which a Workspace is paused, in terms of what one reconcile met. */
  ghost predicate MayPause(compile: Compiler, e: Entry) {
    && e.Active()
    && var entered := RecordRunningTransition(e.read.status, e.tick.newState, e.tick.transitionClock);
       var now := UnixMilli(e.tick.now);
       var result := RunProbe(e.Probe(), e.tick.probeEnv);
       var decision := e.Rules(compile);
       && TimeUntilProbeDue(entered.activity.lastProbe, now, e.Probe().MinSeconds() * SECOND, e.Probe().IntervalSeconds() * SECOND).None?
       && result.outcome.Success?
       && decision.Ok? && decision.value.matched && decision.value.value
       && IsEligibleForPause(ApplyProbe(entered.activity, entered.lastRunningTime, result).lastActivity,
                             entered.lastRunningTime, now, decision.value.secondsSinceActive, decision.value.minRunningSeconds)
  }

  /** A reconcile pauses exactly when a probe due now ran, succeeded and left the Workspace eligible under
      the first matching rule. */
  lemma PausesExactlyOnFreshEvidence(compile: Compiler, e: Entry)
    requires e.Follows(compile)
    ensures e.outcome.paused <==> MayPause(compile, e)
    ensures e.outcome.paused ==>
              && e.Active() && e.Probes() && e.outcome.probed.value.outcome.Success?
              && e.Rules(compile).Ok? && e.Rules(compile).value.matched && e.Rules(compile).value.value
              && IsEligibleForPause(e.outcome.status.activity.lastActivity, e.outcome.status.lastRunningTime, UnixMilli(e.tick.now),
                                    e.Rules(compile).value.secondsSinceActive, e.Rules(compile).value.minRunningSeconds)
    ensures e.Active() && e.Probes() && e.outcome.probed.value.outcome.Success? && e.Rules(compile).Ok? && e.Rules(compile).value.matched
            && e.Rules(compile).value.value
            && IsEligibleForPause(e.outcome.status.activity.lastActivity, e.outcome.status.lastRunningTime, UnixMilli(e.tick.now),
                                  e.Rules(compile).value.secondsSinceActive, e.Rules(compile).value.minRunningSeconds) ==>
              e.outcome.paused
  {
    hide Stored, IsEligibleForPause, CalculateEligibleAfter, TimeUntilProbeDue, RunProbe;
  }

  /** Activity reported by the probe of a reconcile and newer than the idle timeout prevents a pause in that
      reconcile, up to the truncation to milliseconds. */
  lemma RecentActivityPreventsPause(compile: Compiler, e: Entry)
    requires e.Follows(compile) && e.outcome.paused && e.Active() && e.Rules(compile).Ok?
    requires e.outcome.probed.Some? && e.outcome.probed.value.lastActivity.Some?
    requires Fits64(UnixMilli(e.outcome.probed.value.lastActivity.value) + 1000 * e.Rules(compile).value.secondsSinceActive)
    ensures e.tick.now > e.outcome.probed.value.lastActivity.value + e.Rules(compile).value.secondsSinceActive * SECOND - MILLI
  {
    hide Reconcile, Stored, EvaluateRules, MayPause;
    PausesExactlyOnFreshEvidence(compile, e);
    ComputedEvidence(compile, e);
  }

  /** `now` is read before the probe, so a podExec probe that reports activity never pauses, with any
      positive idle timeout. */
  lemma ActiveReportNeverPauses(compile: Compiler, e: Entry)
    requires e.Follows(compile) && TimedTick(e.tick) && e.Active() && e.Probe().jupyter.None?
    requires e.tick.probeEnv.exec.ExecOutput? && ReportsActive(e.tick.probeEnv.exec.output)
    requires forall i :: 0 <= i < |e.tick.kind.activityRules| ==> e.tick.kind.activityRules[i].secondsSinceActive > 0
    ensures !e.outcome.paused
  {
    hide Reconcile, Stored, EvaluateRules;
    PausesExactlyOnFreshEvidence(compile, e);
    var t := e.tick;
    RulesGiveTheirTimeout(compile, t.kind.activityRules, t.namespaceLabels.value, t.podConfigLabels);
    if e.outcome.paused {
      ComputedEvidence(compile, e);
      ProbeIs(compile, e);
    }
  }

  lemma {:induction false} RulesGiveTheirTimeout(compile: Compiler, rules: seq<ActivityRule>, ns: Labels, pod: Labels)
    requires forall i :: 0 <= i < |rules| ==> rules[i].secondsSinceActive > 0
    ensures var d := EvaluateRules(compile, rules, ns, pod);
            d.Ok? && d.value.matched ==> d.value.secondsSinceActive > 0
  {
    if rules != [] {
      assert forall i :: 0 <= i < |rules[1..]| ==> rules[1..][i] == rules[i + 1];
      RulesGiveTheirTimeout(compile, rules[1..], ns, pod);
    }
  }

  /** A podExec probe that reports no activity never moves a known activity time, and at most seeds an unknown
      one with the start of the Running period. */
  lemma InactiveReportKeepsActivity(compile: Compiler, e: Entry)
    requires e.Follows(compile) && e.Probes() && TimedTick(e.tick) && e.Active() && e.Probe().jupyter.None?
    requires e.tick.probeEnv.exec.ExecOutput?
    requires e.tick.probeEnv.exec.output.Object? && e.tick.probeEnv.exec.output.hasActivity == Some(false)
    ensures var known, since := if e.Enters() then 0 else e.read.status.activity.lastActivity, e.outcome.status.lastRunningTime;
            e.outcome.status.activity.lastActivity ==
            if e.outcome.probed.value.outcome.Success? && known <= 0 && since > 0 then since else known
  {
    hide Reconcile, Stored;
    ComputedEvidence(compile, e);
    ProbeIs(compile, e);
  }

  // ---------- pauses and what the status and the rules say ----------

  /** A pause shows in the status: `eligibleAfter` is set and has passed. */
  lemma PauseShowsInStatus(compile: Compiler, e: Entry)
    requires e.Follows(compile) && e.outcome.paused && e.Active() && e.Rules(compile).Ok?
    requires Fits64(e.outcome.status.activity.lastActivity + 1000 * e.Rules(compile).value.secondsSinceActive)
    ensures var rules := e.outcome.status.activity.rules;
            rules.Some? && rules.value.pauseWorkspace.Some? && rules.value.pauseWorkspace.value <= UnixMilli(e.tick.now)
    ensures e.Rules(compile).value.secondsSinceActive >= 0 ==> e.outcome.status.activity.rules.value.pauseWorkspace.value > 0
  {
    hide Reconcile, Stored, EvaluateRules, MayPause;
    PausesExactlyOnFreshEvidence(compile, e);
    FailsExactly(compile, e);
    RuleStatus(compile, e);
  }

  /** And without a minimum running time that is all there is to it: after a successful probe, a rule that asks for a pause
      gets it exactly if the stored `eligibleAfter` has passed. */
  lemma EligibleAfterDecides(compile: Compiler, e: Entry)
    requires e.Follows(compile) && e.Probes() && e.outcome.probed.value.outcome.Success? && TimedTick(e.tick)
    requires e.Active() && e.Rules(compile).Ok? && e.Rules(compile).value.matched && e.Rules(compile).value.value
    requires e.Rules(compile).value.minRunningSeconds <= 0 && e.Rules(compile).value.secondsSinceActive >= 0
    requires Fits64(e.outcome.status.activity.lastActivity + 1000 * e.Rules(compile).value.secondsSinceActive)
    ensures var rules := e.outcome.status.activity.rules;
            && rules.Some? && rules.value.pauseWorkspace.Some?
            && (e.outcome.paused <==> 0 < rules.value.pauseWorkspace.value <= UnixMilli(e.tick.now))
  {
    hide Reconcile, Stored, EvaluateRules, MayPause;
    PausesExactlyOnFreshEvidence(compile, e);
    FailsExactly(compile, e);
    RuleStatus(compile, e);
  }

  /** A rule that exempts the Workspaces it applies to: if it is the first to apply, there is no pause and no `eligibleAfter`,
      whatever the rules after it say. */
  lemma ExemptNeverPauses(compile: Compiler, e: Entry, i: nat)
    requires e.Follows(compile) && e.Active()
    requires Decides(compile, e.tick.kind.activityRules, e.tick.namespaceLabels.value, e.tick.podConfigLabels, i)
    requires Applies(compile, e.tick.kind.activityRules[i], e.tick.namespaceLabels.value, e.tick.podConfigLabels)
    requires e.tick.kind.activityRules[i].pauseWorkspace == Some(false)
    ensures !e.outcome.paused && !e.outcome.failed
    ensures e.outcome.status.activity.rules.Some? ==> e.outcome.status.activity.rules.value.pauseWorkspace.None?
  {
    hide Reconcile, Stored, EvaluateRules, MayPause, Decides, Applies;
    FirstDecidingRuleWins(compile, e.tick.kind.activityRules, e.tick.namespaceLabels.value, e.tick.podConfigLabels, i);
    FailsExactly(compile, e);
    RuleStatus(compile, e);
    PausesExactlyOnFreshEvidence(compile, e);
  }

  // ---------- pauses and what the probes were told ----------

  /** Under a Jupyter probe, a pause of any run means that Jupyter answered with a time that is at least the idle timeout old, and
      that this is the activity time in the status. */
  lemma JupyterPauseIsOld(compile: Compiler, log: seq<Entry>, k: nat)
    requires Run(compile, log) && Timed(log) && k < |log|
    requires log[k].outcome.paused && log[k].Active() && log[k].Probe().jupyter.Some? && log[k].Rules(compile).Ok?
    ensures log[k].tick.probeEnv.jupyter.JupyterActivity?
    ensures var at, timeout := UnixMilli(log[k].tick.probeEnv.jupyter.at), 1000 * log[k].Rules(compile).value.secondsSinceActive;
            && log[k].outcome.status.activity.lastActivity == at > 0
            && (Fits64(at + timeout) ==> UnixMilli(log[k].tick.now) >= at + timeout)
  {
    hide Reconcile, Stored, EvaluateRules, MayPause, RunProbe;
    var e := log[k];
    PausesExactlyOnFreshEvidence(compile, e);
    ComputedEvidence(compile, e);
    ProbeIs(compile, e);
    if JupyterReady(e.Probe(), e.tick.probeEnv) {
      JupyterProbeByReply(e.Probe(), e.tick.probeEnv);
    } else {
      UnreadyProbeFails(e.Probe(), e.tick.probeEnv);
    }
  }

  /** Under a podExec probe it means that the script ran and did not report activity, and that a time it named is at least the idle
      timeout old. */
  lemma PodExecPauseIsOld(compile: Compiler, log: seq<Entry>, k: nat)
    requires Run(compile, log) && Timed(log) && k < |log|
    requires log[k].outcome.paused && log[k].Active() && log[k].Probe().jupyter.None? && log[k].Rules(compile).Ok?
    requires log[k].Rules(compile).value.secondsSinceActive > 0
    ensures var exec, timeout := log[k].tick.probeEnv.exec, 1000 * log[k].Rules(compile).value.secondsSinceActive;
            && log[k].Probe().podExec && exec.ExecOutput? && !ReportsActive(exec.output)
            && (ReportsInactive(exec.output) || exists at :: ReportsTime(exec.output, at))
            && (forall at :: ReportsTime(exec.output, at) ==>
                  && log[k].outcome.status.activity.lastActivity == UnixMilli(at) > 0
                  && (Fits64(UnixMilli(at) + timeout) ==> UnixMilli(log[k].tick.now) >= UnixMilli(at) + timeout))
  {
    hide Reconcile, Stored, EvaluateRules, MayPause, RunProbe;
    var e := log[k];
    PausesExactlyOnFreshEvidence(compile, e);
    ComputedEvidence(compile, e);
    ProbeIs(compile, e);
    if PodExecReady(e.Probe(), e.tick.probeEnv) {
      PodExecProbeByReply(e.Probe(), e.tick.probeEnv);
    } else {
      UnreadyProbeFails(e.Probe(), e.tick.probeEnv);
    }
  }

  // ---------- the reports of a Running period ----------

  /** Activity times that successful probes reported, oldest report first. */
  function Reports(history: seq<ProbeResult>): seq<int> {
    if history == [] then []
    else
      var rest, r := Reports(history[..|history| - 1]), history[|history| - 1];
      if r.outcome.Success? && r.lastActivity.Some? then rest + [UnixMilli(r.lastActivity.value)] else rest
  }

  /** A known activity time is the latest report, or the start of the Running period if there is none (or a report
      of no time at all). */
  lemma {:induction false} ActivityIsLatestReport(lastRunningTime: int, history: seq<ProbeResult>)
    ensures var a, reports := FoldHistory(lastRunningTime, history).lastActivity, Reports(history);
            && (a > 0 ==> a == if reports != [] && reports[|reports| - 1] > 0 then reports[|reports| - 1] else lastRunningTime)
            && (reports != [] && reports[|reports| - 1] > 0 ==> a == reports[|reports| - 1])
  {
    if history != [] {
      ActivityIsLatestReport(lastRunningTime, history[..|history| - 1]);
    }
  }

  /** Recorded probes of the Running period that reconcile `k` knows of when it has read the store before `p`, then its own. */
  function Known(log: seq<Entry>, p: nat, k: nat): seq<ProbeResult>
    requires p <= k < |log| && log[k].Probes()
  {
    (if log[k].Enters() then [] else History(log[..p])) + [log[k].outcome.probed.value]
  }

  /** What a reconcile computes is the fold of the probes it knows of. */
  lemma ComputedIsFold(compile: Compiler, log: seq<Entry>, k: nat) returns (p: nat)
    requires Run(compile, log) && k < |log| && log[0].stored.status.activity == NO_ACTIVITY && log[k].Probes()
    ensures p <= k && log[k].read == StoreAt(log, p) && (log[k].Current() ==> p == k)
    ensures EvidenceOf(log[k].outcome.status.activity) == FoldHistory(log[k].outcome.status.lastRunningTime, Known(log, p, k))
  {
    hide Reconcile, Stored;
    p := ReadIsFold(compile, log, k);
    ComputedEvidence(compile, log[k]);
    var e := log[k];
    FoldOneMore(e.outcome.status.lastRunningTime, if e.Enters() then [] else History(log[..p]), e.outcome.probed.value);
  }

  /** Pause safety over runs: at every pause the activity time is that of the recorded probes of the Running period, the
      last of them run by the pausing reconcile; it is the latest time they reported (or the start of the
      period), and at least the idle timeout old. */
  lemma PauseRestsOnHistory(compile: Compiler, log: seq<Entry>, k: nat) returns (p: nat)
    requires Run(compile, log) && k < |log| && log[0].stored.status.activity == NO_ACTIVITY && log[k].outcome.paused
    ensures log[k].Active() && log[k].Probes() && log[k].Rules(compile).Ok?
    ensures p <= k && log[k].read == StoreAt(log, p) && (log[k].Current() ==> p == k)
    ensures var since, reports := log[k].outcome.status.lastRunningTime, Reports(Known(log, p, k));
            var a := FoldHistory(since, Known(log, p, k)).lastActivity;
            && a > 0 && a == (if reports != [] && reports[|reports| - 1] > 0 then reports[|reports| - 1] else since)
            && (Fits64(a + 1000 * log[k].Rules(compile).value.secondsSinceActive) ==>
                  UnixMilli(log[k].tick.now) >= a + 1000 * log[k].Rules(compile).value.secondsSinceActive)
  {
    hide Reconcile, Stored, EvaluateRules, MayPause;
    PausesExactlyOnFreshEvidence(compile, log[k]);
    p := ComputedIsFold(compile, log, k);
    ActivityIsLatestReport(log[k].outcome.status.lastRunningTime, Known(log, p, k));
  }

  // ---------- pauses that are carried out ----------

  /** A probe changes the status, so a pause is carried out exactly if the status was read at the current version and
      stored. A decision on an outdated read is dropped with its status. */
  lemma PauseIsCarriedOutExactly(compile: Compiler, log: seq<Entry>, k: nat)
    requires Run(compile, log) && Timed(log) && k < |log| && log[0].stored.status.activity.lastProbe.None?
    requires log[k].Active() && 0 < log[k].Probe().MinSeconds() && 0 < log[k].Probe().IntervalSeconds()
    requires log[k].Enters() && log[k].tick.proxyFailed ==>
               log[k].read.status.lastRunningTime != UnixMilli(log[k].tick.transitionClock)
    ensures log[k].CarriesOutPause() <==> log[k].outcome.paused && log[k].Persisted()
  {
    hide Reconcile, Stored, EvaluateRules, MayPause;
    var e := log[k];
    ReadIsSound(compile, log, k);
    if e.outcome.paused {
      PausesExactlyOnFreshEvidence(compile, e);
      ComputedEvidence(compile, e);
      UnixMilliMonotone(MILLI, e.tick.transitionClock);
      if !e.Enters() {
        ProbedStatusDiffers(compile, log, k);
      }
    }
  }

  /** A due probe is recorded with a later start than the one before. */
  lemma ProbedStatusDiffers(compile: Compiler, log: seq<Entry>, k: nat)
    requires Run(compile, log) && Timed(log) && k < |log| && log[0].stored.status.activity.lastProbe.None?
    requires log[k].Active() && 0 < log[k].Probe().MinSeconds() && 0 < log[k].Probe().IntervalSeconds()
    requires log[k].Probes() && !log[k].Enters()
    ensures log[k].outcome.status.activity.lastProbe != log[k].read.status.activity.lastProbe
  {
    hide Reconcile, Stored;
    var e := log[k];
    var last := e.read.status.activity.lastProbe;
    ComputedEvidence(compile, e);
    ProbeIs(compile, e);
    Schedule(compile, e);
    ReadBehindClock(compile, log, k);
    if last.Some? {
      DueIsExact(last.value, UnixMilli(e.tick.now), e.Probe().MinSeconds(), e.Probe().IntervalSeconds());
    }
  }

  // ---------- reports newer than the timeout ----------

  predicate NoneAfter(reports: seq<int>, time: int) {
    forall i :: 0 <= i < |reports| ==> reports[i] <= time
  }

  /** Exactly when no pause can come sooner than the idle timeout after any of some reports, recorded or not: none of them is
      later than the activity time, or than the minimum running time makes up for. */
  lemma NoRecentReportExactly(lastActivity: int, lastRunningTime: int, reports: seq<int>, ssa: int32, minRunning: int32)
    requires lastActivity > 0 && 0 < lastRunningTime <= MAX_MS && Fits64(lastActivity + 1000 * ssa)
    requires Readable(EligibleAt(lastActivity, lastRunningTime, ssa, minRunning))
    ensures (forall now :: Readable(now) && IsEligibleForPause(lastActivity, lastRunningTime, now, ssa, minRunning) ==>
               NoneAfter(reports, now - 1000 * ssa))
            <==> NoneAfter(reports, EligibleAt(lastActivity, lastRunningTime, ssa, minRunning) - 1000 * ssa)
  {
    hide IsEligibleForPause;
    var first := EligibleAt(lastActivity, lastRunningTime, ssa, minRunning);
    EligibleExactly(lastActivity, lastRunningTime, first, ssa, minRunning);
    forall now | Readable(now) && IsEligibleForPause(lastActivity, lastRunningTime, now, ssa, minRunning)
      ensures now >= first
    {
      EligibleExactly(lastActivity, lastRunningTime, now, ssa, minRunning);
    }
  }

  /** In particular reports in order of time: then the latest is the largest. */
  lemma OrderedReports(lastRunningTime: int, history: seq<ProbeResult>)
    requires FoldHistory(lastRunningTime, history).lastActivity > 0
    requires forall i, j :: 0 <= i < j < |Reports(history)| ==> Reports(history)[i] <= Reports(history)[j]
    ensures NoneAfter(Reports(history), FoldHistory(lastRunningTime, history).lastActivity)
  {
    ActivityIsLatestReport(lastRunningTime, history);
  }

  /** The start of the Running period stays in the range of the clock. */
  lemma {:induction false} SinceInRange(compile: Compiler, log: seq<Entry>, i: nat)
    requires Run(compile, log) && Timed(log) && log != [] && i <= |log| && 0 <= log[0].stored.status.lastRunningTime <= MAX_MS
    ensures 0 <= StoreAt(log, i).status.lastRunningTime <= MAX_MS
    decreases i
  {
    hide Reconcile, Stored;
    if i > 0 {
      var t := log[i - 1].tick;
      SinceInRange(compile, log, i - 1);
      assert Linked(log, i - 1);
      StoredEvidence(compile, log, i - 1);
      ComputedEvidence(compile, log[i - 1]);
      UnixMilliMonotone(MILLI, t.transitionClock);
      UnixMilliMonotone(t.transitionClock, t.returned);
    }
  }

  /** The status stored at a pause is the fold of the recorded probes, and eligible. */
  lemma StoredPauseIsEligible(compile: Compiler, log: seq<Entry>, k: nat)
    requires Run(compile, log) && k < |log| && log[0].stored.status.activity == NO_ACTIVITY
    requires log[k].outcome.paused && log[k].Persisted()
    ensures log[k].Active() && log[k].Rules(compile).Ok?
    ensures var since, d := log[k].after.status.lastRunningTime, log[k].Rules(compile).value;
            IsEligibleForPause(FoldHistory(since, History(log[..k + 1])).lastActivity, since, UnixMilli(log[k].tick.now),
                               d.secondsSinceActive, d.minRunningSeconds)
  {
    PausesExactlyOnFreshEvidence(compile, log[k]);
    StoredEvidence(compile, log, k);
    StatusIsFold(compile, log, k + 1);
    hide Run, Reconcile, Stored, EvaluateRules, MayPause, IsEligibleForPause, History, FoldHistory;
  }

  /** Over runs: at every pause that is carried out, the activity time is the fold of all recorded probes of the Running period, the
      last of them its own, and the pause comes no sooner than both idle time and running time allow. So if no
      recorded report of the period is later than the activity time (or than the minimum running time makes
      up for), every one of them is at least the idle timeout old. */
  lemma EveryReportIsOld(compile: Compiler, log: seq<Entry>, k: nat)
    requires Run(compile, log) && Timed(log) && k < |log| && log[0].stored.status.activity == NO_ACTIVITY
    requires 0 <= log[0].stored.status.lastRunningTime <= MAX_MS
    requires log[k].outcome.paused && log[k].Persisted()
    ensures log[k].Active() && log[k].Rules(compile).Ok?
    ensures var since, history := log[k].after.status.lastRunningTime, History(log[..k + 1]);
            var a, d := FoldHistory(since, history).lastActivity, log[k].Rules(compile).value;
            var now, first := UnixMilli(log[k].tick.now), EligibleAt(a, since, d.secondsSinceActive, d.minRunningSeconds);
            && a > 0
            && (Fits64(a + 1000 * d.secondsSinceActive) ==>
                  && now >= first
                  && (NoneAfter(Reports(history), first - 1000 * d.secondsSinceActive) ==>
                        NoneAfter(Reports(history), now - 1000 * d.secondsSinceActive)))
  {
    hide *;
    StoredPauseIsEligible(compile, log, k);
    TimesInRange(compile, log, k);
    var since, d := log[k].after.status.lastRunningTime, log[k].Rules(compile).value;
    var history := History(log[..k + 1]);
    EligibleMeansOld(FoldHistory(since, history).lastActivity, since, UnixMilli(log[k].tick.now),
                     d.secondsSinceActive, d.minRunningSeconds, Reports(history));
  }

  lemma TimesInRange(compile: Compiler, log: seq<Entry>, k: nat)
    requires Run(compile, log) && Timed(log) && k < |log| && 0 <= log[0].stored.status.lastRunningTime <= MAX_MS
    ensures 0 <= log[k].after.status.lastRunningTime <= MAX_MS && Readable(UnixMilli(log[k].tick.now))
  {
    SinceInRange(compile, log, k + 1);
    UnixMilliMonotone(MILLI, log[k].tick.now);
    UnixMilliMonotone(log[k].tick.now, log[k].tick.returned);
  }

  lemma EligibleMeansOld(lastActivity: int, lastRunningTime: int, now: int, ssa: int32, minRunning: int32, reports: seq<int>)
    requires Readable(now) && 0 <= lastRunningTime <= MAX_MS
    requires IsEligibleForPause(lastActivity, lastRunningTime, now, ssa, minRunning)
    ensures var first := EligibleAt(lastActivity, lastRunningTime, ssa, minRunning);
            && lastActivity > 0
            && (Fits64(lastActivity + 1000 * ssa) ==>
                  now >= first && (NoneAfter(reports, first - 1000 * ssa) ==> NoneAfter(reports, now - 1000 * ssa)))
  {
    if Fits64(lastActivity + 1000 * ssa) {
      EligibleExactly(lastActivity, lastRunningTime, now, ssa, minRunning);
    }
  }

  // ---------- pauses soon after a report ----------

  /** Probes every two seconds, sixteen seconds of idleness. */
  const QUICK_PROBE := ActivityProbe(Some(1), Some(2), None, true)

  const QUICK := Kind(Some(QUICK_PROBE), [ActivityRule(16, None, None, Some(true))])

  /** A reconcile that takes no time. */
  function QuickEntry(compile: Compiler, seconds: int, report: ExecOutput, writeOk: bool, read: Versioned, stored: Versioned): Entry {
    EntryOf(compile, PlainTick(QUICK, seconds * SECOND, seconds * SECOND, report, writeOk), read, stored)
  }

  lemma QuickProbe(seconds: nat, report: ExecOutput, writeOk: bool)
    requires report.Object? && (report.hasActivity.Some? || report.lastActivity == Some(Some(50 * SECOND)))
    ensures var r := RunProbe(QUICK_PROBE, PlainTick(QUICK, seconds * SECOND, seconds * SECOND, report, writeOk).probeEnv);
            && r.outcome.Success? && r.start == seconds * SECOND
            && r.lastActivity == if report.hasActivity == Some(true) then Some(seconds * SECOND)
                                 else if report.hasActivity == Some(false) then None else Some(50 * SECOND)
  {}

  /** A due probe of such a reconcile: what it computes, and when it pauses. */
  lemma QuickStep(compile: Compiler, seconds: nat, report: ExecOutput, writeOk: bool, read: Versioned, stored: Versioned)
    requires 1 <= seconds <= 1_000 && read.status.state.Running? && read.status.lastRunningTime == 1_000
    requires report.Object? && (report.hasActivity.Some? || report.lastActivity == Some(Some(50 * SECOND)))
    requires var last := read.status.activity.lastProbe;
             last.Some? ==> last.value.outcome.Success? && 0 < last.value.startTime <= seconds * 1000 - 2_000
    ensures var e := QuickEntry(compile, seconds, report, writeOk, read, stored);
            var r := if report.hasActivity == Some(true) then Some(seconds * SECOND)
                     else if report.hasActivity == Some(false) then None else Some(50 * SECOND);
            && e.Probes() && e.outcome.probed.value.outcome.Success? && e.outcome.probed.value.lastActivity == r
            && !e.outcome.failed && !e.Enters() && e.outcome.status.state.Running?
            && e.outcome.status.lastRunningTime == 1_000
            && RecordOf(e.outcome.probed.value).startTime == seconds * 1000
            && EvidenceOf(e.outcome.status.activity) == Extend(1_000, EvidenceOf(read.status.activity), e.outcome.probed.value)
            && (e.outcome.paused <==> IsEligibleForPause(e.outcome.status.activity.lastActivity, 1_000, seconds * 1000, 16, 0))
  {
    var e := QuickEntry(compile, seconds, report, writeOk, read, stored);
    assert e.Rules(compile) == Ok(Decision(true, true, 16, 0)) by {
      assert Verdict(compile, QUICK.activityRules[0], map[], map[]) == Ok(true);
    }
    var last := read.status.activity.lastProbe;
    if last.Some? {
      DueIsExact(last.value, seconds * 1000, 1, 2);
    }
    QuickProbe(seconds, report, writeOk);
    assert TimedTick(e.tick);
    hide Reconcile, Stored, EvaluateRules, IsEligibleForPause, MayPause, RunProbe;
    Schedule(compile, e);
    hide TimeUntilProbeDue;
    ProbeIs(compile, e);
    FailsExactly(compile, e);
    ComputedEvidence(compile, e);
    PausesExactlyOnFreshEvidence(compile, e);
  }

  predicate QuickTick(t: Tick) {
    && t.probeEnv.exec.ExecOutput? && t == PlainTick(QUICK, t.now, t.now, t.probeEnv.exec.output, t.writeOk)
    && SECOND <= t.now <= 1_000 * SECOND
  }

  /** The first two reconciles read the store, the third may read what the second read. */
  lemma QuickRun(compile: Compiler, log: seq<Entry>)
    requires 1 <= |log| <= 3 && forall k :: 0 <= k < |log| ==> log[k].Follows(compile)
    requires log[0].stored == START && forall k :: 0 < k < |log| ==> log[k].stored == log[k - 1].after
    requires forall k :: 0 <= k < |log| ==> log[k].Current() || (k == 2 && log[k].read == log[0].after)
    requires forall k :: 0 <= k < |log| ==> QuickTick(log[k].tick)
    requires forall j, k :: 0 <= j < k < |log| ==> log[j].tick.now <= log[k].tick.now
    ensures Run(compile, log) && Timed(log)
  {
    hide Reconcile, Stored;
    forall k | 0 <= k < |log| ensures TimedTick(log[k].tick) {
      UnixMilliMonotone(log[k].tick.now, 1_000 * SECOND);
    }
    forall k | 0 <= k < |log| ensures Linked(log, k) {
      assert log[k].read == StoreAt(log, if log[k].Current() then k else 1);
    }
  }

  /** Without that condition the property fails. A Workspace reported active at 100 s is paused at 102 s, because the later
      report names an older time and overwrites the earlier one. */
  lemma OlderReportPauses(compile: Compiler)
    ensures var first := QuickEntry(compile, 100, Object(Some(true), None), true, START, START);
            var log := [first, QuickEntry(compile, 102, Object(None, Some(Some(50 * SECOND))), true, first.after, first.after)];
            && Run(compile, log) && Timed(log) && log[0].Records() && log[1].Records() && log[1].CarriesOutPause()
            && Reports(History(log[..2])) == [100_000, 50_000]
  {
    var first := QuickEntry(compile, 100, Object(Some(true), None), true, START, START);
    var second := QuickEntry(compile, 102, Object(None, Some(Some(50 * SECOND))), true, first.after, first.after);
    var log := [first, second];
    QuickStep(compile, 100, Object(Some(true), None), true, START, START);
    hide Reconcile, IsEligibleForPause;
    assert first.Follows(compile) && first.after.status == first.outcome.status;
    QuickStep(compile, 102, Object(None, Some(Some(50 * SECOND))), true, first.after, first.after);
    hide Stored;
    QuickRun(compile, log);
    EligibleExactly(50_000, 1_000, 102_000, 16, 0);
    hide History, Reports, Run, Timed;
    TwoReports(log);
  }

  lemma TwoReports(log: seq<Entry>)
    requires |log| == 2 && log[0].Records() && log[1].Records() && !log[1].Enters()
    requires forall k :: 0 <= k < 2 ==> log[k].outcome.probed.value.outcome.Success? && log[k].outcome.probed.value.lastActivity.Some?
    ensures Reports(History(log[..2])) ==
            [UnixMilli(log[0].outcome.probed.value.lastActivity.value), UnixMilli(log[1].outcome.probed.value.lastActivity.value)]
  {
    var a, b := log[0].outcome.probed.value, log[1].outcome.probed.value;
    HistoryOneMore(log, 1);
    HistoryOneMore(log, 2);
    assert History(log[..0]) == [] && History(log[..2]) == [a, b];
    assert [a][..0] == [] && Reports([a]) == [UnixMilli(a.lastActivity.value)];
    assert [a, b][..1] == [a];
  }

  /** Nor does the property reach reports whose status write was lost: the report of activity at 100 s leaves no trace, and the
      probe at 102 s, which has nothing new to report, pauses the Workspace. */
  lemma LostReportPauses(compile: Compiler)
    ensures var first := QuickEntry(compile, 5, Object(Some(false), None), true, START, START);
            var second := QuickEntry(compile, 100, Object(Some(true), None), false, first.after, first.after);
            var third := QuickEntry(compile, 102, Object(Some(false), None), true, second.after, second.after);
            && Run(compile, [first, second, third]) && Timed([first, second, third])
            && first.Records() && third.Records() && third.CarriesOutPause()
            && second.outcome.probed.value.lastActivity == Some(100 * SECOND) && second.after == first.after
  {
    var first := QuickEntry(compile, 5, Object(Some(false), None), true, START, START);
    var second := QuickEntry(compile, 100, Object(Some(true), None), false, first.after, first.after);
    var third := QuickEntry(compile, 102, Object(Some(false), None), true, second.after, second.after);
    QuickStep(compile, 5, Object(Some(false), None), true, START, START);
    hide Reconcile, IsEligibleForPause;
    assert first.Follows(compile) && first.after.status == first.outcome.status;
    QuickStep(compile, 100, Object(Some(true), None), false, first.after, first.after);
    assert second.Follows(compile) && second.after == first.after;
    QuickStep(compile, 102, Object(Some(false), None), true, second.after, second.after);
    hide Stored, Run, Timed;
    QuickRun(compile, [first, second, third]);
    EligibleExactly(1_000, 1_000, 102_000, 16, 0);
  }

  /** A decision on an outdated read: the report of activity at 100 s is recorded, the reconcile at 102 s has not seen it and decides
      to pause. Its status is refused, so the pause is not carried out. */
  lemma OutdatedPauseIsDropped(compile: Compiler)
    ensures var first := QuickEntry(compile, 5, Object(Some(false), None), true, START, START);
            var second := QuickEntry(compile, 100, Object(Some(true), None), true, first.after, first.after);
            var third := QuickEntry(compile, 102, Object(Some(false), None), true, first.after, second.after);
            && Run(compile, [first, second, third]) && Timed([first, second, third])
            && first.Records() && second.Records() && second.outcome.probed.value.lastActivity == Some(100 * SECOND)
            && third.outcome.paused && !third.CarriesOutPause() && third.after == second.after
  {
    var first := QuickEntry(compile, 5, Object(Some(false), None), true, START, START);
    var second := QuickEntry(compile, 100, Object(Some(true), None), true, first.after, first.after);
    var third := QuickEntry(compile, 102, Object(Some(false), None), true, first.after, second.after);
    QuickStep(compile, 5, Object(Some(false), None), true, START, START);
    hide Reconcile, IsEligibleForPause;
    assert first.Follows(compile) && first.after.status == first.outcome.status;
    QuickStep(compile, 100, Object(Some(true), None), true, first.after, first.after);
    assert second.Follows(compile) && second.after == Versioned(second.outcome.status, first.after.version + 1);
    QuickStep(compile, 102, Object(Some(false), None), true, first.after, second.after);
    assert third.Follows(compile) && third.after == second.after;
    hide Stored;
    QuickRun(compile, [first, second, third]);
    EligibleExactly(1_000, 1_000, 102_000, 16, 0);
  }

  // ---------- a lasting proxy failure ----------

  /** Once the proxy failure has been stored, no later reconcile stores Running. */
  lemma {:induction false} NeverStoredRunning(compile: Compiler, log: seq<Entry>, i: nat)
    requires Run(compile, log) && log != [] && !log[0].stored.status.state.Running? && i <= |log|
    requires forall k :: 0 <= k < |log| ==> log[k].tick.proxyFailed
    ensures !StoreAt(log, i).status.state.Running?
  {
    hide Reconcile;
    if i > 0 {
      NeverStoredRunning(compile, log, i - 1);
      assert log[i - 1].Follows(compile) && Linked(log, i - 1);
    }
  }

  /** So every reconcile of a Workspace that is in fact Running starts a new Running period: activity is dropped and the
      Workspace is probed again. */
  lemma ProxyFailureRestarts(compile: Compiler, log: seq<Entry>, k: nat)
    requires Run(compile, log) && Timed(log) && k < |log| && !log[0].stored.status.state.Running?
    requires forall i :: 0 <= i < |log| ==> log[i].tick.proxyFailed
    requires log[k].Active()
    ensures log[k].Enters() && log[k].Probes()
    ensures var since, r := UnixMilli(log[k].tick.transitionClock), RunProbe(log[k].Probe(), log[k].tick.probeEnv);
            && 0 < since <= UnixMilli(log[k].tick.now) <= MAX_MS
            && log[k].outcome.probed == Some(r) && log[k].outcome.status.lastRunningTime == since
            && (r.outcome.Success? ==> log[k].outcome.status.activity.lastActivity == ActivityFrom(r, since))
  {
    hide Reconcile, Stored, EvaluateRules, RunProbe;
    var e := log[k];
    assert Linked(log, k);
    var i: nat :| i <= k && e.read == StoreAt(log, i);
    NeverStoredRunning(compile, log, i);
    Schedule(compile, e);
    ComputedEvidence(compile, e);
    ProbeIs(compile, e);
    UnixMilliMonotone(MILLI, e.tick.transitionClock);
    UnixMilliMonotone(e.tick.transitionClock, e.tick.now);
    UnixMilliMonotone(e.tick.now, e.tick.returned);
  }

  /** The activity time a first probe leaves: what it reports, or else the start of the Running period. */
  function ActivityFrom(r: ProbeResult, since: int): int {
    if r.lastActivity.Some? then UnixMilli(r.lastActivity.value) else since
  }

  /** Exactly when a Workspace is paused while the proxy fails: the rules say so, the probe of that very reconcile succeeds, what it
      reports (or else the clock of that reconcile) is as old as the idle timeout, and the reconcile itself has lasted as
      long as the minimum running time. */
  lemma ProxyFailurePausesExactly(compile: Compiler, log: seq<Entry>, k: nat)
    requires Run(compile, log) && Timed(log) && k < |log| && !log[0].stored.status.state.Running?
    requires forall i :: 0 <= i < |log| ==> log[i].tick.proxyFailed
    requires log[k].Active() && log[k].Rules(compile).Ok?
    requires var r := RunProbe(log[k].Probe(), log[k].tick.probeEnv);
             r.lastActivity.Some? ==> Fits64(UnixMilli(r.lastActivity.value) + 1000 * log[k].Rules(compile).value.secondsSinceActive)
    ensures var now, since := UnixMilli(log[k].tick.now), UnixMilli(log[k].tick.transitionClock);
            var r, d := RunProbe(log[k].Probe(), log[k].tick.probeEnv), log[k].Rules(compile).value;
            log[k].outcome.paused <==>
            && d.matched && d.value && r.outcome.Success?
            && ActivityFrom(r, since) > 0 && now >= ActivityFrom(r, since) + 1000 * d.secondsSinceActive
            && now - since >= 1000 * d.minRunningSeconds
  {
    hide Reconcile, Stored, EvaluateRules, MayPause, RunProbe, IsEligibleForPause;
    var e := log[k];
    ProxyFailureRestarts(compile, log, k);
    PausesExactlyOnFreshEvidence(compile, e);
    var now, since := UnixMilli(e.tick.now), UnixMilli(e.tick.transitionClock);
    var r, d := RunProbe(e.Probe(), e.tick.probeEnv), e.Rules(compile).value;
    EligibleExactly(ActivityFrom(r, since), since, now, d.secondsSinceActive, d.minRunningSeconds);
  }

  /** So a minimum running time longer than a reconcile keeps the Workspace from ever being paused, and so does an idle
      timeout longer than a reconcile as long as probes report no time. */
  lemma ProxyFailureNeverPauses(compile: Compiler, log: seq<Entry>, k: nat)
    requires Run(compile, log) && Timed(log) && k < |log| && !log[0].stored.status.state.Running?
    requires forall i :: 0 <= i < |log| ==> log[i].tick.proxyFailed
    requires log[k].Active() && log[k].Rules(compile).Ok?
    requires var d, elapsed := log[k].Rules(compile).value, UnixMilli(log[k].tick.now) - UnixMilli(log[k].tick.transitionClock);
             || elapsed < 1000 * d.minRunningSeconds
             || (elapsed < 1000 * d.secondsSinceActive && RunProbe(log[k].Probe(), log[k].tick.probeEnv).lastActivity.None?)
    ensures log[k].Enters() && log[k].Probes() && !log[k].outcome.paused
  {
    hide Reconcile, Stored, EvaluateRules, RunProbe, MayPause;
    ProxyFailureRestarts(compile, log, k);
    var r, d := RunProbe(log[k].Probe(), log[k].tick.probeEnv), log[k].Rules(compile).value;
    if r.lastActivity.None? || Fits64(UnixMilli(r.lastActivity.value) + 1000 * d.secondsSinceActive) {
      ProxyFailurePausesExactly(compile, log, k);
    } else {
      PausesExactlyOnFreshEvidence(compile, log[k]);
      assert Fits64((UnixMilli(log[k].tick.now) - UnixMilli(log[k].tick.transitionClock)) * MILLI);
    }
  }

  /** A Workspace with a failing proxy that is paused: no minimum running time, and a report of an old time. */
  lemma ProxyFailurePauses(compile: Compiler)
    ensures var stored := Versioned(Status(Error, 1_000, NO_ACTIVITY), 0);
            var t := PlainTick(QUICK, 100 * SECOND, 100 * SECOND, Object(None, Some(Some(50 * SECOND))), true).(proxyFailed := true);
            var e := EntryOf(compile, t, stored, stored);
            Run(compile, [e]) && Timed([e]) && e.outcome.paused && e.CarriesOutPause() && e.after.status.state.Error?
  {
    var stored := Versioned(Status(Error, 1_000, NO_ACTIVITY), 0);
    var t := PlainTick(QUICK, 100 * SECOND, 100 * SECOND, Object(None, Some(Some(50 * SECOND))), true).(proxyFailed := true);
    var e := EntryOf(compile, t, stored, stored);
    var log := [e];
    assert e.Rules(compile) == Ok(Decision(true, true, 16, 0)) by {
      assert Verdict(compile, QUICK.activityRules[0], map[], map[]) == Ok(true);
    }
    QuickProbe(100, Object(None, Some(Some(50 * SECOND))), true);
    hide Reconcile, EvaluateRules, RunProbe;
    assert log[0].read == StoreAt(log, 0) && Linked(log, 0);
    FailsExactly(compile, e);
    ProxyFailurePausesExactly(compile, log, 0);
  }
}

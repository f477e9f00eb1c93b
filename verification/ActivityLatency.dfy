/** How long an idle Workspace keeps running after it first becomes eligible for a pause. */
module ActivityLatency {
  import opened Prelude
  import opened ActivityModel
  import opened ActivityRuns

  /** What stays fixed along the run: probe configuration, deciding rule, last activity, start of the
      Running period, and a bound on the duration of one reconcile. */
  datatype Setting = Setting(probe: ActivityProbe, decision: Decision, lastActivity: int, lastRunningTime: int, duration: int) {

    /** First instant at which the Workspace is eligible. */
    function Eligible(): int {
      EligibleMilli() * MILLI
    }

    function EligibleMilli(): int {
      EligibleAt(lastActivity, lastRunningTime, decision.secondsSinceActive, decision.minRunningSeconds)
    }

    function Interval(): int {
      probe.IntervalSeconds() * SECOND
    }

    /** What admission of the WorkspaceKind guarantees, and a known last activity. */
    predicate Valid() {
      && 0 < probe.MinSeconds() <= probe.IntervalSeconds()
      && decision.matched && decision.value
      && 0 < lastActivity <= MAX_MS && 0 < lastRunningTime <= MAX_MS
      && duration >= 0
    }
  }

  /** Inputs of a reconcile of the run: Running, nothing fails, the probe would succeed and report nothing new. */
  ghost predicate Smooth(compile: Compiler, c: Setting, t: Tick) {
    && TimedTick(t)
    && t.newState.Running? && !t.proxyFailed && t.writeOk && t.namespaceLabels.Some?
    && t.kind.activityProbe == Some(c.probe)
    && t.kind.activityRules != []
    && EvaluateRules(compile, t.kind.activityRules, t.namespaceLabels.value, t.podConfigLabels) == Ok(c.decision)
    && RunProbe(c.probe, t.probeEnv).outcome.Success?
    && (RunProbe(c.probe, t.probeEnv).lastActivity.Some? ==>
          UnixMilli(RunProbe(c.probe, t.probeEnv).lastActivity.value) == c.lastActivity)
    && t.returned <= t.now + c.duration
  }

  /** Status along the run. */
  predicate Steady(c: Setting, s: Status) {
    && s.state.Running? && s.lastRunningTime == c.lastRunningTime
    && s.activity.lastActivity == c.lastActivity
  }

  predicate NotAhead(last: Option<LastProbe>, now: int) {
    last.Some? ==> last.value.startTime <= UnixMilli(now)
  }

  /** A run that begins before eligibility, where every reconcile reads the stored status and starts no later than the
      previous one asked for; earlier ones are allowed. */
  ghost predicate Prompt(compile: Compiler, c: Setting, log: seq<Entry>) {
    && Run(compile, log) && Timed(log) && log != [] && c.Valid()
    && Steady(c, log[0].stored.status)
    && UnixMilli(log[0].tick.now) < c.EligibleMilli()
    && NotAhead(log[0].stored.status.activity.lastProbe, log[0].tick.now)
    && (forall k :: 0 <= k < |log| ==> log[k].Current() && Smooth(compile, c, log[k].tick))
    && (forall k :: 0 < k < |log| ==> log[k].tick.now <= log[k - 1].tick.returned + log[k - 1].outcome.requeue)
  }

  ghost predicate NoPauseBefore(log: seq<Entry>, k: nat)
    requires k <= |log|
  {
    forall j :: 0 <= j < k ==> !log[j].outcome.paused
  }

  // ---------- one reconcile ----------

  /** A smooth reconcile keeps the status steady, is stored, and pauses exactly when it probes an eligible
      Workspace. */
  lemma SmoothStep(compile: Compiler, c: Setting, e: Entry)
    requires c.Valid() && e.Follows(compile) && e.Current() && Steady(c, e.read.status) && Smooth(compile, c, e.tick)
    ensures e.Active() && e.Persisted() && Steady(c, e.after.status) && !e.Enters()
    ensures e.outcome.paused <==> e.Probes() && UnixMilli(e.tick.now) >= c.EligibleMilli()
    ensures e.Probes() ==> e.outcome.probed.value.outcome.Success?
    ensures e.Probe() == c.probe && e.tick.returned <= e.tick.now + c.duration
  {
    hide EvaluateRules, IsEligibleForPause;
    UnixMilliMonotone(e.tick.now, e.tick.returned);
    UnixMilliMonotone(MILLI, e.tick.now);
    EligibleExactly(c.lastActivity, c.lastRunningTime, UnixMilli(e.tick.now), c.decision.secondsSinceActive, c.decision.minRunningSeconds);
  }

  lemma {:induction false} SteadyAlong(compile: Compiler, c: Setting, log: seq<Entry>, k: nat)
    requires Prompt(compile, c, log) && k < |log|
    ensures Steady(c, log[k].read.status)
  {
    hide Reconcile, Stored, Smooth;
    if k > 0 {
      SteadyAlong(compile, c, log, k - 1);
      SmoothStep(compile, c, log[k - 1]);
      assert Linked(log, k);
    }
  }

  // ---------- the bound ----------

  /** The recorded probe started less than `duration` after eligibility, and the reconcile at `now` comes less
      than an interval, a duration and a millisecond after that. */
  predicate OnSchedule(c: Setting, last: Option<LastProbe>, now: int) {
    && last.Some? && 0 < last.value.startTime <= UnixMilli(now)
    && last.value.startTime * MILLI < c.Eligible() + c.duration
    && now < last.value.startTime * MILLI + c.Interval() + c.duration + MILLI
  }

  /** One reconcile that does not pause hands the schedule on to the next. */
  lemma ScheduleStep(compile: Compiler, c: Setting, e: Entry, now: int)
    requires c.Valid() && e.Follows(compile) && e.Current() && Steady(c, e.read.status) && Smooth(compile, c, e.tick)
    requires !e.outcome.paused
    requires e.tick.returned <= now <= e.tick.returned + e.outcome.requeue
    requires var last := e.read.status.activity.lastProbe;
             || OnSchedule(c, last, e.tick.now)
             || (UnixMilli(e.tick.now) < c.EligibleMilli() && NotAhead(last, e.tick.now))
    ensures OnSchedule(c, e.after.status.activity.lastProbe, now)
  {
    hide Reconcile, Stored, EvaluateRules;
    SmoothStep(compile, c, e);
    Schedule(compile, e);
    StoredIs(compile, e);
    ComputedEvidence(compile, e);
    UnixMilliMonotone(e.tick.now, now);
    UnixMilliMonotone(e.tick.now, e.tick.returned);
    if e.Probes() {
      ProbeIs(compile, e);
      UnixMilliMonotone(e.tick.returned, now);
    } else {
      DueIsExact(e.read.status.activity.lastProbe.value, UnixMilli(e.tick.now), c.probe.MinSeconds(), c.probe.IntervalSeconds());
    }
  }

  lemma {:induction false} ScheduleHolds(compile: Compiler, c: Setting, log: seq<Entry>, k: nat)
    requires Prompt(compile, c, log) && 0 < k < |log| && NoPauseBefore(log, k)
    ensures OnSchedule(c, log[k].read.status.activity.lastProbe, log[k].tick.now)
  {
    hide Reconcile, Stored, Smooth, OnSchedule;
    if k > 1 {
      ScheduleHolds(compile, c, log, k - 1);
    }
    SteadyAlong(compile, c, log, k - 1);
    assert Linked(log, k);
    assert TimedTick(log[k].tick) && log[k - 1].tick.returned <= log[k].tick.transitionClock;
    ScheduleStep(compile, c, log[k - 1], log[k].tick.now);
  }

  /** Bounded latency: as long as no pause has happened, every reconcile (so also the one that pauses) starts
      less than one probe interval, two reconcile durations and a millisecond after eligibility,
      however many early reconciles are interleaved. */
  lemma PauseLatency(compile: Compiler, c: Setting, log: seq<Entry>, k: nat)
    requires Prompt(compile, c, log) && k < |log| && NoPauseBefore(log, k)
    ensures log[k].tick.now < c.Eligible() + c.Interval() + 2 * c.duration + MILLI
    ensures log[k].outcome.paused <==> log[k].Probes() && UnixMilli(log[k].tick.now) >= c.EligibleMilli()
  {
    hide Reconcile, Stored, Smooth;
    SteadyAlong(compile, c, log, k);
    SmoothStep(compile, c, log[k]);
    if k > 0 {
      ScheduleHolds(compile, c, log, k);
    }
  }

  /** So a run that lasts past the bound has paused the Workspace, within the bound. */
  lemma PauseHappens(compile: Compiler, c: Setting, log: seq<Entry>)
    requires Prompt(compile, c, log)
    requires log[|log| - 1].tick.now >= c.Eligible() + c.Interval() + 2 * c.duration + MILLI
    ensures exists k :: 0 <= k < |log| && log[k].outcome.paused
              && log[k].tick.now < c.Eligible() + c.Interval() + 2 * c.duration + MILLI
  {
    hide Reconcile, Stored, Smooth;
    if NoPauseBefore(log, |log|) {
      PauseLatency(compile, c, log, |log| - 1);
    } else {
      var first := FirstPause(log, 0);
      PauseLatency(compile, c, log, first);
    }
  }

  lemma {:induction false} FirstPause(log: seq<Entry>, from: nat) returns (k: nat)
    requires from <= |log| && NoPauseBefore(log, from)
    requires exists j :: 0 <= j < |log| && log[j].outcome.paused
    ensures k < |log| && log[k].outcome.paused && NoPauseBefore(log, k)
    decreases |log| - from
  {
    if from < |log| && log[from].outcome.paused {
      k := from;
    } else {
      k := FirstPause(log, from + 1);
    }
  }

  // ---------- when one interval and one duration is enough ----------

  /** Reconcile `j` comes before the wake-up the previous one asked for. */
  predicate Early(log: seq<Entry>, j: nat)
    requires j < |log|
  {
    j > 0 && log[j].tick.now < log[j - 1].tick.returned + log[j - 1].outcome.requeue
  }

  lemma ReadNotAhead(compile: Compiler, c: Setting, log: seq<Entry>, k: nat)
    requires Prompt(compile, c, log) && k < |log| && NoPauseBefore(log, k)
    ensures NotAhead(log[k].read.status.activity.lastProbe, log[k].tick.now)
  {
    hide Reconcile, Stored, Smooth;
    if k > 0 {
      ScheduleHolds(compile, c, log, k);
    }
  }

  /** No smooth reconcile asks for more than an interval. */
  lemma RequeueBound(compile: Compiler, c: Setting, e: Entry)
    requires c.Valid() && e.Follows(compile) && e.Current() && Steady(c, e.read.status) && Smooth(compile, c, e.tick)
    requires NotAhead(e.read.status.activity.lastProbe, e.tick.now)
    ensures e.outcome.requeue <= c.Interval()
  {
    hide Reconcile, Stored, EvaluateRules;
    SmoothStep(compile, c, e);
    Schedule(compile, e);
    UnixMilliMonotone(e.tick.now, e.tick.returned);
    if !e.Probes() {
      DueIsExact(e.read.status.activity.lastProbe.value, UnixMilli(e.tick.now), c.probe.MinSeconds(), c.probe.IntervalSeconds());
    }
  }

  /** A reconcile after eligibility that is not early pauses. */
  lemma NotEarlyPauses(compile: Compiler, c: Setting, log: seq<Entry>, k: nat)
    requires Prompt(compile, c, log) && k < |log| && NoPauseBefore(log, k)
    requires UnixMilli(log[k].tick.now) >= c.EligibleMilli() && !Early(log, k)
    ensures log[k].outcome.paused
  {
    hide Reconcile, Stored, Smooth;
    SteadyAlong(compile, c, log, k - 1);
    SmoothStep(compile, c, log[k - 1]);
    SteadyAlong(compile, c, log, k);
    SmoothStep(compile, c, log[k]);
    ReadNotAhead(compile, c, log, k - 1);
    assert Linked(log, k) && log[k].read == log[k - 1].after;
    NoWastedWakeUp(compile, log, k - 1);
  }

  /** The pausing reconcile starts less than an interval and a duration after eligibility unless the one just before it
      was early and came after eligibility. */
  lemma PauseLatencyWithoutEarlyReconciles(compile: Compiler, c: Setting, log: seq<Entry>, k: nat)
    requires Prompt(compile, c, log) && k < |log| && NoPauseBefore(log, k)
    requires k > 0 && Early(log, k - 1) ==> UnixMilli(log[k - 1].tick.now) < c.EligibleMilli()
    ensures log[k].tick.now < c.Eligible() + c.Interval() + c.duration
  {
    hide Reconcile, Stored, Smooth;
    if k > 0 {
      if UnixMilli(log[k - 1].tick.now) >= c.EligibleMilli() {
        NotEarlyPauses(compile, c, log, k - 1);
      } else {
        SteadyAlong(compile, c, log, k - 1);
        SmoothStep(compile, c, log[k - 1]);
        ReadNotAhead(compile, c, log, k - 1);
        RequeueBound(compile, c, log[k - 1]);
      }
    }
  }

  // ---------- and when it is not ----------

  /** Settings with a probe that can succeed and a clock range with room for the run below. */
  predicate Roomy(c: Setting) {
    && c.Valid() && (c.probe.podExec || c.probe.jupyter.Some?)
    && 2 <= c.EligibleMilli() && c.lastRunningTime < c.EligibleMilli()
    && UnixMilli(c.Eligible() + c.Interval() + 2 * c.duration + MILLI) <= MAX_MS
  }

  function KindFor(c: Setting): Kind {
    Kind(Some(c.probe), [ActivityRule(c.decision.secondsSinceActive, Some(c.decision.minRunningSeconds), None, Some(true))])
  }

  /** A reconcile from `now` to `returned`; its probe, if run, ends as it returns and reports nothing new. */
  function TickFor(c: Setting, now: int, returned: int): Tick {
    Tick(KindFor(c), Running, now, now, Some(map[]), map[],
         ProbeEnv(Some("10.0.0.1"), if c.probe.jupyter.Some? then Some([(c.probe.jupyter.value, 8888)]) else None, true, true,
                  returned, returned, returned, JupyterActivity(c.lastActivity * MILLI), ExecOutput(Object(Some(false), None))),
         false, true, returned)
  }

  lemma TickForIsSmooth(compile: Compiler, c: Setting, now: int, returned: int)
    requires c.Valid() && (c.probe.podExec || c.probe.jupyter.Some?)
    requires MILLI <= now <= returned <= now + c.duration && UnixMilli(returned) <= MAX_MS
    ensures Smooth(compile, c, TickFor(c, now, returned))
  {
    assert Verdict(compile, KindFor(c).activityRules[0], map[], map[]) == Ok(true);
    if c.probe.jupyter.Some? {
      assert TickFor(c, now, returned).probeEnv.ports.value[0].0 == c.probe.jupyter.value;
    }
  }

  /** First reconcile: starts as late as possible before eligibility, probes at its very end. */
  function FirstTick(c: Setting): Tick {
    TickFor(c, c.Eligible() - 1, c.Eligible() - 1 + c.duration)
  }

  /** Second: comes a nanosecond before the next probe is due, so only asks to be woken a millisecond later. */
  function SecondTick(c: Setting): Tick {
    var due := UnixMilli(FirstTick(c).returned) * MILLI + c.Interval();
    TickFor(c, due - 1, due - 1 + c.duration)
  }

  /** Third: comes when asked for. */
  function ThirdTick(c: Setting): Tick {
    TickFor(c, SecondTick(c).returned + MILLI, SecondTick(c).returned + MILLI)
  }

  function LateRun(compile: Compiler, c: Setting): (log: seq<Entry>)
    ensures |log| == 3
  {
    var s := Versioned(Status(Running, c.lastRunningTime, Activity(c.lastActivity, 0, None, None)), 0);
    var first := EntryOf(compile, FirstTick(c), s, s);
    var second := EntryOf(compile, SecondTick(c), first.after, first.after);
    [first, second, EntryOf(compile, ThirdTick(c), second.after, second.after)]
  }

  /** The instants of the late run. */
  lemma LateClock(c: Setting)
    requires Roomy(c)
    ensures MILLI <= FirstTick(c).now <= FirstTick(c).returned <= SecondTick(c).now <= FirstTick(c).returned + c.Interval()
    ensures SecondTick(c).returned <= ThirdTick(c).now <= c.Eligible() + c.Interval() + 2 * c.duration + MILLI
    ensures UnixMilli(FirstTick(c).now) < c.EligibleMilli()
  {}

  lemma LateTicks(compile: Compiler, c: Setting)
    requires Roomy(c)
    ensures Smooth(compile, c, FirstTick(c)) && Smooth(compile, c, SecondTick(c)) && Smooth(compile, c, ThirdTick(c))
  {
    LateClock(c);
    var end := c.Eligible() + c.Interval() + 2 * c.duration + MILLI;
    UnixMilliMonotone(FirstTick(c).returned, end);
    UnixMilliMonotone(SecondTick(c).returned, end);
    UnixMilliMonotone(ThirdTick(c).returned, end);
    hide Smooth, UnixMilli;
    TickForIsSmooth(compile, c, FirstTick(c).now, FirstTick(c).returned);
    TickForIsSmooth(compile, c, SecondTick(c).now, SecondTick(c).returned);
    TickForIsSmooth(compile, c, ThirdTick(c).now, ThirdTick(c).returned);
  }

  lemma LateRunIsRun(compile: Compiler, c: Setting)
    requires Roomy(c)
    ensures Run(compile, LateRun(compile, c)) && Timed(LateRun(compile, c))
  {
    hide Reconcile, Stored;
    LateTicks(compile, c);
    LateClock(c);
    var log := LateRun(compile, c);
    forall k | 0 <= k < |log| ensures Linked(log, k) {
      assert log[k].read == StoreAt(log, k);
    }
  }

  /** First step of the late run: the probe is recorded at the end of the reconcile, without a pause. */
  lemma LateFirst(compile: Compiler, c: Setting)
    requires Roomy(c)
    ensures var e := LateRun(compile, c)[0];
            && !e.outcome.paused && e.outcome.requeue == c.Interval() && Steady(c, e.after.status)
            && e.after.status.activity.lastProbe.Some? && e.after.status.activity.lastProbe.value.outcome.Success?
            && e.after.status.activity.lastProbe.value.startTime == UnixMilli(FirstTick(c).returned)
  {
    hide Reconcile, Stored, Smooth;
    var e := LateRun(compile, c)[0];
    LateTicks(compile, c);
    LateClock(c);
    SmoothStep(compile, c, e);
    Schedule(compile, e);
    StoredIs(compile, e);
    ComputedEvidence(compile, e);
    assert TimedTick(e.tick) by { TickForIsTimed(c, FirstTick(c).now, FirstTick(c).returned); }
    ProbeIs(compile, e);
    assert e.outcome.probed.value.start == FirstTick(c).returned by { TickForProbe(c, FirstTick(c).now, FirstTick(c).returned); }
  }

  lemma TickForIsTimed(c: Setting, now: int, returned: int)
    requires MILLI <= now <= returned && UnixMilli(returned) <= MAX_MS
    ensures TimedTick(TickFor(c, now, returned))
  {}

  lemma TickForProbe(c: Setting, now: int, returned: int)
    ensures RunProbe(c.probe, TickFor(c, now, returned).probeEnv).start == returned
  {}

  /** The clock of the late run, in milliseconds after the recorded probe. */
  lemma LateTimes(c: Setting)
    requires Roomy(c) && c.duration > 0
    ensures var probed := UnixMilli(FirstTick(c).returned);
            && Readable(probed) && probed >= c.EligibleMilli()
            && UnixMilli(SecondTick(c).now) == probed + c.probe.IntervalSeconds() * 1000 - 1 <= MAX_MS
            && probed + c.probe.IntervalSeconds() * 1000 <= UnixMilli(ThirdTick(c).now) <= MAX_MS
    ensures ThirdTick(c).now >= c.Eligible() + c.Interval() + 2 * c.duration - 1
    ensures ThirdTick(c).now >= c.Eligible() + c.Interval() + c.duration + MILLI - 1
  {
    UnixMilliMonotone(FirstTick(c).returned, c.Eligible() + c.Interval() + 2 * c.duration + MILLI);
    UnixMilliMonotone(c.Eligible(), FirstTick(c).returned);
    UnixMilliMonotone(SecondTick(c).now, c.Eligible() + c.Interval() + 2 * c.duration + MILLI);
    UnixMilliMonotone(ThirdTick(c).now, c.Eligible() + c.Interval() + 2 * c.duration + MILLI);
  }

  /** Second step: no probe is due, the record stays, the wake-up is a millisecond away. */
  lemma LateSecond(compile: Compiler, c: Setting)
    requires Roomy(c) && c.duration > 0
    ensures var log := LateRun(compile, c);
            && !log[1].outcome.paused && log[1].outcome.requeue == MILLI && Steady(c, log[1].after.status)
            && log[1].after.status.activity.lastProbe == log[0].after.status.activity.lastProbe
  {
    hide Reconcile, Stored, Smooth, FirstTick, SecondTick;
    var e := LateRun(compile, c)[1];
    LateTicks(compile, c);
    LateClock(c);
    LateTimes(c);
    LateFirst(compile, c);
    SmoothStep(compile, c, e);
    Schedule(compile, e);
    StoredIs(compile, e);
    ComputedEvidence(compile, e);
    DueIsExact(e.read.status.activity.lastProbe.value, UnixMilli(e.tick.now), c.probe.MinSeconds(), c.probe.IntervalSeconds());
  }

  /** Third step: the probe is due and the Workspace is paused. */
  lemma LateThird(compile: Compiler, c: Setting)
    requires Roomy(c) && c.duration > 0
    ensures LateRun(compile, c)[2].outcome.paused
  {
    hide Reconcile, Stored, Smooth, FirstTick, SecondTick, ThirdTick;
    var e := LateRun(compile, c)[2];
    LateTicks(compile, c);
    LateClock(c);
    LateTimes(c);
    LateFirst(compile, c);
    LateSecond(compile, c);
    SmoothStep(compile, c, e);
    Schedule(compile, e);
    DueIsExact(e.read.status.activity.lastProbe.value, UnixMilli(e.tick.now), c.probe.MinSeconds(), c.probe.IntervalSeconds());
  }

  /** Every setting with a duration has a prompt run with one early reconcile whose pause starts at least an interval and
      two durations less a nanosecond after eligibility, and never less than an interval, a duration and a
      millisecond less a nanosecond. */
  lemma EarlyReconcileDelaysPause(compile: Compiler, c: Setting)
    requires Roomy(c) && c.duration > 0
    ensures var log := LateRun(compile, c);
            && Prompt(compile, c, log) && NoPauseBefore(log, 2) && log[2].outcome.paused
            && Early(log, 1) && !Early(log, 2)
            && log[2].tick.now >= c.Eligible() + c.Interval() + 2 * c.duration - 1
            && log[2].tick.now >= c.Eligible() + c.Interval() + c.duration + MILLI - 1
  {
    hide Reconcile, Stored, Smooth, Run, Timed;
    LateTicks(compile, c);
    LateClock(c);
    LateTimes(c);
    LateRunIsRun(compile, c);
    LateFirst(compile, c);
    LateSecond(compile, c);
    LateThird(compile, c);
  }

  /** Exactly when all prompt runs of a setting keep to one interval and one duration: when reconciles take no time. */
  lemma IntervalAndDurationExactly(compile: Compiler, c: Setting)
    requires Roomy(c)
    ensures (forall log: seq<Entry>, k: nat :: Prompt(compile, c, log) && k < |log| && NoPauseBefore(log, k) ==>
               log[k].tick.now < c.Eligible() + c.Interval() + c.duration)
            <==> c.duration == 0
  {
    hide Reconcile, Stored, Smooth, Prompt, OnSchedule;
    if c.duration > 0 {
      EarlyReconcileDelaysPause(compile, c);
    } else {
      forall log: seq<Entry>, k: nat | Prompt(compile, c, log) && k < |log| && NoPauseBefore(log, k)
        ensures log[k].tick.now < c.Eligible() + c.Interval() + c.duration
      {
        NoDuration(compile, c, log, k);
      }
    }
  }

  lemma NoDuration(compile: Compiler, c: Setting, log: seq<Entry>, k: nat)
    requires Prompt(compile, c, log) && k < |log| && NoPauseBefore(log, k) && c.duration == 0
    ensures log[k].tick.now < c.Eligible() + c.Interval()
  {
    hide Reconcile, Stored, Smooth;
    assert c.Valid() && UnixMilli(log[0].tick.now) < c.EligibleMilli();
    if k > 0 {
      ScheduleHolds(compile, c, log, k);
      hide Prompt, NoPauseBefore, EligibleAt;
      NoDurationOnSchedule(c, log[k].read.status.activity.lastProbe, log[k].tick.now);
    }
  }

  lemma NoDurationOnSchedule(c: Setting, last: Option<LastProbe>, now: int)
    requires OnSchedule(c, last, now) && c.duration == 0
    ensures now < c.Eligible() + c.Interval()
  {
    hide EligibleAt;
    assert last.value.startTime + 1 <= c.EligibleMilli();
  }
}

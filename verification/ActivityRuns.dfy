/** Runs: sequences of reconciles of one Workspace, which read the status from a cache that may lag behind the
    store, and whose writes may be lost. */
module ActivityRuns {
  import opened Prelude
  import opened ActivityModel

  // ---------- one reconcile ----------

  /** A reconcile first notes a transition into Running, then handles activity. */
  function Reconcile(compile: Compiler, s: Status, t: Tick): Reconciled {
    ReconcileActivity(compile, RecordRunningTransition(s, t.newState, t.transitionClock), t)
  }

  /** A status with its resource version. */
  datatype Versioned = Versioned(status: Status, version: nat)

  /** The status a reconcile wants to store. */
  function Next(t: Tick, r: Reconciled): Status {
    if t.proxyFailed then r.status.(state := Error) else r.status
  }

  /** The store after a reconcile. An error comes before the write; a write is attempted only for a changed status, and is
      refused if the status was read at another version than the stored one, or if the server says so. */
  function Stored(read: Versioned, stored: Versioned, t: Tick, r: Reconciled): Versioned {
    if r.failed || Next(t, r) == read.status || !t.writeOk || read.version != stored.version then stored
    else Versioned(Next(t, r), stored.version + 1)
  }

  /** One reconcile of a run: its inputs, the status it read, the store it met, what it computed, the store it left. */
  datatype Entry = Entry(tick: Tick, read: Versioned, stored: Versioned, outcome: Reconciled, after: Versioned) {

    ghost predicate Follows(compile: Compiler) {
      outcome == Reconcile(compile, read.status, tick) && after == Stored(read, stored, tick, outcome)
    }

    /** What was read is what is stored. */
    predicate Current() {
      read == stored
    }

    /** A version is given to one status only. */
    predicate Sound() {
      read.version == stored.version ==> Current()
    }

    predicate Persisted() {
      !outcome.failed && tick.writeOk && Current()
    }

    /** The pause is carried out: it follows the status write, unless there is nothing to write. */
    predicate CarriesOutPause() {
      outcome.paused && !outcome.failed &&
      (Next(tick, outcome) == read.status || (tick.writeOk && read.version == stored.version))
    }

    /** The Workspace enters Running, which drops its activity. */
    predicate Enters() {
      tick.newState.Running? && (!read.status.state.Running? || read.status.lastRunningTime == 0)
    }

    predicate Probes() {
      outcome.probed.Some?
    }

    /** A probe ran and its record reached the store. */
    predicate Records() {
      Probes() && Persisted()
    }

    /** Activity is handled: the Workspace is Running, a probe is configured, labels can be read. */
    predicate Active() {
      tick.newState.Running? && tick.kind.activityProbe.Some? && tick.namespaceLabels.Some?
    }

    function Probe(): ActivityProbe
      requires Active()
    {
      tick.kind.activityProbe.value
    }

    function Rules(compile: Compiler): Result<Decision, string>
      requires Active()
    {
      EvaluateRules(compile, tick.kind.activityRules, tick.namespaceLabels.value, tick.podConfigLabels)
    }
  }

  function EntryOf(compile: Compiler, t: Tick, read: Versioned, stored: Versioned): (e: Entry)
    ensures e.Follows(compile)
  {
    var r := Reconcile(compile, read.status, t);
    Entry(t, read, stored, r, Stored(read, stored, t, r))
  }

  // ---------- runs ----------

  /** The store before reconcile `k`, or after the last one. */
  function StoreAt(log: seq<Entry>, k: nat): Versioned
    requires log != [] && k <= |log|
  {
    if k == 0 then log[0].stored else log[k - 1].after
  }

  /** Reconcile `k` met the store the earlier ones left, and read what was stored at some earlier time. */
  ghost predicate Linked(log: seq<Entry>, k: nat)
    requires k < |log|
  {
    log[k].stored == StoreAt(log, k) && exists i: nat :: i <= k && log[k].read == StoreAt(log, i)
  }

  ghost predicate Run(compile: Compiler, log: seq<Entry>) {
    && (forall k :: 0 <= k < |log| ==> log[k].Follows(compile))
    && (forall k :: 0 <= k < |log| ==> Linked(log, k))
  }

  /** The run of given inputs from a given store, where reconcile `k` reads the store before reconcile `from[k]`. */
  function LogOf(compile: Compiler, s: Versioned, ticks: seq<Tick>, from: seq<nat>): (log: seq<Entry>)
    requires |from| == |ticks| && forall k :: 0 <= k < |from| ==> from[k] <= k
    ensures |log| == |ticks|
    decreases |ticks|
  {
    if ticks == [] then []
    else
      var n := |ticks| - 1;
      var past := LogOf(compile, s, ticks[..n], from[..n]);
      var stored := if n == 0 then s else past[n - 1].after;
      var read := if from[n] == 0 then s else past[from[n] - 1].after;
      past + [EntryOf(compile, ticks[n], read, stored)]
  }

  /** One more reconcile, reading the store before reconcile `i`. */
  lemma AppendEntry(compile: Compiler, past: seq<Entry>, e: Entry, i: nat)
    requires Run(compile, past) && e.Follows(compile) && i <= |past|
    requires e.stored == StoreAt(past + [e], |past|) && e.read == StoreAt(past + [e], i)
    ensures Run(compile, past + [e])
  {
    hide Reconcile, Stored;
    var log := past + [e];
    forall k | 0 <= k < |log| ensures Linked(log, k) {
      if k < |past| {
        SameStores(past, e, k);
        assert Linked(past, k);
      }
    }
  }

  lemma SameStores(past: seq<Entry>, e: Entry, k: nat)
    requires k < |past|
    ensures forall i: nat :: i <= k ==> StoreAt(past + [e], i) == StoreAt(past, i)
  {}

  /** Reconcile `k` has the inputs and reads the store it was given. */
  predicate Chosen(log: seq<Entry>, ticks: seq<Tick>, from: seq<nat>, k: nat)
    requires k < |log| == |ticks| == |from| && from[k] <= k
  {
    log[k].tick == ticks[k] && log[k].read == StoreAt(log, from[k])
  }

  /** Every store, every sequence of inputs and every choice of what is read has a run. */
  lemma {:induction false} RunExists(compile: Compiler, s: Versioned, ticks: seq<Tick>, from: seq<nat>)
    requires |from| == |ticks| && forall k :: 0 <= k < |from| ==> from[k] <= k
    ensures var log := LogOf(compile, s, ticks, from);
            && Run(compile, log)
            && (log != [] ==> log[0].stored == s)
            && (forall k :: 0 <= k < |log| ==> Chosen(log, ticks, from, k))
    decreases |ticks|
  {
    hide Reconcile, Stored;
    if ticks != [] {
      var n := |ticks| - 1;
      RunExists(compile, s, ticks[..n], from[..n]);
      var log, past := LogOf(compile, s, ticks, from), LogOf(compile, s, ticks[..n], from[..n]);
      AppendEntry(compile, past, log[n], from[n]);
      forall k | 0 <= k < n ensures Chosen(log, ticks, from, k) {
        assert Chosen(past, ticks[..n], from[..n], k);
        SameStores(past, log[n], k);
      }
    }
  }

  /** Versions grow, and a version is given to one status only. */
  lemma {:induction false} VersionsGrow(compile: Compiler, log: seq<Entry>, i: nat, j: nat)
    requires Run(compile, log) && log != [] && i <= j <= |log|
    ensures StoreAt(log, i).version <= StoreAt(log, j).version
    ensures StoreAt(log, i).version == StoreAt(log, j).version ==> StoreAt(log, i) == StoreAt(log, j)
    decreases j
  {
    hide Reconcile, Next;
    if i < j {
      VersionsGrow(compile, log, i, j - 1);
      assert log[j - 1].Follows(compile) && Linked(log, j - 1);
    }
  }

  /** So a read is either current or of an older version. */
  lemma ReadIsSound(compile: Compiler, log: seq<Entry>, k: nat)
    requires Run(compile, log) && k < |log|
    ensures log[k].Sound() && log[k].read.version <= log[k].stored.version
  {
    assert Linked(log, k);
    var i: nat :| i <= k && log[k].read == StoreAt(log, i);
    VersionsGrow(compile, log, i, k);
  }

  // ---------- the clock ----------

  /** Within one reconcile the clock does not go back and stays in range. */
  predicate TimedTick(t: Tick) {
    && MILLI <= t.transitionClock <= t.now <= t.probeEnv.clock
    && t.probeEnv.Ordered()
    && t.probeEnv.end <= t.returned
    && UnixMilli(t.returned) <= MAX_MS
  }

  /** Reconciles of one Workspace do not overlap. */
  ghost predicate Timed(log: seq<Entry>) {
    && (forall k :: 0 <= k < |log| ==> TimedTick(log[k].tick))
    && (forall j, k :: 0 <= j < k < |log| ==> log[j].tick.returned <= log[k].tick.transitionClock)
  }

  /** The probe of a reconcile is the one its inputs describe, and runs after `now` was read. */
  lemma ProbeIs(compile: Compiler, e: Entry)
    requires e.Follows(compile) && e.Probes() && TimedTick(e.tick)
    ensures e.Active() && e.outcome.probed.value == RunProbe(e.Probe(), e.tick.probeEnv)
    ensures var r := e.outcome.probed.value;
            && e.tick.now <= r.start <= r.end <= e.tick.returned
            && 0 < UnixMilli(e.tick.now) <= UnixMilli(r.start) <= UnixMilli(r.end) <= UnixMilli(e.tick.returned) <= MAX_MS
  {
    hide EvaluateRules, IsEligibleForPause, CalculateEligibleAfter, TimeUntilProbeDue, Stored, RunProbe;
    var r := RunProbe(e.tick.kind.activityProbe.value, e.tick.probeEnv);
    ProbeTimes(e.tick.kind.activityProbe.value, e.tick.probeEnv);
    UnixMilliMonotone(MILLI, e.tick.now);
    UnixMilliMonotone(e.tick.now, r.start);
    UnixMilliMonotone(r.start, r.end);
    UnixMilliMonotone(r.end, e.tick.returned);
  }

  lemma ProbeTimes(probe: ActivityProbe, env: ProbeEnv)
    requires env.Ordered()
    ensures env.clock <= RunProbe(probe, env).start <= RunProbe(probe, env).end <= env.end
  {}

  // ---------- what one reconcile stores ----------

  /** The fields a probe writes. */
  datatype Evidence = Evidence(lastActivity: int, lastUpdate: int, lastProbe: Option<LastProbe>)

  const NO_EVIDENCE := Evidence(0, 0, None)

  function EvidenceOf(a: Activity): Evidence {
    Evidence(a.lastActivity, a.lastUpdate, a.lastProbe)
  }

  function RecordOf(r: ProbeResult): LastProbe {
    LastProbe(UnixMilli(r.start), UnixMilli(r.end), r.outcome, r.message)
  }

  /** Independent reading of a probe: a failure only replaces the record of the last probe. */
  function Extend(lastRunningTime: int, past: Evidence, r: ProbeResult): Evidence {
    Evidence(
      if !r.outcome.Success? then past.lastActivity
      else if r.lastActivity.Some? then UnixMilli(r.lastActivity.value)
      else if past.lastActivity <= 0 && lastRunningTime > 0 then lastRunningTime
      else past.lastActivity,
      if r.outcome.Success? then UnixMilli(r.end) else past.lastUpdate,
      Some(RecordOf(r)))
  }

  /** A reconcile forgets evidence on entering Running and adds that of its own probe; rule evaluation touches none of it. */
  lemma ComputedEvidence(compile: Compiler, e: Entry)
    requires e.Follows(compile)
    ensures var kept := if e.Enters() then NO_EVIDENCE else EvidenceOf(e.read.status.activity);
            EvidenceOf(e.outcome.status.activity) ==
            if e.Probes() then Extend(e.outcome.status.lastRunningTime, kept, e.outcome.probed.value) else kept
    ensures !e.Enters() ==> e.outcome.status.lastRunningTime == e.read.status.lastRunningTime
    ensures e.Enters() ==> e.outcome.status.lastRunningTime == UnixMilli(e.tick.transitionClock)
    ensures e.outcome.status.state == e.tick.newState
  {
    hide EvaluateRules, IsEligibleForPause, CalculateEligibleAfter, TimeUntilProbeDue, RunProbe, Stored;
  }

  /** A reconcile that handles activity fails exactly if the rules cannot be evaluated. */
  lemma FailsExactly(compile: Compiler, e: Entry)
    requires e.Follows(compile) && e.Active()
    ensures e.outcome.failed <==> e.tick.kind.activityRules != [] && e.Rules(compile).Err?
  {
    hide Stored, EvaluateRules, IsEligibleForPause, CalculateEligibleAfter, TimeUntilProbeDue, RunProbe;
  }

  /** A reconcile that does not handle activity leaves it as it is and asks for nothing. It fails exactly if the namespace
      labels of a Running Workspace with a probe cannot be read. */
  lemma InactiveDoesNothing(compile: Compiler, e: Entry)
    requires e.Follows(compile) && !e.Active()
    ensures !e.Probes() && !e.outcome.paused && e.outcome.requeue == 0
    ensures e.outcome.status.activity == if e.Enters() then NO_ACTIVITY else e.read.status.activity
    ensures e.outcome.failed <==> e.tick.newState.Running? && e.tick.kind.activityProbe.Some?
    ensures e.outcome.failed ==> e.after == e.stored
  {
    hide EvaluateRules, TimeUntilProbeDue, RunProbe;
  }

  /** The rule status: while a rule asks for a pause, the time from which the idle time is long enough (0 if no activity is known);
      otherwise nothing, wherever there was something before. */
  lemma RuleStatus(compile: Compiler, e: Entry)
    requires e.Follows(compile) && e.Active() && !e.outcome.failed
    ensures var d, a := e.Rules(compile).value, e.outcome.status.activity;
            if d.matched && d.value then
              && a.rules.Some? && a.rules.value.pauseWorkspace.Some?
              && (a.lastActivity <= 0 ==> a.rules.value.pauseWorkspace.value == 0)
              && (a.lastActivity > 0 && Fits64(a.lastActivity + 1000 * d.secondsSinceActive) ==>
                    a.rules.value.pauseWorkspace.value == a.lastActivity + 1000 * d.secondsSinceActive)
            else if e.Enters() || e.read.status.activity.rules.None? then a.rules.None?
            else a.rules == Some(RulesStatus(None))
  {
    FailsExactly(compile, e);
    if e.tick.kind.activityRules == [] {
      NoDecidingRule(compile, [], e.tick.namespaceLabels.value, e.tick.podConfigLabels);
    }
    hide EvaluateRules, IsEligibleForPause, TimeUntilProbeDue, RunProbe, Stored;
  }

  /** Without configured intervals the next wake-up after a probe is an hour away if it succeeded and five minutes if not. */
  lemma DefaultIntervals(compile: Compiler, e: Entry)
    requires e.Follows(compile) && e.Probes() && !e.outcome.failed && e.Active()
    requires e.Probe().minProbeIntervalSeconds.None? && e.Probe().probeIntervalSeconds.None?
    ensures e.outcome.requeue == if e.outcome.probed.value.outcome.Success? then 3600 * SECOND else 300 * SECOND
  {
    hide Reconcile, Stored, TimeUntilProbeDue;
    Schedule(compile, e);
  }

  /** What it computed is stored if the reconcile is persisted; otherwise the store stays as it was. */
  lemma StoredIs(compile: Compiler, e: Entry)
    requires e.Follows(compile) && e.Sound()
    ensures !e.Persisted() ==> e.after == e.stored
    ensures e.Persisted() ==> e.after.status == e.outcome.status.(state := if e.tick.proxyFailed then Error else e.tick.newState)
  {
    hide Reconcile;
    ComputedEvidence(compile, e);
  }

  lemma StoredEvidence(compile: Compiler, log: seq<Entry>, k: nat)
    requires Run(compile, log) && k < |log|
    ensures var e := log[k];
            && (!e.Persisted() ==> e.after == e.stored)
            && (e.Persisted() ==> e.after.status == e.outcome.status.(state := if e.tick.proxyFailed then Error else e.tick.newState))
  {
    hide Reconcile, Stored;
    ReadIsSound(compile, log, k);
    StoredIs(compile, log[k]);
  }

  /** The schedule: a reconcile probes exactly when no wait is left, and asks to be woken after that wait, or after
      the interval that follows from the outcome of the probe. */
  lemma Schedule(compile: Compiler, e: Entry)
    requires e.Follows(compile) && e.Active()
    ensures var minInterval, interval := e.Probe().MinSeconds() * SECOND, e.Probe().IntervalSeconds() * SECOND;
            var last := if e.Enters() then None else e.read.status.activity.lastProbe;
            var wait := TimeUntilProbeDue(last, UnixMilli(e.tick.now), minInterval, interval);
            && (e.Probes() <==> wait.None?)
            && (!e.outcome.failed && wait.Some? ==> e.outcome.requeue == wait.value)
            && (!e.outcome.failed && wait.None? ==>
                  e.outcome.requeue == RequiredInterval(RecordOf(e.outcome.probed.value), minInterval, interval))
  {
    hide Stored, EvaluateRules, IsEligibleForPause, CalculateEligibleAfter;
  }

  // ---------- records and the clock ----------

  /** The recorded start of a probe is positive and never ahead of the clock, if nothing else writes it ... */
  lemma {:induction false} RecordBehindClock(compile: Compiler, log: seq<Entry>, i: nat, k: nat)
    requires Run(compile, log) && Timed(log) && i <= k < |log| && log[0].stored.status.activity.lastProbe.None?
    ensures var last := StoreAt(log, i).status.activity.lastProbe;
            last.Some? ==> 0 < last.value.startTime <= UnixMilli(log[k].tick.now)
    decreases i
  {
    hide Reconcile, Stored;
    if i > 0 {
      var e := log[i - 1];
      assert Linked(log, i - 1);
      RecordBehindClock(compile, log, i - 1, k);
      StoredEvidence(compile, log, i - 1);
      ComputedEvidence(compile, e);
      UnixMilliMonotone(e.tick.returned, log[k].tick.now);
      if e.Probes() {
        ProbeIs(compile, e);
      }
    }
  }

  /** ... nor is the one a reconcile reads. */
  lemma ReadBehindClock(compile: Compiler, log: seq<Entry>, k: nat)
    requires Run(compile, log) && Timed(log) && k < |log| && log[0].stored.status.activity.lastProbe.None?
    ensures var last := log[k].read.status.activity.lastProbe;
            last.Some? ==> 0 < last.value.startTime <= UnixMilli(log[k].tick.now)
  {
    assert Linked(log, k);
    var i: nat :| i <= k && log[k].read == StoreAt(log, i);
    RecordBehindClock(compile, log, i, k);
  }

  // ---------- wake-ups ----------

  /** Reconcile `k + 1` knows what reconcile `k` knew: it reads the same status, or the one that `k` stored. */
  predicate Informed(log: seq<Entry>, k: nat)
    requires k + 1 < |log|
  {
    log[k + 1].read == log[k].read || (log[k].Persisted() && log[k + 1].read == log[k].after)
  }

  /** No wasted wake-up: a reconcile that starts no earlier than the wake-up requested by the previous one
      (after a success, after a failure, or when no probe was due) finds a probe due. */
  lemma NoWastedWakeUp(compile: Compiler, log: seq<Entry>, k: nat)
    requires Run(compile, log) && Timed(log) && k + 1 < |log| && Informed(log, k)
    requires var last := log[k].read.status.activity.lastProbe;
             last.Some? ==> last.value.startTime <= UnixMilli(log[k].tick.now)
    requires log[k].Active() && !log[k].outcome.failed
    requires log[k + 1].Active() && log[k + 1].tick.kind.activityProbe == log[k].tick.kind.activityProbe
    requires log[k + 1].tick.now >= log[k].tick.returned + log[k].outcome.requeue
    ensures log[k + 1].Probes()
  {
    hide Reconcile, Stored;
    var probe, now1, now2 := log[k].Probe(), UnixMilli(log[k].tick.now), UnixMilli(log[k + 1].tick.now);
    Schedule(compile, log[k]);
    Schedule(compile, log[k + 1]);
    StoredEvidence(compile, log, k);
    ComputedEvidence(compile, log[k]);
    UnixMilliMonotone(log[k].tick.now, log[k + 1].tick.now);
    UnixMilliMonotone(log[k].tick.returned, log[k + 1].tick.now);
    UnixMilliMonotone(log[k + 1].tick.now, log[k + 1].tick.returned);
    var last := log[k + 1].read.status.activity.lastProbe;
    if !log[k + 1].Enters() && last.Some? && last.value.startTime > 0 {
      if log[k].Probes() {
        ProbeIs(compile, log[k]);
      }
      if last == log[k].read.status.activity.lastProbe {
        DueIsExact(last.value, now1, probe.MinSeconds(), probe.IntervalSeconds());
      }
      DueIsExact(last.value, now2, probe.MinSeconds(), probe.IntervalSeconds());
    }
  }

  // ---------- status as a fold ----------

  /** Probes recorded since the Workspace last entered Running, oldest first. */
  function History(log: seq<Entry>): seq<ProbeResult> {
    if log == [] then []
    else
      var past, e := History(log[..|log| - 1]), log[|log| - 1];
      if !e.Persisted() then past
      else (if e.Enters() then [] else past) + (if e.Probes() then [e.outcome.probed.value] else [])
  }

  lemma HistoryOneMore(log: seq<Entry>, p: nat)
    requires 0 < p <= |log|
    ensures var past, e := History(log[..p - 1]), log[p - 1];
            var kept := if e.Enters() then [] else past;
            History(log[..p]) == if !e.Persisted() then past else if e.Probes() then kept + [e.outcome.probed.value] else kept
  {
    assert log[..p][..p - 1] == log[..p - 1];
  }

  function FoldHistory(lastRunningTime: int, history: seq<ProbeResult>): Evidence {
    if history == [] then NO_EVIDENCE
    else Extend(lastRunningTime, FoldHistory(lastRunningTime, history[..|history| - 1]), history[|history| - 1])
  }

  /** One more probe is one more step of the fold. */
  lemma FoldOneMore(lastRunningTime: int, history: seq<ProbeResult>, r: ProbeResult)
    ensures FoldHistory(lastRunningTime, history + [r]) == Extend(lastRunningTime, FoldHistory(lastRunningTime, history), r)
  {
    assert (history + [r])[..|history|] == history;
  }

  /** At any time of any run the stored status is the fold of the recorded probes of the current Running period. */
  lemma {:induction false} StatusIsFold(compile: Compiler, log: seq<Entry>, p: nat)
    requires Run(compile, log) && log != [] && log[0].stored.status.activity == NO_ACTIVITY && p <= |log|
    ensures var s := StoreAt(log, p).status;
            EvidenceOf(s.activity) == FoldHistory(s.lastRunningTime, History(log[..p]))
    decreases p
  {
    hide Reconcile, Stored;
    if p > 0 {
      var e := log[p - 1];
      assert Linked(log, p - 1);
      StatusIsFold(compile, log, p - 1);
      StoredEvidence(compile, log, p - 1);
      ComputedEvidence(compile, e);
      HistoryOneMore(log, p);
      hide History, Extend, Run;
      if e.Records() {
        FoldOneMore(e.after.status.lastRunningTime, if e.Enters() then [] else History(log[..p - 1]), e.outcome.probed.value);
      }
    }
  }

  /** What a reconcile reads is the fold at the time it was stored. */
  lemma ReadIsFold(compile: Compiler, log: seq<Entry>, k: nat) returns (p: nat)
    requires Run(compile, log) && k < |log| && log[0].stored.status.activity == NO_ACTIVITY
    ensures p <= k && log[k].read == StoreAt(log, p) && (log[k].Current() ==> p == k)
    ensures var s := log[k].read.status;
            EvidenceOf(s.activity) == FoldHistory(s.lastRunningTime, History(log[..p]))
  {
    assert Linked(log, k);
    if log[k].Current() {
      p := k;
    } else {
      p :| p <= k && log[k].read == StoreAt(log, p);
    }
    StatusIsFold(compile, log, p);
  }

  function Successes(history: seq<ProbeResult>): seq<ProbeResult> {
    if history == [] then []
    else
      var rest, r := Successes(history[..|history| - 1]), history[|history| - 1];
      if r.outcome.Success? then rest + [r] else rest
  }

  /** Failed probes leave no trace in `lastActivity` and `lastUpdate`. */
  lemma {:induction false} FailuresAreInvisible(lastRunningTime: int, history: seq<ProbeResult>)
    ensures FoldHistory(lastRunningTime, history).lastActivity == FoldHistory(lastRunningTime, Successes(history)).lastActivity
    ensures FoldHistory(lastRunningTime, history).lastUpdate == FoldHistory(lastRunningTime, Successes(history)).lastUpdate
  {
    if history != [] {
      var init, r := history[..|history| - 1], history[|history| - 1];
      FailuresAreInvisible(lastRunningTime, init);
      FoldOneMore(lastRunningTime, Successes(init), r);
    }
  }

  /** `lastUpdate` is the end of the latest success of the Running period, or 0. */
  lemma {:induction false} LastUpdateIsLatestSuccess(lastRunningTime: int, history: seq<ProbeResult>)
    ensures var wins := Successes(history);
            FoldHistory(lastRunningTime, history).lastUpdate == if wins == [] then 0 else UnixMilli(wins[|wins| - 1].end)
  {
    if history != [] {
      LastUpdateIsLatestSuccess(lastRunningTime, history[..|history| - 1]);
    }
  }

  /** `lastUpdate` never lies ahead of the clock ... */
  lemma {:induction false} LastUpdateBehindClock(compile: Compiler, log: seq<Entry>, k: nat)
    requires Run(compile, log) && Timed(log) && k < |log| && log[0].stored.status.activity.lastUpdate <= 0
    ensures log[k].stored.status.activity.lastUpdate <= UnixMilli(log[k].tick.now)
  {
    hide Reconcile, Stored;
    UnixMilliMonotone(MILLI, log[k].tick.now);
    if k > 0 {
      var e := log[k - 1];
      assert Linked(log, k - 1) && Linked(log, k);
      LastUpdateBehindClock(compile, log, k - 1);
      StoredEvidence(compile, log, k - 1);
      ComputedEvidence(compile, e);
      UnixMilliMonotone(e.tick.now, log[k].tick.now);
      UnixMilliMonotone(e.tick.returned, log[k].tick.now);
      if e.Probes() {
        ProbeIs(compile, e);
      }
    }
  }

  /** ... and never decreases within a Running period. */
  lemma LastUpdateAdvances(compile: Compiler, log: seq<Entry>, k: nat)
    requires Run(compile, log) && Timed(log) && k < |log| && log[0].stored.status.activity.lastUpdate <= 0
    requires !(log[k].Persisted() && log[k].Enters())
    ensures log[k].stored.status.activity.lastUpdate <= log[k].after.status.activity.lastUpdate
  {
    hide Reconcile, Stored;
    LastUpdateBehindClock(compile, log, k);
    StoredEvidence(compile, log, k);
    ComputedEvidence(compile, log[k]);
    if log[k].Probes() {
      ProbeIs(compile, log[k]);
    }
  }

  // ---------- concrete inputs ----------

  const START := Versioned(Status(Running, 1_000, NO_ACTIVITY), 0)

  /** A reconcile of a Running Workspace from `now` to `returned`, whose podExec probe, if run, is over in no time. */
  function PlainTick(kind: Kind, now: int, returned: int, report: ExecOutput, writeOk: bool): Tick {
    Tick(kind, Running, now, now, Some(map[]), map[],
         ProbeEnv(Some("10.0.0.1"), None, false, true, returned, returned, returned, JupyterTimeout(""), ExecOutput(report)),
         false, writeOk, returned)
  }
}

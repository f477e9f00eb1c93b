/** How far apart probes are, and what that depends on. */
module ActivitySpacing {
  import opened Prelude
  import opened ActivityModel
  import opened ActivityRuns

  // ---------- spacing ----------

  /** Between reconciles `i` and `j` no other probe and no new Running period is recorded. */
  ghost predicate Undisturbed(log: seq<Entry>, i: nat, j: nat)
    requires j <= |log|
  {
    forall m :: i < m < j ==> !(log[m].Persisted() && (log[m].Probes() || log[m].Enters()))
  }

  /** The store keeps the record of probe `i` as long as it is undisturbed. */
  lemma {:induction false} RecordStays(compile: Compiler, log: seq<Entry>, i: nat, j: nat)
    requires Run(compile, log) && i < j <= |log|
    requires log[i].Records() && Undisturbed(log, i, j)
    ensures StoreAt(log, j).status.activity.lastProbe == Some(RecordOf(log[i].outcome.probed.value))
  {
    hide Reconcile, Stored;
    StoredEvidence(compile, log, j - 1);
    ComputedEvidence(compile, log[j - 1]);
    if i + 1 < j {
      RecordStays(compile, log, i, j - 1);
      assert Linked(log, j - 1);
    }
  }

  /** Probe `i` is recorded, undisturbed, and reconcile `j` reads a status at least as new as its record. */
  ghost predicate Sees(log: seq<Entry>, i: nat, j: nat)
    requires i < j < |log|
  {
    log[i].Records() && Undisturbed(log, i, j) && log[j].read.version >= log[i].after.version
  }

  lemma RecordIsRead(compile: Compiler, log: seq<Entry>, i: nat, j: nat)
    requires Run(compile, log) && i < j < |log| && Sees(log, i, j)
    ensures log[j].read.status.activity.lastProbe == Some(RecordOf(log[i].outcome.probed.value))
  {
    hide Reconcile, Stored;
    assert Linked(log, j);
    var m: nat :| m <= j && log[j].read == StoreAt(log, m);
    if m <= i {
      VersionsGrow(compile, log, m, i + 1);
      RecordStays(compile, log, i, i + 1);
    } else {
      RecordStays(compile, log, i, m);
    }
  }

  /** The seconds that must separate the start of the probe of `e` from the next one under a configuration. */
  function SecondsAfter(e: Entry, probe: ActivityProbe): int32
    requires e.Probes()
  {
    if e.outcome.probed.value.outcome.Success? then probe.IntervalSeconds() else probe.MinSeconds()
  }

  /** Spacing: a probe of a reconcile that has seen the record of an earlier probe of the same Running period starts
      no sooner than the interval required by the configuration in force then: the probe interval after
      a success, the minimum interval after a failure. Recorded times are apart by at least the interval, real
      ones by more than the interval less one millisecond of truncation. */
  lemma ProbesAreSpaced(compile: Compiler, log: seq<Entry>, i: nat, j: nat)
    requires Run(compile, log) && Timed(log) && i < j < |log|
    requires Sees(log, i, j) && log[j].Probes() && !log[j].Enters()
    ensures log[j].Active()
    ensures var first, second := log[i].outcome.probed.value, log[j].outcome.probed.value;
            var seconds := SecondsAfter(log[i], log[j].Probe());
            && UnixMilli(log[j].tick.now) >= UnixMilli(first.start) + seconds * 1000
            && UnixMilli(second.start) >= UnixMilli(first.start) + seconds * 1000
            && second.start > first.start + seconds * SECOND - MILLI
  {
    hide Reconcile, Stored;
    RecordIsRead(compile, log, i, j);
    ProbeIs(compile, log[i]);
    ProbeIs(compile, log[j]);
    Schedule(compile, log[j]);
    UnixMilliMonotone(log[i].tick.returned, log[j].tick.now);
    DueIsExact(RecordOf(log[i].outcome.probed.value), UnixMilli(log[j].tick.now),
               log[j].Probe().MinSeconds(), log[j].Probe().IntervalSeconds());
  }

  // ---------- what spacing depends on ----------

  /** A reconcile that reads the record an earlier, probing reconcile read has missed that of the probe, and probes again,
      however soon it comes. So does one that finds the Workspace entering Running. */
  lemma MissedProbeRepeats(compile: Compiler, log: seq<Entry>, i: nat, j: nat)
    requires Run(compile, log) && Timed(log) && i < j < |log| && log[0].stored.status.activity.lastProbe.None?
    requires log[i].Probes() && log[j].Active() && log[j].tick.kind.activityProbe == log[i].tick.kind.activityProbe
    requires log[j].Enters() || (!log[i].Enters() && log[j].read.status.activity.lastProbe == log[i].read.status.activity.lastProbe)
             || log[j].read == log[i].read
    ensures log[j].Probes()
  {
    hide Reconcile, Stored;
    var last, now1, now2 := log[j].read.status.activity.lastProbe, UnixMilli(log[i].tick.now), UnixMilli(log[j].tick.now);
    ProbeIs(compile, log[i]);
    Schedule(compile, log[i]);
    Schedule(compile, log[j]);
    ReadBehindClock(compile, log, i);
    UnixMilliMonotone(log[i].tick.now, log[j].tick.now);
    UnixMilliMonotone(log[j].tick.now, log[j].tick.returned);
    if !log[j].Enters() && last.Some? && last.value.startTime > 0 {
      DueIsExact(last.value, now1, log[i].Probe().MinSeconds(), log[i].Probe().IntervalSeconds());
      DueIsExact(last.value, now2, log[i].Probe().MinSeconds(), log[i].Probe().IntervalSeconds());
    }
  }

  /** A cache does not go back: reconcile `j` sees the record of `i`, or reads what `i` read. */
  lemma SeesOrMisses(compile: Compiler, log: seq<Entry>, i: nat, j: nat)
    requires Run(compile, log) && i < j < |log|
    requires log[i].Records() && Undisturbed(log, i, j) && log[j].read.version >= log[i].read.version
    ensures Sees(log, i, j) || log[j].read == log[i].read
  {
    hide Reconcile, Next, Undisturbed;
    assert log[i].Follows(compile) && Linked(log, i) && Linked(log, j);
    var m: nat :| m <= j && log[j].read == StoreAt(log, m);
    VersionsGrow(compile, log, if m < i then m else i, if m < i then i else m);
  }

  /** The interval that the configuration in force at `j` requires after probe `i` is not over. */
  predicate TooSoon(log: seq<Entry>, i: nat, j: nat)
    requires i < j < |log| && log[i].Probes() && log[j].Active()
  {
    UnixMilli(log[j].tick.now) < UnixMilli(log[i].outcome.probed.value.start) + SecondsAfter(log[i], log[j].Probe()) * 1000
  }

  /** A probe recorded as `last` is no obstacle at `now`. */
  predicate Over(last: Option<LastProbe>, now: int, probe: ActivityProbe) {
    last.Some? ==> now >= last.value.startTime + RequiredInterval(last.value, probe.MinSeconds(), probe.IntervalSeconds()) * 1000
  }

  /** Exactly when an interval is cut short, whatever became of the record of probe `i`: a reconcile that comes before the interval
      after it is over probes if and only if it finds the Workspace entering Running, or has read another record
      than that of `i` (or none) whose own interval is over. */
  lemma EarlyProbeExactly(compile: Compiler, log: seq<Entry>, i: nat, j: nat)
    requires Run(compile, log) && Timed(log) && i < j < |log| && log[0].stored.status.activity.lastProbe.None?
    requires log[i].Probes() && log[j].Active() && TooSoon(log, i, j)
    ensures var last := log[j].read.status.activity.lastProbe;
            log[j].Probes() <==>
            || log[j].Enters()
            || (last != Some(RecordOf(log[i].outcome.probed.value)) && Over(last, UnixMilli(log[j].tick.now), log[j].Probe()))
  {
    hide Reconcile, Stored;
    var last, now := log[j].read.status.activity.lastProbe, UnixMilli(log[j].tick.now);
    Schedule(compile, log[j]);
    ReadBehindClock(compile, log, j);
    UnixMilliMonotone(log[j].tick.now, log[j].tick.returned);
    if last.Some? {
      DueIsExact(last.value, now, log[j].Probe().MinSeconds(), log[j].Probe().IntervalSeconds());
    }
  }

  /** As long as nothing else is recorded, a lost probe leaves what its reconcile read: the same record, and a Workspace
      that was to enter Running still is. */
  lemma {:induction false} NothingRecorded(compile: Compiler, log: seq<Entry>, i: nat, m: nat)
    requires Run(compile, log) && i <= m <= |log| && i < |log|
    requires log[i].Current() && (m > i ==> !log[i].Persisted()) && Undisturbed(log, i, m)
    ensures StoreAt(log, m).status.activity.lastProbe == log[i].read.status.activity.lastProbe
    ensures var s, was := StoreAt(log, m).status, log[i].read.status;
            !was.state.Running? || was.lastRunningTime == 0 ==> !s.state.Running? || s.lastRunningTime == 0
    decreases m
  {
    hide Reconcile;
    assert Linked(log, i);
    if m > i {
      var e := log[m - 1];
      assert Linked(log, m - 1);
      NothingRecorded(compile, log, i, m - 1);
      StoredEvidence(compile, log, m - 1);
      ComputedEvidence(compile, e);
    }
  }

  /** If the probing reconcile had read the current status, and the cache does not go back, it comes down to what is read: too
      soon after it, and with nothing else recorded in between, a reconcile stays quiet if and only if the probe was
      recorded, its record has reached the cache, and the Workspace is not entering Running. */
  lemma QuietExactly(compile: Compiler, log: seq<Entry>, i: nat, j: nat)
    requires Run(compile, log) && Timed(log) && i < j < |log| && log[0].stored.status.activity.lastProbe.None?
    requires log[i].Probes() && log[i].Current() && Undisturbed(log, i, j) && log[j].read.version >= log[i].read.version
    requires log[j].Active() && log[j].tick.kind.activityProbe == log[i].tick.kind.activityProbe && TooSoon(log, i, j)
    ensures !log[j].Probes() <==>
            log[i].Persisted() && log[j].read.version >= log[i].after.version && !log[j].Enters()
  {
    hide Reconcile, Stored;
    if log[i].Persisted() && log[j].read.version >= log[i].after.version {
      if log[j].Enters() {
        MissedProbeRepeats(compile, log, i, j);
      } else if log[j].Probes() {
        ProbesAreSpaced(compile, log, i, j);
      }
    } else if log[i].Persisted() {
      SeesOrMisses(compile, log, i, j);
      MissedProbeRepeats(compile, log, i, j);
    } else {
      LostProbeRepeats(compile, log, i, j);
    }
  }

  /** A lost probe is repeated by every later reconcile, as long as nothing else is recorded. */
  lemma LostProbeRepeats(compile: Compiler, log: seq<Entry>, i: nat, j: nat)
    requires Run(compile, log) && Timed(log) && i < j < |log| && log[0].stored.status.activity.lastProbe.None?
    requires log[i].Probes() && log[i].Current() && !log[i].Persisted() && Undisturbed(log, i, j)
    requires log[j].read.version >= log[i].read.version
    requires log[j].Active() && log[j].tick.kind.activityProbe == log[i].tick.kind.activityProbe
    ensures log[j].Probes()
  {
    hide Reconcile, Stored;
    assert Linked(log, i) && Linked(log, j);
    var m: nat :| m <= j && log[j].read == StoreAt(log, m);
    if m < i {
      VersionsGrow(compile, log, m, i);
    } else {
      NothingRecorded(compile, log, i, m);
    }
    MissedProbeRepeats(compile, log, i, j);
  }

  // ---------- rules that fail ----------

  /** Rules that cannot be evaluated: the reconcile fails after its probe and stores nothing. */
  predicate RulesFail(compile: Compiler, e: Entry) {
    e.Active() && e.tick.kind.activityRules != [] && e.Rules(compile).Err?
  }

  lemma FailingRulesLoseTheRecord(compile: Compiler, e: Entry)
    requires e.Follows(compile) && RulesFail(compile, e)
    ensures e.outcome.failed && e.after == e.stored
  {}

  /** Hence while the rules fail, a Workspace without a record is probed by every single reconcile of the run. */
  lemma {:induction false} FailingRulesProbeEveryTime(compile: Compiler, log: seq<Entry>, k: nat)
    requires Run(compile, log) && k < |log| && log[0].stored.status.activity.lastProbe.None?
    requires forall i :: 0 <= i < |log| ==> RulesFail(compile, log[i])
    ensures StoreAt(log, k + 1) == log[0].stored && log[k].read == log[0].stored && log[k].Probes()
  {
    hide Reconcile, Stored, EvaluateRules;
    assert Linked(log, k);
    var m: nat :| m <= k && log[k].read == StoreAt(log, m);
    if k > 0 {
      FailingRulesProbeEveryTime(compile, log, k - 1);
      if m > 0 && m < k {
        FailingRulesProbeEveryTime(compile, log, m - 1);
      }
    }
    FailingRulesLoseTheRecord(compile, log[k]);
    Schedule(compile, log[k]);
  }

  // ---------- runs that cut an interval short ----------

  /** At most one probe in ten seconds, one in twenty after a success. */
  const SLOW_PROBE := ActivityProbe(Some(10), Some(20), None, true)

  const CATCH_ALL := Kind(Some(SLOW_PROBE), [ActivityRule(40, None, None, Some(true))])

  const REPORT := Object(Some(false), None)

  /** Two reconciles a millisecond apart; the second reads what the first stored, or else what the first read. */
  function TwoReconciles(compile: Compiler, kind: Kind, writeOk: bool, stale: bool): (log: seq<Entry>)
    ensures |log| == 2
  {
    var first := EntryOf(compile, PlainTick(kind, 5 * SECOND, 5 * SECOND, REPORT, writeOk), START, START);
    var second := PlainTick(kind, 5 * SECOND + MILLI, 5 * SECOND + MILLI, REPORT, true);
    [first, EntryOf(compile, second, if stale then START else first.after, first.after)]
  }

  lemma TwoReconcilesRun(compile: Compiler, kind: Kind, writeOk: bool, stale: bool)
    ensures var log := TwoReconciles(compile, kind, writeOk, stale);
            && Run(compile, log) && Timed(log)
            && log[1].tick.now == log[0].tick.now + MILLI
  {
    hide Reconcile, Stored;
    var log := TwoReconciles(compile, kind, writeOk, stale);
    assert log[0].read == StoreAt(log, 0);
    assert log[1].read == StoreAt(log, if stale then 0 else 1);
    assert Linked(log, 0) && Linked(log, 1);
  }

  /** A stale read: the first probe succeeds and is recorded, the second starts a millisecond later. */
  lemma StaleReadCutsInterval(compile: Compiler)
    ensures var log := TwoReconciles(compile, CATCH_ALL, true, true);
            && Run(compile, log) && Timed(log) && log[0].Records() && log[1].Probes() && Undisturbed(log, 0, 1)
            && !log[1].Enters() && !log[1].Persisted()
            && log[1].outcome.probed.value.start == log[0].outcome.probed.value.start + MILLI
  {
    var log := TwoReconciles(compile, CATCH_ALL, true, true);
    TwoReconcilesRun(compile, CATCH_ALL, true, true);
    PlainRulesHold(compile);
    PlainProbe(compile, log[0]);
    PlainProbe(compile, log[1]);
    hide Reconcile, Stored, EvaluateRules;
    StoredEvidence(compile, log, 0);
  }

  /** A lost write: no record is left, the second probe starts a millisecond after the first. */
  lemma LostWriteCutsInterval(compile: Compiler)
    ensures var log := TwoReconciles(compile, CATCH_ALL, false, false);
            && Run(compile, log) && Timed(log) && log[0].Probes() && log[1].Records()
            && !log[1].Enters()
            && log[1].outcome.probed.value.start == log[0].outcome.probed.value.start + MILLI
  {
    var log := TwoReconciles(compile, CATCH_ALL, false, false);
    TwoReconcilesRun(compile, CATCH_ALL, false, false);
    PlainRulesHold(compile);
    hide Reconcile, Stored, EvaluateRules;
    StoredEvidence(compile, log, 0);
    PlainProbe(compile, log[0]);
    PlainProbe(compile, log[1]);
  }

  /** One recorded probe, then one by a reconcile that has missed the record, then one by a reconcile that has not. */
  function ThreeReconciles(compile: Compiler): (log: seq<Entry>)
    ensures |log| == 3
  {
    var first := EntryOf(compile, PlainTick(CATCH_ALL, 5 * SECOND, 5 * SECOND, REPORT, true), START, START);
    var second := PlainTick(CATCH_ALL, 25 * SECOND - MILLI, 25 * SECOND - MILLI, REPORT, true);
    var third := PlainTick(CATCH_ALL, 25 * SECOND, 25 * SECOND, REPORT, true);
    [first, EntryOf(compile, second, START, first.after), EntryOf(compile, third, first.after, first.after)]
  }

  /** A probe on a stale read: it is not recorded, so the reconcile after it, which reads the current status and keeps the interval after
      the last record, probes a millisecond later. */
  lemma StaleProbeCutsInterval(compile: Compiler)
    ensures var log := ThreeReconciles(compile);
            && Run(compile, log) && Timed(log) && log[0].Records()
            && log[1].Probes() && !log[1].Current()
            && log[2].Records() && !log[2].Enters() && log[2].read.version > log[1].read.version
            && log[2].outcome.probed.value.start == log[1].outcome.probed.value.start + MILLI
  {
    var log := ThreeReconciles(compile);
    PlainRulesHold(compile);
    PlainProbe(compile, log[0]);
    PlainProbe(compile, log[1]);
    FirstRecord(compile, log[0]);
    RecordedProbe(compile, log[2]);
    hide Reconcile, EvaluateRules;
    assert log[1].after == log[0].after;
    hide Stored;
    assert log[0].read == StoreAt(log, 0) && log[1].read == StoreAt(log, 0) && log[2].read == StoreAt(log, 1);
    assert Linked(log, 0) && Linked(log, 1) && Linked(log, 2);
  }

  /** What the first of them stores. */
  lemma FirstRecord(compile: Compiler, e: Entry)
    requires e.Follows(compile) && e.read == START && e.stored == START
    requires e.tick == PlainTick(CATCH_ALL, 5 * SECOND, 5 * SECOND, REPORT, true)
    ensures e.Records() && e.after.version == 1 && e.after.status.state.Running? && e.after.status.lastRunningTime == 1_000
    ensures e.after.status.activity.lastProbe.Some?
    ensures var last := e.after.status.activity.lastProbe.value; last.startTime == 5_000 && last.outcome.Success?
  {
    PlainRulesHold(compile);
    PlainProbe(compile, e);
    ComputedEvidence(compile, e);
    ProbeIs(compile, e);
    hide Reconcile, EvaluateRules;
    assert e.outcome.status.activity.lastProbe != START.status.activity.lastProbe;
  }

  /** A reconcile that comes when the interval after that record is over probes. */
  lemma RecordedProbe(compile: Compiler, e: Entry)
    requires e.Follows(compile) && e.tick == PlainTick(CATCH_ALL, 25 * SECOND, 25 * SECOND, REPORT, true)
    requires e.read.status.state.Running? && e.read.status.lastRunningTime == 1_000
    requires e.read.status.activity.lastProbe.Some?
    requires var last := e.read.status.activity.lastProbe.value; last.startTime == 5_000 && last.outcome.Success?
    ensures e.Probes() && !e.Enters() && e.outcome.probed.value.start == 25 * SECOND && !e.outcome.failed
  {
    PlainRulesHold(compile);
    DueIsExact(e.read.status.activity.lastProbe.value, 25_000, 10, 20);
    hide Reconcile, Stored, EvaluateRules;
    Schedule(compile, e);
    ProbeIs(compile, e);
    FailsExactly(compile, e);
  }

  lemma PlainRulesHold(compile: Compiler)
    ensures EvaluateRules(compile, CATCH_ALL.activityRules, map[], map[]) == Ok(Decision(true, true, 40, 0))
  {
    assert Verdict(compile, CATCH_ALL.activityRules[0], map[], map[]) == Ok(true);
  }

  /** A reconcile that reads the start status probes, and does not fail if the rules do not. */
  lemma PlainProbe(compile: Compiler, e: Entry)
    requires e.Follows(compile) && e.read == START && e.tick.kind.activityProbe == Some(SLOW_PROBE) && TimedTick(e.tick)
    requires e.tick == PlainTick(e.tick.kind, e.tick.now, e.tick.now, REPORT, e.tick.writeOk)
    ensures e.Probes() && !e.Enters() && e.outcome.probed.value.start == e.tick.now && e.Active()
    ensures e.Rules(compile).Ok? ==> !e.outcome.failed
  {
    hide Stored, EvaluateRules, IsEligibleForPause;
  }

  /** Rules that fail: no record is left either. Admission rejects selectors that do not compile, so this takes a
      WorkspaceKind that was stored without that check. */
  lemma FailingRulesCutInterval(compile: Compiler, selector: LabelSelector)
    requires compile(selector).None?
    ensures var kind := Kind(Some(SLOW_PROBE), [ActivityRule(40, None, Some(RuleMatch(Some(selector), None)), Some(true))]);
            var log := TwoReconciles(compile, kind, true, false);
            && Run(compile, log) && Timed(log) && log[0].Probes() && log[1].Probes()
            && log[1].outcome.probed.value.start == log[0].outcome.probed.value.start + MILLI
  {
    var kind := Kind(Some(SLOW_PROBE), [ActivityRule(40, None, Some(RuleMatch(Some(selector), None)), Some(true))]);
    var log := TwoReconciles(compile, kind, true, false);
    TwoReconcilesRun(compile, kind, true, false);
    assert Verdict(compile, kind.activityRules[0], map[], map[]).Err?;
    FailingRulesLoseTheRecord(compile, log[0]);
    hide Reconcile, Stored, EvaluateRules;
    PlainProbe(compile, log[0]);
    PlainProbe(compile, log[1]);
  }
}

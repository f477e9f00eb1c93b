/** The in-place form of the activity reconciler: methods that change a Workspace's status. */
module ActivityController {
  import opened Prelude
  import opened ActivityModel

  /** First rule that configures the effect and matches; an invalid selector met on the way is an error. */
  method EvaluatePauseWorkspaceRule(compile: Compiler, rules: seq<ActivityRule>, namespaceLabels: Labels, podConfigLabels: Labels)
    returns (decision: Result<Decision, string>)
    ensures decision == EvaluateRules(compile, rules, namespaceLabels, podConfigLabels)
    ensures DecidedBy(compile, rules, namespaceLabels, podConfigLabels, decision)
  {
    RulesDecide(compile, rules, namespaceLabels, podConfigLabels);
    hide DecidedBy;
    var i := 0;
    while i < |rules|
      invariant 0 <= i <= |rules|
      invariant EvaluateRules(compile, rules, namespaceLabels, podConfigLabels)
             == EvaluateRules(compile, rules[i..], namespaceLabels, podConfigLabels)
    {
      assert rules[i..][0] == rules[i] && rules[i..][1..] == rules[i + 1..];
      var rule := rules[i];
      if rule.pauseWorkspace.Some? {
        var matched := RuleMatches(compile, rule.criteria, namespaceLabels, podConfigLabels);
        if matched.Err? {
          return Err(matched.error);
        }
        if matched.value {
          return Ok(DecisionOf(rule));
        }
      }
      i := i + 1;
    }
    decision := Ok(Decision(false, false, 0, 0));
  }

  class Workspace {
    var state: State
    var lastRunningTime: int
    var activity: Activity

    ghost function Status(): Status
      reads this
    {
      ActivityModel.Status(state, lastRunningTime, activity)
    }

    /** Start of a Running period: the clock is noted and stale activity is dropped. */
    method RecordRunningTransition(newState: State, clock: int)
      modifies this
      ensures Status() == ActivityModel.RecordRunningTransition(old(Status()), newState, clock)
    {
      var currentState := state;
      state := newState;
      if newState.Running? && (!currentState.Running? || lastRunningTime == 0) {
        lastRunningTime := UnixMilli(clock);
        activity := NO_ACTIVITY;
      }
    }

    method UpdateActivityStatusFromProbe(result: ProbeResult)
      modifies this`activity
      ensures activity == ApplyProbe(old(activity), lastRunningTime, result)
    {
      activity := activity.(lastProbe :=
        Some(LastProbe(UnixMilli(result.start), UnixMilli(result.end), result.outcome, result.message)));
      if result.outcome.Success? {
        if result.lastActivity.Some? {
          activity := activity.(lastActivity := UnixMilli(result.lastActivity.value));
        } else if activity.lastActivity <= 0 && lastRunningTime > 0 {
          activity := activity.(lastActivity := lastRunningTime);
        }
        activity := activity.(lastUpdate := UnixMilli(result.end));
      }
    }

    method EvaluatePauseDecision(compile: Compiler, rules: seq<ActivityRule>, namespaceLabels: Labels, podConfigLabels: Labels,
                                 now: int, allowPause: bool)
      returns (paused: bool, failed: bool)
      modifies this`activity
      ensures PauseOutcome(activity, paused, failed) ==
              ActivityModel.EvaluatePauseDecision(compile, old(activity), lastRunningTime, rules,
                                                  namespaceLabels, podConfigLabels, now, allowPause)
    {
      if |rules| == 0 {
        if activity.rules.Some? {
          activity := activity.(rules := Some(RulesStatus(None)));
        }
        return false, false;
      }
      var decision := EvaluatePauseWorkspaceRule(compile, rules, namespaceLabels, podConfigLabels);
      if decision.Err? {
        return false, true;
      }
      var d := decision.value;
      if !d.matched || !d.value {
        if activity.rules.Some? {
          activity := activity.(rules := Some(RulesStatus(None)));
        }
        return false, false;
      }
      var eligible := IsEligibleForPause(activity.lastActivity, lastRunningTime, now, d.secondsSinceActive, d.minRunningSeconds);
      var eligibleAfter := CalculateEligibleAfter(activity.lastActivity, d.secondsSinceActive);
      if activity.rules.None? {
        activity := activity.(rules := Some(RulesStatus(None)));
      }
      activity := activity.(rules := Some(activity.rules.value.(pauseWorkspace := Some(eligibleAfter))));
      if eligible && allowPause {
        return true, false;
      }
      return false, false;
    }

    /** Runs the probe if due, folds its result into the status and decides on a pause. */
    method ReconcileActivity(compile: Compiler, t: Tick)
      returns (requeue: int, paused: bool, failed: bool, probed: Option<ProbeResult>)
      modifies this`activity
      ensures Reconciled(Status(), requeue, paused, failed, probed) ==
              ActivityModel.ReconcileActivity(compile, old(Status()), t)
    {
      if t.kind.activityProbe.None? {
        return 0, false, false, None;
      }
      if !state.Running? {
        return 0, false, false, None;
      }
      var probe := t.kind.activityProbe.value;
      var now := UnixMilli(t.now);
      var minProbeInterval := probe.MinSeconds() * SECOND;
      var probeInterval := probe.IntervalSeconds() * SECOND;
      if t.namespaceLabels.None? {
        return 0, false, true, None;
      }
      var namespaceLabels := t.namespaceLabels.value;
      var remaining := TimeUntilProbeDue(activity.lastProbe, now, minProbeInterval, probeInterval);
      if remaining.Some? {
        paused, failed := EvaluatePauseDecision(compile, t.kind.activityRules, namespaceLabels, t.podConfigLabels, now, false);
        return if failed then 0 else remaining.value, false, failed, None;
      }
      var result := RunProbe(probe, t.probeEnv);
      probed := Some(result);
      UpdateActivityStatusFromProbe(result);
      paused, failed := EvaluatePauseDecision(compile, t.kind.activityRules, namespaceLabels, t.podConfigLabels, now,
                                              result.outcome.Success?);
      if failed {
        return 0, false, true, probed;
      }
      var nextInterval := probeInterval;
      if !result.outcome.Success? {
        nextInterval := minProbeInterval;
      }
      requeue := nextInterval;
    }
  }
}

# Kubeflow Notebooks: verified model of Workspaces

Dafny models of the parts of Kubeflow Notebooks (Workspaces, version 2) whose behaviour spans many steps,
with proofs about all inputs and all runs. `dafny verify dfyconfig.toml` checks the project.

| file | what it models |
|---|---|
| `ActivityModel.dfy` | one reconcile of a Workspace's activity on values: probe schedule in 64-bit arithmetic, probe outcomes, activity rules, pause eligibility |
| `ActivityController.dfy` | the same reconcile as it updates the status in place, proved equal to the model |
| `ActivityRuns.dfy` | whole runs of reconciles, with stale reads, lost status writes and re-entered Running periods: the store, wake-ups, status as a fold |
| `ActivitySpacing.dfy` | how far apart probes are, and exactly when they are not |
| `ActivityPauses.dfy` | pause safety: what a pause has to do with the reports of the probes before it |
| `ActivityLatency.dfy` | how long an idle Workspace keeps running |
| `FilterRules.dfy` | the filter-rule engine: scope filter, selector compilation, first-match evaluation, against a reference meaning of rules |
| `KindCounting.dfy` | the counting loops and the reconcile of one WorkspaceKind |
| `KindProtocol.dfy` | the WorkspaceKind controller as a transition system of API server, caches, queue and reconciles in flight |
| `KindRecreation.dfy` | the one event the controller's watch drops wrongly, and exactly when that does harm |
| `KindDrain.dfy` | the controller left to itself: every schedule comes to rest |
| `Redirects.dfy` | option redirects: cycle detection, admission on create and update, resolution by the controller |
| `SchemaClosure.dfy` | the script that extracts a self-contained JSON schema |
| `ImageUpsert.dfy` | the release script's update of image lists |
| `Locations.dfy` | location builders against the routes they are meant for |
| `Prelude.dfy` | options, results, Go integers, label selectors |

Instants are nanoseconds and status times milliseconds, as in the controller; Go's 32- and 64-bit wrap-around is
written out. The clock, probe replies, API server answers, listings and the order of events are inputs or
nondeterministic steps. Label-selector compilation is an arbitrary partial function from selectors to predicates,
and every statement holds for each such function.

In a run of Workspace reconciles each one reads, from the manager's cache, any status stored earlier; its write is
refused unless it read the current version, and may be refused otherwise. Nothing else writes the status. In the
properties that mention time, the clock does not go back within a reconcile or between reconciles of one
Workspace, and a probe starts after the reconcile read the clock. Latency is stated for runs in which reconciles
read the current status and nothing fails.

`KindProtocol` assumes of the platform: one reconcile per kind at a time, a kind requested while in flight stays
queued, a failed reconcile is queued again, a write with an outdated resource version is refused, uids are never
given twice, and a change of a Workspace's spec changes its generation. Caches are keyed by name, and a watch may
deliver any state of the past. The one assumption about watches is that no event is missed: a Workspace that is
deleted and created again between two looks of the watch may arrive as one update with the generation it had
before only while its kinds are still to be listed. `KindRecreation` shows what happens otherwise.

The filter-rule engine stores addresses of loop variables, which is sound because the module's Go version has a
variable per iteration; the model gives each compiled entry its own rule.

## Where code and documentation differ

The model follows the code. In each case a lemma names inputs that show the difference, or states the exact condition.

- `workspaces/controller/api/v1beta1/workspace_types.go:292` describes `eligibleAfter` as the time after which the
  Workspace would be paused. The minimum running time is a second condition: `EligibleAfterIsNotEnough` gives the
  values, `EligibleExactly` the condition.
- `workspaces/controller/internal/controller/workspace_activity.go:59-63` bounds the pause latency by about one probe
  interval. One interval and one reconcile duration is a bound for all runs only if reconciles take no time
  (`IntervalAndDurationExactly`): every other setting has a run in which a reconcile just before the pausing one
  comes early and delays the pause (`EarlyReconcileDelaysPause`). Without such a reconcile it is a bound
  (`PauseLatencyWithoutEarlyReconciles`); in general the bound is one interval, two durations and a millisecond
  (`PauseLatency`).
- The minimum probe interval does not limit all probes. Before the interval after any probe is over, a reconcile probes
  exactly if it finds the Workspace entering Running, or has read another record, or none, whose own interval is over
  (`EarlyProbeExactly`). After a probe on the current status this comes down to whether the probe was recorded and
  its record has reached the cache (`QuietExactly`). Runs of probes a millisecond apart: a cache that lags behind
  (`StaleReadCutsInterval`, `StaleProbeCutsInterval`), a refused write (`LostWriteCutsInterval`), rules that cannot be
  evaluated (`FailingRulesCutInterval`). The last needs a selector that does not compile, which admission rejects
  (`workspaces/controller/internal/webhook/workspacekind_webhook.go:898-906`), so a WorkspaceKind stored without
  that check.
- A Workspace can be paused sooner than the idle timeout after a reported activity, if a later report names an older time
  (`OlderReportPauses`), as `workspace_types.go:229-230` allows, or if the report was lost with its status write
  (`LostReportPauses`). It cannot exactly if no report, recorded or lost, is later than the activity time, which is the latest
  recorded report, up to what the minimum running time makes up for (`NoRecentReportExactly`, `EveryReportIsOld`).
  A pause decided on an outdated read is not carried out (`OutdatedPauseIsDropped`, `PauseIsCarriedOutExactly`).
- `workspaces/controller/internal/controller/workspace_controller.go:938-940` expects culling to work while the proxy
  fails. The stored `Error` state makes every reconcile begin a new Running period, so a Workspace is paused only on
  what the probe of that very reconcile reports: `ProxyFailurePausesExactly` says when, `ProxyFailurePauses` is a run
  that pauses, and with a minimum running time longer than a reconcile none does (`ProxyFailureNeverPauses`).
- `workspace_types.go:238` says `lastUpdate` determines the next probe. The code uses the start of the last probe (`Schedule`).
- The WorkspaceKind counts can stay wrong for good after a Workspace is re-created under its name (`RecreationGoesUnnoticed`);
  `MaskedKindExactly` and `MaskedEventExactly` say exactly when.
- The schema script skips a missing definition while collecting and then fails on it while building (`Extract`).
- The release script raises an error when its search meets an image entry without a name (`UpsertAllIs`).
- A location does not lead back to its resource when the namespace contains `:name` (`RoundTripExactly`); no valid namespace does.

## Model

| member | source | states |
|---|---|---|
| `Prelude.WrapIsCongruent` | workspaces/controller/internal/controller/workspace_activity.go:158-158 | 32- and 64-bit wrap-around changes a number by a multiple of the range only |
| `ActivityModel.UnixMilli` | workspaces/controller/internal/controller/workspace_activity.go:91-91 | the millisecond reading of an instant: truncated, never ahead of it and less than a millisecond behind |
| `ActivityModel.DueIsExact` | workspaces/controller/internal/controller/workspace_activity.go:148-171 | for every int32 interval and every recorded start up to `now` (at most 9223372036854 ms) no 64-bit product overflows; a probe is due exactly when the interval for the recorded outcome has passed, otherwise the wait is the exact rest |
| `ActivityModel.WaitIsTight` | workspaces/controller/internal/controller/workspace_activity.go:148-171 | when no probe is due the wait is positive, no earlier millisecond is due, and every millisecond from the end of the wait on is due |
| `ActivityModel.VerdictExactly` | workspaces/controller/internal/helper/activity.go:106-133 | a rule matches if and only if it configures the effect and each selector that is set compiles and accepts its own labels, matchNamespace those of the namespace and matchPodConfig those of the podConfig; it errs if and only if a selector that is reached does not compile |
| `ActivityModel.FirstDecidingRuleWins` | workspaces/controller/internal/helper/activity.go:57-95 | the first rule that applies or breaks decides: breaking is an error, applying gives its own value (true or false), timeout, and minimum running time or 0; later rules cannot interfere |
| `ActivityModel.NoDecidingRule` | workspaces/controller/internal/helper/activity.go:57-95 | if no rule applies or breaks, the decision is the empty one, not an error |
| `ActivityModel.RulesDecide` | workspaces/controller/internal/helper/activity.go:57-95 | both together, for every list of rules |
| `ActivityModel.UnreadyProbeFails` | workspaces/controller/internal/controller/workspace_activity.go:182-235 | a probe without pod address, port, prober, executor or type is a failure at the clock reading on entry, reports nothing, and says why |
| `ActivityModel.JupyterProbeByReply` | workspaces/controller/internal/helper/probe.go:245-291 | a Jupyter probe that can be run succeeds if and only if Jupyter answers with a time, reports exactly that time, and otherwise reports nothing |
| `ActivityModel.PodExecProbeByReply` | workspaces/controller/internal/helper/probe.go:301-401 | a podExec probe succeeds if and only if the script reports activity, no activity or a valid time; it reports its own end, nothing, or that time, and a plain yes or no comes before a time |
| `ActivityModel.EligibleExactly` | workspaces/controller/internal/helper/activity.go:193-232 | eligible if and only if activity is known, the idle timeout has passed, and (when set) the minimum running time since a known start has passed |
| `ActivityModel.EligibleAfterIsNotEnough` | workspaces/controller/api/v1beta1/workspace_types.go:290-297 | the documented meaning of `eligibleAfter` fails: a Workspace past it that the minimum running time keeps from being paused |
| `ActivityController.EvaluatePauseWorkspaceRule` | workspaces/controller/internal/helper/activity.go:57-102 | the loop returns the decision of the first rule that applies or breaks, from the selectors and fields of the rules as they are written, and the empty decision if there is none |
| `ActivityController.Workspace.RecordRunningTransition` | workspaces/controller/internal/controller/workspace_controller.go:2344-2352 | entering Running notes the clock and drops all activity, staying in or leaving Running changes neither |
| `ActivityController.Workspace.UpdateActivityStatusFromProbe` | workspaces/controller/internal/controller/workspace_activity.go:244-260 | the in-place update equals the pure one: record always, activity and update time only on success, an unknown activity time seeded from the running time |
| `ActivityController.Workspace.EvaluatePauseDecision` | workspaces/controller/internal/controller/workspace_activity.go:274-328 | status and verdict of the in-place decision equal the pure one in every branch (whose rule status `RuleStatus` states); nothing but the activity changes |
| `ActivityController.Workspace.ReconcileActivity` | workspaces/controller/internal/controller/workspace_activity.go:68-140 | status, requeue time, pause, error and probe of the in-place reconcile equal the pure step that the run properties are about; nothing but the activity changes |
| `ActivityRuns.RunExists` | workspaces/controller/internal/controller/workspace_controller.go:921-987 | every initial store, every sequence of inputs and every choice of earlier stores to read has a run, so the run properties are not empty |
| `ActivityRuns.AppendEntry` | workspaces/controller/internal/controller/workspace_controller.go:921-987 | one more reconcile that reads any earlier store extends a run |
| `ActivityRuns.VersionsGrow` | workspaces/controller/internal/controller/workspace_controller.go:946-958 | resource versions never go back along a run, and a version is given to one status only |
| `ActivityRuns.ReadIsSound` | workspaces/controller/internal/controller/workspace_controller.go:946-958 | what a reconcile reads is the stored status or one of an older version |
| `ActivityRuns.ProbeIs` | workspaces/controller/internal/controller/workspace_activity.go:174-236 | a probe that ran is the one its inputs describe; it starts no earlier than `now` was read and ends before the reconcile returns |
| `ActivityRuns.ComputedEvidence` | workspaces/controller/internal/controller/workspace_activity.go:244-260 | what one reconcile computes: the evidence it read (dropped on entering Running) extended by exactly its own probe, untouched by rule evaluation |
| `ActivityRuns.FailsExactly` | workspaces/controller/internal/controller/workspace_activity.go:110-129 | a reconcile that handles activity fails if and only if it has rules that cannot be evaluated |
| `ActivityRuns.InactiveDoesNothing` | workspaces/controller/internal/controller/workspace_activity.go:78-104 | a reconcile of a Workspace that is not Running, or without a probe, leaves activity alone and asks for nothing; one whose namespace labels cannot be read fails and stores nothing |
| `ActivityRuns.RuleStatus` | workspaces/controller/internal/controller/workspace_activity.go:274-328 | `eligibleAfter` is the computed last activity plus the timeout of the deciding rule (0 while no activity is known) if that rule asks for a pause; otherwise it is cleared wherever it was set |
| `ActivityRuns.DefaultIntervals` | workspaces/controller/internal/controller/workspace_activity.go:93-94 | without configured intervals the next probe is asked for an hour after a success and five minutes after a failure |
| `ActivityRuns.StoredIs` | workspaces/controller/internal/controller/workspace_controller.go:921-958 | what one reconcile leaves in the store: the whole status it computed (with state Error if the proxy failed) if it read the current version, did not fail and was not refused; otherwise nothing changes |
| `ActivityRuns.StoredEvidence` | workspaces/controller/internal/controller/workspace_controller.go:921-958 | the same at every place of a run |
| `ActivityRuns.Schedule` | workspaces/controller/internal/controller/workspace_activity.go:110-139 | a reconcile probes if and only if no wait is left, and asks to be woken after that wait or after the interval its probe outcome calls for |
| `ActivityRuns.RecordBehindClock` | workspaces/controller/internal/controller/workspace_activity.go:244-250 | every stored record of a probe start is positive and not ahead of the clock of a later reconcile |
| `ActivityRuns.ReadBehindClock` | workspaces/controller/internal/controller/workspace_activity.go:244-250 | so is a record that a reconcile reads, however old |
| `ActivityRuns.NoWastedWakeUp` | workspaces/controller/internal/controller/workspace_activity.go:110-139 | a reconcile no earlier than the wake-up requested by the previous one (after success, failure or nothing due), and no less informed, finds a probe due |
| `ActivityRuns.StatusIsFold` | workspaces/controller/internal/controller/workspace_activity.go:244-260 | at every time of every run, stale reads and lost writes included, the stored activity, update time and record are the fold of the recorded probes of the current Running period |
| `ActivityRuns.ReadIsFold` | workspaces/controller/internal/controller/workspace_activity.go:244-260 | what a reconcile reads is that fold at the time it was stored |
| `ActivityRuns.FoldOneMore` | workspaces/controller/internal/controller/workspace_activity.go:244-260 | one more probe is one more step of the fold |
| `ActivityRuns.HistoryOneMore` | workspaces/controller/internal/controller/workspace_activity.go:244-260 | how one reconcile extends the recorded history |
| `ActivityRuns.FailuresAreInvisible` | workspaces/controller/api/v1beta1/workspace_types.go:228-241 | erasing all failed probes from the history leaves `lastActivity` and `lastUpdate` as they are |
| `ActivityRuns.LastUpdateIsLatestSuccess` | workspaces/controller/api/v1beta1/workspace_types.go:236-241 | `lastUpdate` is the end of the latest successful probe, or 0 |
| `ActivityRuns.LastUpdateBehindClock` | workspaces/controller/internal/controller/workspace_activity.go:252-260 | the stored `lastUpdate` is never ahead of the clock |
| `ActivityRuns.LastUpdateAdvances` | workspaces/controller/internal/controller/workspace_activity.go:252-260 | the stored `lastUpdate` never decreases within a Running period |
| `ActivitySpacing.RecordStays` | workspaces/controller/internal/controller/workspace_controller.go:921-958 | the stored record of a probe survives every reconcile that stores no other probe and no new Running period |
| `ActivitySpacing.RecordIsRead` | workspaces/controller/internal/controller/workspace_controller.go:921-958 | a reconcile that reads a status at least as new as the record reads the record |
| `ActivitySpacing.ProbesAreSpaced` | workspaces/controller/internal/controller/workspace_activity.go:148-171 | a probe of a reconcile that has seen the record of an earlier probe of its Running period starts at least the probe interval (after success) or the minimum interval (after failure) later, up to one millisecond of real time |
| `ActivitySpacing.MissedProbeRepeats` | workspaces/controller/internal/controller/workspace_activity.go:148-171 | a reconcile that reads the record an earlier probing one read, or finds the Workspace entering Running, probes again at once |
| `ActivitySpacing.LostProbeRepeats` | workspaces/controller/internal/controller/workspace_controller.go:928-958 | a probe that was not recorded is repeated by every later reconcile under the same configuration, as long as nothing else is recorded |
| `ActivitySpacing.NothingRecorded` | workspaces/controller/internal/controller/workspace_controller.go:928-958 | until something else is recorded, a lost probe leaves in the store the record its reconcile read, and a Workspace that was to enter Running still is |
| `ActivitySpacing.SeesOrMisses` | workspaces/controller/cmd/main.go:191-203 | with a cache that does not go back, a later reconcile sees the record of a probe or reads what the probing one read |
| `ActivitySpacing.EarlyProbeExactly` | workspaces/controller/internal/controller/workspace_activity.go:148-171 | for every probe of every run, recorded or not: before the interval after it is over, a reconcile probes if and only if it finds the Workspace entering Running, or has read another record (or none) whose own interval is over |
| `ActivitySpacing.QuietExactly` | workspaces/controller/internal/controller/workspace_activity.go:148-171 | after a probe on the current status, with nothing else recorded and a cache that does not go back, a reconcile before the end of the interval stays quiet if and only if the probe was recorded, its record has reached the cache, and the Workspace is not entering Running |
| `ActivitySpacing.StaleProbeCutsInterval` | workspaces/controller/cmd/main.go:191-203 | a run of three probes, the second on a stale read and refused, the third a millisecond later by a reconcile that reads the current status and keeps the interval after the record |
| `ActivitySpacing.FailingRulesLoseTheRecord` | workspaces/controller/internal/controller/workspace_activity.go:122-129 | a reconcile whose rules cannot be evaluated stores nothing, its probe included |
| `ActivitySpacing.FailingRulesProbeEveryTime` | workspaces/controller/internal/controller/workspace_activity.go:110-129 | while rules cannot be evaluated, every reconcile of a Workspace without a record probes: there is no rate limit |
| `ActivitySpacing.StaleReadCutsInterval` | workspaces/controller/cmd/main.go:191-203 | a run of two probes a millisecond apart, the first successful and recorded, the second by a reconcile that read the cache before the record arrived |
| `ActivitySpacing.LostWriteCutsInterval` | workspaces/controller/internal/controller/workspace_controller.go:948-957 | a run of two probes a millisecond apart, the write of the first refused |
| `ActivitySpacing.FailingRulesCutInterval` | workspaces/controller/internal/controller/workspace_activity.go:122-129 | a run of two probes a millisecond apart under rules with a selector that does not compile |
| `ActivityPauses.PausesExactlyOnFreshEvidence` | workspaces/controller/internal/controller/workspace_activity.go:78-139 | a reconcile pauses if and only if the Workspace is Running, a due probe ran and succeeded in that reconcile, the first matching rule opts in, and the activity time after the probe is eligible |
| `ActivityPauses.RecentActivityPreventsPause` | workspaces/controller/internal/controller/workspace_activity.go:274-328 | at every pause the activity reported by its own probe is older than the idle timeout, up to one millisecond |
| `ActivityPauses.PauseShowsInStatus` | workspaces/controller/api/v1beta1/workspace_types.go:290-297 | at a pause `eligibleAfter` is set and has passed |
| `ActivityPauses.EligibleAfterDecides` | workspaces/controller/api/v1beta1/workspace_types.go:290-297 | after a successful probe, under a rule without minimum running time that asks for a pause, the Workspace is paused if and only if the stored `eligibleAfter` is positive and has passed |
| `ActivityPauses.ExemptNeverPauses` | workspaces/controller/internal/controller/workspace_activity.go:291-299 | if the first rule that applies says `pauseWorkspace: false`, there is no pause and no `eligibleAfter`, whatever the rules after it say |
| `ActivityPauses.JupyterPauseIsOld` | workspaces/controller/internal/helper/probe.go:245-291 | over every run: a pause under a Jupyter probe means that the time Jupyter answered with is the activity time and at least the idle timeout old |
| `ActivityPauses.PodExecPauseIsOld` | workspaces/controller/internal/helper/probe.go:301-401 | over every run: a pause under a podExec probe means that the script did not report activity, and that a time it named is the activity time and at least the idle timeout old |
| `ActivityPauses.ActiveReportNeverPauses` | workspaces/controller/internal/helper/probe.go:363-401 | `now` is read before the probe, so a podExec probe that reports activity (or reports nothing) never pauses in that reconcile |
| `ActivityPauses.InactiveReportKeepsActivity` | workspaces/controller/internal/helper/probe.go:363-401 | a report of no activity never moves a known activity time and at most seeds an unknown one from the running time |
| `ActivityPauses.RulesGiveTheirTimeout` | workspaces/controller/internal/helper/activity.go:57-95 | a matching decision carries a positive timeout if all rules do |
| `ActivityPauses.ActivityIsLatestReport` | workspaces/controller/internal/controller/workspace_activity.go:252-258 | a known activity time is the latest time reported by the recorded probes of the Running period, or the start of the period if none was reported |
| `ActivityPauses.ComputedIsFold` | workspaces/controller/internal/controller/workspace_activity.go:118-120 | what a probing reconcile computes is the fold of the recorded probes it knows of and its own |
| `ActivityPauses.PauseRestsOnHistory` | workspaces/controller/internal/controller/workspace_activity.go:118-129 | over every run: at a decision to pause the activity time is the fold of the recorded probes of the Running period the reconcile has read of and its own probe, it is the latest time they reported (or the start of the period), and it is at least the idle timeout old |
| `ActivityPauses.PauseIsCarriedOutExactly` | workspaces/controller/internal/controller/workspace_controller.go:946-972 | a pause is carried out if and only if it was decided and its status was read at the current version and stored |
| `ActivityPauses.ProbedStatusDiffers` | workspaces/controller/internal/controller/workspace_activity.go:148-171 | a due probe is recorded with another start than the one before, so there is always a status to write |
| `ActivityPauses.NoRecentReportExactly` | workspaces/controller/api/v1beta1/workspace_types.go:226-234 | for any list of reported times, recorded or lost: no pause can come sooner than the idle timeout after any of them if and only if none is later than the activity time, or than the minimum running time makes up for |
| `ActivityPauses.OrderedReports` | workspaces/controller/api/v1beta1/workspace_types.go:226-234 | reports that never go back in time meet that condition |
| `ActivityPauses.StoredPauseIsEligible` | workspaces/controller/internal/controller/workspace_activity.go:118-129 | at a pause that is stored, the fold of all recorded probes of the Running period is eligible |
| `ActivityPauses.EveryReportIsOld` | workspaces/controller/internal/controller/workspace_activity.go:118-129 | over every run: a pause that is carried out comes no sooner than the idle time and running time after the fold of all recorded probes of the Running period allow; under the exact condition on their reports, every recorded report of the period is then at least the idle timeout old |
| `ActivityPauses.SinceInRange` | workspaces/controller/internal/controller/workspace_controller.go:2344-2352 | the stored start of the Running period stays in the range of the clock |
| `ActivityPauses.OlderReportPauses` | workspaces/controller/api/v1beta1/workspace_types.go:229-230 | without the condition it fails: a run reported active at 100 s and paused at 102 s under a timeout of 16 s, because a later report names an older time |
| `ActivityPauses.LostReportPauses` | workspaces/controller/internal/controller/workspace_controller.go:948-957 | nor does it reach lost reports: a run whose report of activity at 100 s is lost with its status write and that pauses at 102 s |
| `ActivityPauses.OutdatedPauseIsDropped` | workspaces/controller/internal/controller/workspace_controller.go:948-957 | a pause decided on an outdated read is not carried out: a run with a recorded report at 100 s and a decision at 102 s that has not seen it, whose status is refused |
| `ActivityPauses.NeverStoredRunning` | workspaces/controller/internal/controller/workspace_controller.go:938-944 | while the proxy keeps failing, Running is never stored again |
| `ActivityPauses.ProxyFailureRestarts` | workspaces/controller/internal/controller/workspace_controller.go:938-944 | over every such run, each reconcile begins a new Running period and probes, and its activity time is what its own probe reports, or its own clock |
| `ActivityPauses.ProxyFailurePausesExactly` | workspaces/controller/internal/controller/workspace_controller.go:938-944 | while the proxy fails a reconcile pauses if and only if the rules say so, its probe succeeds, what the probe reports (or else the reconcile's own clock) is as old as the idle timeout, and the reconcile itself has lasted as long as the minimum running time |
| `ActivityPauses.ProxyFailureNeverPauses` | workspaces/controller/internal/controller/workspace_controller.go:938-944 | so a minimum running time longer than a reconcile (or, when probes report no time, an idle timeout longer than a reconcile) keeps the Workspace from ever being paused |
| `ActivityPauses.ProxyFailurePauses` | workspaces/controller/internal/controller/workspace_controller.go:938-944 | a Workspace with a failing proxy that is paused: no minimum running time and a report of an old time |
| `ActivityLatency.SmoothStep` | workspaces/controller/internal/controller/workspace_activity.go:110-139 | with steady inputs a reconcile is stored, keeps the status steady, and pauses if and only if it probes at or after eligibility |
| `ActivityLatency.SteadyAlong` | workspaces/controller/internal/controller/workspace_activity.go:110-139 | steadiness holds along the whole run |
| `ActivityLatency.ScheduleStep` | workspaces/controller/internal/controller/workspace_activity.go:110-139 | a reconcile that does not pause hands on the schedule: last probe less than a duration after eligibility, next reconcile within interval, duration and a millisecond of it |
| `ActivityLatency.ScheduleHolds` | workspaces/controller/internal/controller/workspace_activity.go:110-139 | the schedule holds at every reconcile before the pause |
| `ActivityLatency.PauseLatency` | workspaces/controller/internal/controller/workspace_activity.go:53-67 | up to and including the pausing one, every reconcile starts less than one probe interval, two reconcile durations and a millisecond after eligibility, however many early reconciles are interleaved |
| `ActivityLatency.PauseHappens` | workspaces/controller/internal/controller/workspace_activity.go:53-67 | a prompt run that lasts past the bound has paused the Workspace within the bound |
| `ActivityLatency.RequeueBound` | workspaces/controller/internal/controller/workspace_activity.go:131-139 | no reconcile of such a run asks for more than one interval |
| `ActivityLatency.NotEarlyPauses` | workspaces/controller/internal/controller/workspace_activity.go:110-139 | a reconcile after eligibility that comes no earlier than requested pauses |
| `ActivityLatency.PauseLatencyWithoutEarlyReconciles` | workspaces/controller/internal/controller/workspace_activity.go:53-67 | the pausing reconcile starts less than one interval and one duration after eligibility unless the one just before it was early and came after eligibility |
| `ActivityLatency.LateFirst` | workspaces/controller/internal/controller/workspace_activity.go:118-139 | first step of a late run: a probe just before eligibility that is recorded a duration later |
| `ActivityLatency.LateSecond` | workspaces/controller/internal/controller/workspace_activity.go:110-116 | second step: a nanosecond early, nothing is due, the wake-up is a millisecond after the reconcile ends |
| `ActivityLatency.LateThird` | workspaces/controller/internal/controller/workspace_activity.go:118-139 | third step: the pause |
| `ActivityLatency.EarlyReconcileDelaysPause` | workspaces/controller/internal/controller/workspace_activity.go:110-116 | every setting with a probe and a positive duration has a prompt run with one early reconcile that pauses an interval and two durations less a nanosecond after eligibility, or later |
| `ActivityLatency.IntervalAndDurationExactly` | workspaces/controller/internal/controller/workspace_activity.go:59-63 | all prompt runs of a setting (with a probe, and room on the clock) keep to one interval and one duration if and only if reconciles take no time |
| `FilterRules.MeaningIsFirstFiring` | workspaces/backend/internal/filterrules/engine.go:92-98 | the reference meaning of a rule list is the effect of the lowest-index rule that fires, if any |
| `FilterRules.NamespaceRuleFires` | workspaces/backend/internal/filterrules/engine.go:268-271 | a rule with one namespace condition fires if and only if scopes agree, the namespace is known and the selector accepts its labels |
| `FilterRules.ImageConfigRuleFires` | workspaces/backend/internal/filterrules/engine.go:272-290 | with one imageConfig condition: on the target's own labels for an imageConfig, on those of the selected imageConfig, if known, otherwise |
| `FilterRules.PodConfigRuleFires` | workspaces/backend/internal/filterrules/engine.go:274-300 | with one podConfig condition: on the target's own labels for a podConfig, on those of the selected podConfig, if known, otherwise |
| `FilterRules.SpawnerLabelsToMap` | workspaces/backend/internal/filterrules/engine.go:340-346 | the loop builds the label map of the list |
| `FilterRules.LastLabelCounts` | workspaces/backend/internal/filterrules/engine.go:340-346 | a repeated key has the value of its last occurrence |
| `FilterRules.LabelMapKeys` | workspaces/backend/internal/filterrules/engine.go:340-346 | the keys of the map are exactly the keys of the list |
| `FilterRules.FilterRulesByScope` | workspaces/backend/internal/filterrules/engine.go:188-196 | the loop keeps exactly the rules of the given scopes, in order |
| `FilterRules.CompileMatches` | workspaces/backend/internal/filterrules/engine.go:209-219 | conditions whose selector does not compile are dropped, the others keep their order and their own selector |
| `FilterRules.CompileRules` | workspaces/backend/internal/filterrules/engine.go:202-226 | rules left without a condition are dropped, the others keep their order |
| `FilterRules.CompiledConditions` | workspaces/backend/internal/filterrules/engine.go:209-219 | the compiled conditions are exactly the usable original ones, each with its own selector |
| `FilterRules.ConditionAgrees` | workspaces/backend/internal/filterrules/engine.go:233-312 | the engine's test of one compiled condition, through selector, subject and label resolution, is that of the condition as it is written |
| `FilterRules.ResultExpresses` | workspaces/backend/internal/filterrules/engine.go:315-336 | the result of an effect by field: hidden in the UI, hidden in the API, denied and with which message, each exactly if the effect says so |
| `FilterRules.CompiledRuleFires` | workspaces/backend/internal/filterrules/engine.go:202-261 | a rule fires if and only if compilation keeps it and its compiled form accepts |
| `FilterRules.CompilationPreservesMeaning` | workspaces/backend/internal/filterrules/engine.go:99-120 | evaluating the compiled list expresses, field by field, the reference meaning of the original list, for every target and context |
| `FilterRules.FindSelectedLabels` | workspaces/backend/internal/filterrules/engine.go:164-182 | labels of the first value with the id; absent exactly for the empty id or an unknown one |
| `FilterRules.SelectedIsFirst` | workspaces/backend/internal/filterrules/engine.go:164-182 | the same of the specification function |
| `FilterRules.UnknownSelectionIsAbsent` | workspaces/backend/internal/filterrules/engine.go:152-157 | that part of the context is absent if and only if the id is empty or no value has it |
| `FilterRules.BuildEvalContext` | workspaces/backend/internal/filterrules/engine.go:158-185 | the context holds the namespace labels of the request, and the labels of the first imageConfig and podConfig with the selected ids; the compiled rules are those of the scopes asked for |
| `FilterRules.AllConditionsMatch` | workspaces/backend/internal/filterrules/engine.go:254-261 | the early-exit loop returns true if and only if every condition matches |
| `FilterRules.Evaluate` | workspaces/backend/internal/filterrules/engine.go:99-120 | the loop with early exit yields the first-match evaluation of the compiled rules |
| `FilterRules.RemovingSilentRules` | workspaces/backend/internal/filterrules/engine.go:99-120 | removing any set of rules that cannot fire keeps the meaning |
| `FilterRules.EngineMeaning` | workspaces/backend/internal/filterrules/engine.go:99-226 | scope filter, compilation and evaluation together express the reference meaning for a target of a requested scope and restrict no other |
| `FilterRules.MeaningAppend` | workspaces/backend/internal/filterrules/engine.go:99-120 | the meaning of a concatenation: the first part decides if a rule in it fires, otherwise the second |
| `FilterRules.ScopeIndependence` | workspaces/backend/internal/filterrules/engine.go:99-120 | rule lists with the same subsequence in the target's scope mean the same, however interleaved with other scopes |
| `FilterRules.ConditionOrderIrrelevant` | workspaces/backend/internal/filterrules/engine.go:254-261 | order and repetition of the conditions inside rules do not matter |
| `FilterRules.OnlySeenLabelsMatter` | workspaces/backend/internal/filterrules/engine.go:268-312 | the result depends on the context only through the namespace and the selected options that are not of the target's own scope |
| `FilterRules.OwnSelectionIrrelevant` | workspaces/backend/internal/filterrules/engine.go:282-300 | an imageConfig (podConfig) target ignores which imageConfig (podConfig) the request selected |
| `FilterRules.AbsentContextDeletesRules` | workspaces/backend/internal/filterrules/engine.go:302-312 | context that was not provided equals deleting every rule with a usable condition on it |
| `FilterRules.DeadRuleElimination` | workspaces/backend/internal/filterrules/engine.go:99-120 | deleting a rule whose conditions include all usable ones (at least one) of an earlier rule of its scope changes no result |
| `FilterRules.EmptyRuleShadowsNothing` | workspaces/backend/internal/filterrules/engine.go:220-222 | the side condition is needed: a rule without usable condition does not shadow a later one |
| `FilterRules.EvaluateWorkspaceKindFilterScopeRule` | workspaces/backend/internal/filterrules/engine.go:139-142 | the endpoint expresses, field by field, the first original rule that fires in the namespace, and restricts nothing when no namespace is given |
| `FilterRules.NoContextNoEffect` | workspaces/backend/internal/filterrules/engine.go:134-138 | with no context at all no rule on WorkspaceKinds fires |
| `FilterRules.BuildEvalContextForImageAndPodCfg` | workspaces/backend/internal/filterrules/engine.go:146-148 | the context is that of the request, and every imageConfig or podConfig target evaluated in it expresses the first original rule that fires |
| `KindCounting.CountUsage` | workspaces/controller/internal/controller/workspacekind_controller.go:116-128 | the three loops leave, for every declared or used id, the number of Workspaces that chose it, in 32 bits |
| `KindCounting.Declare` | workspaces/controller/internal/controller/workspacekind_controller.go:119-124 | declaring an id sets its counter to 0 and keeps the others, repeated ids included |
| `KindCounting.Increment` | workspaces/controller/internal/controller/workspacekind_controller.go:125-128 | one increment, absent keys reading 0, keeps counters and choices in step under 32-bit wrap-around |
| `KindCounting.FillMetrics` | workspaces/controller/internal/controller/workspacekind_controller.go:130-144 | the array holds one metric per declared value, in order, with the number of Workspaces that chose it |
| `KindCounting.WorkspaceKind.Reconcile` | workspaces/controller/internal/controller/workspacekind_controller.go:84-167 | the finalizer is released exactly when present and no Workspace is left; the status says, field by field, how many Workspaces are listed and how many of them use each declared imageConfig and podConfig, with the assets found, and is written exactly when any part of it differs; a failed finalizer update leaves the status alone |
| `KindCounting.UsersCount` | workspaces/controller/internal/controller/workspacekind_controller.go:125-128 | the multiplicity of a choice is the number of Workspaces that made it |
| `KindCounting.TallyIsRecount` | workspaces/controller/internal/controller/workspacekind_controller.go:130-149 | counts say, field by field, what the list says if and only if they are the recount |
| `KindCounting.WorkspaceKind.ReconcileTwice` | workspaces/controller/internal/controller/workspacekind_controller.go:98-165 | a second reconcile over the same Workspaces in any order and the same assets releases nothing and writes nothing |
| `KindCounting.RemoveOne` | workspaces/controller/internal/controller/workspacekind_controller.go:125-128 | taking out a Workspace takes out exactly its choices |
| `KindCounting.SameChoices` | workspaces/controller/internal/controller/workspacekind_controller.go:125-128 | permuted lists make the same choices |
| `KindCounting.OrderIrrelevant` | workspaces/controller/internal/controller/workspacekind_controller.go:116-149 | the recount does not depend on the order of the list |
| `KindCounting.ExchangeShows` | workspaces/controller/internal/controller/workspacekind_controller.go:125-144 | exchanging one choice for another changes the metrics if and only if the ids differ and one of them is declared |
| `KindCounting.CountsAddUp` | workspaces/controller/internal/controller/workspacekind_controller.go:116-149 | with distinct ids and fewer than 2^31 Workspaces, the metrics are true counts and together with the Workspaces on undeclared ids add up to all of them |
| `KindCounting.DeclareOne` | workspaces/controller/internal/controller/workspacekind_controller.go:116-149 | declaring one more id moves exactly its Workspaces out of the undeclared ones |
| `KindProtocol.EnumerationsAgree` | workspaces/controller/internal/controller/workspacekind_controller.go:89-97 | any two listings of one cache hold the same Workspaces |
| `KindProtocol.OneRecountIsEnough` | workspaces/controller/internal/controller/workspacekind_controller.go:89-149 | counts are exact if and only if they equal one recount, whichever |
| `KindProtocol.OneListingIsEnough` | workspaces/controller/internal/controller/workspacekind_controller.go:98-100 | a kind has no Workspaces if and only if one listing, whichever, is empty |
| `KindProtocol.ListingFrame` | workspaces/controller/internal/controller/workspacekind_controller.go:89-97 | cache changes to Workspaces of other kinds leave a listing as it was |
| `KindProtocol.WorkspaceEventFrame` | workspaces/controller/internal/controller/workspacekind_controller.go:247-290 | a Workspace event leaves the listings of all kinds it does not queue as they were, although updates of equal generation are dropped, except those of the two kinds of a masked re-creation |
| `KindProtocol.CoveredIfToBeListed` | workspaces/controller/internal/controller/workspacekind_controller.go:283-290 | a kind that will be listed again, or need not be, stays covered whatever happens to the cached Workspaces |
| `KindProtocol.ReconcileFrame` | workspaces/controller/internal/controller/workspacekind_controller.go:66-167 | a step of a reconcile touches its own kind only |
| `KindProtocol.WorkspacesLagKept` | workspaces/controller/internal/controller/workspacekind_controller.go:283-287 | every step keeps: equal uid and generation mean equal Workspaces, over everything ever stored |
| `KindProtocol.KindsLagKept` | workspaces/controller/internal/controller/workspacekind_controller.go:154-165 | every step keeps: resource versions only grow and are given once; store, cache and reconciles hold kinds of the past |
| `KindProtocol.CoveredByOthers` | workspaces/controller/internal/controller/workspacekind_controller.go:283-290 | writes by anyone else keep every kind covered |
| `KindProtocol.CoveredByWatch` | workspaces/controller/internal/controller/workspacekind_controller.go:247-290 | delivery of any state of the past keeps every kind covered |
| `KindProtocol.CoveredByOwnRead` | workspaces/controller/internal/controller/workspacekind_controller.go:70-97 | reading, listing and failing keep the kind's own coverage |
| `KindProtocol.CoveredByOwnRelease` | workspaces/controller/internal/controller/workspacekind_controller.go:99-114 | releasing the finalizer, or being refused, keeps it |
| `KindProtocol.CoveredByOwnFinish` | workspaces/controller/internal/controller/workspacekind_controller.go:151-166 | writing the status, skipping the write, or being refused keeps it |
| `KindProtocol.FinishedIsSettled` | workspaces/controller/internal/controller/workspacekind_controller.go:98-156 | a reconcile on current data that finds nothing to release and nothing to write has verified counts and finalizer of the cached kind |
| `KindProtocol.StepKeepsInv` | workspaces/controller/internal/controller/workspacekind_controller.go:66-167 | every step but a missed event (a masked one whose kinds will not be listed again) keeps the invariant: each kind is queued, or in flight on current data, or has an event to come, or is settled |
| `KindProtocol.ReachableInv` | workspaces/controller/internal/controller/workspacekind_controller.go:66-167 | the invariant holds after every sequence of such steps |
| `KindProtocol.ExactIsAccurate` | workspaces/controller/internal/controller/workspacekind_controller.go:116-149 | counts equal every recount if and only if they are, field by field, the numbers of Workspaces in the store of that kind, and of those with each declared imageConfig and podConfig |
| `KindProtocol.PlacesAreMembers` | workspaces/controller/internal/controller/workspacekind_controller.go:89-128 | the places in a listing that use an option are as many as the Workspaces in the store that do |
| `KindProtocol.QuiescentIsExact` | workspaces/controller/internal/controller/workspacekind_controller.go:66-290 | under the invariant a quiescent world has exact and accurate counts and no finalizer on an unused kind |
| `KindProtocol.QuiescentAgreement` | workspaces/controller/internal/controller/workspacekind_controller.go:66-290 | over every interleaving without a missed event, with watches that deliver any past state in any order, when queue and flights are empty and caches up to date, the counts of every WorkspaceKind equal a fresh recount and are, field by field, those of the Workspaces in the store, and no unused WorkspaceKind keeps the finalizer |
| `KindRecreation.ReplacementExactly` | workspaces/controller/internal/controller/workspacekind_controller.go:283-287 | replacing a cached Workspace without a reconcile keeps a kind exact if and only if the new one counts like the old one: it is in the kind as before, without a visible change of options |
| `KindRecreation.MaskedKindExactly` | workspaces/controller/internal/controller/workspacekind_controller.go:283-287 | whatever goes on elsewhere, a masked event asks for no reconcile, and a kind at rest stays covered if and only if the new Workspace counts like the old one |
| `KindRecreation.MaskedEventExactly` | workspaces/controller/internal/controller/workspacekind_controller.go:283-287 | a masked event leaves a settled controller idle, and its counts stay exact if and only if the new Workspace counts like the old one |
| `KindRecreation.RecreationReaches` | workspaces/controller/internal/controller/workspacekind_controller.go:283-287 | deletion, re-creation and one update lead from a quiescent world to a quiescent world |
| `KindRecreation.RecreationGoesUnnoticed` | workspaces/controller/internal/controller/workspacekind_controller.go:283-287 | agreement fails with a masked event: from every quiescent world, any never-edited Workspace re-created under another kind and seen as one update leaves a quiescent world with wrong counts, if one of the kinds exists |
| `KindProtocol.ListingExists` | workspaces/controller/internal/controller/workspacekind_controller.go:89-97 | every cache can be listed |
| `KindRecreation.EmptyStays` | workspaces/controller/internal/controller/workspacekind_controller.go:98-100 | whether a kind has Workspaces does not change if one is replaced by another that counts for the same kinds |
| `KindDrain.OwnStepPays` | workspaces/controller/internal/controller/workspacekind_controller.go:66-167 | every step of the controller leaves less work on its kind, except that a reconcile begun before news of the kind was delivered may add four units |
| `KindDrain.WritePays` | workspaces/controller/internal/controller/workspacekind_controller.go:151-165 | a status write pays for the event it causes, outdated listings included |
| `KindDrain.ReleasePays` | workspaces/controller/internal/controller/workspacekind_controller.go:99-114 | so does the release of the finalizer |
| `KindDrain.OwnStepKeeps` | workspaces/controller/internal/controller/workspacekind_controller.go:66-167 | steps of the controller leave Workspaces, kinds and their specs alone |
| `KindDrain.SchedulesAreFinite` | workspaces/controller/internal/controller/workspacekind_controller.go:66-167 | every schedule of the controller's own steps is no longer than the work there is plus five steps for each hasty reconcile |
| `KindDrain.HasteLeadsNowhere` | workspaces/controller/internal/controller/workspacekind_controller.go:154-162 | haste has to be counted: a reconcile of an outdated kind can be refused and lead back to where it began |
| `KindDrain.Progress` | workspaces/controller/internal/controller/workspacekind_controller.go:66-167 | while the world is not quiescent, an own step that is not hasty is possible |
| `KindDrain.EveryScheduleEndsExact` | workspaces/controller/internal/controller/workspacekind_controller.go:66-290 | after every past without a missed event, once Workspace events are delivered, every schedule of own steps stays within the bound, and every one that can only go on hastily has reached a quiescent world with exact counts and released finalizers |
| `KindDrain.Drain` | workspaces/controller/internal/controller/workspacekind_controller.go:66-167 | from every world with delivered Workspace events there is such a schedule to quiescence without haste |
| `Redirects.LoopNeverEnds` | workspaces/controller/internal/helper/graph.go:32-67 | a walk that meets a node twice has every length |
| `Redirects.LoopsNorEnds` | workspaces/controller/internal/helper/graph.go:32-67 | no walk both loops and ends |
| `Redirects.EndsAlong` | workspaces/controller/internal/helper/graph.go:32-67 | ending is the same for all nodes of a walk, which is why checked nodes may be skipped |
| `Redirects.DetectGraphCycle` | workspaces/controller/internal/helper/graph.go:32-67 | a reported cycle is a simple cycle the walk runs into, and marks nothing; without a report the walk ends and all marked nodes are safe, given that the earlier ones were |
| `Redirects.IndexOf` | workspaces/controller/internal/helper/graph.go:39-45 | the first position of a node in the path |
| `Redirects.CycleFound` | workspaces/controller/internal/helper/graph.go:37-45 | the tail of the path from the repeated node is a simple cycle |
| `Redirects.PathIsSafe` | workspaces/controller/internal/helper/graph.go:60-64 | all nodes of a path that ends or runs into safe nodes are safe |
| `Redirects.ValidateRedirects` | workspaces/controller/internal/webhook/workspacekind_webhook.go:787-808 | in any order of iteration, no error if and only if all redirects have targets and end; every reported error is real, and all missing targets are reported unless a cycle cuts the check short |
| `Redirects.BuildMaps` | workspaces/controller/internal/webhook/workspacekind_webhook.go:99-107 | id map and redirect map of the values |
| `Redirects.ValidateCreate` | workspaces/controller/internal/webhook/workspacekind_webhook.go:99-142 | a new WorkspaceKind passes if and only if its redirects are valid |
| `Redirects.ValidateUpdate` | workspaces/controller/internal/webhook/workspacekind_webhook.go:222-412 | an update passes if and only if no id and no redirect changed, or the new redirects are valid |
| `Redirects.IdMapHolds` | workspaces/controller/internal/controller/workspace_controller.go:1170-1174 | the id map holds values under their own ids, and all ids |
| `Redirects.LastValueCounts` | workspaces/controller/internal/controller/workspace_controller.go:1170-1174 | of several values with one id the last one counts |
| `Redirects.SameRedirects` | workspaces/controller/internal/controller/workspace_controller.go:1170-1174 | with unique ids, admission and controller see the same redirects |
| `Redirects.UnchangedRedirects` | workspaces/controller/internal/webhook/workspacekind_webhook.go:241-258 | if the change detection finds nothing, ids and redirects are the same |
| `Redirects.IncrementalValidation` | workspaces/controller/internal/webhook/workspacekind_webhook.go:241-297 | skipping validation is sound and complete: from a valid version, an update is admitted if and only if full validation admits it |
| `Redirects.GetConfig` | workspaces/controller/internal/controller/workspace_controller.go:1170-1209 | resolution succeeds if and only if the option exists and its redirects end on existing options; it returns the whole chain and an option without redirect; circle, missing target and unknown option are told apart and name options on the way |
| `Redirects.ChainGrows` | workspaces/controller/internal/controller/workspace_controller.go:1195-1200 | the chain of redirects grows by the next one |
| `Redirects.VisitedTwice` | workspaces/controller/internal/controller/workspace_controller.go:1188-1190 | a target visited before means the redirects never end |
| `Redirects.ChainEnds` | workspaces/controller/internal/controller/workspace_controller.go:1187-1209 | a chain to an option without redirect proves the option resolvable |
| `Redirects.ValidIffResolvable` | workspaces/controller/internal/webhook/workspacekind_webhook.go:787-808 | redirects pass admission if and only if the controller resolves every option |
| `Redirects.AdmittedAlwaysResolves` | workspaces/controller/internal/controller/workspace_controller.go:1170-1209 | over every history of admitted creates and updates, the controller resolves every declared option of every version |
| `SchemaClosure.PathStaysInside` | workspaces/frontend/scripts/generate-schema.js:27-40 | a chain of references from the root stays in every closed set with the root |
| `SchemaClosure.ClosureIsReachability` | workspaces/frontend/scripts/generate-schema.js:25-42 | the least closed set is exactly what chains of references reach |
| `SchemaClosure.SchemaExtractor.constructor` | workspaces/frontend/scripts/generate-schema.js:22-25 | nothing is needed at first |
| `SchemaClosure.SchemaExtractor.Collect` | workspaces/frontend/scripts/generate-schema.js:27-40 | terminates on every reference graph; adds the name, closes everything newly added, and adds nothing that some closed set with the name lacks |
| `SchemaClosure.CollectMore` | workspaces/frontend/scripts/generate-schema.js:36-39 | following one more reference keeps the closure and necessity of what is collected |
| `SchemaClosure.CollectAll` | workspaces/frontend/scripts/generate-schema.js:27-40 | once all references of a name are collected, it is closed too |
| `SchemaClosure.SchemaExtractor.Extract` | workspaces/frontend/scripts/generate-schema.js:42-54 | `needed` is the least closed set with the root; the output holds exactly its definitions and resolves all its own references; it fails if and only if a needed definition is missing |
| `ImageUpsert.Kustomization.UpdateImages` | releasing/update-manifests-images.py:81-98 | the nested in-place loops compute the fold of single updates, and fail exactly when it does |
| `ImageUpsert.FailureStays` | releasing/update-manifests-images.py:82-88 | an error at one target is an error of the whole update |
| `ImageUpsert.MissingHolds` | releasing/update-manifests-images.py:90-97 | the appended names are the targets absent from the list, each once |
| `ImageUpsert.OutcomeNames` | releasing/update-manifests-images.py:84-97 | old entries keep place and name; added ones follow, named after the missing targets |
| `ImageUpsert.OutcomeIndex` | releasing/update-manifests-images.py:84-89 | where a name is found afterwards, and that a search is safe afterwards if and only if it was before |
| `ImageUpsert.OneMoreTarget` | releasing/update-manifests-images.py:82-97 | one more target turns the direct description of the earlier targets into that of all |
| `ImageUpsert.OneMoreEntry` | releasing/update-manifests-images.py:84-97 | one more target changes the entry at the index of its name and no other |
| `ImageUpsert.OneMoreLength` | releasing/update-manifests-images.py:90-97 | one more target adds an entry at the end if and only if its name is not found |
| `ImageUpsert.UpsertAllIs` | releasing/update-manifests-images.py:81-98 | the fold equals the direct description of the final list, and fails if and only if some search meets an entry without name |
| `ImageUpsert.LastTagWins` | releasing/update-manifests-images.py:81-98 | updating with tag a and then b is updating with b |
| `ImageUpsert.Idempotent` | releasing/update-manifests-images.py:81-98 | updating twice is updating once |
| `ImageUpsert.AllFound` | releasing/update-manifests-images.py:82-97 | afterwards every target is present |
| `ImageUpsert.OverwriteOutcome` | releasing/update-manifests-images.py:81-98 | the direct description of an update of an updated list is that of the second update alone |
| `ImageUpsert.NothingElseChanges` | releasing/update-manifests-images.py:84-97 | entries that are no target are untouched and in place, targets change only in new name and tag, additions are targets that were absent, with name, new name and tag and nothing else |
| `ImageUpsert.TargetsAreTagged` | releasing/update-manifests-images.py:84-97 | every target's first entry has the tag and the new name of the last target of that name |
| `Locations.SplitJoin` | workspaces/backend/api/constants/paths.go:18-52 | splitting at slashes distributes over joining with a slash |
| `Locations.ReplaceParam` | workspaces/backend/api/helpers.go:133-133 | the first substitution replaces the parameter and nothing else |
| `Locations.OccurrenceInside` | workspaces/backend/api/helpers.go:134-134 | after it, the placeholder of the name occurs earlier than its place exactly where the namespace contains it |
| `Locations.ReplaceLast` | workspaces/backend/api/helpers.go:134-134 | the second substitution replaces the last segment if the namespace does not contain the placeholder |
| `Locations.ReplaceInside` | workspaces/backend/api/helpers.go:134-134 | otherwise it changes the namespace and leaves the placeholder |
| `Locations.MatchParts` | workspaces/backend/api/constants/paths.go:30-32 | what a two-parameter route makes of a path with two parts below its base |
| `Locations.RoundTripFor` | workspaces/backend/api/helpers.go:132-149 | the round-trip condition for any two parameters |
| `Locations.RoundTripExactly` | workspaces/backend/api/helpers.go:132-149 | the route gives back namespace and name if and only if both are path segments and the namespace does not contain `:name` (or the name is `:name`) |
| `Locations.LocationsAre` | workspaces/backend/api/helpers.go:132-149 | closed form: `/api/v1/workspaces/` or `/api/v1/secrets/`, the namespace, a slash and the name, for every namespace without `:name` |
| `Locations.KindLocationIs` | workspaces/backend/api/helpers.go:139-142 | closed form: `/api/v1/workspacekinds/` and the name |
| `Locations.LocationRoundTrip` | workspaces/backend/api/helpers.go:132-149 | for every RFC 1123 label and subdomain the Workspace and Secret locations lead back to exactly that namespace and name |
| `Locations.LocationsAreInjective` | workspaces/backend/api/helpers.go:132-149 | different Workspaces, and different Secrets, have different locations |
| `Locations.KindRoundTripExactly` | workspaces/backend/api/helpers.go:139-142 | a WorkspaceKind location leads back to its name if and only if the name is one path segment |
| `Locations.OneParamRoundTrip` | workspaces/backend/api/helpers.go:139-142 | the same for any route with one parameter |
| `Locations.NameFirstGoesWrong` | workspaces/backend/api/helpers.go:133-134 | in the other order the name replaces the front of `:namespace` and the parameter is lost |

## Left out

- HTTP handlers, response writing, authentication and route registration: case splits around libraries. `Locations` models a route parameter as one non-empty path segment.
- Label-selector internals, and the cache of parsed selectors (`workspaces/controller/internal/helper/activity.go:135-171`), which does not change results.
- Probe transport: the HTTP request and the exec stream are inputs, the port number and base path of a Jupyter probe and the wording of messages are not modelled, only which message a branch sets.
- Parsing of ISO 8601 timestamps and of JSON text: inputs of `ParsePodExecOutput`.
- The patch of `spec.paused` itself: `CarriesOutPause` says when it is reached, not whether the server accepts it; nor is the rest of the Workspace reconciler modelled, whose own requeue requests only make reconciles earlier (which the run properties allow).
- Lookup of icon and logo (`workspaces/controller/internal/controller/workspacekind_controller.go:174-239`) and the ConfigMap watch: a flat case split; what the lookups find is an input of the reconcile.
- Addition of the finalizer and deletion protection: `DeleteKind` may happen at any time, so no claim about protection is made.
- KindDrain.SchedulesAreFinite: counts steps; rate limits and fairness of the work queue are not modelled, so nothing is said about how long hasty reconciles may go on.
- Other admission checks (ports, defaults, options in use, extra environment, probe and rule validation): independent of redirects and flat.
- Redirects.GetConfig: one method for imageConfig and podConfig, whose code is the same; so for the admission methods.
- SchemaClosure.SchemaExtractor.Extract: definitions are names with the names they refer to; the rewriting of reference prefixes in JSON text is not modelled.
- File and YAML handling of the release script, including an `images` key that is present but null.
- ActivityPauses.RecentActivityPreventsPause: holds up to one millisecond, because activity times are truncated to milliseconds.
- ActivityPauses.PauseRestsOnHistory: the age of the activity time is stated for times that fit in 64 bits after adding the timeout; a report beyond that wraps around in the code.
- ActivityPauses.PauseIsCarriedOutExactly: for a failing proxy it assumes that the previous Running period began in another millisecond; within one millisecond the status may be equal and nothing written.
- ActivityPauses.EveryReportIsOld: stated, like PauseRestsOnHistory, for times that fit in 64 bits after adding the timeout.
- ActivitySpacing.ProbesAreSpaced: exact on recorded milliseconds, up to one millisecond on real instants, for the same reason.
- ActivityLatency.PauseLatency: stated for runs in which every reconcile reads the current status and succeeds, as the source's own estimate does.

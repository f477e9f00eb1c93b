/** Usage counts of a WorkspaceKind: how many Workspaces use it and each of its options. */
module KindCounting {
  import opened Prelude

  datatype WorkspaceSpec = WorkspaceSpec(imageConfig: string, podConfig: string)

  /** Ids of the declared option values, in order. */
  datatype KindSpec = KindSpec(imageConfigs: seq<string>, podConfigs: seq<string>)

  datatype OptionMetric = OptionMetric(id: string, workspaces: int32)

  datatype UsageCounts = UsageCounts(workspaces: int32, imageConfig: seq<OptionMetric>, podConfig: seq<OptionMetric>)

  /** What the lookup of an icon or logo found. */
  datatype AssetStatus = AssetStatus(sha256: string, error: Option<string>)

  datatype Assets = Assets(icon: AssetStatus, logo: AssetStatus)

  datatype KindStatus = KindStatus(counts: UsageCounts, assets: Assets)

  // ---------- what is counted ----------

  function Images(list: seq<WorkspaceSpec>): (r: seq<string>)
    ensures |r| == |list|
  {
    seq(|list|, i requires 0 <= i < |list| => list[i].imageConfig)
  }

  function Pods(list: seq<WorkspaceSpec>): (r: seq<string>)
    ensures |r| == |list|
  {
    seq(|list|, i requires 0 <= i < |list| => list[i].podConfig)
  }

  /** One metric per declared id: how often the id is chosen, in 32 bits. */
  function Metrics(ids: seq<string>, chosen: seq<string>): (r: seq<OptionMetric>)
    ensures |r| == |ids|
    ensures forall i :: 0 <= i < |ids| ==> r[i].id == ids[i]
  {
    seq(|ids|, i requires 0 <= i < |ids| => OptionMetric(ids[i], Wrap32(multiset(chosen)[ids[i]])))
  }

  function CountsOf(spec: KindSpec, list: seq<WorkspaceSpec>): UsageCounts {
    UsageCounts(Wrap32(|list|), Metrics(spec.imageConfigs, Images(list)), Metrics(spec.podConfigs, Pods(list)))
  }

  /** Workspaces of the list that use an imageConfig, by their place in it. */
  ghost function ImageUsers(list: seq<WorkspaceSpec>, id: string): set<nat> {
    set j: nat | j < |list| && list[j].imageConfig == id
  }

  ghost function PodUsers(list: seq<WorkspaceSpec>, id: string): set<nat> {
    set j: nat | j < |list| && list[j].podConfig == id
  }

  /** What the counts say, field by field: how many Workspaces are listed, and for each declared imageConfig and podConfig, in order,
      how many of them use it, in 32 bits. */
  ghost predicate Tallied(c: UsageCounts, spec: KindSpec, list: seq<WorkspaceSpec>) {
    && c.workspaces == Wrap32(|list|)
    && |c.imageConfig| == |spec.imageConfigs| && |c.podConfig| == |spec.podConfigs|
    && (forall i :: 0 <= i < |spec.imageConfigs| ==>
          c.imageConfig[i].id == spec.imageConfigs[i] && c.imageConfig[i].workspaces == Wrap32(|ImageUsers(list, spec.imageConfigs[i])|))
    && (forall i :: 0 <= i < |spec.podConfigs| ==>
          c.podConfig[i].id == spec.podConfigs[i] && c.podConfig[i].workspaces == Wrap32(|PodUsers(list, spec.podConfigs[i])|))
  }

  lemma UsersCount(list: seq<WorkspaceSpec>, id: string)
    ensures |ImageUsers(list, id)| == multiset(Images(list))[id] && |PodUsers(list, id)| == multiset(Pods(list))[id]
  {
    PlacesCount(Images(list), id);
    PlacesCount(Pods(list), id);
    assert ImageUsers(list, id) == Places(Images(list), id);
    assert PodUsers(list, id) == Places(Pods(list), id);
  }

  ghost function Places(chosen: seq<string>, id: string): set<nat> {
    set j: nat | j < |chosen| && chosen[j] == id
  }

  lemma {:induction false} PlacesCount(chosen: seq<string>, id: string)
    ensures |Places(chosen, id)| == multiset(chosen)[id]
  {
    if chosen != [] {
      var n := |chosen| - 1;
      var init := chosen[..n];
      PlacesCount(init, id);
      assert chosen == init + [chosen[n]];
      assert Places(chosen, id) == Places(init, id) + if chosen[n] == id then {n} else {};
    }
  }

  /** The recount is the one tally there is. */
  lemma TallyIsRecount(c: UsageCounts, spec: KindSpec, list: seq<WorkspaceSpec>)
    ensures Tallied(c, spec, list) <==> c == CountsOf(spec, list)
  {
    forall id ensures |ImageUsers(list, id)| == multiset(Images(list))[id] && |PodUsers(list, id)| == multiset(Pods(list))[id] {
      UsersCount(list, id);
    }
    hide Wrap32, Images, Pods, ImageUsers, PodUsers;
    if Tallied(c, spec, list) {
      assert c.imageConfig == Metrics(spec.imageConfigs, Images(list)) && c.podConfig == Metrics(spec.podConfigs, Pods(list));
    }
  }

  // ---------- counting in loops ----------

  /** The counter of `id`: absent keys of the map read as 0. */
  function Counter(m: map<string, int32>, id: string): int32 {
    if id in m then m[id] else 0
  }

  /** The counters agree with the choices made so far; every declared id has one. */
  ghost predicate Counts(m: map<string, int32>, ids: seq<string>, chosen: seq<string>) {
    && (forall i :: 0 <= i < |ids| ==> ids[i] in m)
    && (forall id :: id in m ==> m[id] == Wrap32(multiset(chosen)[id]))
    && (forall id :: id in chosen ==> id in m)
  }

  method CountUsage(spec: KindSpec, workspaces: seq<WorkspaceSpec>)
    returns (imageConfigCount: map<string, int32>, podConfigCount: map<string, int32>)
    ensures Counts(imageConfigCount, spec.imageConfigs, Images(workspaces))
    ensures Counts(podConfigCount, spec.podConfigs, Pods(workspaces))
  {
    ghost var images, pods := Images(workspaces), Pods(workspaces);
    imageConfigCount, podConfigCount := map[], map[];
    hide Counts;
    NothingCounted();
    for i := 0 to |spec.imageConfigs|
      invariant Counts(imageConfigCount, spec.imageConfigs[..i], [])
    {
      Declare(imageConfigCount, spec.imageConfigs, i);
      imageConfigCount := imageConfigCount[spec.imageConfigs[i] := 0];
    }
    for i := 0 to |spec.podConfigs|
      invariant Counts(podConfigCount, spec.podConfigs[..i], [])
    {
      Declare(podConfigCount, spec.podConfigs, i);
      podConfigCount := podConfigCount[spec.podConfigs[i] := 0];
    }
    Whole(spec.imageConfigs);
    Whole(spec.podConfigs);
    for i := 0 to |workspaces|
      invariant Counts(imageConfigCount, spec.imageConfigs, images[..i])
      invariant Counts(podConfigCount, spec.podConfigs, pods[..i])
    {
      var ws := workspaces[i];
      Increment(imageConfigCount, spec.imageConfigs, images, i);
      Increment(podConfigCount, spec.podConfigs, pods, i);
      imageConfigCount := imageConfigCount[ws.imageConfig := Wrap32(Counter(imageConfigCount, ws.imageConfig) + 1)];
      podConfigCount := podConfigCount[ws.podConfig := Wrap32(Counter(podConfigCount, ws.podConfig) + 1)];
    }
    Whole(images);
    Whole(pods);
  }

  lemma Whole(s: seq<string>)
    ensures s[..|s|] == s
  {}

  lemma NothingCounted()
    ensures Counts(map[], [], [])
  {}

  lemma Declare(m: map<string, int32>, ids: seq<string>, i: nat)
    requires i < |ids| && Counts(m, ids[..i], [])
    ensures Counts(m[ids[i] := 0], ids[..i + 1], [])
  {
    assert ids[..i + 1] == ids[..i] + [ids[i]];
  }

  lemma WrapStep(n: nat)
    ensures Wrap32(Wrap32(n) + 1) == Wrap32(n + 1) && Wrap32(0) == 0
  {}

  /** One increment: 32-bit wrap-around commutes with counting. */
  lemma Increment(m: map<string, int32>, ids: seq<string>, chosen: seq<string>, i: nat)
    requires i < |chosen| && Counts(m, ids, chosen[..i])
    ensures Counts(m[chosen[i] := Wrap32(Counter(m, chosen[i]) + 1)], ids, chosen[..i + 1])
  {
    var id, past := chosen[i], chosen[..i];
    var next := m[id := Wrap32(Counter(m, id) + 1)];
    assert chosen[..i + 1] == past + [id];
    assert multiset(chosen[..i + 1]) == multiset(past) + multiset{id};
    assert id !in m ==> id !in past && multiset(past)[id] == 0;
    WrapStep(multiset(past)[id]);
    hide Wrap32;
    forall other | other in next
      ensures next[other] == Wrap32(multiset(chosen[..i + 1])[other])
    {}
  }

  method FillMetrics(ids: seq<string>, count: map<string, int32>, ghost chosen: seq<string>) returns (metrics: array<OptionMetric>)
    requires Counts(count, ids, chosen)
    ensures metrics[..] == Metrics(ids, chosen)
    ensures fresh(metrics)
  {
    metrics := new OptionMetric[|ids|](_ => OptionMetric("", 0));
    for i := 0 to |ids|
      invariant metrics[..i] == Metrics(ids, chosen)[..i]
    {
      metrics[i] := OptionMetric(ids[i], Counter(count, ids[i]));
      assert metrics[..i + 1] == metrics[..i] + [metrics[i]];
    }
  }

  // ---------- the reconciled object ----------

  /** What the API server answers to the two possible writes. */
  datatype Replies = Replies(updateOk: bool, statusOk: bool)

  class WorkspaceKind {
    const spec: KindSpec
    var finalizer: bool
    var status: KindStatus

    constructor (spec: KindSpec, finalizer: bool, status: KindStatus)
      ensures this.spec == spec && this.finalizer == finalizer && this.status == status
    {
      this.spec, this.finalizer, this.status := spec, finalizer, status;
    }

    /** One reconcile over the listed Workspaces, with what the asset lookups find. The finalizer is released exactly
        when no Workspace is left; the status is recounted; a write is attempted only where something changes. */
    method Reconcile(workspaces: seq<WorkspaceSpec>, assets: Assets, replies: Replies)
      returns (updated: bool, statusWritten: bool, failed: bool)
      modifies this
      ensures updated <==> old(finalizer) && workspaces == []
      ensures failed <==> (updated && !replies.updateOk) || (statusWritten && !replies.statusOk)
      ensures finalizer == (old(finalizer) && !updated)
      ensures !(updated && !replies.updateOk) ==>
                status == KindStatus(CountsOf(spec, workspaces), assets) && (statusWritten <==> status != old(status))
      ensures !(updated && !replies.updateOk) ==> Tallied(status.counts, spec, workspaces) && status.assets == assets
      ensures updated && !replies.updateOk ==> status == old(status) && !statusWritten
    {
      var currentStatus := status;
      updated, statusWritten, failed := false, false, false;
      if |workspaces| == 0 && finalizer {
        finalizer := false;
        updated := true;
        if !replies.updateOk {
          failed := true;
          return;
        }
      }
      var imageConfigCount, podConfigCount := CountUsage(spec, workspaces);
      var imageConfigMetrics := FillMetrics(spec.imageConfigs, imageConfigCount, Images(workspaces));
      var podConfigMetrics := FillMetrics(spec.podConfigs, podConfigCount, Pods(workspaces));
      status := status.(counts := UsageCounts(Wrap32(|workspaces|), imageConfigMetrics[..], podConfigMetrics[..]));
      status := status.(assets := assets);
      TallyIsRecount(status.counts, spec, workspaces);
      if currentStatus != status {
        statusWritten := true;
        failed := !replies.statusOk;
      }
    }

    /** A second reconcile over the same Workspaces, in any order, and the same assets writes nothing. */
    method ReconcileTwice(workspaces: seq<WorkspaceSpec>, reordered: seq<WorkspaceSpec>, assets: Assets)
      returns (updated: bool, statusWritten: bool)
      requires multiset(workspaces) == multiset(reordered)
      modifies this
      ensures !updated && !statusWritten
      ensures status == KindStatus(CountsOf(spec, workspaces), assets) && (finalizer ==> workspaces != [])
    {
      var u, w, f := Reconcile(workspaces, assets, Replies(true, true));
      OrderIrrelevant(spec, workspaces, reordered);
      assert |multiset(workspaces)| == |workspaces| && |multiset(reordered)| == |reordered|;
      updated, statusWritten, f := Reconcile(reordered, assets, Replies(true, true));
    }
  }

  // ---------- laws of the counts ----------

  /** Taking one Workspace out of a list takes out its choices. */
  lemma RemoveOne(list: seq<WorkspaceSpec>, j: nat, rest: seq<WorkspaceSpec>)
    requires j < |list| && rest == list[..j] + list[j + 1..]
    ensures multiset(list) == multiset(rest) + multiset{list[j]}
    ensures multiset(Images(list)) == multiset(Images(rest)) + multiset{list[j].imageConfig}
    ensures multiset(Pods(list)) == multiset(Pods(rest)) + multiset{list[j].podConfig}
  {
    assert list == list[..j] + ([list[j]] + list[j + 1..]);
    assert Images(list) == Images(list[..j]) + ([list[j].imageConfig] + Images(list[j + 1..]));
    assert Images(rest) == Images(list[..j]) + Images(list[j + 1..]);
    assert Pods(list) == Pods(list[..j]) + ([list[j].podConfig] + Pods(list[j + 1..]));
    assert Pods(rest) == Pods(list[..j]) + Pods(list[j + 1..]);
  }

  lemma {:induction false} SameChoices(a: seq<WorkspaceSpec>, b: seq<WorkspaceSpec>)
    requires multiset(a) == multiset(b)
    ensures multiset(Images(a)) == multiset(Images(b)) && multiset(Pods(a)) == multiset(Pods(b)) && |a| == |b|
  {
    assert |multiset(a)| == |a| && |multiset(b)| == |b|;
    if a != [] {
      assert a[0] in multiset(b);
      var j :| 0 <= j < |b| && b[j] == a[0];
      var restA, restB := a[..0] + a[1..], b[..j] + b[j + 1..];
      RemoveOne(a, 0, restA);
      RemoveOne(b, j, restB);
      hide Images, Pods;
      assert multiset(restA) == multiset(a) - multiset{a[0]};
      assert multiset(restB) == multiset(b) - multiset{b[j]};
      SameChoices(restA, restB);
    }
  }

  /** The order in which Workspaces are listed does not matter. */
  lemma OrderIrrelevant(spec: KindSpec, a: seq<WorkspaceSpec>, b: seq<WorkspaceSpec>)
    requires multiset(a) == multiset(b)
    ensures CountsOf(spec, a) == CountsOf(spec, b)
  {
    SameChoices(a, b);
  }

  /** Exchanging one choice for another shows in the metrics exactly if it is a change and one of the two ids is declared. */
  lemma ExchangeShows(ids: seq<string>, chosen: seq<string>, j: nat, id: string)
    requires j < |chosen|
    ensures Metrics(ids, chosen) == Metrics(ids, chosen[j := id]) <==> chosen[j] == id || (chosen[j] !in ids && id !in ids)
  {
    var before, after := multiset(chosen), multiset(chosen[j := id]);
    assert chosen[j] == id ==> chosen[j := id] == chosen;
    assert after == before - multiset{chosen[j]} + multiset{id};
    WrapDiffers(before[chosen[j]]);
    WrapDiffers(after[id]);
    hide Wrap32;
    if chosen[j] != id {
      forall i | 0 <= i < |ids| && (ids[i] == chosen[j] || ids[i] == id)
        ensures Metrics(ids, chosen)[i] != Metrics(ids, chosen[j := id])[i]
      {}
    }
  }

  /** One more or less is visible in 32 bits. */
  lemma WrapDiffers(n: int)
    ensures Wrap32(n) != Wrap32(n - 1)
  {}

  function Sum(metrics: seq<OptionMetric>): int {
    if metrics == [] then 0 else metrics[0].workspaces + Sum(metrics[1..])
  }

  /** Choices that name none of the ids. */
  function Undeclared(ids: seq<string>, chosen: seq<string>): seq<string> {
    if chosen == [] then []
    else (if chosen[0] in ids then [] else [chosen[0]]) + Undeclared(ids, chosen[1..])
  }

  /** Conservation: with distinct ids, the metrics and the Workspaces on undeclared ids add up to all Workspaces;
      no counter wraps below 2^31 Workspaces. */
  lemma {:induction false} CountsAddUp(ids: seq<string>, chosen: seq<string>)
    requires Distinct(ids) && |chosen| < 0x8000_0000
    ensures Sum(Metrics(ids, chosen)) + |Undeclared(ids, chosen)| == |chosen|
    ensures forall i :: 0 <= i < |ids| ==> Metrics(ids, chosen)[i].workspaces == multiset(chosen)[ids[i]]
  {
    assert forall id :: multiset(chosen)[id] <= |multiset(chosen)| by { MultiplicityBound(chosen); }
    assert |multiset(chosen)| == |chosen|;
    if ids == [] {
      NothingDeclared(chosen);
    } else {
      var rest := ids[1..];
      CountsAddUp(rest, chosen);
      assert Metrics(ids, chosen)[1..] == Metrics(rest, chosen);
      assert ids[0] !in rest;
      DeclareOne(ids, chosen);
    }
  }

  lemma {:induction false} MultiplicityBound(chosen: seq<string>)
    ensures forall id :: multiset(chosen)[id] <= |chosen|
  {
    if chosen != [] {
      MultiplicityBound(chosen[1..]);
      assert chosen == [chosen[0]] + chosen[1..];
    }
  }

  lemma {:induction false} NothingDeclared(chosen: seq<string>)
    ensures |Undeclared([], chosen)| == |chosen|
  {
    if chosen != [] {
      NothingDeclared(chosen[1..]);
    }
  }

  lemma {:induction false} DeclareOne(ids: seq<string>, chosen: seq<string>)
    requires ids != [] && ids[0] !in ids[1..]
    ensures |Undeclared(ids[1..], chosen)| == |Undeclared(ids, chosen)| + multiset(chosen)[ids[0]]
  {
    if chosen != [] {
      DeclareOne(ids, chosen[1..]);
      assert chosen == [chosen[0]] + chosen[1..];
      assert chosen[0] in ids <==> chosen[0] == ids[0] || chosen[0] in ids[1..];
    }
  }
}

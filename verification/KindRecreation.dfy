/** What the filter on generations costs: a Workspace that is deleted and created again between two looks of the watch. */
module KindRecreation {
  import opened Prelude
  import opened KindCounting
  import opened KindProtocol

  // ---------- listings with one entry changed ----------

  /** If an entry changes to another kind, the listing of its old kind is one shorter. */
  lemma ListingShrinks(cache: map<string, Workspace>, key: string, ws: Workspace, name: string)
    returns (list: seq<WorkspaceSpec>, rest: seq<WorkspaceSpec>)
    requires key in cache && cache[key].kind == name && ws.kind != name
    ensures Lists(list, cache, name) && Lists(rest, cache[key := ws], name) && |list| == |rest| + 1
  {
    var keys;
    keys, list := ListingExists(cache, name);
    assert key in keys;
    var j :| 0 <= j < |keys| && keys[j] == key;
    var others := keys[..j] + keys[j + 1..];
    TakeOut(keys, j, others, cache);
    hide Distinct;
    forall i | 0 <= i < |others| ensures others[i] in cache[key := ws] { assert others[i] in others; }
    rest := SpecsOf(others, cache[key := ws]);
    assert ListsAs(others, rest, cache[key := ws], name);
  }

  /** If an entry keeps its kind, the listing changes in its place. */
  lemma ListingExchanges(cache: map<string, Workspace>, key: string, ws: Workspace, name: string)
    returns (list: seq<WorkspaceSpec>, j: nat)
    requires key in cache && cache[key].kind == name && ws.kind == name
    ensures j < |list| && list[j] == cache[key].spec
    ensures Lists(list, cache, name) && Lists(list[j := ws.spec], cache[key := ws], name)
  {
    var keys;
    keys, list := ListingExists(cache, name);
    assert key in keys;
    j :| 0 <= j < |keys| && keys[j] == key;
    forall i | 0 <= i < |keys| ensures keys[i] in cache[key := ws] && keys[i] == key <==> i == j {
      assert keys[i] in keys;
    }
    assert list[j := ws.spec] == SpecsOf(keys, cache[key := ws]);
    assert ListsAs(keys, list[j := ws.spec], cache[key := ws], name);
  }

  // ---------- when a masked event does harm ----------

  /** An exchange of options does not show in the metrics of the declared ids. */
  predicate Invisible(ids: seq<string>, before: string, after: string) {
    before == after || (before !in ids && after !in ids)
  }

  /** The new Workspace counts like the old one, for one kind ... */
  predicate CountsAlikeFor(kind: KindObject, name: string, before: Workspace, after: Workspace) {
    && (before.kind == name <==> after.kind == name)
    && (before.kind == name ==>
          && Invisible(kind.spec.imageConfigs, before.spec.imageConfig, after.spec.imageConfig)
          && Invisible(kind.spec.podConfigs, before.spec.podConfig, after.spec.podConfig))
  }

  /** ... and for every kind there is. */
  predicate CountsAlike(kinds: map<string, KindObject>, before: Workspace, after: Workspace) {
    forall n :: n in kinds ==> CountsAlikeFor(kinds[n], n, before, after)
  }

  /** A kind that gains or loses a Workspace is not exact before and after. */
  lemma SizeShows(kind: KindObject, cache: map<string, Workspace>, key: string, ws: Workspace, name: string)
    requires key in cache && cache[key].kind == name && ws.kind != name
    ensures !(Exact(kind, cache, name) && Exact(kind, cache[key := ws], name))
  {
    var list, rest := ListingShrinks(cache, key, ws, name);
    WrapDiffers(|list|);
    OneRecountIsEnough(kind, list, cache, name);
    OneRecountIsEnough(kind, rest, cache[key := ws], name);
    hide Exact, Lists, Wrap32;
  }

  /** A kind that keeps the Workspace stays exact exactly if the exchange of options does not show. */
  lemma ChoiceShows(kind: KindObject, cache: map<string, Workspace>, key: string, ws: Workspace, name: string)
    requires key in cache && cache[key].kind == name && ws.kind == name && Exact(kind, cache, name)
    ensures Exact(kind, cache[key := ws], name) <==>
            && Invisible(kind.spec.imageConfigs, cache[key].spec.imageConfig, ws.spec.imageConfig)
            && Invisible(kind.spec.podConfigs, cache[key].spec.podConfig, ws.spec.podConfig)
  {
    var list, j := ListingExchanges(cache, key, ws, name);
    OneRecountIsEnough(kind, list, cache, name);
    OneRecountIsEnough(kind, list[j := ws.spec], cache[key := ws], name);
    hide Exact, Lists, Invisible;
    ExchangeCounts(kind.spec, list, j, ws.spec);
  }

  lemma ExchangeCounts(spec: KindSpec, list: seq<WorkspaceSpec>, j: nat, ws: WorkspaceSpec)
    requires j < |list|
    ensures CountsOf(spec, list) == CountsOf(spec, list[j := ws]) <==>
            Invisible(spec.imageConfigs, list[j].imageConfig, ws.imageConfig) && Invisible(spec.podConfigs, list[j].podConfig, ws.podConfig)
  {
    ExchangeShows(spec.imageConfigs, Images(list), j, ws.imageConfig);
    ExchangeShows(spec.podConfigs, Pods(list), j, ws.podConfig);
    assert Images(list[j := ws]) == Images(list)[j := ws.imageConfig];
    assert Pods(list[j := ws]) == Pods(list)[j := ws.podConfig];
    assert Images(list)[j] == list[j].imageConfig && Pods(list)[j] == list[j].podConfig;
    hide Metrics, Images, Pods, Wrap32;
  }

  lemma OthersStay(kind: KindObject, cache: map<string, Workspace>, key: string, ws: Workspace, name: string)
    requires key in cache && cache[key].kind != name && ws.kind != name
    ensures Exact(kind, cache, name) <==> Exact(kind, cache[key := ws], name)
  {
    forall list ensures Lists(list, cache, name) <==> Lists(list, cache[key := ws], name) {
      ListingFrame(list, cache, cache[key := ws], name);
    }
  }

  /** Replacing a cache entry behind the controller's back keeps a kind exact exactly if the new Workspace counts like the old one. */
  lemma ReplacementExactly(kind: KindObject, cache: map<string, Workspace>, key: string, ws: Workspace, name: string)
    requires key in cache && Exact(kind, cache, name)
    ensures Exact(kind, cache[key := ws], name) <==> CountsAlikeFor(kind, name, cache[key], ws)
  {
    hide Exact, Invisible;
    if cache[key].kind == name && ws.kind == name {
      ChoiceShows(kind, cache, key, ws, name);
    } else if cache[key].kind == name {
      SizeShows(kind, cache, key, ws, name);
    } else if ws.kind == name {
      assert cache[key := ws][key := cache[key]] == cache;
      SizeShows(kind, cache[key := ws], key, cache[key], name);
    } else {
      OthersStay(kind, cache, key, ws, name);
    }
  }

  /** Exactly when a masked event does harm to a kind that is at rest, whatever goes on elsewhere: no reconcile is asked for, and
      the kind stays covered if and only if the new Workspace counts like the old one. */
  lemma MaskedKindExactly(w: World, a: Action, name: string)
    requires Inv(w) && Enabled(w, a) && Masked(w, a)
    requires name in w.cachedKinds && name !in w.queue && name !in w.flights && !Ahead(w, name)
    ensures Step(w, a) == w.(cachedWorkspaces := w.cachedWorkspaces[a.key := a.workspace.value])
    ensures Covered(Step(w, a), name) <==> CountsAlikeFor(w.cachedKinds[name], name, w.cachedWorkspaces[a.key], a.workspace.value)
  {
    assert Step(w, a) == w.(cachedWorkspaces := w.cachedWorkspaces[a.key := a.workspace.value]);
    hide Exact, Step, WorkspacesLag, KindsLag, Invisible, Lists;
    assert Covered(w, name);
    ReplacementExactly(w.cachedKinds[name], w.cachedWorkspaces, a.key, a.workspace.value, name);
    if w.cachedWorkspaces[a.key].kind == name <==> a.workspace.value.kind == name {
      EmptyStays(w.cachedWorkspaces, a.key, a.workspace.value, name);
    }
  }

  /** Whether a kind has Workspaces does not change if one is replaced by another of the same kind, or of other kinds. */
  lemma EmptyStays(cache: map<string, Workspace>, key: string, ws: Workspace, name: string)
    requires key in cache && (cache[key].kind == name <==> ws.kind == name)
    ensures Lists([], cache, name) <==> Lists([], cache[key := ws], name)
  {
    if ws.kind == name {
      var list, j := ListingExchanges(cache, key, ws, name);
      OneListingIsEnough(list, cache, name);
      OneListingIsEnough(list[j := ws.spec], cache[key := ws], name);
    } else {
      ListingFrame([], cache, cache[key := ws], name);
    }
  }

  /** So an idle controller that has settled its kinds stays exact if and only if the new Workspace counts like the old one for
      all of them. */
  lemma MaskedEventExactly(w: World, a: Action)
    requires Inv(w) && w.queue == {} && w.flights == map[] && w.cachedKinds == w.kinds
    requires Enabled(w, a) && Masked(w, a)
    ensures Step(w, a) == w.(cachedWorkspaces := w.cachedWorkspaces[a.key := a.workspace.value])
    ensures (forall n :: n in w.kinds ==> Exact(w.kinds[n], Step(w, a).cachedWorkspaces, n))
            <==> CountsAlike(w.kinds, w.cachedWorkspaces[a.key], a.workspace.value)
  {
    assert Step(w, a) == w.(cachedWorkspaces := w.cachedWorkspaces[a.key := a.workspace.value]);
    hide Exact, CountsAlikeFor, Step, WorkspacesLag, KindsLag;
    forall n | n in w.kinds
      ensures Exact(w.kinds[n], Step(w, a).cachedWorkspaces, n) <==>
              CountsAlikeFor(w.kinds[n], n, w.cachedWorkspaces[a.key], a.workspace.value)
    {
      assert Covered(w, n);
      ReplacementExactly(w.kinds[n], w.cachedWorkspaces, a.key, a.workspace.value, n);
    }
  }

  /** Deletion, creation under another kind, and one look of the watch. */
  function Recreation(key: string, kind: string, spec: WorkspaceSpec, uid: nat): seq<Action> {
    [DeleteWorkspace(key), CreateWorkspace(key, kind, spec), SeeWorkspace(key, Some(Workspace(uid, kind, spec, 1)))]
  }

  lemma RecreationReaches(w: World, key: string, kind: string, spec: WorkspaceSpec) returns (end: World)
    requires Quiescent(w) && key in w.workspaces && w.workspaces[key].generation == 1
    ensures Reaches(w, Recreation(key, kind, spec, w.nextUid), end) && Quiescent(end)
    ensures end.kinds == w.kinds && end.workspaces == w.workspaces[key := Workspace(w.nextUid, kind, spec, 1)]
  {
    var ws := Workspace(w.nextUid, kind, spec, 1);
    var a, b, c := DeleteWorkspace(key), CreateWorkspace(key, kind, spec), SeeWorkspace(key, Some(ws));
    var w1 := w.(workspaces := w.workspaces - {key});
    var w2 := Store(w1, key, ws).(nextUid := w.nextUid + 1);
    end := w2.(cachedWorkspaces := w2.cachedWorkspaces[key := ws]);
    assert Enabled(w, a) && Step(w, a) == w1;
    assert Enabled(w1, b) && Step(w1, b) == w2;
    assert Enabled(w2, c) && Step(w2, c) == end;
    hide Step, Enabled;
    assert Reaches(end, [], end) && [c][1..] == [];
    assert Reaches(w2, [c], end) && [b, c][1..] == [c];
    assert Reaches(w1, [b, c], end) && [a, b, c][1..] == [b, c];
  }

  /** Such events can happen: from every quiescent world, any Workspace that was never edited can be deleted and created again
      under another kind, and be seen as one update. The world is quiescent again, and wrong for good if one of
      the kinds exists. */
  lemma RecreationGoesUnnoticed(w: World, key: string, kind: string, spec: WorkspaceSpec) returns (end: World)
    requires Inv(w) && Quiescent(w) && key in w.workspaces && w.workspaces[key].generation == 1
    requires kind != w.workspaces[key].kind && (kind in w.kinds || w.workspaces[key].kind in w.kinds)
    ensures Reaches(w, Recreation(key, kind, spec, w.nextUid), end) && Quiescent(end) && !AllExact(end)
  {
    hide Exact, Reaches, Inv;
    end := RecreationReaches(w, key, kind, spec);
    QuiescentIsExact(w);
    var name := if kind in w.kinds then kind else w.workspaces[key].kind;
    ReplacementExactly(w.kinds[name], w.workspaces, key, Workspace(w.nextUid, kind, spec, 1), name);
  }
}

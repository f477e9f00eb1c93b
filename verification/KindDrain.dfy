/** The WorkspaceKind controller left to itself: every schedule of its own steps comes to rest. */
module KindDrain {
  import opened Prelude
  import opened KindCounting
  import opened KindProtocol
  import opened KindRecreation

  // ---------- own steps ----------

  /** Steps taken when nobody else acts: news of a kind is delivered, a reconcile goes on, the API server refuses
      outdated writes only, and assets do not change. */
  ghost predicate OwnStep(w: World, a: Action)
    requires Enabled(w, a)
  {
    match a
    case SeeKind(name, kind) => kind == Lookup(w.kinds, name) && kind != Lookup(w.cachedKinds, name)
    case Fetch(_) => true
    case List(_, _) => true
    case Release(_, ok) => ok
    case Finish(name, ok, assets) => ok && assets == w.flights[name].kind.status.assets
    case _ => false
  }

  /** A reconcile begins before the news of its kind was delivered. */
  predicate Hasty(w: World, a: Action) {
    a.Fetch? && Lookup(w.cachedKinds, a.name) != Lookup(w.kinds, a.name)
  }

  ghost predicate OwnSteps(w: World, actions: seq<Action>)
    decreases |actions|
  {
    actions == [] || (Enabled(w, actions[0]) && OwnStep(w, actions[0]) && OwnSteps(Step(w, actions[0]), actions[1..]))
  }

  ghost function HastySteps(w: World, actions: seq<Action>): nat
    requires OwnSteps(w, actions)
    decreases |actions|
  {
    if actions == [] then 0
    else (if Hasty(w, actions[0]) then 1 else 0) + HastySteps(Step(w, actions[0]), actions[1..])
  }

  /** Versions are in order and Workspace events delivered; reconciles may be anywhere, on data of any age. */
  ghost predicate Draining(w: World) {
    KindsLag(w) && w.cachedWorkspaces == w.workspaces
  }

  // ---------- what is left to do ----------

  /** Writes a kind still needs. */
  ghost function Pending(kind: KindObject, cache: map<string, Workspace>, name: string): nat {
    (if kind.finalizer && Lists([], cache, name) then 1 else 0) + (if Exact(kind, cache, name) then 0 else 1)
  }

  /** Steps a reconcile still takes, and what it may still spoil: a write on outdated data is refused and tried again,
      a write of an outdated listing has to be repaired. */
  ghost function Remaining(f: Flight, stored: Option<KindObject>, cache: map<string, Workspace>, name: string): nat {
    (if stored == Some(f.kind) then 0 else 5) +
    match f
    case Fetched(_) => 3
    case Listed(_, list) => if Lists(list, cache, name) then 2 else 18
    case Released(_, list) => if Lists(list, cache, name) then 1 else 12
  }

  /** The work left on a kind: pending writes, news, its place in the queue, its reconcile. */
  ghost function Work(w: World, name: string): nat {
    (if name in w.kinds then 5 * Pending(w.kinds[name], w.workspaces, name) else 0) +
    (if Lookup(w.cachedKinds, name) == Lookup(w.kinds, name) then 0 else 5) +
    (if name in w.queue then 4 else 0) +
    (if name in w.flights then Remaining(w.flights[name], Lookup(w.kinds, name), w.workspaces, name) else 0)
  }

  ghost function Total(w: World, names: seq<string>): nat {
    if names == [] then 0 else Work(w, names[0]) + Total(w, names[1..])
  }

  /** All kinds that could be worked on. */
  ghost predicate Covers(names: seq<string>, w: World) {
    Distinct(names) && forall n :: n in w.kinds || n in w.cachedKinds || n in w.queue || n in w.flights ==> n in names
  }

  // ---------- every own step reduces the work ----------

  lemma SeeKindPays(w: World, name: string)
    requires Lookup(w.kinds, name) != Lookup(w.cachedKinds, name)
    ensures var w' := w.(cachedKinds := Sync(w.cachedKinds, name, Lookup(w.kinds, name)), queue := w.queue + {name});
            Work(w', name) < Work(w, name)
  {
    hide Pending, Remaining;
  }

  lemma FetchPays(w: World, name: string)
    requires name in w.queue && name !in w.flights
    ensures var w' := Step(w, Fetch(name));
            if Hasty(w, Fetch(name)) then Work(w', name) <= Work(w, name) + 4 else Work(w', name) < Work(w, name)
  {
    hide Pending;
  }

  lemma ListPays(w: World, name: string, list: seq<WorkspaceSpec>)
    requires Enabled(w, List(name, list)) && w.cachedWorkspaces == w.workspaces
    ensures Work(Step(w, List(name, list)), name) < Work(w, name)
  {
    hide Pending, Lists;
  }

  /** A refused write. */
  lemma RetryPays(w: World, name: string)
    requires name in w.flights && Lookup(w.kinds, name) != Some(w.flights[name].kind) && !w.flights[name].Fetched?
    ensures Work(Retry(w, name), name) < Work(w, name)
  {
    hide Pending, Lists;
  }

  lemma DonePays(w: World, name: string)
    requires name in w.flights
    ensures Work(Done(w, name), name) < Work(w, name)
  {
    hide Pending, Lists;
  }

  lemma ReleasePays(w: World, name: string)
    requires name in w.flights && MustRelease(w.flights[name]) && Lookup(w.kinds, name) == Some(w.flights[name].kind)
    ensures Work(AfterRelease(w, name, true), name) < Work(w, name)
  {
    hide Lists;
    var kind := w.kinds[name];
    var written := kind.(finalizer := false, version := w.version + 1);
    assert AfterRelease(w, name, true).kinds[name] == written;
    assert Exact(kind, w.workspaces, name) <==> Exact(written, w.workspaces, name);
    hide Exact;
  }

  lemma WritePays(w: World, name: string, assets: Assets)
    requires name in w.flights && !w.flights[name].Fetched? && Lookup(w.kinds, name) == Some(w.flights[name].kind)
    requires assets == w.flights[name].kind.status.assets
    requires CountsOf(w.flights[name].kind.spec, w.flights[name].list) != w.flights[name].kind.status.counts
    ensures Work(AfterFinish(w, name, true, assets), name) < Work(w, name)
  {
    var f := w.flights[name];
    var kind := w.kinds[name];
    var written := kind.(status := KindStatus(CountsOf(f.kind.spec, f.list), assets), version := w.version + 1);
    assert AfterFinish(w, name, true, assets).kinds[name] == written;
    if Lists(f.list, w.workspaces, name) {
      OneRecountIsEnough(kind, f.list, w.workspaces, name);
      OneRecountIsEnough(written, f.list, w.workspaces, name);
    }
    hide Lists, Exact, CountsOf;
  }

  lemma FinishPays(w: World, name: string, assets: Assets)
    requires KindsLag(w) && name in w.flights && !w.flights[name].Fetched? && assets == w.flights[name].kind.status.assets
    ensures Work(AfterFinish(w, name, true, assets), name) < Work(w, name)
  {
    var f := w.flights[name];
    CurrentIsSame(w, name);
    hide Work, CountsOf, KindsLag;
    if CountsOf(f.kind.spec, f.list) == f.kind.status.counts {
      DonePays(w, name);
    } else if Current(w, name, f.kind) {
      WritePays(w, name, assets);
    } else {
      RetryPays(w, name);
    }
  }

  /** A version is given once, so the kind of a reconcile is current exactly if its version is. */
  lemma CurrentIsSame(w: World, name: string)
    requires KindsLag(w) && name in w.flights
    ensures Current(w, name, w.flights[name].kind) <==> Lookup(w.kinds, name) == Some(w.flights[name].kind)
  {}

  /** Every own step leaves less work on its kind, except that a hasty one may add four units. */
  lemma OwnStepPays(w: World, a: Action)
    requires Draining(w) && Enabled(w, a) && OwnStep(w, a)
    ensures if Hasty(w, a) then Work(Step(w, a), a.name) <= Work(w, a.name) + 4 else Work(Step(w, a), a.name) < Work(w, a.name)
  {
    hide Work, KindsLag, Lists;
    match a
    case SeeKind(name, _) => SeeKindPays(w, name);
    case Fetch(name) => FetchPays(w, name);
    case List(name, list) => ListPays(w, name, list);
    case Release(name, _) =>
      CurrentIsSame(w, name);
      if Current(w, name, w.flights[name].kind) {
        ReleasePays(w, name);
      } else {
        RetryPays(w, name);
      }
    case Finish(name, _, assets) => FinishPays(w, name, assets);
  }

  // ---------- nothing else changes ----------

  lemma OwnStepFrame(w: World, a: Action, other: string)
    requires Enabled(w, a) && OwnStep(w, a) && other != a.name
    ensures Work(Step(w, a), other) == Work(w, other)
  {
    hide Pending, Remaining, Lists;
    if Reconciles(a) {
      ReconcileFrame(w, a);
      hide Step, OwnStep, Enabled;
      Untouched(w, Step(w, a), a.name, other);
    }
  }

  /** Same kinds, each with the same spec. */
  ghost predicate SameSpecs(a: map<string, KindObject>, b: map<string, KindObject>) {
    a.Keys == b.Keys && forall n :: n in a ==> a[n].spec == b[n].spec
  }

  lemma SpecsStay(w: World, a: Action)
    requires Enabled(w, a) && OwnStep(w, a)
    ensures SameSpecs(w.kinds, Step(w, a).kinds)
  {
    hide Lists, AfterRelease, AfterFinish;
    if a.Release? {
      ReleaseKeepsSpecs(w, a.name, a.ok);
    } else if a.Finish? {
      FinishKeepsSpecs(w, a.name, a.ok, a.assets);
    }
  }

  lemma ReleaseKeepsSpecs(w: World, name: string, ok: bool)
    requires name in w.flights && w.flights[name].Listed?
    ensures SameSpecs(w.kinds, AfterRelease(w, name, ok).kinds)
  {}

  lemma FinishKeepsSpecs(w: World, name: string, ok: bool, assets: Assets)
    requires name in w.flights && !w.flights[name].Fetched?
    ensures SameSpecs(w.kinds, AfterFinish(w, name, ok, assets).kinds)
  {
    hide CountsOf;
  }

  /** Workspaces, kinds and their specs stay; no other kind comes up. */
  lemma OwnStepKeeps(w: World, a: Action, names: seq<string>)
    requires Draining(w) && Enabled(w, a) && OwnStep(w, a) && Covers(names, w)
    ensures var w' := Step(w, a);
            Draining(w') && Covers(names, w') && w'.workspaces == w.workspaces && SameSpecs(w.kinds, w'.kinds) && a.name in names
  {
    var w' := Step(w, a);
    KindsLagKept(w, a);
    SpecsStay(w, a);
    hide Distinct, KindsLag, Lists;
    if Reconciles(a) {
      assert a.name in names;
      ReconcileFrame(w, a);
      hide Step, Enabled, OwnStep;
      forall n | n in w'.kinds || n in w'.cachedKinds || n in w'.queue || n in w'.flights ensures n in names {
        if n != a.name {
          Untouched(w, w', a.name, n);
        }
      }
    }
  }

  lemma {:induction false} TotalFrame(w: World, w': World, names: seq<string>)
    requires forall n :: n in names ==> Work(w', n) == Work(w, n)
    ensures Total(w', names) == Total(w, names)
  {
    hide Work;
    if names != [] {
      assert names[0] in names && forall n :: n in names[1..] ==> n in names;
      TotalFrame(w, w', names[1..]);
    }
  }

  lemma {:induction false} TotalChange(w: World, w': World, names: seq<string>, name: string)
    requires Distinct(names) && name in names
    requires forall n :: n in names && n != name ==> Work(w', n) == Work(w, n)
    ensures Total(w', names) - Total(w, names) == Work(w', name) - Work(w, name)
  {
    hide Work;
    var rest := names[1..];
    assert forall n :: n in rest ==> n in names;
    assert Distinct(rest);
    if names[0] == name {
      assert name !in rest;
      TotalFrame(w, w', rest);
    } else {
      TotalChange(w, w', rest, name);
    }
  }

  lemma TotalPays(w: World, a: Action, names: seq<string>)
    requires Draining(w) && Enabled(w, a) && OwnStep(w, a) && Covers(names, w)
    ensures if Hasty(w, a) then Total(Step(w, a), names) <= Total(w, names) + 4 else Total(Step(w, a), names) < Total(w, names)
  {
    OwnStepPays(w, a);
    OwnStepKeeps(w, a, names);
    assert Distinct(names);
    hide Work, Step, Enabled, OwnStep, Hasty, Draining, Distinct;
    forall n | n in names && n != a.name ensures Work(Step(w, a), n) == Work(w, n) {
      OwnStepFrame(w, a, n);
    }
    TotalChange(w, Step(w, a), names, a.name);
  }

  // ---------- every schedule comes to rest ----------

  /** However the own steps are scheduled, there are no more of them than the work there is, plus five for each hasty one. */
  lemma {:induction false} SchedulesAreFinite(w: World, actions: seq<Action>, end: World, names: seq<string>)
    requires Draining(w) && Covers(names, w) && Reaches(w, actions, end) && OwnSteps(w, actions)
    ensures |actions| + Total(end, names) <= Total(w, names) + 5 * HastySteps(w, actions)
    ensures Draining(end) && Covers(names, end) && end.workspaces == w.workspaces && SameSpecs(w.kinds, end.kinds)
    decreases |actions|
  {
    hide Step, Enabled, OwnStep, Hasty, Draining, Covers;
    if actions != [] {
      OwnStepKeeps(w, actions[0], names);
      TotalPays(w, actions[0], names);
      SchedulesAreFinite(Step(w, actions[0]), actions[1..], end, names);
    }
  }

  lemma SameLookups<V>(a: map<string, V>, b: map<string, V>)
    requires forall name :: Lookup(a, name) == Lookup(b, name)
    ensures a == b
  {
    forall name ensures (name in a <==> name in b) && (name in a ==> a[name] == b[name]) {
      assert Lookup(a, name) == Lookup(b, name);
    }
  }

  /** Haste has to be counted: a reconcile of an outdated kind whose counts are off is refused and leads back to where it began. */
  lemma HasteLeadsNowhere(w: World, name: string, list: seq<WorkspaceSpec>)
    requires name in w.queue && name !in w.flights && name in w.cachedKinds && Lists(list, w.cachedWorkspaces, name)
    requires var cached := w.cachedKinds[name];
             && !Current(w, name, cached) && !(list == [] && cached.finalizer)
             && CountsOf(cached.spec, list) != cached.status.counts
    ensures var actions := [Fetch(name), List(name, list), Finish(name, true, w.cachedKinds[name].status.assets)];
            Reaches(w, actions, w) && OwnSteps(w, actions) && HastySteps(w, actions) == 1
  {
    hide Lists, CountsOf;
    var cached := w.cachedKinds[name];
    var a, b, c := Fetch(name), List(name, list), Finish(name, true, cached.status.assets);
    var w1 := w.(queue := w.queue - {name}, flights := w.flights[name := Fetched(cached)]);
    var w2 := w1.(flights := w1.flights[name := Listed(cached, list)]);
    assert Enabled(w, a) && Step(w, a) == w1 && OwnStep(w, a) && Hasty(w, a);
    assert Enabled(w1, b) && Step(w1, b) == w2 && OwnStep(w1, b) && !Hasty(w1, b);
    assert w2.flights - {name} == w.flights && w2.queue + {name} == w.queue;
    assert Enabled(w2, c) && Step(w2, c) == w && OwnStep(w2, c) && !Hasty(w2, c);
    hide Step, Enabled, OwnStep, Hasty;
    assert Reaches(w, [], w) && OwnSteps(w, []) && [c][1..] == [];
    assert Reaches(w2, [c], w) && OwnSteps(w2, [c]) && HastySteps(w2, [c]) == 0 && [b, c][1..] == [c];
    assert Reaches(w1, [b, c], w) && OwnSteps(w1, [b, c]) && HastySteps(w1, [b, c]) == 0 && [a, b, c][1..] == [b, c];
  }

  /** While the world is not quiescent an own step that is not hasty is possible. */
  lemma Progress(w: World) returns (a: Action)
    requires Draining(w) && !Quiescent(w)
    ensures Enabled(w, a) && OwnStep(w, a) && !Hasty(w, a)
  {
    if name :| Lookup(w.cachedKinds, name) != Lookup(w.kinds, name) {
      return SeeKind(name, Lookup(w.kinds, name));
    }
    SameLookups(w.cachedKinds, w.kinds);
    if name :| name in w.flights {
      if w.flights[name].Fetched? {
        var _, list := ListingExists(w.cachedWorkspaces, name);
        a := List(name, list);
      } else if MustRelease(w.flights[name]) {
        a := Release(name, true);
      } else {
        a := Finish(name, true, w.flights[name].kind.status.assets);
      }
    } else {
      var name :| name in w.queue;
      a := Fetch(name);
    }
  }

  /** Left to itself the controller ends exact: after any past without a missed event, once Workspace events are delivered,
      every schedule of own steps stays within the bound, and one that can only go on hastily has reached a quiescent
      world with exact counts. */
  lemma EveryScheduleEndsExact(past: seq<Action>, w: World, actions: seq<Action>, end: World, names: seq<string>)
    requires Reaches(EMPTY, past, w) && NoneMissed(EMPTY, past) && w.cachedWorkspaces == w.workspaces
    requires Covers(names, w) && Reaches(w, actions, end) && OwnSteps(w, actions)
    ensures |actions| <= Total(w, names) + 5 * HastySteps(w, actions)
    ensures (forall a :: Enabled(end, a) && OwnStep(end, a) ==> Hasty(end, a)) ==> Quiescent(end) && AllExact(end) && AllAccurate(end)
  {
    ReachableInv(EMPTY, past, w);
    hide Covers, Reaches, NoneMissed, OwnSteps, Covered, WorkspacesLag, KindsLag, Enabled, OwnStep, Hasty, AllExact, AllAccurate, Quiescent;
    SchedulesAreFinite(w, actions, end, names);
    OwnStepsMissNothing(w, actions);
    ReachableInv(w, actions, end);
    if !Quiescent(end) {
      var a := Progress(end);
    } else {
      QuiescentIsExact(end);
    }
  }

  lemma {:induction false} OwnStepsMissNothing(w: World, actions: seq<Action>)
    requires OwnSteps(w, actions)
    ensures NoneMissed(w, actions)
    decreases |actions|
  {
    hide Step, Enabled;
    if actions != [] {
      OwnStepsMissNothing(Step(w, actions[0]), actions[1..]);
    }
  }

  /** In particular there is such a schedule, without haste, from every world whose Workspace events are delivered. */
  lemma {:induction false} Drain(w: World, names: seq<string>) returns (actions: seq<Action>, end: World)
    requires Draining(w) && Covers(names, w)
    ensures Reaches(w, actions, end) && OwnSteps(w, actions) && HastySteps(w, actions) == 0
    ensures Quiescent(end) && end.workspaces == w.workspaces && SameSpecs(w.kinds, end.kinds)
    decreases Total(w, names)
  {
    hide Enabled, Step, Draining, Covers, OwnStep, Hasty, Quiescent;
    if Quiescent(w) {
      actions, end := [], w;
    } else {
      var a := Progress(w);
      OwnStepKeeps(w, a, names);
      TotalPays(w, a, names);
      var rest;
      rest, end := Drain(Step(w, a), names);
      actions := [a] + rest;
      assert actions[0] == a && actions[1..] == rest;
    }
  }
}

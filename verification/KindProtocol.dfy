/** The WorkspaceKind controller as a protocol: API server, informer caches, work queue and reconciles in
    flight, with every step interleaved in any order. */
module KindProtocol {
  import opened Prelude
  import opened KindCounting

  // ---------- state ----------

  /** `uid` is never given twice; `generation` starts at 1 and changes with every change of the spec. */
  datatype Workspace = Workspace(uid: nat, kind: string, spec: WorkspaceSpec, generation: nat)

  /** `version` is the resource version. */
  datatype KindObject = KindObject(spec: KindSpec, finalizer: bool, status: KindStatus, version: nat)

  /** Progress of a reconcile: the kind was read, the Workspaces were listed, the finalizer was released. */
  datatype Flight =
    | Fetched(kind: KindObject)
    | Listed(kind: KindObject, list: seq<WorkspaceSpec>)
    | Released(kind: KindObject, list: seq<WorkspaceSpec>)

  /** Store and caches are keyed by (namespaced) name. The past holds every state ever stored. */
  datatype World = World(
    workspaces: map<string, Workspace>,
    kinds: map<string, KindObject>,
    pastWorkspaces: set<(string, Workspace)>,
    pastKinds: set<(string, KindObject)>,
    cachedWorkspaces: map<string, Workspace>,
    cachedKinds: map<string, KindObject>,
    queue: set<string>,
    flights: map<string, Flight>,
    version: nat,
    nextUid: nat)

  const EMPTY := World(map[], map[], {}, {}, map[], map[], {}, map[], 0, 0)

  /** Steps of the environment, of the watches, and of the controller. A put stands for any write
      to a kind by anyone else, its status included. `ok` is the answer of the API server. */
  datatype Action =
    | CreateWorkspace(key: string, kind: string, spec: WorkspaceSpec)
    | EditWorkspace(key: string, spec: WorkspaceSpec)
    | DeleteWorkspace(key: string)
    | PutKind(name: string, kindSpec: KindSpec, finalizer: bool, status: KindStatus)
    | DeleteKind(name: string)
    | SeeWorkspace(key: string, workspace: Option<Workspace>)
    | SeeKind(name: string, object: Option<KindObject>)
    | Fetch(name: string)
    | List(name: string, list: seq<WorkspaceSpec>)
    | Release(name: string, ok: bool)
    | Finish(name: string, ok: bool, assets: Assets)
    | Fail(name: string)

  // ---------- listing ----------

  /** `keys` are the Workspaces of a kind in the cache, each once, in some order. */
  ghost predicate Enumerates(keys: seq<string>, cache: map<string, Workspace>, kind: string) {
    && Distinct(keys)
    && (forall k :: k in keys <==> k in cache && cache[k].kind == kind)
  }

  function SpecsOf(keys: seq<string>, cache: map<string, Workspace>): (list: seq<WorkspaceSpec>)
    requires forall i :: 0 <= i < |keys| ==> keys[i] in cache
    ensures |list| == |keys|
  {
    seq(|keys|, i requires 0 <= i < |keys| => cache[keys[i]].spec)
  }

  /** `list` is the listing of `keys`. */
  ghost predicate ListsAs(keys: seq<string>, list: seq<WorkspaceSpec>, cache: map<string, Workspace>, kind: string) {
    Enumerates(keys, cache, kind) && (forall i :: 0 <= i < |keys| ==> keys[i] in cache) && list == SpecsOf(keys, cache)
  }

  ghost predicate Lists(list: seq<WorkspaceSpec>, cache: map<string, Workspace>, kind: string) {
    exists keys: seq<string> :: ListsAs(keys, list, cache, kind)
  }

  /** The counts equal a fresh recount. */
  ghost predicate Exact(kind: KindObject, cache: map<string, Workspace>, name: string) {
    forall list :: Lists(list, cache, name) ==> kind.status.counts == CountsOf(kind.spec, list)
  }

  /** What a reconcile settles: exact counts, and no finalizer on a kind that no Workspace uses. */
  ghost predicate Settled(kind: KindObject, cache: map<string, Workspace>, name: string) {
    Exact(kind, cache, name) && !(kind.finalizer && Lists([], cache, name))
  }

  // ---------- steps ----------

  function Lookup<K, V>(m: map<K, V>, key: K): Option<V> {
    if key in m then Some(m[key]) else None
  }

  function Sync<K, V>(m: map<K, V>, key: K, state: Option<V>): map<K, V> {
    if state.Some? then m[key := state.value] else m - {key}
  }

  /** Kinds a Workspace event asks to reconcile; an update with unchanged generation is filtered out. */
  function Requests(seen: Option<Workspace>, delivered: Option<Workspace>): set<string> {
    if seen.Some? && delivered.Some? && seen.value.generation == delivered.value.generation then {}
    else (if seen.Some? then {seen.value.kind} else {}) + (if delivered.Some? then {delivered.value.kind} else {})
  }

  function Done(w: World, name: string): World {
    w.(flights := w.flights - {name})
  }

  /** A reconcile that returns an error is queued again. */
  function Retry(w: World, name: string): World {
    w.(flights := w.flights - {name}, queue := w.queue + {name})
  }

  function Store(w: World, key: string, ws: Workspace): World {
    w.(workspaces := w.workspaces[key := ws], pastWorkspaces := w.pastWorkspaces + {(key, ws)})
  }

  /** Every write of a kind gets a new version. */
  function Write(w: World, name: string, kind: KindObject): World {
    var written := kind.(version := w.version + 1);
    w.(kinds := w.kinds[name := written], pastKinds := w.pastKinds + {(name, written)}, version := w.version + 1)
  }

  /** A write by the controller is refused unless it carries the current version. */
  predicate Current(w: World, name: string, kind: KindObject) {
    name in w.kinds && w.kinds[name].version == kind.version
  }

  predicate MustRelease(f: Flight) {
    f.Listed? && f.list == [] && f.kind.finalizer
  }

  /** The reconcile goes on with the kind as it was written. */
  function CarryOn(w: World, name: string, list: seq<WorkspaceSpec>): World
    requires name in w.kinds
  {
    w.(flights := w.flights[name := Released(w.kinds[name], list)])
  }

  /** Release of the finalizer. */
  function AfterRelease(w: World, name: string, ok: bool): World
    requires name in w.flights && w.flights[name].Listed?
  {
    var f := w.flights[name];
    if ok && Current(w, name, f.kind) then CarryOn(Write(w, name, w.kinds[name].(finalizer := false)), name, f.list)
    else Retry(w, name)
  }

  /** Recount, and write of the status if it differs. */
  function AfterFinish(w: World, name: string, ok: bool, assets: Assets): World
    requires name in w.flights && !w.flights[name].Fetched?
  {
    var f := w.flights[name];
    var status := KindStatus(CountsOf(f.kind.spec, f.list), assets);
    if status == f.kind.status then Done(w, name)
    else if ok && Current(w, name, f.kind) then Done(Write(w, name, w.kinds[name].(status := status)), name)
    else Retry(w, name)
  }

  /** A watch delivers any state of the past, absence included. */
  ghost predicate Enabled(w: World, a: Action) {
    match a
    case CreateWorkspace(key, _, _) => key !in w.workspaces
    case EditWorkspace(key, _) => key in w.workspaces
    case DeleteWorkspace(key) => key in w.workspaces
    case PutKind(_, _, _, _) => true
    case DeleteKind(name) => name in w.kinds
    case SeeWorkspace(key, ws) => ws.Some? ==> (key, ws.value) in w.pastWorkspaces
    case SeeKind(name, kind) => kind.Some? ==> (name, kind.value) in w.pastKinds
    case Fetch(name) => name in w.queue && name !in w.flights
    case List(name, list) => name in w.flights && w.flights[name].Fetched? && Lists(list, w.cachedWorkspaces, name)
    case Release(name, _) => name in w.flights && MustRelease(w.flights[name])
    case Finish(name, _, _) => name in w.flights && !w.flights[name].Fetched? && !MustRelease(w.flights[name])
    case Fail(name) => name in w.flights
  }

  ghost function Step(w: World, a: Action): World
    requires Enabled(w, a)
  {
    match a
    case CreateWorkspace(key, kind, spec) =>
      Store(w, key, Workspace(w.nextUid, kind, spec, 1)).(nextUid := w.nextUid + 1)
    case EditWorkspace(key, spec) =>
      Store(w, key, w.workspaces[key].(spec := spec, generation := w.workspaces[key].generation + 1))
    case DeleteWorkspace(key) => w.(workspaces := w.workspaces - {key})
    case PutKind(name, spec, finalizer, status) => Write(w, name, KindObject(spec, finalizer, status, 0))
    case DeleteKind(name) => w.(kinds := w.kinds - {name})
    case SeeWorkspace(key, ws) =>
      w.(cachedWorkspaces := Sync(w.cachedWorkspaces, key, ws),
         queue := w.queue + Requests(Lookup(w.cachedWorkspaces, key), ws))
    case SeeKind(name, kind) =>
      w.(cachedKinds := Sync(w.cachedKinds, name, kind), queue := w.queue + {name})
    case Fetch(name) =>
      w.(queue := w.queue - {name},
         flights := if name in w.cachedKinds then w.flights[name := Fetched(w.cachedKinds[name])] else w.flights)
    case List(name, list) => w.(flights := w.flights[name := Listed(w.flights[name].kind, list)])
    case Release(name, ok) => AfterRelease(w, name, ok)
    case Finish(name, ok, assets) => AfterFinish(w, name, ok, assets)
    case Fail(name) => Retry(w, name)
  }

  /** Worlds reached by a sequence of enabled steps. */
  ghost predicate Reaches(w: World, actions: seq<Action>, end: World)
    decreases |actions|
  {
    if actions == [] then w == end
    else Enabled(w, actions[0]) && Reaches(Step(w, actions[0]), actions[1..], end)
  }

  /** A Workspace that was deleted and created again under its name arrives as one update, with the generation it had
      before: the filter on generations drops it. */
  predicate Masked(w: World, a: Action) {
    && a.SeeWorkspace? && a.workspace.Some? && a.key in w.cachedWorkspaces
    && w.cachedWorkspaces[a.key].uid != a.workspace.value.uid
    && w.cachedWorkspaces[a.key].generation == a.workspace.value.generation
  }

  /** The cached kind is out of date, so an event for it is still to come. */
  predicate Ahead(w: World, name: string) {
    name in w.cachedKinds && (name in w.kinds ==> w.kinds[name].version > w.cachedKinds[name].version)
  }

  /** The kind will be listed again, or does not need to be: it is queued, or its reconcile has not listed yet, or news of
      the kind is still to come, or there is no such kind. */
  predicate ToBeListed(w: World, name: string) {
    || name in w.queue
    || (name !in w.flights && (name !in w.cachedKinds || Ahead(w, name)))
    || (name in w.flights && w.flights[name].Fetched? && name in w.cachedKinds && w.flights[name].kind == w.cachedKinds[name])
    || (name in w.flights && w.flights[name].Released? && Ahead(w, name))
  }

  /** A masked event is missed if one of the two kinds will not be listed again. */
  predicate Missed(w: World, a: Action) {
    Masked(w, a) && !(ToBeListed(w, w.cachedWorkspaces[a.key].kind) && ToBeListed(w, a.workspace.value.kind))
  }

  /** No event of the sequence is missed. */
  ghost predicate NoneMissed(w: World, actions: seq<Action>)
    decreases |actions|
  {
    actions == [] || (Enabled(w, actions[0]) && !Missed(w, actions[0]) && NoneMissed(Step(w, actions[0]), actions[1..]))
  }

  // ---------- invariant ----------

  /** Same uid and generation mean the same Workspace. */
  ghost predicate OneState(past: set<(string, Workspace)>) {
    forall k, x, l, y :: (k, x) in past && (l, y) in past && x.uid == y.uid && x.generation == y.generation ==> x == y
  }

  /** Store and cache hold Workspaces of the past; a stored one has the newest generation of its uid. */
  ghost predicate WorkspacesLag(w: World) {
    && (forall k, x :: (k, x) in w.pastWorkspaces ==> x.uid < w.nextUid)
    && (forall k :: k in w.workspaces ==> (k, w.workspaces[k]) in w.pastWorkspaces)
    && (forall k :: k in w.cachedWorkspaces ==> (k, w.cachedWorkspaces[k]) in w.pastWorkspaces)
    && OneState(w.pastWorkspaces)
    && (forall k, x, l :: (k, x) in w.pastWorkspaces && l in w.workspaces && x.uid == w.workspaces[l].uid ==> x.generation <= w.workspaces[l].generation)
    && (forall k, l :: k in w.workspaces && l in w.workspaces && w.workspaces[k].uid == w.workspaces[l].uid ==> k == l)
  }

  /** Versions of kinds only grow, and a version is given once. */
  ghost predicate VersionsGrow(w: World) {
    && (forall n, x :: (n, x) in w.pastKinds ==> x.version <= w.version)
    && (forall n, x, m, y :: (n, x) in w.pastKinds && (m, y) in w.pastKinds && x.version == y.version ==> x == y)
    && (forall n, x :: (n, x) in w.pastKinds && n in w.kinds ==> x.version <= w.kinds[n].version)
  }

  /** Store, cache and reconciles hold kinds of the past. */
  ghost predicate KindsKnown(w: World) {
    && (forall n :: n in w.kinds ==> (n, w.kinds[n]) in w.pastKinds)
    && (forall n :: n in w.cachedKinds ==> (n, w.cachedKinds[n]) in w.pastKinds)
    && (forall n :: n in w.flights ==> (n, w.flights[n].kind) in w.pastKinds)
  }

  ghost predicate KindsLag(w: World) {
    VersionsGrow(w) && KindsKnown(w)
  }

  /** What a reconcile has read is still what the caches hold. */
  ghost predicate UpToDate(w: World, name: string, f: Flight) {
    match f
    case Fetched(kind) => name in w.cachedKinds && kind == w.cachedKinds[name]
    case Listed(kind, list) => name in w.cachedKinds && kind == w.cachedKinds[name] && Lists(list, w.cachedWorkspaces, name)
    case Released(_, _) => Ahead(w, name)
  }

  /** A kind that is not queued is in flight on current data, or has an event to come, or is settled. */
  ghost predicate Covered(w: World, name: string) {
    || name in w.queue
    || (name in w.flights && UpToDate(w, name, w.flights[name]))
    || (name !in w.flights && name !in w.cachedKinds)
    || (name !in w.flights && Ahead(w, name))
    || (name !in w.flights && name in w.cachedKinds && Settled(w.cachedKinds[name], w.cachedWorkspaces, name))
  }

  ghost predicate Inv(w: World) {
    WorkspacesLag(w) && KindsLag(w) && forall name: string :: Covered(w, name)
  }

  // ---------- listings agree ----------

  lemma TakeOut(keys: seq<string>, j: nat, rest: seq<string>, cache: map<string, Workspace>)
    requires j < |keys| && rest == keys[..j] + keys[j + 1..] && Distinct(keys)
    requires forall i :: 0 <= i < |keys| ==> keys[i] in cache
    ensures Distinct(rest) && forall k :: k in rest <==> k in keys && k != keys[j]
    ensures forall i :: 0 <= i < |rest| ==> rest[i] in cache
    ensures multiset(SpecsOf(keys, cache)) == multiset(SpecsOf(rest, cache)) + multiset{cache[keys[j]].spec}
  {
    assert forall i :: 0 <= i < |rest| ==> rest[i] == keys[if i < j then i else i + 1];
    forall k | k in keys && k != keys[j] ensures k in rest {
      var i :| 0 <= i < |keys| && keys[i] == k;
      assert rest[if i < j then i else i - 1] == k;
    }
    hide Distinct;
    assert SpecsOf(keys, cache) == SpecsOf(keys[..j], cache) + ([cache[keys[j]].spec] + SpecsOf(keys[j + 1..], cache));
    assert SpecsOf(rest, cache) == SpecsOf(keys[..j], cache) + SpecsOf(keys[j + 1..], cache);
  }

  /** Two listings of the same cache contain the same Workspaces. */
  lemma {:induction false} EnumerationsAgree(a: seq<string>, b: seq<string>, cache: map<string, Workspace>)
    requires Distinct(a) && Distinct(b) && forall k :: k in a <==> k in b
    requires forall i :: 0 <= i < |a| ==> a[i] in cache
    requires forall i :: 0 <= i < |b| ==> b[i] in cache
    ensures multiset(SpecsOf(a, cache)) == multiset(SpecsOf(b, cache))
    decreases |a|
  {
    hide Distinct;
    if a == [] {
      assert forall i :: 0 <= i < |b| ==> b[i] in b;
    } else {
      assert a[0] in b;
      var j :| 0 <= j < |b| && b[j] == a[0];
      var restA, restB := a[..0] + a[1..], b[..j] + b[j + 1..];
      TakeOut(a, 0, restA, cache);
      TakeOut(b, j, restB, cache);
      EnumerationsAgree(restA, restB, cache);
    }
  }

  /** So one recount decides exactness. */
  lemma OneRecountIsEnough(kind: KindObject, list: seq<WorkspaceSpec>, cache: map<string, Workspace>, name: string)
    requires Lists(list, cache, name)
    ensures Exact(kind, cache, name) <==> kind.status.counts == CountsOf(kind.spec, list)
  {
    hide CountsOf;
    forall other | Lists(other, cache, name)
      ensures CountsOf(kind.spec, other) == CountsOf(kind.spec, list)
    {
      var a: seq<string> :| ListsAs(a, list, cache, name);
      var b: seq<string> :| ListsAs(b, other, cache, name);
      EnumerationsAgree(a, b, cache);
      OrderIrrelevant(kind.spec, list, other);
    }
  }

  /** And one listing decides whether there is anything to list. */
  lemma OneListingIsEnough(list: seq<WorkspaceSpec>, cache: map<string, Workspace>, name: string)
    requires Lists(list, cache, name)
    ensures Lists([], cache, name) <==> list == []
  {
    var a: seq<string> :| ListsAs(a, list, cache, name);
    if b: seq<string> :| ListsAs(b, [], cache, name) {
      EnumerationsAgree(a, b, cache);
      assert |multiset(list)| == |list|;
    }
  }

  /** Changing the cache entry of a Workspace of another kind changes no listing. */
  lemma ListingFrame(list: seq<WorkspaceSpec>, before: map<string, Workspace>, after: map<string, Workspace>, name: string)
    requires forall k :: k in before && before[k].kind == name ==> k in after && after[k] == before[k]
    requires forall k :: k in after && after[k].kind == name ==> k in before && after[k] == before[k]
    ensures Lists(list, before, name) <==> Lists(list, after, name)
  {
    if keys: seq<string> :| ListsAs(keys, list, before, name) {
      ListingMoves(keys, list, before, after, name);
    }
    if keys: seq<string> :| ListsAs(keys, list, after, name) {
      ListingMoves(keys, list, after, before, name);
    }
  }

  lemma ListingMoves(keys: seq<string>, list: seq<WorkspaceSpec>, before: map<string, Workspace>, after: map<string, Workspace>, name: string)
    requires forall k :: k in before && before[k].kind == name ==> k in after && after[k] == before[k]
    requires forall k :: k in after && after[k].kind == name ==> k in before && after[k] == before[k]
    requires ListsAs(keys, list, before, name)
    ensures ListsAs(keys, list, after, name)
  {
    hide Distinct;
    forall i | 0 <= i < |keys| ensures keys[i] in after && after[keys[i]] == before[keys[i]] {
      assert keys[i] in keys;
    }
    assert list == SpecsOf(keys, after);
  }

  // ---------- every step keeps the invariant ----------

  /** Steps of a reconcile. */
  predicate Reconciles(a: Action) {
    a.Fetch? || a.List? || a.Release? || a.Finish? || a.Fail?
  }

  /** The two worlds differ in one kind, its reconcile and its place in the queue only. */
  ghost predicate Touches(w: World, w': World, name: string) {
    && w'.workspaces == w.workspaces && w'.pastWorkspaces == w.pastWorkspaces && w'.cachedWorkspaces == w.cachedWorkspaces
    && w'.nextUid == w.nextUid && w'.cachedKinds == w.cachedKinds
    && w'.queue - {name} == w.queue - {name}
    && w'.kinds - {name} == w.kinds - {name}
    && w'.flights - {name} == w.flights - {name}
  }

  lemma FinishTouches(w: World, name: string, ok: bool, assets: Assets)
    requires name in w.flights && !w.flights[name].Fetched?
    ensures Touches(w, AfterFinish(w, name, ok, assets), name)
  {
    hide CountsOf;
  }

  lemma ReleaseTouches(w: World, name: string, ok: bool)
    requires name in w.flights && w.flights[name].Listed?
    ensures Touches(w, AfterRelease(w, name, ok), name)
  {}

  /** A reconcile touches nothing but its own kind. */
  lemma ReconcileFrame(w: World, a: Action)
    requires Enabled(w, a) && Reconciles(a)
    ensures Touches(w, Step(w, a), a.name)
  {
    hide Lists, AfterFinish, AfterRelease;
    if a.Finish? {
      FinishTouches(w, a.name, a.ok, a.assets);
    } else if a.Release? {
      ReleaseTouches(w, a.name, a.ok);
    }
  }

  /** What is untouched about another kind. */
  lemma Untouched(w: World, w': World, name: string, other: string)
    requires Touches(w, w', name) && other != name
    ensures Lookup(w'.kinds, other) == Lookup(w.kinds, other) && Lookup(w'.flights, other) == Lookup(w.flights, other)
    ensures other in w'.queue <==> other in w.queue
  {
    assert other in w'.queue - {name} <==> other in w.queue - {name};
    assert Lookup(w'.kinds - {name}, other) == Lookup(w.kinds - {name}, other);
    assert Lookup(w'.flights - {name}, other) == Lookup(w.flights - {name}, other);
  }

  lemma StoreKeepsLag(w: World, key: string, ws: Workspace, nextUid: nat)
    requires WorkspacesLag(w) && nextUid >= w.nextUid && ws.uid < nextUid
    requires forall k, x :: (k, x) in w.pastWorkspaces && x.uid == ws.uid ==> x.generation < ws.generation
    requires forall k :: k in w.workspaces && w.workspaces[k].uid == ws.uid ==> k == key
    ensures WorkspacesLag(Store(w, key, ws).(nextUid := nextUid))
  {
    assert OneState(w.pastWorkspaces + {(key, ws)});
    hide OneState;
  }

  lemma WorkspacesFrame(w: World, w': World)
    requires WorkspacesLag(w) && w'.pastWorkspaces == w.pastWorkspaces && w'.nextUid == w.nextUid
    requires forall k :: k in w'.workspaces ==> k in w.workspaces && w'.workspaces[k] == w.workspaces[k]
    requires forall k :: k in w'.cachedWorkspaces ==> (k, w'.cachedWorkspaces[k]) in w.pastWorkspaces
    ensures WorkspacesLag(w')
  {}

  lemma ApplyKeepsLag(w: World, a: Action)
    requires WorkspacesLag(w) && Enabled(w, a) && (a.CreateWorkspace? || a.EditWorkspace?)
    ensures WorkspacesLag(Step(w, a))
  {
    hide OneState;
    if a.CreateWorkspace? {
      StoreKeepsLag(w, a.key, Workspace(w.nextUid, a.kind, a.spec, 1), w.nextUid + 1);
    } else {
      var ws := w.workspaces[a.key];
      StoreKeepsLag(w, a.key, ws.(spec := a.spec, generation := ws.generation + 1), w.nextUid);
    }
  }

  lemma WorkspacesLagKept(w: World, a: Action)
    requires WorkspacesLag(w) && Enabled(w, a)
    ensures WorkspacesLag(Step(w, a))
  {
    if a.CreateWorkspace? || a.EditWorkspace? {
      ApplyKeepsLag(w, a);
    } else {
      hide OneState;
      if Reconciles(a) {
        ReconcileFrame(w, a);
        hide Step;
      }
      WorkspacesFrame(w, Step(w, a));
    }
  }

  lemma WriteKeepsLag(w: World, name: string, kind: KindObject)
    requires KindsLag(w)
    ensures KindsLag(Write(w, name, kind))
  {}

  /** Caches and reconciles may change as long as they hold kinds of the past. */
  lemma KindsFrame(w: World, w': World)
    requires KindsLag(w) && w'.pastKinds == w.pastKinds && w'.version == w.version
    requires forall n :: n in w'.kinds ==> n in w.kinds && w'.kinds[n] == w.kinds[n]
    requires forall n :: n in w'.cachedKinds ==> (n, w'.cachedKinds[n]) in w.pastKinds
    requires forall n :: n in w'.flights ==> (n, w'.flights[n].kind) in w.pastKinds
    ensures KindsLag(w')
  {}

  /** The end of a reconcile. */
  lemma EndKeepsLag(w: World, name: string)
    requires KindsLag(w)
    ensures KindsLag(Done(w, name)) && KindsLag(Retry(w, name))
  {
    hide VersionsGrow;
    VersionsFrame(w, Done(w, name));
    VersionsFrame(w, Retry(w, name));
  }

  lemma VersionsFrame(w: World, w': World)
    requires VersionsGrow(w) && w'.pastKinds == w.pastKinds && w'.version == w.version && w'.kinds == w.kinds
    ensures VersionsGrow(w')
  {}

  lemma CarryOnKeepsLag(w: World, name: string, list: seq<WorkspaceSpec>)
    requires KindsLag(w) && name in w.kinds
    ensures KindsLag(CarryOn(w, name, list))
  {
    hide VersionsGrow;
    VersionsFrame(w, CarryOn(w, name, list));
  }

  lemma ReleaseKeepsLag(w: World, name: string, ok: bool)
    requires KindsLag(w) && name in w.flights && w.flights[name].Listed?
    ensures KindsLag(AfterRelease(w, name, ok))
  {
    hide KindsLag, Retry, CarryOn;
    EndKeepsLag(w, name);
    if Current(w, name, w.flights[name].kind) {
      WriteKeepsLag(w, name, w.kinds[name].(finalizer := false));
      CarryOnKeepsLag(Write(w, name, w.kinds[name].(finalizer := false)), name, w.flights[name].list);
    }
  }

  lemma FinishKeepsLag(w: World, name: string, ok: bool, assets: Assets)
    requires KindsLag(w) && name in w.flights && !w.flights[name].Fetched?
    ensures KindsLag(AfterFinish(w, name, ok, assets))
  {
    hide KindsLag, CountsOf, Done, Retry, Write;
    var f := w.flights[name];
    var status := KindStatus(CountsOf(f.kind.spec, f.list), assets);
    EndKeepsLag(w, name);
    if Current(w, name, f.kind) {
      WriteKeepsLag(w, name, w.kinds[name].(status := status));
      EndKeepsLag(Write(w, name, w.kinds[name].(status := status)), name);
    }
  }

  lemma KindsLagKept(w: World, a: Action)
    requires KindsLag(w) && Enabled(w, a)
    ensures KindsLag(Step(w, a))
  {
    if a.PutKind? {
      WriteKeepsLag(w, a.name, KindObject(a.kindSpec, a.finalizer, a.status, 0));
    } else if a.Release? {
      ReleaseKeepsLag(w, a.name, a.ok);
    } else if a.Finish? {
      FinishKeepsLag(w, a.name, a.ok, a.assets);
    } else {
      assert KindsKnown(w);
      hide Lists, VersionsGrow;
      KindsFrame(w, Step(w, a));
    }
  }

  /** A Workspace event leaves the listings of kinds it does not queue as they were, except those of the two kinds of a
      masked one. */
  lemma WorkspaceEventFrame(w: World, a: Action, name: string, list: seq<WorkspaceSpec>)
    requires WorkspacesLag(w) && Enabled(w, a) && a.SeeWorkspace?
    requires Masked(w, a) ==> name != w.cachedWorkspaces[a.key].kind && name != a.workspace.value.kind
    requires name !in Requests(Lookup(w.cachedWorkspaces, a.key), a.workspace)
    ensures Lists(list, w.cachedWorkspaces, name) <==> Lists(list, Step(w, a).cachedWorkspaces, name)
  {
    ListingFrame(list, w.cachedWorkspaces, Sync(w.cachedWorkspaces, a.key, a.workspace), name);
  }

  /** A kind stays covered while its own part of the controller state does not change. */
  lemma CoveredFrame(w: World, w': World, name: string)
    requires Covered(w, name)
    requires name in w.queue ==> name in w'.queue
    requires Lookup(w.flights, name) == Lookup(w'.flights, name) && Lookup(w.cachedKinds, name) == Lookup(w'.cachedKinds, name)
    requires Ahead(w, name) ==> Ahead(w', name)
    requires forall list :: Lists(list, w.cachedWorkspaces, name) <==> Lists(list, w'.cachedWorkspaces, name)
    ensures Covered(w', name)
  {
    hide Lists;
  }

  lemma CoveredByOthers(w: World, a: Action, name: string)
    requires Inv(w) && Enabled(w, a)
    requires a.CreateWorkspace? || a.EditWorkspace? || a.DeleteWorkspace? || a.PutKind? || a.DeleteKind?
    ensures Covered(Step(w, a), name)
  {
    hide Lists, Covered, WorkspacesLag;
    CoveredFrame(w, Step(w, a), name);
  }

  /** A kind to be listed stays covered whatever happens to the cached Workspaces. */
  lemma CoveredIfToBeListed(w: World, a: Action, name: string)
    requires Enabled(w, a) && a.SeeWorkspace? && ToBeListed(w, name)
    ensures Covered(Step(w, a), name)
  {
    hide Lists, Settled;
  }

  lemma CoveredByWatch(w: World, a: Action, name: string)
    requires Inv(w) && Enabled(w, a) && (a.SeeWorkspace? || a.SeeKind?) && !Missed(w, a)
    ensures Covered(Step(w, a), name)
  {
    hide Lists, WorkspacesLag, KindsLag, ToBeListed;
    if Masked(w, a) && (name == w.cachedWorkspaces[a.key].kind || name == a.workspace.value.kind) {
      CoveredIfToBeListed(w, a, name);
    } else if name !in Step(w, a).queue {
      forall list ensures Lists(list, w.cachedWorkspaces, name) <==> Lists(list, Step(w, a).cachedWorkspaces, name) {
        if a.SeeWorkspace? {
          WorkspaceEventFrame(w, a, name, list);
        }
      }
      CoveredFrame(w, Step(w, a), name);
    }
  }

  lemma CoveredByOtherReconcile(w: World, a: Action, name: string)
    requires Covered(w, name) && Enabled(w, a)
    requires Reconciles(a) && a.name != name
    ensures Covered(Step(w, a), name)
  {
    hide Lists, Covered, Step, Enabled;
    ReconcileFrame(w, a);
    Untouched(w, Step(w, a), a.name, name);
    CoveredFrame(w, Step(w, a), name);
  }

  lemma CoveredByOwnRead(w: World, a: Action)
    requires Inv(w) && Enabled(w, a) && (a.Fetch? || a.List? || a.Fail?)
    ensures Covered(Step(w, a), a.name)
  {
    hide Lists, Settled, WorkspacesLag, KindsLag;
    assert Covered(w, a.name);
  }

  lemma CoveredByOwnRelease(w: World, name: string, ok: bool)
    requires KindsLag(w) && Covered(w, name) && name in w.flights && w.flights[name].Listed?
    ensures Covered(AfterRelease(w, name, ok), name)
  {
    assert name in w.cachedKinds ==> w.cachedKinds[name].version <= w.version;
    hide Lists, Settled, KindsLag;
  }

  lemma CoveredByOwnFinish(w: World, name: string, ok: bool, assets: Assets)
    requires KindsLag(w) && Covered(w, name) && name in w.flights && !w.flights[name].Fetched? && !MustRelease(w.flights[name])
    ensures Covered(AfterFinish(w, name, ok, assets), name)
  {
    assert name in w.cachedKinds ==> w.cachedKinds[name].version <= w.version;
    if name !in w.queue && w.flights[name].Listed? {
      FinishedIsSettled(w, name);
    }
    hide Lists, Settled, CountsOf, KindsLag;
  }

  /** A recount that finds nothing to release and nothing to write has verified the cached kind. */
  lemma FinishedIsSettled(w: World, name: string)
    requires name in w.flights && w.flights[name].Listed? && UpToDate(w, name, w.flights[name]) && !MustRelease(w.flights[name])
    ensures CountsOf(w.flights[name].kind.spec, w.flights[name].list) == w.flights[name].kind.status.counts ==>
              Settled(w.cachedKinds[name], w.cachedWorkspaces, name)
  {
    hide CountsOf, Lists, Exact;
    OneRecountIsEnough(w.flights[name].kind, w.flights[name].list, w.cachedWorkspaces, name);
    OneListingIsEnough(w.flights[name].list, w.cachedWorkspaces, name);
  }

  lemma CoveredByReconcile(w: World, a: Action, name: string)
    requires Inv(w) && Enabled(w, a) && Reconciles(a)
    ensures Covered(Step(w, a), name)
  {
    hide Covered, WorkspacesLag, KindsLag, AfterRelease, AfterFinish, Lists;
    if a.name != name {
      CoveredByOtherReconcile(w, a, name);
    } else if a.Release? {
      CoveredByOwnRelease(w, name, a.ok);
    } else if a.Finish? {
      CoveredByOwnFinish(w, name, a.ok, a.assets);
    } else {
      CoveredByOwnRead(w, a);
    }
  }

  lemma StepKeepsInv(w: World, a: Action)
    requires Inv(w) && Enabled(w, a) && !Missed(w, a)
    ensures Inv(Step(w, a))
  {
    hide Covered, WorkspacesLag, KindsLag, Step, Enabled, Missed;
    WorkspacesLagKept(w, a);
    KindsLagKept(w, a);
    forall name: string ensures Covered(Step(w, a), name) {
      if a.SeeWorkspace? || a.SeeKind? {
        CoveredByWatch(w, a, name);
      } else if Reconciles(a) {
        CoveredByReconcile(w, a, name);
      } else {
        CoveredByOthers(w, a, name);
      }
    }
  }

  lemma {:induction false} ReachableInv(w: World, actions: seq<Action>, end: World)
    requires Inv(w) && Reaches(w, actions, end) && NoneMissed(w, actions)
    ensures Inv(end)
    decreases |actions|
  {
    hide Inv, Step, Enabled, Missed;
    if actions != [] {
      StepKeepsInv(w, actions[0]);
      ReachableInv(Step(w, actions[0]), actions[1..], end);
    }
  }

  // ---------- quiescent agreement ----------

  /** Nothing queued, nothing in flight, caches up to date. */
  predicate Quiescent(w: World) {
    && w.queue == {} && w.flights == map[]
    && w.cachedWorkspaces == w.workspaces && w.cachedKinds == w.kinds
  }

  /** Every stored kind has exact counts. */
  ghost predicate AllExact(w: World) {
    forall name :: name in w.kinds ==> Exact(w.kinds[name], w.workspaces, name)
  }

  /** Workspaces of a kind in the store, and those with a given imageConfig or podConfig. */
  ghost function Members(store: map<string, Workspace>, name: string): set<string> {
    set k | k in store && store[k].kind == name
  }

  ghost function ImageMembers(store: map<string, Workspace>, name: string, id: string): set<string> {
    set k | k in store && store[k].kind == name && store[k].spec.imageConfig == id
  }

  ghost function PodMembers(store: map<string, Workspace>, name: string, id: string): set<string> {
    set k | k in store && store[k].kind == name && store[k].spec.podConfig == id
  }

  /** The counts of a kind, field by field, are those of the Workspaces in the store, in 32 bits. */
  ghost predicate Accurate(c: UsageCounts, spec: KindSpec, store: map<string, Workspace>, name: string) {
    && c.workspaces == Wrap32(|Members(store, name)|)
    && |c.imageConfig| == |spec.imageConfigs| && |c.podConfig| == |spec.podConfigs|
    && (forall i :: 0 <= i < |spec.imageConfigs| ==>
          && c.imageConfig[i].id == spec.imageConfigs[i]
          && c.imageConfig[i].workspaces == Wrap32(|ImageMembers(store, name, spec.imageConfigs[i])|))
    && (forall i :: 0 <= i < |spec.podConfigs| ==>
          && c.podConfig[i].id == spec.podConfigs[i]
          && c.podConfig[i].workspaces == Wrap32(|PodMembers(store, name, spec.podConfigs[i])|))
  }

  /** Every stored kind has accurate counts, and no finalizer if no Workspace uses it. */
  ghost predicate AllAccurate(w: World) {
    forall name :: name in w.kinds ==>
      && Accurate(w.kinds[name].status.counts, w.kinds[name].spec, w.workspaces, name)
      && (w.kinds[name].finalizer ==> Members(w.workspaces, name) != {})
  }

  lemma {:induction false} SetAsSequence(s: set<string>) returns (keys: seq<string>)
    ensures Distinct(keys) && forall k :: k in keys <==> k in s
  {
    if s == {} {
      keys := [];
    } else {
      var k :| k in s;
      var rest := SetAsSequence(s - {k});
      keys := rest + [k];
    }
  }

  /** Every cache can be listed. */
  lemma ListingExists(cache: map<string, Workspace>, name: string) returns (keys: seq<string>, list: seq<WorkspaceSpec>)
    ensures ListsAs(keys, list, cache, name) && Lists(list, cache, name)
  {
    keys := SetAsSequence(set k | k in cache && cache[k].kind == name);
    forall i | 0 <= i < |keys| ensures keys[i] in cache { assert keys[i] in keys; }
    list := SpecsOf(keys, cache);
    assert ListsAs(keys, list, cache, name);
  }

  /** Places in a sequence of distinct keys are as many as the keys in them. */
  lemma {:induction false} PlacesAreKeys(keys: seq<string>, places: set<nat>)
    requires Distinct(keys) && forall j :: j in places ==> j < |keys|
    ensures |set j | j in places :: keys[j]| == |places|
    decreases |places|
  {
    if places != {} {
      var j :| j in places;
      PlacesAreKeys(keys, places - {j});
      assert (set i | i in places :: keys[i]) == (set i | i in places - {j} :: keys[i]) + {keys[j]};
    }
  }

  /** The places in a listing at which some Workspaces stand are as many as these Workspaces. */
  lemma PlacesAreMembers(keys: seq<string>, list: seq<WorkspaceSpec>, store: map<string, Workspace>, name: string, id: string)
    requires ListsAs(keys, list, store, name)
    ensures |list| == |Members(store, name)|
    ensures |ImageUsers(list, id)| == |ImageMembers(store, name, id)| && |PodUsers(list, id)| == |PodMembers(store, name, id)|
  {
    DistinctCount(keys, Members(store, name));
    PlacesAreKeys(keys, ImageUsers(list, id));
    PlacesAreKeys(keys, PodUsers(list, id));
    hide Distinct;
    assert ImageMembers(store, name, id) == set j | j in ImageUsers(list, id) :: keys[j] by {
      forall k | k in ImageMembers(store, name, id) ensures exists j :: j in ImageUsers(list, id) && keys[j] == k {
        assert k in keys;
        var j :| 0 <= j < |keys| && keys[j] == k;
        assert j in ImageUsers(list, id);
      }
    }
    assert PodMembers(store, name, id) == set j | j in PodUsers(list, id) :: keys[j] by {
      forall k | k in PodMembers(store, name, id) ensures exists j :: j in PodUsers(list, id) && keys[j] == k {
        assert k in keys;
        var j :| 0 <= j < |keys| && keys[j] == k;
        assert j in PodUsers(list, id);
      }
    }
  }

  lemma {:induction false} DistinctCount(keys: seq<string>, s: set<string>)
    requires Distinct(keys) && forall k :: k in keys <==> k in s
    ensures |keys| == |s|
  {
    if keys == [] {
      assert s == {};
    } else {
      var n := |keys| - 1;
      assert keys == keys[..n] + [keys[n]] && keys[n] !in keys[..n];
      DistinctCount(keys[..n], s - {keys[n]});
    }
  }

  /** Counts are exact if and only if they are accurate. */
  lemma ExactIsAccurate(kind: KindObject, store: map<string, Workspace>, name: string)
    ensures Exact(kind, store, name) <==> Accurate(kind.status.counts, kind.spec, store, name)
    ensures Lists([], store, name) <==> Members(store, name) == {}
  {
    var keys, list := ListingExists(store, name);
    OneRecountIsEnough(kind, list, store, name);
    OneListingIsEnough(list, store, name);
    TallyIsRecount(kind.status.counts, kind.spec, list);
    forall id
      ensures |list| == |Members(store, name)|
      ensures |ImageUsers(list, id)| == |ImageMembers(store, name, id)| && |PodUsers(list, id)| == |PodMembers(store, name, id)|
    {
      PlacesAreMembers(keys, list, store, name, id);
    }
    hide Exact, Lists, ListsAs, CountsOf, Wrap32, ImageUsers, PodUsers, ImageMembers, PodMembers, Members;
    PlacesAreMembers(keys, list, store, name, "");
  }

  lemma QuiescentIsExact(w: World)
    requires Inv(w) && Quiescent(w)
    ensures AllExact(w) && AllAccurate(w)
  {
    hide Exact, WorkspacesLag, KindsLag, Accurate, Lists, Members;
    forall name | name in w.kinds
      ensures Exact(w.kinds[name], w.workspaces, name)
      ensures Accurate(w.kinds[name].status.counts, w.kinds[name].spec, w.workspaces, name)
      ensures w.kinds[name].finalizer ==> Members(w.workspaces, name) != {}
    {
      assert Covered(w, name);
      ExactIsAccurate(w.kinds[name], w.workspaces, name);
    }
  }

  /** Over every interleaving without a missed event: when the controller has nothing left to do, the counts of every
      kind are exact: field by field those of the Workspaces in the store. And no unused kind keeps the finalizer. */
  lemma QuiescentAgreement(actions: seq<Action>, w: World)
    requires Reaches(EMPTY, actions, w) && NoneMissed(EMPTY, actions) && Quiescent(w)
    ensures AllExact(w) && AllAccurate(w)
  {
    ReachableInv(EMPTY, actions, w);
    hide *;
    QuiescentIsExact(w);
  }
}

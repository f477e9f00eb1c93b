/** Redirects between the options of a WorkspaceKind: cycle detection, admission, and resolution by the controller. */
module Redirects {
  import opened Prelude

  /** Where an option redirects to, and the message shown for it. */
  datatype Redirect = Redirect(to: string, message: Option<string>)

  datatype OptionValue = OptionValue(id: string, redirect: Option<Redirect>, spec: string)

  /** At most one outgoing edge per node. */
  type Edges = map<string, string>

  // ---------- walks ----------

  /** Node reached from `n` after `i` edges, if the walk is that long. */
  function Nth(e: Edges, n: string, i: nat): Option<string> {
    if i == 0 then Some(n)
    else
      var m := Nth(e, n, i - 1);
      if m.Some? && m.value in e then Some(e[m.value]) else None
  }

  ghost predicate Ends(e: Edges, n: string) {
    exists i: nat :: Nth(e, n, i).None?
  }

  ghost predicate Loops(e: Edges, n: string) {
    exists i: nat, j: nat :: i < j && Nth(e, n, i).Some? && Nth(e, n, i) == Nth(e, n, j)
  }

  lemma {:induction false} WalkOn(e: Edges, n: string, i: nat, j: nat)
    requires Nth(e, n, i).Some?
    ensures Nth(e, n, i + j) == Nth(e, Nth(e, n, i).value, j)
  {
    if j > 0 {
      WalkOn(e, n, i, j - 1);
    }
  }

  lemma {:induction false} WalkStaysEnded(e: Edges, n: string, i: nat, j: nat)
    requires i <= j && Nth(e, n, i).None?
    ensures Nth(e, n, j).None?
  {
    if i < j {
      WalkStaysEnded(e, n, i, j - 1);
    }
  }

  /** A walk that meets a node twice goes round for ever. */
  lemma {:induction false} LoopNeverEnds(e: Edges, n: string, i: nat, j: nat, k: nat)
    requires i < j && Nth(e, n, i).Some? && Nth(e, n, i) == Nth(e, n, j)
    ensures Nth(e, n, k).Some?
  {
    if k <= j {
      if Nth(e, n, k).None? {
        WalkStaysEnded(e, n, k, j);
      }
    } else {
      LoopNeverEnds(e, n, i, j, k - (j - i));
      WalkOn(e, n, i, k - j);
      WalkOn(e, n, j, k - j);
    }
  }

  lemma LoopsNorEnds(e: Edges, n: string)
    ensures !(Loops(e, n) && Ends(e, n))
  {
    if Loops(e, n) {
      var i: nat, j: nat :| i < j && Nth(e, n, i).Some? && Nth(e, n, i) == Nth(e, n, j);
      forall k: nat ensures Nth(e, n, k).Some? {
        LoopNeverEnds(e, n, i, j, k);
      }
    }
  }

  /** Ends is the same along a walk. */
  lemma EndsAlong(e: Edges, n: string, i: nat)
    requires Nth(e, n, i).Some?
    ensures Ends(e, n) <==> Ends(e, Nth(e, n, i).value)
  {
    var m := Nth(e, n, i).value;
    if t: nat :| Nth(e, n, t).None? {
      WalkStaysEnded(e, n, t, i + t);
      WalkOn(e, n, i, t);
    }
    if t: nat :| Nth(e, m, t).None? {
      WalkOn(e, n, i, t);
    }
  }

  // ---------- cycle detection ----------

  ghost predicate IsCycle(e: Edges, c: seq<string>) {
    && c != []
    && (forall i, j :: 0 <= i < j < |c| ==> c[i] != c[j])
    && (forall i :: 0 <= i < |c| ==> c[i] in e && e[c[i]] == c[if i + 1 < |c| then i + 1 else 0])
  }

  /** Every node is known to lead to no cycle. */
  ghost predicate Safe(e: Edges, nodes: set<string>) {
    forall n :: n in nodes ==> Ends(e, n)
  }

  /** The map of checked nodes shared between calls. */
  class CheckedNodes {
    var nodes: set<string>

    constructor ()
      ensures nodes == {}
    {
      nodes := {};
    }
  }

  method IndexOf(path: seq<string>, node: string) returns (i: nat)
    requires node in path
    ensures i < |path| && path[i] == node && forall j :: 0 <= j < i ==> path[j] != node
  {
    i := 0;
    while path[i] != node
      invariant i < |path| && forall j :: 0 <= j < i ==> path[j] != node
      decreases |path| - i
    {
      i := i + 1;
    }
  }

  /** The path walked so far: distinct nodes with an outgoing edge each. */
  ghost predicate Walked(e: Edges, start: string, path: seq<string>, current: string) {
    && (forall i :: 0 <= i < |path| ==> Nth(e, start, i) == Some(path[i]) && path[i] in e)
    && (forall i, j :: 0 <= i < j < |path| ==> path[i] != path[j])
    && Nth(e, start, |path|) == Some(current)
  }

  /** A reported cycle is a simple cycle that the walk from the start node runs into, and then nothing is marked.
      If the nodes marked so far are safe, no report means the walk ends, and the marked nodes stay safe. */
  method DetectGraphCycle(startNode: string, checked: CheckedNodes, edgeMap: Edges) returns (cycle: Option<seq<string>>)
    modifies checked
    ensures cycle.Some? ==> IsCycle(edgeMap, cycle.value) && Loops(edgeMap, startNode)
    ensures cycle.Some? ==> exists i: nat :: Nth(edgeMap, startNode, i) == Some(cycle.value[0])
    ensures cycle.Some? ==> checked.nodes == old(checked.nodes)
    ensures cycle.None? ==> old(checked.nodes) + {startNode} <= checked.nodes
    ensures cycle.None? && Safe(edgeMap, old(checked.nodes)) ==> Ends(edgeMap, startNode) && Safe(edgeMap, checked.nodes)
  {
    var currentPath: seq<string> := [];
    var currentPathNodes: set<string> := {};
    var currentNode := startNode;
    while currentNode !in checked.nodes
      invariant Walked(edgeMap, startNode, currentPath, currentNode)
      invariant currentPathNodes == set n | n in currentPath
      invariant startNode in currentPathNodes || currentNode == startNode
      invariant checked.nodes == old(checked.nodes)
      decreases edgeMap.Keys - currentPathNodes
    {
      if currentNode in currentPathNodes {
        var i := IndexOf(currentPath, currentNode);
        CycleFound(edgeMap, startNode, currentPath, currentNode, i);
        return Some(currentPath[i..]);
      }
      currentPath := currentPath + [currentNode];
      currentPathNodes := currentPathNodes + {currentNode};
      if currentNode !in edgeMap {
        assert Nth(edgeMap, startNode, |currentPath|).None?;
        break;
      }
      currentNode := edgeMap[currentNode];
    }
    if Safe(edgeMap, checked.nodes) {
      PathIsSafe(edgeMap, startNode, currentPath, currentNode, checked.nodes);
      assert forall n :: n in currentPathNodes ==> n in currentPath;
    }
    checked.nodes := checked.nodes + currentPathNodes;
    return None;
  }

  lemma CycleFound(e: Edges, start: string, path: seq<string>, current: string, i: nat)
    requires Walked(e, start, path, current) && i < |path| && path[i] == current
    ensures IsCycle(e, path[i..]) && Loops(e, start) && Nth(e, start, i) == Some(path[i..][0])
  {
    forall k | 0 <= k < |path[i..]|
      ensures path[i..][k] in e && e[path[i..][k]] == path[i..][if k + 1 < |path[i..]| then k + 1 else 0]
    {
      assert Nth(e, start, i + k) == Some(path[i + k]);
      assert Nth(e, start, i + k + 1) == Some(e[path[i + k]]);
    }
    assert Nth(e, start, i) == Nth(e, start, |path|);
  }

  lemma PathIsSafe(e: Edges, start: string, path: seq<string>, current: string, checked: set<string>)
    requires forall i :: 0 <= i < |path| ==> Nth(e, start, i) == Some(path[i])
    requires Safe(e, checked)
    requires Nth(e, start, |path|).None? || (current in checked && Nth(e, start, |path|) == Some(current))
    ensures Ends(e, start) && forall i :: 0 <= i < |path| ==> Ends(e, path[i])
  {
    if Nth(e, start, |path|).Some? {
      EndsAlong(e, start, |path|);
    }
    forall i | 0 <= i < |path| ensures Ends(e, path[i]) {
      EndsAlong(e, start, i);
    }
  }

  // ---------- admission ----------

  /** Every redirect has a target, and following redirects ends. */
  ghost predicate ValidEdges(ids: set<string>, e: Edges) {
    forall n :: n in e ==> Ends(e, n) && e[n] in ids
  }

  datatype RedirectError = Cycle(id: string, cycle: seq<string>) | Missing(id: string, target: string)

  ghost predicate Justified(ids: set<string>, e: Edges, err: RedirectError) {
    err.id in e && if err.Cycle? then IsCycle(e, err.cycle) && Loops(e, err.id) else e[err.id] == err.target && err.target !in ids
  }

  /** No error is reported exactly when the redirects are valid, whatever the order of iteration; every reported one is real, and
      all missing targets are reported unless a cycle cuts the check short. */
  method ValidateRedirects(ids: set<string>, redirectMap: Edges) returns (errs: seq<RedirectError>)
    ensures errs == [] <==> ValidEdges(ids, redirectMap)
    ensures forall i :: 0 <= i < |errs| ==> Justified(ids, redirectMap, errs[i])
    ensures (forall i :: 0 <= i < |errs| ==> !errs[i].Cycle?) ==>
              forall n :: n in redirectMap && redirectMap[n] !in ids ==> Missing(n, redirectMap[n]) in errs
  {
    errs := [];
    var checked := new CheckedNodes();
    var todo := redirectMap.Keys;
    while todo != {}
      invariant todo <= redirectMap.Keys && Safe(redirectMap, checked.nodes)
      invariant forall n :: n in redirectMap && n !in todo ==> Ends(redirectMap, n)
      invariant errs == [] <==> forall n :: n in redirectMap && n !in todo ==> redirectMap[n] in ids
      invariant forall i :: 0 <= i < |errs| ==> Justified(ids, redirectMap, errs[i]) && !errs[i].Cycle?
      invariant forall n :: n in redirectMap && n !in todo && redirectMap[n] !in ids ==> Missing(n, redirectMap[n]) in errs
      decreases todo
    {
      var id :| id in todo;
      todo := todo - {id};
      var cycle := DetectGraphCycle(id, checked, redirectMap);
      if cycle.Some? {
        LoopsNorEnds(redirectMap, id);
        errs := errs + [Cycle(id, cycle.value)];
        assert errs[|errs| - 1].Cycle?;
        return;
      }
      if redirectMap[id] !in ids {
        errs := errs + [Missing(id, redirectMap[id])];
      }
    }
  }

  function IdMap(values: seq<OptionValue>): map<string, OptionValue> {
    if values == [] then map[]
    else IdMap(values[..|values| - 1])[values[|values| - 1].id := values[|values| - 1]]
  }

  function RedirectMap(values: seq<OptionValue>): Edges {
    if values == [] then map[]
    else
      var v, rest := values[|values| - 1], RedirectMap(values[..|values| - 1]);
      if v.redirect.Some? then rest[v.id := v.redirect.value.to] else rest
  }

  /** Ids are the keys of the list, as the resource definition demands. */
  ghost predicate UniqueIds(values: seq<OptionValue>) {
    forall i, j :: 0 <= i < j < |values| ==> values[i].id != values[j].id
  }

  ghost predicate Valid(values: seq<OptionValue>) {
    ValidEdges(IdMap(values).Keys, RedirectMap(values))
  }

  method BuildMaps(values: seq<OptionValue>) returns (idMap: map<string, OptionValue>, redirectMap: Edges)
    ensures idMap == IdMap(values) && redirectMap == RedirectMap(values)
  {
    idMap, redirectMap := map[], map[];
    for i := 0 to |values|
      invariant idMap == IdMap(values[..i]) && redirectMap == RedirectMap(values[..i])
    {
      assert values[..i + 1][..i] == values[..i];
      idMap := idMap[values[i].id := values[i]];
      if values[i].redirect.Some? {
        redirectMap := redirectMap[values[i].id := values[i].redirect.value.to];
      }
    }
    assert values[..|values|] == values;
  }

  method ValidateCreate(values: seq<OptionValue>) returns (errs: seq<RedirectError>)
    ensures errs == [] <==> Valid(values)
  {
    var idMap, redirectMap := BuildMaps(values);
    errs := ValidateRedirects(idMap.Keys, redirectMap);
  }

  /** Some id was added or removed, or some redirect changed. */
  ghost predicate Changed(before: seq<OptionValue>, after: seq<OptionValue>) {
    var m := IdMap(before);
    || (exists i :: 0 <= i < |after| && (after[i].id !in m || m[after[i].id].redirect != after[i].redirect))
    || (exists id :: id in m && id !in IdMap(after))
  }

  /** An update is admitted if nothing about redirects changed, or if the new redirects are valid. */
  ghost predicate Admits(before: seq<OptionValue>, after: seq<OptionValue>) {
    !Changed(before, after) || Valid(after)
  }

  method ValidateUpdate(oldValues: seq<OptionValue>, newValues: seq<OptionValue>) returns (errs: seq<RedirectError>)
    ensures errs == [] <==> Admits(oldValues, newValues)
  {
    var shouldValidate := false;
    var oldIdMap, _ := BuildMaps(oldValues);
    var newIdMap, newRedirectMap := BuildMaps(newValues);
    for i := 0 to |newValues|
      invariant shouldValidate <==>
        exists j :: 0 <= j < i && (newValues[j].id !in oldIdMap || oldIdMap[newValues[j].id].redirect != newValues[j].redirect)
    {
      if newValues[i].id !in oldIdMap {
        shouldValidate := true;
      } else if !shouldValidate && oldIdMap[newValues[i].id].redirect != newValues[i].redirect {
        shouldValidate := true;
      }
    }
    ghost var valuesChanged := shouldValidate;
    var todo := oldIdMap.Keys;
    while todo != {}
      invariant todo <= oldIdMap.Keys
      invariant shouldValidate <==> valuesChanged || exists id :: id in oldIdMap && id !in todo && id !in newIdMap
      decreases todo
    {
      var id :| id in todo;
      todo := todo - {id};
      if id !in newIdMap {
        shouldValidate := true;
      }
    }
    errs := [];
    if shouldValidate {
      errs := ValidateRedirects(newIdMap.Keys, newRedirectMap);
    }
  }

  // ---------- the two views of redirects ----------

  lemma {:induction false} IdMapHolds(values: seq<OptionValue>)
    ensures forall id :: id in IdMap(values) ==> IdMap(values)[id].id == id && IdMap(values)[id] in values
    ensures forall i :: 0 <= i < |values| ==> values[i].id in IdMap(values)
  {
    if values != [] {
      IdMapHolds(values[..|values| - 1]);
    }
  }

  /** Of several values with one id the last one counts. */
  lemma {:induction false} LastValueCounts(values: seq<OptionValue>, i: nat)
    requires i < |values| && forall j :: i < j < |values| ==> values[j].id != values[i].id
    ensures values[i].id in IdMap(values) && IdMap(values)[values[i].id] == values[i]
  {
    if i < |values| - 1 {
      LastValueCounts(values[..|values| - 1], i);
    }
  }

  /** The redirects the controller follows. */
  function EdgesOf(m: map<string, OptionValue>): Edges {
    map id | id in m && m[id].redirect.Some? :: m[id].redirect.value.to
  }

  /** With unique ids admission and controller look at the same redirects. */
  lemma {:induction false} SameRedirects(values: seq<OptionValue>)
    requires UniqueIds(values)
    ensures EdgesOf(IdMap(values)) == RedirectMap(values)
  {
    if values != [] {
      var init, v := values[..|values| - 1], values[|values| - 1];
      SameRedirects(init);
      IdMapHolds(init);
      assert v.id !in IdMap(init);
    }
  }

  /** Without a change the redirects are the same. */
  lemma UnchangedRedirects(before: seq<OptionValue>, after: seq<OptionValue>)
    requires !Changed(before, after)
    ensures EdgesOf(IdMap(before)) == EdgesOf(IdMap(after)) && IdMap(before).Keys == IdMap(after).Keys
  {
    var a, b := IdMap(before), IdMap(after);
    IdMapHolds(after);
    forall id | id in b
      ensures id in a && a[id].redirect == b[id].redirect
    {
      var i :| 0 <= i < |after| && after[i] == b[id];
      assert after[i].id in a;
    }
  }

  /** Skipping validation of an unchanged update is sound and complete: starting from a valid WorkspaceKind, an update is admitted
      exactly when full validation would admit it. */
  lemma IncrementalValidation(before: seq<OptionValue>, after: seq<OptionValue>)
    requires UniqueIds(before) && UniqueIds(after) && Valid(before)
    ensures Admits(before, after) <==> Valid(after)
  {
    SameRedirects(before);
    SameRedirects(after);
    if !Changed(before, after) {
      UnchangedRedirects(before, after);
    }
  }

  // ---------- resolution by the controller ----------

  /** `chain` lists the redirects followed; `desired` is None when there is none. */
  datatype Resolved = Resolved(current: OptionValue, desired: Option<OptionValue>, chain: seq<(string, string)>)

  datatype ResolveError = NotFound(id: string) | Circular(id: string) | Dangling(target: string, source: string)

  /** The redirects from `key` end, and every option on the way exists. */
  ghost predicate Resolvable(m: map<string, OptionValue>, key: string) {
    && key in m
    && Ends(EdgesOf(m), key)
    && forall i: nat :: Nth(EdgesOf(m), key, i).Some? ==> Nth(EdgesOf(m), key, i).value in m
  }

  /** `chain` is the walk from `key` to `last`. */
  ghost predicate IsChain(e: Edges, key: string, chain: seq<(string, string)>, last: string) {
    && (forall i :: 0 <= i < |chain| ==> Nth(e, key, i) == Some(chain[i].0) && Nth(e, key, i + 1) == Some(chain[i].1))
    && Nth(e, key, |chain|) == Some(last)
  }

  /** Resolution follows the whole chain to an option without redirect; it fails exactly when the option does not exist, the redirects run in a circle,
      or a target is missing. */
  method GetConfig(values: seq<OptionValue>, key: string) returns (r: Result<Resolved, ResolveError>)
    ensures r.Ok? <==> Resolvable(IdMap(values), key)
    ensures r.Ok? ==>
              && var m := IdMap(values);
              && r.value.current == m[key]
              && (r.value.desired.Some? <==> m[key].redirect.Some?)
              && (r.value.desired.None? ==> r.value.chain == [])
              && (r.value.desired.Some? ==>
                    var d := r.value.desired.value;
                    d.id in m && d == m[d.id] && d.redirect.None? && d.id != key && IsChain(EdgesOf(m), key, r.value.chain, d.id))
    ensures r.Err? && r.error.Circular? ==>
              Loops(EdgesOf(IdMap(values)), key) && exists i: nat :: Nth(EdgesOf(IdMap(values)), key, i) == Some(r.error.id)
    ensures r.Err? && r.error.Dangling? ==>
              && r.error.target !in IdMap(values)
              && r.error.source in EdgesOf(IdMap(values)) && EdgesOf(IdMap(values))[r.error.source] == r.error.target
              && exists i: nat :: Nth(EdgesOf(IdMap(values)), key, i) == Some(r.error.source)
    ensures r == Err(NotFound(key)) <==> key !in IdMap(values)
  {
    var idMap, _ := BuildMaps(values);
    ghost var e := EdgesOf(idMap);
    IdMapHolds(values);
    if key !in idMap {
      return Err(NotFound(key));
    }
    var current := idMap[key];
    var desired := current;
    var redirectChain: seq<(string, string)> := [];
    var visited := {current.id};
    while desired.redirect.Some?
      invariant desired.id in idMap && desired == idMap[desired.id] && visited <= idMap.Keys
      invariant IsChain(e, key, redirectChain, desired.id)
      invariant visited == {key} + set i | 0 <= i < |redirectChain| :: redirectChain[i].1
      invariant redirectChain != [] ==> desired.id != key && current.redirect.Some?
      decreases idMap.Keys - visited
    {
      hide IsChain, Ends;
      var to := desired.redirect.value.to;
      ChainGrows(e, key, redirectChain, desired.id);
      if to in visited {
        VisitedTwice(e, key, redirectChain, desired.id, to);
        assert !Resolvable(idMap, key);
        return Err(Circular(desired.id));
      }
      if to !in idMap {
        return Err(Dangling(to, desired.id));
      }
      redirectChain := redirectChain + [(desired.id, to)];
      desired := idMap[to];
      visited := visited + {to};
    }
    ChainEnds(idMap, key, redirectChain, desired.id);
    if current.id != desired.id {
      return Ok(Resolved(current, Some(desired), redirectChain));
    } else {
      return Ok(Resolved(current, None, []));
    }
  }

  /** A chain grows by the next redirect. */
  lemma ChainGrows(e: Edges, key: string, chain: seq<(string, string)>, last: string)
    requires IsChain(e, key, chain, last) && last in e
    ensures Nth(e, key, |chain| + 1) == Some(e[last])
    ensures IsChain(e, key, chain + [(last, e[last])], e[last])
    ensures Nth(e, key, |chain|) == Some(last)
  {}

  lemma VisitedTwice(e: Edges, key: string, chain: seq<(string, string)>, last: string, to: string)
    requires IsChain(e, key, chain, last) && last in e && e[last] == to
    requires to == key || exists i :: 0 <= i < |chain| && chain[i].1 == to
    ensures Loops(e, key) && !Ends(e, key)
  {
    assert Nth(e, key, |chain| + 1) == Some(to);
    if to == key {
      assert Nth(e, key, 0) == Nth(e, key, |chain| + 1);
    } else {
      var i :| 0 <= i < |chain| && chain[i].1 == to;
      assert Nth(e, key, i + 1) == Nth(e, key, |chain| + 1);
    }
    LoopsNorEnds(e, key);
  }

  lemma ChainEnds(m: map<string, OptionValue>, key: string, chain: seq<(string, string)>, last: string)
    requires key in m && last in m && m[last].redirect.None? && IsChain(EdgesOf(m), key, chain, last)
    requires forall i :: 0 <= i < |chain| ==> chain[i].1 in m
    ensures Resolvable(m, key)
  {
    var e := EdgesOf(m);
    assert Nth(e, key, |chain| + 1).None?;
    forall i: nat | Nth(e, key, i).Some? ensures Nth(e, key, i).value in m {
      if i > |chain| {
        WalkStaysEnded(e, key, |chain| + 1, i);
      } else if i > 0 {
        assert Nth(e, key, i - 1 + 1) == Some(chain[i - 1].1);
      }
    }
  }

  // ---------- admitted WorkspaceKinds resolve ----------

  /** Valid redirects are exactly those the controller can resolve from every option. */
  lemma ValidIffResolvable(values: seq<OptionValue>)
    requires UniqueIds(values)
    ensures Valid(values) <==> forall key :: key in IdMap(values) ==> Resolvable(IdMap(values), key)
  {
    var m := IdMap(values);
    var e := EdgesOf(m);
    SameRedirects(values);
    if Valid(values) {
      forall key | key in m ensures Resolvable(m, key) {
        if key !in e {
          assert Nth(e, key, 1).None?;
        }
        forall i: nat | Nth(e, key, i).Some? ensures Nth(e, key, i).value in m {
          if i > 0 {
            assert Nth(e, key, i - 1).value in e;
          }
        }
      }
    }
    if forall key :: key in m ==> Resolvable(m, key) {
      forall n | n in e ensures Ends(e, n) && e[n] in m {
        assert Resolvable(m, n) && Nth(e, n, 1) == Some(e[n]);
      }
    }
  }

  /** Versions of a WorkspaceKind: created, then updated any number of times, each step admitted. */
  ghost predicate AdmittedHistory(versions: seq<seq<OptionValue>>) {
    && (forall k :: 0 <= k < |versions| ==> UniqueIds(versions[k]))
    && (versions != [] ==> Valid(versions[0]))
    && (forall k :: 0 < k < |versions| ==> Admits(versions[k - 1], versions[k]))
  }

  /** In every stored version the controller resolves every declared option without a redirect error. */
  lemma {:induction false} AdmittedAlwaysResolves(versions: seq<seq<OptionValue>>, k: nat, key: string)
    requires AdmittedHistory(versions) && k < |versions|
    ensures Valid(versions[k])
    ensures key in IdMap(versions[k]) ==> Resolvable(IdMap(versions[k]), key)
  {
    hide Valid, Resolvable, Admits;
    if k > 0 {
      AdmittedAlwaysResolves(versions, k - 1, key);
      IncrementalValidation(versions[k - 1], versions[k]);
    }
    ValidIffResolvable(versions[k]);
  }
}

/** Location paths of created resources, built by substitution into route patterns. */
module Locations {
  import opened Prelude

  // ---------- substitution ----------

  predicate OccursAt(s: string, sub: string, i: nat) {
    i + |sub| <= |s| && forall j :: 0 <= j < |sub| ==> s[i + j] == sub[j]
  }

  ghost predicate Contains(s: string, sub: string) {
    exists i: nat :: OccursAt(s, sub, i)
  }

  /** First position from `from` on at which `sub` occurs. */
  function Find(s: string, sub: string, from: nat): (r: Option<nat>)
    ensures r.Some? ==> from <= r.value && OccursAt(s, sub, r.value) && forall j :: from <= j < r.value ==> !OccursAt(s, sub, j)
    ensures r.None? ==> forall j :: from <= j ==> !OccursAt(s, sub, j)
    decreases |s| - from
  {
    if from + |sub| > |s| then None
    else if OccursAt(s, sub, from) then Some(from)
    else Find(s, sub, from + 1)
  }

  /** `strings.Replace` with a count of one. */
  function ReplaceFirst(s: string, sub: string, text: string): string {
    match Find(s, sub, 0)
    case None => s
    case Some(i) => s[..i] + text + s[i + |sub|..]
  }

  // ---------- builders ----------

  const NAMESPACE := "namespace"
  const NAME := "name"
  const NAMESPACE_PARAM := ":" + NAMESPACE
  const NAME_PARAM := ":" + NAME

  /** Pattern of a namespaced resource below `base`. */
  function NamespacedPattern(base: string): string {
    base + "/" + NAMESPACE_PARAM + "/" + NAME_PARAM
  }

  function NamedPattern(base: string): string {
    base + "/" + NAME_PARAM
  }

  const WORKSPACES := "/api/v1/workspaces"
  const SECRETS := "/api/v1/secrets"
  const WORKSPACE_KINDS := "/api/v1/workspacekinds"

  /** The namespace is substituted first, then the name. */
  function LocationNamespaced(base: string, namespace: string, name: string): string {
    ReplaceFirst(ReplaceFirst(NamespacedPattern(base), NAMESPACE_PARAM, namespace), NAME_PARAM, name)
  }

  function LocationGetWorkspace(namespace: string, name: string): string {
    LocationNamespaced(WORKSPACES, namespace, name)
  }

  function LocationGetSecret(namespace: string, name: string): string {
    LocationNamespaced(SECRETS, namespace, name)
  }

  function LocationGetWorkspaceKind(name: string): string {
    ReplaceFirst(NamedPattern(WORKSPACE_KINDS), NAME_PARAM, name)
  }

  // ---------- routes ----------

  function Split(s: string): (r: seq<string>)
    ensures |r| >= 1
  {
    if s == "" then [""]
    else
      var rest := Split(s[1..]);
      if s[0] == '/' then [""] + rest else Extend(s[0], rest)
  }

  /** One more character in front of the first segment. */
  function Extend(c: char, segments: seq<string>): (r: seq<string>)
    requires |segments| >= 1
    ensures |r| == |segments|
  {
    [[c] + segments[0]] + segments[1..]
  }

  predicate IsParam(segment: string) {
    segment != "" && segment[0] == ':'
  }

  /** Segment by segment; a parameter takes one non-empty segment. */
  function MatchSegments(pattern: seq<string>, path: seq<string>): Option<map<string, string>> {
    if |pattern| != |path| then None
    else if pattern == [] then Some(map[])
    else
      var rest := MatchSegments(pattern[1..], path[1..]);
      if rest.None? then None
      else if IsParam(pattern[0]) then if path[0] == "" then None else Some(rest.value[pattern[0][1..] := path[0]])
      else if pattern[0] == path[0] then rest
      else None
  }

  function MatchRoute(pattern: string, path: string): Option<map<string, string>> {
    MatchSegments(Split(pattern), Split(path))
  }

  // ---------- splitting ----------

  lemma {:induction false} SplitJoin(a: string, b: string)
    ensures Split(a + "/" + b) == Split(a) + Split(b)
  {
    if a == "" {
      SplitFirst('/', b);
      assert a + "/" + b == ['/'] + b;
    } else {
      hide Split, Extend;
      var rest, joined := a[1..], a[1..] + "/" + b;
      SplitJoin(rest, b);
      SplitStep(a[0], rest, joined, Split(b));
      Regrouped(a, b);
    }
  }

  lemma Regrouped(a: string, b: string)
    requires a != ""
    ensures a == [a[0]] + a[1..] && a + "/" + b == [a[0]] + (a[1..] + "/" + b)
  {}

  /** One more character in front of both leaves the common part in front. */
  lemma SplitStep(c: char, s: string, t: string, tail: seq<string>)
    requires Split(t) == Split(s) + tail
    ensures Split([c] + t) == Split([c] + s) + tail
  {
    SplitFirst(c, s);
    SplitFirst(c, t);
    ExtendAppend(c, Split(s), tail);
    hide Split, Extend;
    assert [""] + (Split(s) + tail) == [""] + Split(s) + tail;
  }

  /** The first character opens a segment or belongs to the first one. */
  lemma SplitFirst(c: char, s: string)
    ensures Split([c] + s) == if c == '/' then [""] + Split(s) else Extend(c, Split(s))
  {
    hide Extend;
    assert ([c] + s)[1..] == s;
  }

  lemma ExtendAppend(c: char, first: seq<string>, rest: seq<string>)
    requires |first| >= 1
    ensures Extend(c, first + rest) == Extend(c, first) + rest
  {
    assert (first + rest)[1..] == first[1..] + rest;
  }

  lemma {:induction false} SplitWhole(s: string)
    ensures '/' !in s ==> Split(s) == [s]
    ensures '/' in s ==> |Split(s)| > 1
  {
    if s != "" {
      SplitWhole(s[1..]);
      assert s == [s[0]] + s[1..];
    }
  }

  lemma {:induction false} SegmentsOf(s: string)
    requires ':' !in s
    ensures forall i :: 0 <= i < |Split(s)| ==> ':' !in Split(s)[i]
  {
    if s != "" {
      SegmentsOf(s[1..]);
    }
  }

  /** A literal prefix matches itself. */
  lemma {:induction false} LiteralPrefix(prefix: seq<string>, pattern: seq<string>, path: seq<string>)
    requires forall i :: 0 <= i < |prefix| ==> ':' !in prefix[i]
    ensures MatchSegments(prefix + pattern, prefix + path) == MatchSegments(pattern, path)
  {
    if prefix == [] {
      assert prefix + pattern == pattern && prefix + path == path;
    } else {
      LiteralPrefix(prefix[1..], pattern, path);
      assert (prefix + pattern)[1..] == prefix[1..] + pattern && (prefix + path)[1..] == prefix[1..] + path;
      assert (prefix + pattern)[0] == prefix[0] && (prefix + path)[0] == prefix[0];
      assert !IsParam(prefix[0]);
    }
  }

  // ---------- replacing ----------

  /** Replacement hits the first occurrence. */
  lemma ReplaceAfter(a: string, sub: string, b: string, text: string)
    requires |sub| > 0 && forall i :: 0 <= i < |a| ==> !OccursAt(a + sub + b, sub, i)
    ensures ReplaceFirst(a + sub + b, sub, text) == a + text + b
  {
    assert OccursAt(a + sub + b, sub, |a|);
  }

  lemma OccurrenceStart(s: string, sub: string, i: nat)
    requires |sub| > 0 && OccursAt(s, sub, i)
    ensures s[i] == sub[0] && s[i] in s
  {
    assert s[i + 0] == sub[0];
  }

  /** A parameter cannot begin where there is no colon. */
  lemma NoColonNoParam(a: string, param: string, rest: string)
    requires ':' !in a && IsParam(param)
    ensures forall i :: 0 <= i < |a| ==> !OccursAt(a + rest, param, i)
  {
    forall i | 0 <= i < |a|
      ensures !OccursAt(a + rest, param, i)
    {
      assert (a + rest)[i] == a[i] && a[i] in a;
      if OccursAt(a + rest, param, i) {
        OccurrenceStart(a + rest, param, i);
      }
    }
  }

  /** First substitution: the part before a parameter has no colon. */
  lemma ReplaceParam(base: string, param: string, tail: string, text: string)
    requires ':' !in base && IsParam(param)
    ensures ReplaceFirst(base + "/" + param + tail, param, text) == base + "/" + text + tail
  {
    var a := base + "/";
    assert a + param + tail == a + (param + tail);
    NoColonNoParam(a, param, param + tail);
    ReplaceAfter(a, param, tail, text);
  }

  /** An occurrence of the parameter that begins before its own place lies inside the text in between. */
  lemma OccurrenceInside(base: string, text: string, param: string, i: nat)
    requires ':' !in base && IsParam(param) && '/' !in param && i < |base| + 1 + |text| + 1
    ensures OccursAt(base + "/" + text + "/" + param, param, i) <==>
            i >= |base| + 1 && OccursAt(text, param, i - |base| - 1)
  {
    var a, s := base + "/", base + "/" + text + "/" + param;
    assert s == a + (text + "/" + param);
    if i < |a| {
      NoColonNoParam(a, param, text + "/" + param);
    } else {
      var k := i - |a|;
      assert forall j :: 0 <= j < |text| ==> s[|a| + j] == text[j];
      if k + |param| <= |text| {
        forall j | 0 <= j < |param| ensures s[i + j] == param[j] <==> text[k + j] == param[j] {}
      } else if OccursAt(s, param, i) {
        SlashInside(s, param, i, |a| + |text|);
      }
    }
  }

  /** A slash in the middle of a supposed occurrence is a slash in the parameter. */
  lemma SlashInside(s: string, param: string, i: nat, at: nat)
    requires OccursAt(s, param, i) && i <= at < i + |param|
    ensures s[at] == param[at - i] && param[at - i] in param
  {
    assert s[i + (at - i)] == param[at - i];
  }

  /** Second substitution: it hits the parameter if the text before it does not contain it ... */
  lemma ReplaceLast(base: string, text: string, param: string, name: string)
    requires ':' !in base && IsParam(param) && '/' !in param && !Contains(text, param)
    ensures ReplaceFirst(base + "/" + text + "/" + param, param, name) == base + "/" + text + "/" + name
  {
    var a := base + "/" + text + "/";
    assert a + param + "" == a + param;
    forall i | 0 <= i < |a| ensures !OccursAt(a + param, param, i) {
      OccurrenceInside(base, text, param, i);
    }
    ReplaceAfter(a, param, "", name);
    assert a + name + "" == a + name;
  }

  /** ... and otherwise the text is changed and the parameter stays. */
  lemma ReplaceInside(base: string, text: string, param: string, name: string) returns (k: nat)
    requires ':' !in base && IsParam(param) && '/' !in param && Contains(text, param)
    ensures OccursAt(text, param, k)
    ensures ReplaceFirst(base + "/" + text + "/" + param, param, name) ==
            base + "/" + (text[..k] + name + text[k + |param|..]) + "/" + param
  {
    var i: nat :| OccursAt(text, param, i);
    k := Find(text, param, 0).value;
    var head, rest := text[..k], text[k + |param|..];
    NothingEarlier(base, text, param, k);
    OccurrenceSplits(text, param, k);
    hide OccursAt, Find, ReplaceFirst;
    Regroup(base, head, param, rest, param);
    Regroup(base, head, name, rest, param);
    ReplaceAfter(base + "/" + head, param, rest + "/" + param, name);
  }

  lemma NothingEarlier(base: string, text: string, param: string, k: nat)
    requires ':' !in base && IsParam(param) && '/' !in param && k <= |text|
    requires forall j :: 0 <= j < k ==> !OccursAt(text, param, j)
    ensures forall j :: 0 <= j < |base| + 1 + k ==> !OccursAt(base + "/" + text + "/" + param, param, j)
  {
    hide OccursAt;
    forall j | 0 <= j < |base| + 1 + k
      ensures !OccursAt(base + "/" + text + "/" + param, param, j)
    {
      OccurrenceInside(base, text, param, j);
    }
  }

  lemma Regroup(base: string, head: string, middle: string, rest: string, param: string)
    ensures base + "/" + (head + middle + rest) + "/" + param == (base + "/" + head) + middle + (rest + "/" + param)
  {}

  lemma OccurrenceSplits(text: string, param: string, k: nat)
    requires OccursAt(text, param, k)
    ensures text == text[..k] + param + text[k + |param|..]
  {
    assert text[k..k + |param|] == param;
  }

  // ---------- round trip ----------

  predicate IsSegment(s: string) {
    s != "" && '/' !in s
  }

  /** What a pattern of two parameters makes of a path with two parts below the base. */
  lemma MatchParts(base: string, p: string, q: string, x: string, y: string)
    requires ':' !in base && IsParam(p) && IsParam(q) && '/' !in p && '/' !in q && p[1..] != q[1..]
    ensures MatchRoute(base + "/" + p + "/" + q, base + "/" + x + "/" + y) ==
            if IsSegment(x) && IsSegment(y) then Some(map[p[1..] := x, q[1..] := y]) else None
  {
    SplitTwo(base, p, q);
    SplitTwo(base, x, y);
    SegmentsOf(base);
    SplitWhole(p);
    SplitWhole(q);
    LiteralPrefix(Split(base), [p] + [q], Split(x) + Split(y));
    MatchTwo(p, q, x, y);
  }

  lemma SplitTwo(base: string, x: string, y: string)
    ensures Split(base + "/" + x + "/" + y) == Split(base) + (Split(x) + Split(y))
  {
    SplitJoin(base, x);
    SplitJoin(base + "/" + x, y);
  }

  lemma MatchTwo(p: string, q: string, x: string, y: string)
    requires IsParam(p) && IsParam(q) && p[1..] != q[1..]
    ensures MatchSegments([p] + [q], Split(x) + Split(y)) ==
            if IsSegment(x) && IsSegment(y) then Some(map[p[1..] := x, q[1..] := y]) else None
  {
    SplitWhole(x);
    SplitWhole(y);
    if '/' !in x && '/' !in y {
      hide Split;
      MatchOne(q, y);
      assert ([p] + [q])[1..] == [q] && ([x] + [y])[1..] == [y];
      assert map[q[1..] := y][p[1..] := x] == map[p[1..] := x, q[1..] := y];
    }
  }

  lemma MatchOne(q: string, y: string)
    requires IsParam(q)
    ensures MatchSegments([q], [y]) == if y == "" then None else Some(map[q[1..] := y])
  {
    assert [q][1..] == [] && [y][1..] == [];
    assert map[][q[1..] := y] == map[q[1..] := y];
  }

  lemma Params()
    ensures IsParam(NAMESPACE_PARAM) && IsParam(NAME_PARAM) && '/' !in NAMESPACE_PARAM && '/' !in NAME_PARAM
    ensures NAMESPACE_PARAM[1..] == NAMESPACE && NAME_PARAM[1..] == NAME && NAMESPACE != NAME
  {
    assert |NAMESPACE| != |NAME|;
  }

  /** Exactly when the route gives back what the location was built from: both parts are path segments, and the
      namespace does not contain the placeholder of the name (or the name is that placeholder). */
  lemma RoundTripExactly(base: string, namespace: string, name: string)
    requires ':' !in base
    ensures MatchRoute(NamespacedPattern(base), LocationNamespaced(base, namespace, name)) ==
            Some(map[NAMESPACE := namespace, NAME := name])
            <==> IsSegment(namespace) && IsSegment(name) && (!Contains(namespace, NAME_PARAM) || name == NAME_PARAM)
  {
    Params();
    RoundTripFor(base, NAMESPACE_PARAM, NAME_PARAM, namespace, name);
  }

  /** The same for any two parameters. */
  lemma RoundTripFor(base: string, p: string, q: string, namespace: string, name: string)
    requires ':' !in base && IsParam(p) && IsParam(q) && '/' !in p && '/' !in q && p[1..] != q[1..]
    ensures MatchRoute(base + "/" + p + "/" + q, ReplaceFirst(ReplaceFirst(base + "/" + p + "/" + q, p, namespace), q, name)) ==
            Some(map[p[1..] := namespace, q[1..] := name])
            <==> IsSegment(namespace) && IsSegment(name) && (!Contains(namespace, q) || name == q)
  {
    hide MatchRoute, ReplaceFirst;
    assert base + "/" + p + "/" + q == base + "/" + p + ("/" + q);
    ReplaceParam(base, p, "/" + q, namespace);
    assert base + "/" + namespace + ("/" + q) == base + "/" + namespace + "/" + q;
    var wanted := map[p[1..] := namespace, q[1..] := name];
    if !Contains(namespace, q) {
      ReplaceLast(base, namespace, q, name);
      MatchParts(base, p, q, namespace, name);
    } else {
      var k := ReplaceInside(base, namespace, q, name);
      var x := namespace[..k] + name + namespace[k + |q|..];
      MatchParts(base, p, q, x, q);
      assert map[p[1..] := x, q[1..] := q][q[1..]] == q && wanted[q[1..]] == name;
      if name == q {
        OccurrenceSplits(namespace, q, k);
      }
    }
  }

  // ---------- closed forms ----------

  /** What the builders build, as long as the namespace does not contain the placeholder of the name. */
  lemma LocationsAre(namespace: string, name: string)
    requires !Contains(namespace, NAME_PARAM)
    ensures LocationGetWorkspace(namespace, name) == "/api/v1/workspaces/" + namespace + "/" + name
    ensures LocationGetSecret(namespace, name) == "/api/v1/secrets/" + namespace + "/" + name
  {
    Params();
    LocationIs("/api/v1/workspaces", namespace, name);
    LocationIs("/api/v1/secrets", namespace, name);
    hide LocationNamespaced, Contains;
    assert "/api/v1/workspaces" + "/" == "/api/v1/workspaces/" && "/api/v1/secrets" + "/" == "/api/v1/secrets/";
  }

  lemma LocationIs(base: string, namespace: string, name: string)
    requires ':' !in base && !Contains(namespace, NAME_PARAM)
    ensures LocationNamespaced(base, namespace, name) == base + "/" + namespace + "/" + name
  {
    Params();
    hide ReplaceFirst, Contains;
    assert NamespacedPattern(base) == base + "/" + NAMESPACE_PARAM + ("/" + NAME_PARAM);
    ReplaceParam(base, NAMESPACE_PARAM, "/" + NAME_PARAM, namespace);
    assert base + "/" + namespace + ("/" + NAME_PARAM) == base + "/" + namespace + "/" + NAME_PARAM;
    ReplaceLast(base, namespace, NAME_PARAM, name);
  }

  lemma KindLocationIs(name: string)
    ensures LocationGetWorkspaceKind(name) == "/api/v1/workspacekinds/" + name
  {
    Params();
    var base := "/api/v1/workspacekinds";
    hide ReplaceFirst;
    assert base + "/" + NAME_PARAM + "" == NamedPattern(base);
    ReplaceParam(base, NAME_PARAM, "", name);
    assert base + "/" + name + "" == "/api/v1/workspacekinds/" + name;
  }

  // ---------- Kubernetes names ----------

  predicate Alphanumeric(c: char) {
    'a' <= c <= 'z' || '0' <= c <= '9'
  }

  /** DNS label as in RFC 1123. */
  predicate IsLabel(s: string) {
    && 1 <= |s| <= 63 && Alphanumeric(s[0]) && Alphanumeric(s[|s| - 1])
    && forall i :: 0 <= i < |s| ==> Alphanumeric(s[i]) || s[i] == '-'
  }

  /** Labels separated by dots, as in RFC 1123. */
  predicate IsSubdomain(s: string) {
    && 1 <= |s| <= 253 && Alphanumeric(s[0]) && Alphanumeric(s[|s| - 1])
    && (forall i :: 0 <= i < |s| ==> Alphanumeric(s[i]) || s[i] == '-' || s[i] == '.')
    && (forall i :: 0 < i < |s| - 1 && s[i] == '.' ==> Alphanumeric(s[i - 1]) && Alphanumeric(s[i + 1]))
  }

  /** Every Workspace and Secret location leads back to its namespace and name. */
  lemma LocationRoundTrip(namespace: string, name: string)
    requires IsLabel(namespace) && IsSubdomain(name)
    ensures MatchRoute(NamespacedPattern(WORKSPACES), LocationGetWorkspace(namespace, name)) ==
            Some(map[NAMESPACE := namespace, NAME := name])
    ensures MatchRoute(NamespacedPattern(SECRETS), LocationGetSecret(namespace, name)) ==
            Some(map[NAMESPACE := namespace, NAME := name])
  {
    assert ':' !in WORKSPACES && ':' !in SECRETS;
    forall i: nat ensures !OccursAt(namespace, NAME_PARAM, i) {
      if OccursAt(namespace, NAME_PARAM, i) {
        OccurrenceStart(namespace, NAME_PARAM, i);
      }
    }
    RoundTripExactly(WORKSPACES, namespace, name);
    RoundTripExactly(SECRETS, namespace, name);
  }

  /** So different resources have different locations. */
  lemma LocationsAreInjective(namespace1: string, name1: string, namespace2: string, name2: string)
    requires IsLabel(namespace1) && IsSubdomain(name1) && IsLabel(namespace2) && IsSubdomain(name2)
    ensures LocationGetWorkspace(namespace1, name1) == LocationGetWorkspace(namespace2, name2) ==> namespace1 == namespace2 && name1 == name2
    ensures LocationGetSecret(namespace1, name1) == LocationGetSecret(namespace2, name2) ==> namespace1 == namespace2 && name1 == name2
  {
    LocationRoundTrip(namespace1, name1);
    LocationRoundTrip(namespace2, name2);
    hide LocationGetWorkspace, LocationGetSecret, MatchRoute, IsLabel, IsSubdomain;
    SameParams(namespace1, name1, namespace2, name2);
  }

  lemma SameParams(namespace1: string, name1: string, namespace2: string, name2: string)
    ensures map[NAMESPACE := namespace1, NAME := name1] == map[NAMESPACE := namespace2, NAME := name2] ==>
              namespace1 == namespace2 && name1 == name2
  {
    var m1, m2 := map[NAMESPACE := namespace1, NAME := name1], map[NAMESPACE := namespace2, NAME := name2];
    assert |NAMESPACE| != |NAME|;
    assert m1[NAMESPACE] == namespace1 && m2[NAMESPACE] == namespace2;
    assert m1[NAME] == name1 && m2[NAME] == name2;
  }

  /** The same for WorkspaceKinds, for exactly the names that are one path segment. */
  lemma KindRoundTripExactly(name: string)
    ensures MatchRoute(NamedPattern(WORKSPACE_KINDS), LocationGetWorkspaceKind(name)) == Some(map[NAME := name]) <==> IsSegment(name)
  {
    assert ':' !in WORKSPACE_KINDS;
    Params();
    OneParamRoundTrip(WORKSPACE_KINDS, NAME_PARAM, name);
  }

  lemma OneParamRoundTrip(base: string, q: string, name: string)
    requires ':' !in base && IsParam(q) && '/' !in q
    ensures MatchRoute(base + "/" + q, ReplaceFirst(base + "/" + q, q, name)) == Some(map[q[1..] := name]) <==> IsSegment(name)
  {
    assert base + "/" + q + "" == base + "/" + q && base + "/" + name + "" == base + "/" + name;
    ReplaceParam(base, q, "", name);
    SegmentsOf(base);
    SplitJoin(base, q);
    SplitJoin(base, name);
    SplitWhole(q);
    SplitWhole(name);
    hide Split;
    LiteralPrefix(Split(base), [q], Split(name));
    if '/' !in name {
      MatchOne(q, name);
    }
  }

  /** The order of the substitutions matters: the name's placeholder is a prefix of the namespace's, so substituting the
      name first leaves a path that has lost the namespace parameter. */
  lemma NameFirstGoesWrong(base: string, name: string)
    requires ':' !in base
    ensures ReplaceFirst(NamespacedPattern(base), NAME_PARAM, name) == base + "/" + name + "space/" + NAME_PARAM
  {
    var tail := "space/" + NAME_PARAM;
    assert NamespacedPattern(base) == base + "/" + NAME_PARAM + tail;
    ReplaceParam(base, NAME_PARAM, tail, name);
    assert base + "/" + name + tail == base + "/" + name + "space/" + NAME_PARAM;
  }
}

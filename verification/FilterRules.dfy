/** The filter-rule engine: rules are pre-filtered by scope, compiled, then evaluated first-match-wins. */
module FilterRules {
  import opened Prelude

  // ---------- data ----------

  datatype Scope = WorkspaceKindScope | PodConfigScope | ImageConfigScope

  datatype EffectAPI = EffectAPI(hidden: Option<bool>, deny: Option<bool>, denyMessage: Option<string>)

  /** `ui` holds `ui.hide`. */
  datatype Effect = Effect(ui: Option<bool>, api: Option<EffectAPI>)

  /** A match condition; admission allows exactly one selector, the engine takes the first one set. */
  datatype Condition = Condition(
    matchNamespace: Option<LabelSelector>,
    matchImageConfig: Option<LabelSelector>,
    matchPodConfig: Option<LabelSelector>)

  datatype Rule = Rule(scope: Scope, effect: Effect, conditions: seq<Condition>)

  datatype SpawnerLabel = SpawnerLabel(key: string, value: string)

  datatype OptionValue = OptionValue(id: string, labels: seq<SpawnerLabel>)

  datatype WorkspaceKind = WorkspaceKind(rules: seq<Rule>, imageConfigs: seq<OptionValue>, podConfigs: seq<OptionValue>)

  /** Request-scoped labels; None when that part of the context was not provided. */
  datatype Context = Context(namespaceLabels: Option<Labels>, imageConfigLabels: Option<Labels>, podConfigLabels: Option<Labels>)

  datatype Target = Target(scope: Scope, labels: seq<SpawnerLabel>)

  datatype Restrictions = Restrictions(deny: bool, denyMessage: Option<string>)

  datatype EvalResult = EvalResult(uiHide: bool, apiHide: bool, restrictions: Restrictions)

  const NOT_RESTRICTED := EvalResult(false, false, Restrictions(false, None))

  datatype CompiledCondition = CompiledCondition(condition: Condition, selector: Labels -> bool)

  datatype CompiledRule = CompiledRule(rule: Rule, matches: seq<CompiledCondition>)

  // ---------- pure parts ----------

  /** Part of the context a condition speaks about. */
  datatype Subject = Namespace | ImageConfig | PodConfig

  function SubjectOf(c: Condition): Option<Subject> {
    if c.matchNamespace.Some? then Some(Namespace)
    else if c.matchImageConfig.Some? then Some(ImageConfig)
    else if c.matchPodConfig.Some? then Some(PodConfig)
    else None
  }

  function CompileSelector(compile: Compiler, c: Condition): Option<Labels -> bool> {
    if c.matchNamespace.Some? then compile(c.matchNamespace.value)
    else if c.matchImageConfig.Some? then compile(c.matchImageConfig.value)
    else if c.matchPodConfig.Some? then compile(c.matchPodConfig.value)
    else None
  }

  /** Labels a condition on a subject is evaluated against: those of the target for its own scope. */
  function Resolve(subject: Subject, scope: Scope, targetLabels: Labels, ctx: Context): Option<Labels> {
    match subject
    case Namespace => ctx.namespaceLabels
    case ImageConfig => if scope.ImageConfigScope? then Some(targetLabels) else ctx.imageConfigLabels
    case PodConfig => if scope.PodConfigScope? then Some(targetLabels) else ctx.podConfigLabels
  }

  function MatchSelector(selector: Labels -> bool, labels: Option<Labels>): bool {
    labels.Some? && selector(labels.value)
  }

  function ConditionMatches(m: CompiledCondition, scope: Scope, targetLabels: Labels, ctx: Context): bool {
    var subject := SubjectOf(m.condition);
    subject.Some? && MatchSelector(m.selector, Resolve(subject.value, scope, targetLabels, ctx))
  }

  function ResultFromEffect(e: Effect): EvalResult {
    EvalResult(
      e.ui == Some(true),
      e.api.Some? && e.api.value.hidden == Some(true),
      if e.api.Some? && e.api.value.deny == Some(true) then Restrictions(true, e.api.value.denyMessage) else Restrictions(false, None))
  }

  // ---------- what rules mean ----------

  function LabelMap(labels: seq<SpawnerLabel>): Labels {
    if labels == [] then map[]
    else LabelMap(labels[..|labels| - 1])[labels[|labels| - 1].key := labels[|labels| - 1].value]
  }

  /** The selector of a condition compiles; of several selectors the first one counts. */
  predicate Usable(compile: Compiler, c: Condition) {
    || (c.matchNamespace.Some? && compile(c.matchNamespace.value).Some?)
    || (c.matchNamespace.None? && c.matchImageConfig.Some? && compile(c.matchImageConfig.value).Some?)
    || (c.matchNamespace.None? && c.matchImageConfig.None? && c.matchPodConfig.Some? && compile(c.matchPodConfig.value).Some?)
  }

  /** A selector accepts labels that are known. */
  predicate Selects(compile: Compiler, selector: LabelSelector, labels: Option<Labels>) {
    labels.Some? && compile(selector).Some? && compile(selector).value(labels.value)
  }

  /** Labels of the imageConfig a target is judged by: its own if it is one, otherwise those of the selected one. */
  function ImageConfigSeen(target: Target, ctx: Context): Option<Labels> {
    if target.scope == ImageConfigScope then Some(LabelMap(target.labels)) else ctx.imageConfigLabels
  }

  function PodConfigSeen(target: Target, ctx: Context): Option<Labels> {
    if target.scope == PodConfigScope then Some(LabelMap(target.labels)) else ctx.podConfigLabels
  }

  /** A condition holds when the selector it has accepts the labels it is about. */
  predicate Holds(compile: Compiler, c: Condition, target: Target, ctx: Context) {
    || (c.matchNamespace.Some? && Selects(compile, c.matchNamespace.value, ctx.namespaceLabels))
    || (c.matchNamespace.None? && c.matchImageConfig.Some? && Selects(compile, c.matchImageConfig.value, ImageConfigSeen(target, ctx)))
    || (c.matchNamespace.None? && c.matchImageConfig.None? && c.matchPodConfig.Some?
        && Selects(compile, c.matchPodConfig.value, PodConfigSeen(target, ctx)))
  }

  /** An original rule fires: right scope, some usable condition, and every usable condition holds. */
  ghost predicate Fires(compile: Compiler, r: Rule, target: Target, ctx: Context) {
    && r.scope == target.scope
    && (exists c :: c in r.conditions && Usable(compile, c))
    && (forall c :: c in r.conditions && Usable(compile, c) ==> Holds(compile, c, target, ctx))
  }

  /** Reference meaning of a rule list: the effect of the first rule that fires, if any. */
  ghost function Meaning(compile: Compiler, rules: seq<Rule>, target: Target, ctx: Context): Option<Effect> {
    if rules == [] then None
    else if Fires(compile, rules[0], target, ctx) then Some(rules[0].effect)
    else Meaning(compile, rules[1..], target, ctx)
  }

  /** A result says what an effect asks for, field by field; without an effect it restricts nothing. */
  predicate Expresses(r: EvalResult, effect: Option<Effect>) {
    && (r.uiHide <==> effect.Some? && effect.value.ui == Some(true))
    && (r.apiHide <==> effect.Some? && effect.value.api.Some? && effect.value.api.value.hidden == Some(true))
    && (r.restrictions.deny <==> effect.Some? && effect.value.api.Some? && effect.value.api.value.deny == Some(true))
    && r.restrictions.denyMessage == if r.restrictions.deny then effect.value.api.value.denyMessage else None
  }

  /** The reference meaning is that of the rule of lowest index that fires. */
  lemma {:induction false} MeaningIsFirstFiring(compile: Compiler, rules: seq<Rule>, target: Target, ctx: Context, i: nat)
    requires i <= |rules|
    requires forall j :: 0 <= j < i ==> !Fires(compile, rules[j], target, ctx)
    requires i < |rules| ==> Fires(compile, rules[i], target, ctx)
    ensures Meaning(compile, rules, target, ctx) == if i < |rules| then Some(rules[i].effect) else None
  {
    if i > 0 {
      hide Fires;
      assert !Fires(compile, rules[0], target, ctx);
      assert forall j :: 0 <= j < |rules[1..]| ==> rules[1..][j] == rules[j + 1];
      MeaningIsFirstFiring(compile, rules[1..], target, ctx, i - 1);
    }
  }

  /** A rule with one condition, on the namespace: it fires if and only if the namespace is known and its labels are accepted. */
  lemma NamespaceRuleFires(compile: Compiler, r: Rule, s: LabelSelector, target: Target, ctx: Context)
    requires r.conditions == [Condition(Some(s), None, None)] && compile(s).Some?
    ensures Fires(compile, r, target, ctx) <==>
            r.scope == target.scope && ctx.namespaceLabels.Some? && compile(s).value(ctx.namespaceLabels.value)
  {
    assert r.conditions[0] in r.conditions;
  }

  /** On the imageConfig: an imageConfig is judged by its own labels, anything else by those of the selected one. */
  lemma ImageConfigRuleFires(compile: Compiler, r: Rule, s: LabelSelector, target: Target, ctx: Context)
    requires r.conditions == [Condition(None, Some(s), None)] && compile(s).Some?
    ensures target.scope.ImageConfigScope? ==>
              (Fires(compile, r, target, ctx) <==> r.scope == target.scope && compile(s).value(LabelMap(target.labels)))
    ensures !target.scope.ImageConfigScope? ==>
              (Fires(compile, r, target, ctx) <==>
               r.scope == target.scope && ctx.imageConfigLabels.Some? && compile(s).value(ctx.imageConfigLabels.value))
  {
    assert r.conditions[0] in r.conditions;
  }

  /** On the podConfig, likewise. */
  lemma PodConfigRuleFires(compile: Compiler, r: Rule, s: LabelSelector, target: Target, ctx: Context)
    requires r.conditions == [Condition(None, None, Some(s))] && compile(s).Some?
    ensures target.scope.PodConfigScope? ==>
              (Fires(compile, r, target, ctx) <==> r.scope == target.scope && compile(s).value(LabelMap(target.labels)))
    ensures !target.scope.PodConfigScope? ==>
              (Fires(compile, r, target, ctx) <==>
               r.scope == target.scope && ctx.podConfigLabels.Some? && compile(s).value(ctx.podConfigLabels.value))
  {
    assert r.conditions[0] in r.conditions;
  }

  // ---------- the engine ----------

  method SpawnerLabelsToMap(labels: seq<SpawnerLabel>) returns (result: Labels)
    ensures result == LabelMap(labels)
  {
    result := map[];
    for i := 0 to |labels|
      invariant result == LabelMap(labels[..i])
    {
      assert labels[..i + 1][..i] == labels[..i];
      result := result[labels[i].key := labels[i].value];
    }
    assert labels[..|labels|] == labels;
  }

  /** Each key has the value of its last occurrence ... */
  lemma {:induction false} LastLabelCounts(labels: seq<SpawnerLabel>, i: nat)
    requires i < |labels| && forall j :: i < j < |labels| ==> labels[j].key != labels[i].key
    ensures labels[i].key in LabelMap(labels) && LabelMap(labels)[labels[i].key] == labels[i].value
  {
    if i < |labels| - 1 {
      LastLabelCounts(labels[..|labels| - 1], i);
    }
  }

  /** ... and there are no other keys. */
  lemma {:induction false} LabelMapKeys(labels: seq<SpawnerLabel>, k: string)
    ensures k in LabelMap(labels) <==> exists i :: 0 <= i < |labels| && labels[i].key == k
  {
    if labels != [] {
      LabelMapKeys(labels[..|labels| - 1], k);
    }
  }

  /** Sublist of the rules accepted by `p`, in order. */
  function Keep(rules: seq<Rule>, p: Rule -> bool): seq<Rule> {
    if rules == [] then []
    else (if p(rules[0]) then [rules[0]] else []) + Keep(rules[1..], p)
  }

  lemma KeepStep(rules: seq<Rule>, i: nat, p: Rule -> bool)
    requires i < |rules|
    ensures Keep(rules[i..], p) == (if p(rules[i]) then [rules[i]] else []) + Keep(rules[i + 1..], p)
  {
    assert rules[i..][0] == rules[i] && rules[i..][1..] == rules[i + 1..];
  }

  function InScope(scopes: set<Scope>): Rule -> bool {
    (r: Rule) => r.scope in scopes
  }

  method FilterRulesByScope(rules: seq<Rule>, scopes: set<Scope>) returns (filtered: seq<Rule>)
    ensures filtered == Keep(rules, InScope(scopes))
  {
    filtered := [];
    assert rules[0..] == rules && rules[|rules|..] == [];
    for i := 0 to |rules|
      invariant Keep(rules, InScope(scopes)) == filtered + Keep(rules[i..], InScope(scopes))
    {
      hide Keep;
      KeepStep(rules, i, InScope(scopes));
      if rules[i].scope in scopes {
        filtered := filtered + [rules[i]];
      }
    }
  }

  function CompileConditions(compile: Compiler, conditions: seq<Condition>): seq<CompiledCondition> {
    if conditions == [] then []
    else
      var c := conditions[0];
      (if CompileSelector(compile, c).Some? then [CompiledCondition(c, CompileSelector(compile, c).value)] else []) +
      CompileConditions(compile, conditions[1..])
  }

  /** Unusable conditions are dropped; so are rules left without a condition. */
  function Compile(compile: Compiler, rules: seq<Rule>): seq<CompiledRule> {
    if rules == [] then []
    else
      var matches := CompileConditions(compile, rules[0].conditions);
      (if matches == [] then [] else [CompiledRule(rules[0], matches)]) + Compile(compile, rules[1..])
  }

  lemma CompileConditionsStep(compile: Compiler, conditions: seq<Condition>, j: nat)
    requires j < |conditions|
    ensures CompileConditions(compile, conditions[j..]) ==
            (if CompileSelector(compile, conditions[j]).Some?
             then [CompiledCondition(conditions[j], CompileSelector(compile, conditions[j]).value)] else []) +
            CompileConditions(compile, conditions[j + 1..])
  {
    assert conditions[j..][0] == conditions[j] && conditions[j..][1..] == conditions[j + 1..];
  }

  lemma CompileStep(compile: Compiler, rules: seq<Rule>, i: nat)
    requires i < |rules|
    ensures var matches := CompileConditions(compile, rules[i].conditions);
            Compile(compile, rules[i..]) ==
            (if matches == [] then [] else [CompiledRule(rules[i], matches)]) + Compile(compile, rules[i + 1..])
  {
    hide CompileConditions;
    assert rules[i..][0] == rules[i] && rules[i..][1..] == rules[i + 1..];
  }

  method CompileMatches(compile: Compiler, conditions: seq<Condition>) returns (matches: seq<CompiledCondition>)
    ensures matches == CompileConditions(compile, conditions)
  {
    matches := [];
    assert conditions[0..] == conditions && conditions[|conditions|..] == [];
    for j := 0 to |conditions|
      invariant CompileConditions(compile, conditions) == matches + CompileConditions(compile, conditions[j..])
    {
      hide CompileConditions, CompileSelector;
      CompileConditionsStep(compile, conditions, j);
      ghost var before, rest := matches, CompileConditions(compile, conditions[j + 1..]);
      var selector := CompileSelector(compile, conditions[j]);
      if selector.Some? {
        var compiled := CompiledCondition(conditions[j], selector.value);
        matches := matches + [compiled];
        assert before + ([compiled] + rest) == matches + rest;
      }
    }
  }

  method CompileRules(compile: Compiler, rules: seq<Rule>) returns (compiled: seq<CompiledRule>)
    ensures compiled == Compile(compile, rules)
  {
    compiled := [];
    assert rules[0..] == rules && rules[|rules|..] == [];
    for i := 0 to |rules|
      invariant Compile(compile, rules) == compiled + Compile(compile, rules[i..])
    {
      hide Compile, CompileConditions;
      CompileStep(compile, rules, i);
      ghost var before, rest := compiled, Compile(compile, rules[i + 1..]);
      var matches := CompileMatches(compile, rules[i].conditions);
      if |matches| != 0 {
        var rule := CompiledRule(rules[i], matches);
        compiled := compiled + [rule];
        assert before + ([rule] + rest) == compiled + rest;
      } else {
        assert [] + rest == rest;
      }
    }
  }

  /** Labels of the first value with the given id. */
  function SelectedLabels(values: seq<OptionValue>, id: string): Option<Labels> {
    if id == "" || values == [] then None
    else if values[0].id == id then Some(LabelMap(values[0].labels))
    else SelectedLabels(values[1..], id)
  }

  /** Labels selected by an id: those of the first value that has it; none for the empty id or one that no value has. */
  ghost predicate IsSelected(values: seq<OptionValue>, id: string, labels: Option<Labels>) {
    && (labels.None? <==> id == "" || forall i :: 0 <= i < |values| ==> values[i].id != id)
    && (forall i :: 0 <= i < |values| && values[i].id == id && labels.Some? && (forall j :: 0 <= j < i ==> values[j].id != id) ==>
          labels.value == LabelMap(values[i].labels))
  }

  lemma {:induction false} SelectedIsFirst(values: seq<OptionValue>, id: string)
    ensures IsSelected(values, id, SelectedLabels(values, id))
  {
    if values != [] && id != "" {
      SelectedIsFirst(values[1..], id);
      var rest := SelectedLabels(values[1..], id);
      forall i | 0 <= i < |values| && values[i].id == id && (forall j :: 0 <= j < i ==> values[j].id != id)
        ensures SelectedLabels(values, id).Some? && SelectedLabels(values, id).value == LabelMap(values[i].labels)
      {
        if i > 0 {
          assert values[0].id != id && values[1..][i - 1] == values[i];
          assert forall j :: 0 <= j < i - 1 ==> values[1..][j] == values[j + 1];
        }
      }
      assert forall i :: 0 <= i < |values[1..]| ==> values[1..][i] == values[i + 1];
    }
  }

  method FindSelectedLabels(values: seq<OptionValue>, id: string) returns (labels: Option<Labels>)
    ensures labels == SelectedLabels(values, id)
    ensures IsSelected(values, id, labels)
  {
    SelectedIsFirst(values, id);
    hide IsSelected;
    labels := None;
    if id != "" {
      for i := 0 to |values|
        invariant labels == None
        invariant SelectedLabels(values, id) == SelectedLabels(values[i..], id)
      {
        assert values[i..][0] == values[i] && values[i..][1..] == values[i + 1..];
        if values[i].id == id {
          var m := SpawnerLabelsToMap(values[i].labels);
          return Some(m);
        }
      }
    }
  }

  function ContextFor(kind: WorkspaceKind, namespaceLabels: Option<Labels>, imageConfigID: string, podConfigID: string): Context {
    Context(namespaceLabels, SelectedLabels(kind.imageConfigs, imageConfigID), SelectedLabels(kind.podConfigs, podConfigID))
  }

  /** The context of a request, from the request and the WorkspaceKind. */
  ghost predicate IsRequest(kind: WorkspaceKind, namespaceLabels: Option<Labels>, imageConfigID: string, podConfigID: string, ctx: Context) {
    && ctx.namespaceLabels == namespaceLabels
    && IsSelected(kind.imageConfigs, imageConfigID, ctx.imageConfigLabels)
    && IsSelected(kind.podConfigs, podConfigID, ctx.podConfigLabels)
  }

  method BuildEvalContext(compile: Compiler, kind: WorkspaceKind, namespaceLabels: Option<Labels>, scopes: set<Scope>,
                          imageConfigID: string, podConfigID: string)
    returns (ctx: Context, compiled: seq<CompiledRule>)
    ensures ctx == ContextFor(kind, namespaceLabels, imageConfigID, podConfigID)
    ensures IsRequest(kind, namespaceLabels, imageConfigID, podConfigID, ctx)
    ensures compiled == Compile(compile, Keep(kind.rules, InScope(scopes)))
  {
    var filtered := FilterRulesByScope(kind.rules, scopes);
    compiled := CompileRules(compile, filtered);
    var imageConfigLabels := FindSelectedLabels(kind.imageConfigs, imageConfigID);
    var podConfigLabels := FindSelectedLabels(kind.podConfigs, podConfigID);
    ctx := Context(namespaceLabels, imageConfigLabels, podConfigLabels);
  }

  method AllConditionsMatch(matches: seq<CompiledCondition>, scope: Scope, targetLabels: Labels, ctx: Context) returns (all: bool)
    ensures all <==> forall i :: 0 <= i < |matches| ==> ConditionMatches(matches[i], scope, targetLabels, ctx)
  {
    for i := 0 to |matches|
      invariant forall j :: 0 <= j < i ==> ConditionMatches(matches[j], scope, targetLabels, ctx)
    {
      if !ConditionMatches(matches[i], scope, targetLabels, ctx) {
        return false;
      }
    }
    return true;
  }

  predicate Accepts(r: CompiledRule, target: Target, ctx: Context) {
    && r.rule.scope == target.scope
    && forall i :: 0 <= i < |r.matches| ==> ConditionMatches(r.matches[i], target.scope, LabelMap(target.labels), ctx)
  }

  /** What evaluation of a compiled rule list yields. */
  function Evaluated(compiled: seq<CompiledRule>, target: Target, ctx: Context): EvalResult {
    if compiled == [] then NOT_RESTRICTED
    else if Accepts(compiled[0], target, ctx) then ResultFromEffect(compiled[0].rule.effect)
    else Evaluated(compiled[1..], target, ctx)
  }

  method Evaluate(target: Target, ctx: Context, compiled: seq<CompiledRule>) returns (result: EvalResult)
    ensures result == Evaluated(compiled, target, ctx)
  {
    var targetLabels := SpawnerLabelsToMap(target.labels);
    for i := 0 to |compiled|
      invariant Evaluated(compiled, target, ctx) == Evaluated(compiled[i..], target, ctx)
    {
      assert compiled[i..][0] == compiled[i] && compiled[i..][1..] == compiled[i + 1..];
      var cr := compiled[i];
      if cr.rule.scope == target.scope {
        var all := AllConditionsMatch(cr.matches, target.scope, targetLabels, ctx);
        if all {
          return ResultFromEffect(cr.rule.effect);
        }
      }
    }
    return NOT_RESTRICTED;
  }

  // ---------- compilation preserves meaning ----------

  /** The engine's view of one condition is that of the reference. */
  lemma ConditionAgrees(compile: Compiler, c: Condition, target: Target, ctx: Context)
    ensures CompileSelector(compile, c).Some? <==> Usable(compile, c)
    ensures Usable(compile, c) ==>
              (ConditionMatches(CompiledCondition(c, CompileSelector(compile, c).value), target.scope, LabelMap(target.labels), ctx) <==>
               Holds(compile, c, target, ctx))
  {}

  lemma {:induction false} CompiledConditions(compile: Compiler, conditions: seq<Condition>)
    ensures forall m :: m in CompileConditions(compile, conditions) ==>
              && m.condition in conditions && CompileSelector(compile, m.condition).Some?
              && m.selector == CompileSelector(compile, m.condition).value
    ensures forall c :: c in conditions && CompileSelector(compile, c).Some? ==>
              CompiledCondition(c, CompileSelector(compile, c).value) in CompileConditions(compile, conditions)
  {
    hide CompileSelector;
    if conditions != [] {
      CompiledConditions(compile, conditions[1..]);
      assert forall c :: c in conditions <==> c == conditions[0] || c in conditions[1..];
    }
  }

  /** A rule fires exactly when it is kept by compilation and its compiled form accepts. */
  lemma CompiledRuleFires(compile: Compiler, r: Rule, target: Target, ctx: Context)
    ensures var matches := CompileConditions(compile, r.conditions);
            Fires(compile, r, target, ctx) <==> matches != [] && Accepts(CompiledRule(r, matches), target, ctx)
  {
    var matches := CompileConditions(compile, r.conditions);
    CompiledConditions(compile, r.conditions);
    forall c ensures CompileSelector(compile, c).Some? <==> Usable(compile, c) { ConditionAgrees(compile, c, target, ctx); }
    hide CompileSelector, ConditionMatches, Usable, Holds;
    forall i | 0 <= i < |matches|
      ensures matches[i].condition in r.conditions && Usable(compile, matches[i].condition)
      ensures ConditionMatches(matches[i], target.scope, LabelMap(target.labels), ctx) <==> Holds(compile, matches[i].condition, target, ctx)
    {
      assert matches[i] in matches;
      ConditionAgrees(compile, matches[i].condition, target, ctx);
    }
    forall c | c in r.conditions && Usable(compile, c)
      ensures exists i :: 0 <= i < |matches| && matches[i].condition == c
    {
      assert CompiledCondition(c, CompileSelector(compile, c).value) in matches;
    }
    assert matches != [] ==> matches[0].condition in r.conditions;
  }

  lemma {:induction false} MeaningAppend(compile: Compiler, a: seq<Rule>, b: seq<Rule>, target: Target, ctx: Context)
    ensures Meaning(compile, a + b, target, ctx) ==
            if exists i :: 0 <= i < |a| && Fires(compile, a[i], target, ctx) then Meaning(compile, a, target, ctx)
            else Meaning(compile, b, target, ctx)
  {
    if a == [] {
      assert a + b == b;
    } else {
      assert (a + b)[1..] == a[1..] + b;
      MeaningAppend(compile, a[1..], b, target, ctx);
      if exists i :: 0 <= i < |a| && Fires(compile, a[i], target, ctx) && !Fires(compile, a[0], target, ctx) {
        var i :| 0 <= i < |a| && Fires(compile, a[i], target, ctx);
        assert a[1..][i - 1] == a[i];
      }
    }
  }

  /** Evaluating the compiled rules expresses the reference meaning of the original ones. */
  lemma {:induction false} CompilationPreservesMeaning(compile: Compiler, rules: seq<Rule>, target: Target, ctx: Context)
    ensures Expresses(Evaluated(Compile(compile, rules), target, ctx), Meaning(compile, rules, target, ctx))
  {
    if rules != [] {
      ResultExpresses(rules[0].effect);
      hide Accepts, Fires, Expresses, ResultFromEffect;
      CompilationPreservesMeaning(compile, rules[1..], target, ctx);
      CompiledRuleFires(compile, rules[0], target, ctx);
      var matches := CompileConditions(compile, rules[0].conditions);
      if matches != [] {
        assert Compile(compile, rules)[1..] == Compile(compile, rules[1..]);
      } else {
        assert Compile(compile, rules) == Compile(compile, rules[1..]);
      }
    }
  }

  lemma ResultExpresses(effect: Effect)
    ensures Expresses(ResultFromEffect(effect), Some(effect))
  {}

  // ---------- transformations that keep the meaning ----------

  /** Rules that cannot fire may be removed. */
  lemma {:induction false} RemovingSilentRules(compile: Compiler, rules: seq<Rule>, p: Rule -> bool, target: Target, ctx: Context)
    requires forall i :: 0 <= i < |rules| && !p(rules[i]) ==> !Fires(compile, rules[i], target, ctx)
    ensures Meaning(compile, Keep(rules, p), target, ctx) == Meaning(compile, rules, target, ctx)
  {
    if rules != [] {
      hide Fires;
      assert forall i :: 0 <= i < |rules[1..]| ==> rules[1..][i] == rules[i + 1];
      RemovingSilentRules(compile, rules[1..], p, target, ctx);
      if p(rules[0]) {
        assert Keep(rules, p)[1..] == Keep(rules[1..], p);
      } else {
        assert Keep(rules, p) == Keep(rules[1..], p);
      }
    }
  }

  /** The engine as a whole: scope filtering, compilation and evaluation express the reference meaning of the original
      rules for every target whose scope was asked for, and restrict no other. */
  lemma EngineMeaning(compile: Compiler, rules: seq<Rule>, scopes: set<Scope>, target: Target, ctx: Context)
    ensures Expresses(Evaluated(Compile(compile, Keep(rules, InScope(scopes))), target, ctx),
                      if target.scope in scopes then Meaning(compile, rules, target, ctx) else None)
  {
    hide Expresses;
    var kept := Keep(rules, InScope(scopes));
    CompilationPreservesMeaning(compile, kept, target, ctx);
    if target.scope in scopes {
      RemovingSilentRules(compile, rules, InScope(scopes), target, ctx);
    } else {
      KeptRulesPass(rules, InScope(scopes));
      forall i | 0 <= i < |kept| ensures !Fires(compile, kept[i], target, ctx) {}
      MeaningIsFirstFiring(compile, kept, target, ctx, |kept|);
    }
  }

  lemma {:induction false} KeptRulesPass(rules: seq<Rule>, p: Rule -> bool)
    ensures forall i :: 0 <= i < |Keep(rules, p)| ==> p(Keep(rules, p)[i])
  {
    if rules != [] {
      KeptRulesPass(rules[1..], p);
    }
  }

  /** Only the rules of the target's scope, in their order, matter: rule lists that interleave them
      differently with rules of other scopes mean the same. */
  lemma ScopeIndependence(compile: Compiler, a: seq<Rule>, b: seq<Rule>, target: Target, ctx: Context)
    requires Keep(a, InScope({target.scope})) == Keep(b, InScope({target.scope}))
    ensures Meaning(compile, a, target, ctx) == Meaning(compile, b, target, ctx)
  {
    RemovingSilentRules(compile, a, InScope({target.scope}), target, ctx);
    RemovingSilentRules(compile, b, InScope({target.scope}), target, ctx);
  }

  /** Order and repetition of the conditions inside a rule do not matter. */
  lemma {:induction false} ConditionOrderIrrelevant(compile: Compiler, a: seq<Rule>, b: seq<Rule>, target: Target, ctx: Context)
    requires |a| == |b|
    requires forall i :: 0 <= i < |a| ==> a[i].scope == b[i].scope && a[i].effect == b[i].effect
    requires forall i, c :: 0 <= i < |a| ==> (c in a[i].conditions <==> c in b[i].conditions)
    ensures Meaning(compile, a, target, ctx) == Meaning(compile, b, target, ctx)
  {
    if a != [] {
      assert Fires(compile, a[0], target, ctx) <==> Fires(compile, b[0], target, ctx);
      assert forall i :: 0 <= i < |a[1..]| ==> a[1..][i] == a[i + 1] && b[1..][i] == b[i + 1];
      ConditionOrderIrrelevant(compile, a[1..], b[1..], target, ctx);
    }
  }

  /** The result depends on the context only through the namespace and what is not the target's own. */
  lemma {:induction false} OnlySeenLabelsMatter(compile: Compiler, rules: seq<Rule>, target: Target, c1: Context, c2: Context)
    requires c1.namespaceLabels == c2.namespaceLabels
    requires target.scope.ImageConfigScope? || c1.imageConfigLabels == c2.imageConfigLabels
    requires target.scope.PodConfigScope? || c1.podConfigLabels == c2.podConfigLabels
    ensures Meaning(compile, rules, target, c1) == Meaning(compile, rules, target, c2)
  {
    if rules != [] {
      forall c ensures Holds(compile, c, target, c1) <==> Holds(compile, c, target, c2) {}
      hide Holds;
      assert Fires(compile, rules[0], target, c1) <==> Fires(compile, rules[0], target, c2);
      OnlySeenLabelsMatter(compile, rules[1..], target, c1, c2);
    }
  }

  /** So an imageConfig target ignores the imageConfig selected in the request, and a podConfig target the podConfig. */
  lemma OwnSelectionIrrelevant(compile: Compiler, kind: WorkspaceKind, target: Target, ns: Option<Labels>,
                               image1: string, pod1: string, image2: string, pod2: string)
    requires image1 == image2 || target.scope.ImageConfigScope?
    requires pod1 == pod2 || target.scope.PodConfigScope?
    ensures Meaning(compile, kind.rules, target, ContextFor(kind, ns, image1, pod1)) ==
            Meaning(compile, kind.rules, target, ContextFor(kind, ns, image2, pod2))
  {
    OnlySeenLabelsMatter(compile, kind.rules, target, ContextFor(kind, ns, image1, pod1), ContextFor(kind, ns, image2, pod2));
  }

  /** A condition is about a part of the context that was not provided. */
  predicate AboutAbsent(c: Condition, target: Target, ctx: Context) {
    || (c.matchNamespace.Some? && ctx.namespaceLabels.None?)
    || (c.matchNamespace.None? && c.matchImageConfig.Some? && ImageConfigSeen(target, ctx).None?)
    || (c.matchNamespace.None? && c.matchImageConfig.None? && c.matchPodConfig.Some? && PodConfigSeen(target, ctx).None?)
  }

  predicate NeedsAbsent(compile: Compiler, r: Rule, target: Target, ctx: Context) {
    exists i :: 0 <= i < |r.conditions| && Usable(compile, r.conditions[i]) && AboutAbsent(r.conditions[i], target, ctx)
  }

  /** Context that was not provided acts like deleting every rule with a usable condition on it. */
  lemma AbsentContextDeletesRules(compile: Compiler, rules: seq<Rule>, target: Target, ctx: Context)
    ensures Meaning(compile, rules, target, ctx) ==
            Meaning(compile, Keep(rules, (r: Rule) => !NeedsAbsent(compile, r, target, ctx)), target, ctx)
  {
    RemovingSilentRules(compile, rules, (r: Rule) => !NeedsAbsent(compile, r, target, ctx), target, ctx);
  }

  /** An empty id, or one that no value has, leaves that part of the context out. */
  lemma {:induction false} UnknownSelectionIsAbsent(values: seq<OptionValue>, id: string)
    ensures SelectedLabels(values, id).None? <==> id == "" || forall i :: 0 <= i < |values| ==> values[i].id != id
  {
    if values != [] {
      UnknownSelectionIsAbsent(values[1..], id);
      assert forall i :: 0 <= i < |values[1..]| ==> values[1..][i] == values[i + 1];
    }
  }

  predicate Drop(rules: seq<Rule>, j: nat, shorter: seq<Rule>) {
    j < |rules| && shorter == rules[..j] + rules[j + 1..]
  }

  /** Dead rules: if an earlier rule of the same scope has a usable condition, and only usable conditions the
      later one has too, deleting the later rule changes nothing. */
  lemma DeadRuleElimination(compile: Compiler, rules: seq<Rule>, i: nat, j: nat, shorter: seq<Rule>, target: Target, ctx: Context)
    requires i < j && Drop(rules, j, shorter)
    requires rules[i].scope == rules[j].scope
    requires exists c :: c in rules[i].conditions && Usable(compile, c)
    requires forall c :: c in rules[i].conditions && Usable(compile, c) ==> c in rules[j].conditions
    ensures Meaning(compile, rules, target, ctx) == Meaning(compile, shorter, target, ctx)
  {
    var a, b, r := rules[..j], rules[j + 1..], rules[j];
    assert rules == a + ([r] + b);
    MeaningAppend(compile, a, [r] + b, target, ctx);
    MeaningAppend(compile, a, b, target, ctx);
    if Fires(compile, r, target, ctx) {
      assert Fires(compile, a[i], target, ctx);
    } else {
      assert ([r] + b)[1..] == b;
    }
  }

  /** The earlier rule must have a usable condition: one without is dropped by compilation and shadows nothing. */
  lemma EmptyRuleShadowsNothing(compile: Compiler)
    requires exists s: LabelSelector :: compile(s).Some? && compile(s).value(map[])
    ensures exists first: Rule, second: Rule, target: Target, ctx: Context ::
              && first.scope == second.scope
              && (forall c :: c in first.conditions ==> c in second.conditions)
              && Meaning(compile, [first, second], target, ctx) == Some(second.effect) && second.effect.ui == Some(true)
              && Meaning(compile, [first], target, ctx) == None
  {
    var s: LabelSelector :| compile(s).Some? && compile(s).value(map[]);
    var c := Condition(Some(s), None, None);
    var first := Rule(WorkspaceKindScope, Effect(None, None), []);
    var second := Rule(WorkspaceKindScope, Effect(Some(true), None), [c]);
    var target, ctx := Target(WorkspaceKindScope, []), Context(Some(map[]), None, None);
    assert c in second.conditions && Usable(compile, c);
    assert Fires(compile, second, target, ctx) && !Fires(compile, first, target, ctx);
    MeaningIsFirstFiring(compile, [first, second], target, ctx, 1);
    MeaningIsFirstFiring(compile, [first], target, ctx, 1);
  }

  // ---------- the two endpoints ----------

  /** The result expresses the first rule that fires in the namespace. Without a namespace in the request nothing is
      hidden or denied, whatever the rules. */
  method EvaluateWorkspaceKindFilterScopeRule(compile: Compiler, kind: WorkspaceKind, namespaceLabels: Option<Labels>)
    returns (result: EvalResult)
    ensures Expresses(result, Meaning(compile, kind.rules, Target(WorkspaceKindScope, []), Context(namespaceLabels, None, None)))
    ensures namespaceLabels.None? ==>
              !result.uiHide && !result.apiHide && !result.restrictions.deny && result.restrictions.denyMessage.None?
  {
    var target := Target(WorkspaceKindScope, []);
    var ctx, compiled := BuildEvalContext(compile, kind, namespaceLabels, {WorkspaceKindScope}, "", "");
    result := Evaluate(target, ctx, compiled);
    EngineMeaning(compile, kind.rules, {WorkspaceKindScope}, target, ctx);
    if namespaceLabels.None? {
      NoContextNoEffect(compile, kind.rules, target, ctx);
    }
  }

  /** The context of the option listing: it is that of the request, and evaluating any imageConfig or podConfig in it expresses the
      reference meaning of the original rules. */
  method BuildEvalContextForImageAndPodCfg(compile: Compiler, kind: WorkspaceKind, namespaceLabels: Option<Labels>,
                                           imageConfigID: string, podConfigID: string)
    returns (ctx: Context, compiled: seq<CompiledRule>)
    ensures ctx == ContextFor(kind, namespaceLabels, imageConfigID, podConfigID)
    ensures IsRequest(kind, namespaceLabels, imageConfigID, podConfigID, ctx)
    ensures forall target: Target :: !target.scope.WorkspaceKindScope? ==>
              Expresses(Evaluated(compiled, target, ctx), Meaning(compile, kind.rules, target, ctx))
  {
    var scopes := {ImageConfigScope, PodConfigScope};
    ctx, compiled := BuildEvalContext(compile, kind, namespaceLabels, scopes, imageConfigID, podConfigID);
    forall target: Target | !target.scope.WorkspaceKindScope?
      ensures Expresses(Evaluated(compiled, target, ctx), Meaning(compile, kind.rules, target, ctx))
    {
      EngineMeaning(compile, kind.rules, scopes, target, ctx);
    }
  }

  lemma NoContextNoEffect(compile: Compiler, rules: seq<Rule>, target: Target, ctx: Context)
    requires target.scope.WorkspaceKindScope? && ctx == Context(None, None, None)
    ensures Meaning(compile, rules, target, ctx) == None
  {
    forall i | 0 <= i < |rules|
      ensures !Fires(compile, rules[i], target, ctx)
    {
      if c :| c in rules[i].conditions && Usable(compile, c) {
        assert !Holds(compile, c, target, ctx);
      }
    }
    MeaningIsFirstFiring(compile, rules, target, ctx, |rules|);
  }
}

/** Extraction of a self-contained schema: the definitions a root definition refers to, directly or not. */
module SchemaClosure {
  import opened Prelude

  /** `Blank` is a definition that is present but empty (JSON null and the like): kept, never followed. */
  datatype Definition = Blank | Schema(references: seq<string>)

  type Definitions = map<string, Definition>

  const ROOT_DEFINITION := "workspacekinds.WorkspaceKindUpdate"

  // ---------- what is needed ----------

  /** Names a definition refers to; a missing one refers to nothing. */
  function References(defs: Definitions, name: string): seq<string> {
    if name in defs && defs[name].Schema? then defs[name].references else []
  }

  ghost predicate Closed(defs: Definitions, s: set<string>) {
    forall n, r :: n in s && r in References(defs, n) ==> r in s
  }

  /** The least set with the root that is closed under references. */
  ghost predicate IsClosure(defs: Definitions, root: string, s: set<string>) {
    root in s && Closed(defs, s) && forall t: set<string> :: Closed(defs, t) && root in t ==> s <= t
  }

  /** A chain of references from `root` to `name`. */
  ghost predicate Path(defs: Definitions, root: string, path: seq<string>, name: string) {
    && path != [] && path[0] == root && path[|path| - 1] == name
    && forall i :: 0 < i < |path| ==> path[i] in References(defs, path[i - 1])
  }

  lemma {:induction false} PathStaysInside(defs: Definitions, root: string, path: seq<string>, name: string, s: set<string>)
    requires Path(defs, root, path, name) && Closed(defs, s) && root in s
    ensures name in s
  {
    if |path| > 1 {
      var init := path[..|path| - 1];
      assert Path(defs, root, init, init[|init| - 1]);
      PathStaysInside(defs, root, init, init[|init| - 1], s);
    }
  }

  /** The closure consists of exactly the names reached by a chain of references. */
  lemma ClosureIsReachability(defs: Definitions, root: string, s: set<string>, name: string)
    requires IsClosure(defs, root, s)
    ensures name in s <==> exists path :: Path(defs, root, path, name)
  {
    var reached := set n | n in s && exists path :: Path(defs, root, path, n);
    assert Path(defs, root, [root], root);
    forall n, r | n in reached && r in References(defs, n)
      ensures r in reached
    {
      var path :| Path(defs, root, path, n);
      assert Path(defs, root, path + [r], r);
    }
    assert s <= reached;
    if path :| Path(defs, root, path, name) {
      PathStaysInside(defs, root, path, name, s);
    }
  }

  // ---------- extraction ----------

  /** Names collected beyond `base` refer only to collected names. */
  ghost predicate ClosedBeyond(defs: Definitions, base: set<string>, needed: set<string>) {
    forall n, r :: n in needed && n !in base && r in References(defs, n) ==> r in needed
  }

  /** Names collected beyond `base` lie in every closed set with `name`. */
  ghost predicate Necessary(defs: Definitions, name: string, base: set<string>, needed: set<string>) {
    forall t: set<string> :: Closed(defs, t) && name in t ==> needed <= base + t
  }

  /** Before any reference of `name` is followed. */
  lemma CollectNone(defs: Definitions, name: string, base: set<string>)
    ensures ClosedBeyond(defs, base, base) && Necessary(defs, name, base, base)
    ensures ClosedBeyond(defs, base + {name}, base + {name}) && Necessary(defs, name, base, base + {name})
  {}

  /** After all references of `name` are followed. */
  lemma CollectAll(defs: Definitions, name: string, base: set<string>, needed: set<string>)
    requires ClosedBeyond(defs, base + {name}, needed) && forall r :: r in References(defs, name) ==> r in needed
    ensures ClosedBeyond(defs, base, needed)
  {}

  /** Collecting one more reference of `name`. */
  lemma CollectMore(defs: Definitions, name: string, ref: string, base: set<string>, known: set<string>, needed: set<string>)
    requires ref in References(defs, name) && known <= needed
    requires ClosedBeyond(defs, base + {name}, known) && ClosedBeyond(defs, known, needed)
    requires Necessary(defs, name, base, known) && Necessary(defs, ref, known, needed)
    ensures ClosedBeyond(defs, base + {name}, needed) && Necessary(defs, name, base, needed)
  {
    forall t: set<string> | Closed(defs, t) && name in t
      ensures needed <= base + t
    {
      assert ref in t && needed <= known + t;
    }
  }

  class SchemaExtractor {
    const definitions: Definitions
    var needed: set<string>

    constructor (definitions: Definitions)
      ensures this.definitions == definitions && needed == {}
    {
      this.definitions := definitions;
      needed := {};
    }

    /** Adds `name` and what it leads to, and nothing that is not necessary. Terminates on cycles. */
    method Collect(name: string)
      modifies this`needed
      ensures old(needed) + {name} <= needed
      ensures ClosedBeyond(definitions, old(needed), needed)
      ensures Necessary(definitions, name, old(needed), needed)
      decreases definitions.Keys - needed
    {
      hide ClosedBeyond, Necessary;
      ghost var base := needed;
      CollectNone(definitions, name, base);
      if name in needed {
        return;
      }
      needed := needed + {name};
      if name !in definitions || definitions[name].Blank? {
        CollectAll(definitions, name, base, needed);
        return;
      }
      var refs := definitions[name].references;
      for i := 0 to |refs|
        invariant base + {name} <= needed
        invariant forall j :: 0 <= j < i ==> refs[j] in needed
        invariant ClosedBeyond(definitions, base + {name}, needed) && Necessary(definitions, name, base, needed)
      {
        ghost var known := needed;
        Collect(refs[i]);
        CollectMore(definitions, name, refs[i], base, known, needed);
      }
      CollectAll(definitions, name, base, needed);
    }

    /** The extracted definitions. Building stops with an error at a name without definition, so it succeeds exactly when every
        definition needed exists; then the result holds the needed definitions and no others, and
        every reference in it resolves inside it. */
    method Extract() returns (defs: Result<Definitions, string>)
      requires needed == {}
      modifies this`needed
      ensures IsClosure(definitions, ROOT_DEFINITION, needed)
      ensures defs.Ok? <==> needed <= definitions.Keys
      ensures defs.Ok? ==> defs.value.Keys == needed && forall n :: n in defs.value ==> defs.value[n] == definitions[n]
      ensures defs.Ok? ==> SelfContained(defs.value) && "workspacekinds.WorkspaceKindUpdate" in defs.value
      ensures defs.Err? ==> defs.error in needed && defs.error !in definitions
    {
      Collect(ROOT_DEFINITION);
      var todo, result := needed, map[];
      while todo != {}
        invariant todo <= needed && result.Keys == needed - todo
        invariant forall n :: n in result ==> n in definitions && result[n] == definitions[n]
        decreases todo
      {
        var name :| name in todo;
        todo := todo - {name};
        if name !in definitions {
          return Err(name);
        }
        result := result[name := definitions[name]];
      }
      return Ok(result);
    }
  }

  /** Every reference inside resolves inside. */
  ghost predicate SelfContained(defs: Definitions) {
    forall n, r :: n in defs && r in References(defs, n) ==> r in defs
  }
}

/** Preparing an import graph, field by field as the preparation keeps it: it computes what the
    worklist settles on, unless a deadline stops it at a checkpoint. */
module ModuleGraph {
  import opened Basics
  import opened Ordering
  import opened ImportCycle
  import opened ImportSpec
  import opened ImportState
  import opened Worklist

  /** The limit a new source module of the given size would break. */
  function OverLimit(limits: Limits, count: nat, total: nat, bytes: nat): Option<Diagnostic> {
    if count >= limits.maxImports then Some(Limit(ImportCount))
    else if bytes > limits.maxImportedFileBytes then Some(Limit(ImportedFileSize))
    else if total + bytes > limits.maxImportGraphBytes then Some(Limit(ImportGraphSize))
    else None
  }

  /** A new catalog source is refused for the first limit it breaks, then for its alias. */
  lemma NewSourceRefusal(w: World, st: State, b: Node, alias: Text)
    requires b.SourceNode? && Identity(w, b) !in st.identities
    ensures var over := OverLimit(w.limits, |st.identities|, st.totalBytes, |SourceOf(w, b).text|);
            Refusal(w, st, b, alias) ==
            if over.Some? then over
            else if alias in st.aliases && st.aliases[alias].0 != Identity(w, b) then Some(Import)
            else None
  {
  }

  /** Admission of a new catalog source, field by field. */
  lemma SourceAdmitted(w: World, st: State, parent: Text, b: Node, alias: Text, next: State)
    requires b.SourceNode? && Identity(w, b) !in st.identities && next.externals == st.externals
    requires next.dependencies == st.dependencies + {Dependency(parent, Identity(w, b), alias)}
    requires next.aliases == if alias in st.aliases then st.aliases else st.aliases[alias := (Identity(w, b), SourceOf(w, b).text)]
    requires next.identities == st.identities + {Identity(w, b)} && next.totalBytes == st.totalBytes + Size(w, b)
    requires next.modules == st.modules[Identity(w, b) := ModuleOf(w, b)] && next.pending == st.pending + [ViewOf(w, b)]
    ensures next == Admitted(w, st, parent, b, alias)
  {
  }

  /** Admission of a file, field by field. */
  lemma FileAdmitted(w: World, st: State, parent: Text, b: Node, alias: Text, next: State)
    requires b.FileNode? && next.externals == st.externals
    requires next.dependencies == st.dependencies + {Dependency(parent, Identity(w, b), alias)}
    requires next.aliases == if alias in st.aliases then st.aliases else st.aliases[alias := (Identity(w, b), SourceOf(w, b).text)]
    requires Identity(w, b) in st.identities ==>
               && next.identities == st.identities && next.totalBytes == st.totalBytes
               && next.modules == st.modules && next.pending == st.pending
    requires Identity(w, b) !in st.identities ==>
               && next.identities == st.identities + {Identity(w, b)} && next.totalBytes == st.totalBytes + Size(w, b)
               && next.modules == st.modules[Identity(w, b) := ModuleOf(w, b)] && next.pending == st.pending + [ViewOf(w, b)]
    ensures next == Admitted(w, st, parent, b, alias)
  {
  }

  /** A file is refused for its alias, then for the first limit a new one breaks. */
  lemma FileRefusal(w: World, st: State, b: Node, alias: Text)
    requires b.FileNode?
    ensures Refusal(w, st, b, alias) ==
            if alias in st.aliases && st.aliases[alias].0 != Identity(w, b) then Some(Import)
            else if Identity(w, b) in st.identities then None
            else OverLimit(w.limits, |st.identities|, st.totalBytes, |SourceOf(w, b).text|)
  {
  }

  class ModuleGraph {
    const w: World
    const deadline: Deadline
    var totalBytes: nat
    var identities: set<Text>
    var aliases: map<Text, (Text, Text)>
    var modules: map<Text, PreparedModule>
    var externals: set<Text>
    var dependencies: set<Dependency>
    var pending: seq<View>

    ghost function Value(): State
      reads this
    {
      State(totalBytes, identities, aliases, modules, externals, dependencies, pending)
    }

    /** The error the clock causes. */
    ghost predicate Late(error: Diagnostic)
      reads deadline
    {
      deadline.passed && error == Time
    }

    constructor (world: World, deadline: Deadline)
      ensures w == world && this.deadline == deadline
      ensures Value() == Initial(world)
    {
      w, this.deadline := world, deadline;
      totalBytes := |world.root.text|;
      identities, aliases, modules, externals, dependencies := {}, map[], map[], {}, {};
      pending := [View(ROOT_IDENTITY, Root, world.root)];
    }

    method Checkpoint() returns (r: Outcome<Diagnostic>)
      modifies deadline
      ensures r == if deadline.passed then Fail(Time) else Pass
      ensures old(deadline.passed) ==> deadline.passed
    {
      var late := deadline.Check();
      r := if late then Fail(Time) else Pass;
    }

    method CheckGraphBytes() returns (r: Outcome<Diagnostic>)
      modifies deadline
      ensures r.Pass? ==> totalBytes <= w.limits.maxImportGraphBytes
      ensures r.Fail? ==> Late(r.error) || (totalBytes > w.limits.maxImportGraphBytes && r.error == Limit(ImportGraphSize))
    {
      r := Checkpoint();
      if r.Fail? { return; }
      if totalBytes > w.limits.maxImportGraphBytes {
        return Fail(Limit(ImportGraphSize));
      }
      r := Pass;
    }

    method CheckNewImportLimits(bytes: nat) returns (r: Outcome<Diagnostic>)
      modifies deadline
      ensures r.Pass? ==> OverLimit(w.limits, |identities|, totalBytes, bytes).None?
      ensures r.Fail? ==> Late(r.error) || OverLimit(w.limits, |identities|, totalBytes, bytes) == Some(r.error)
    {
      if |identities| >= w.limits.maxImports {
        return Fail(Limit(ImportCount));
      }
      if bytes > w.limits.maxImportedFileBytes {
        return Fail(Limit(ImportedFileSize));
      }
      if totalBytes + bytes > USIZE_MAX {
        return Fail(Limit(ImportGraphSize));
      }
      if totalBytes + bytes > w.limits.maxImportGraphBytes {
        return Fail(Limit(ImportGraphSize));
      }
      r := Checkpoint();
    }

    method RegisterDependency(parent: View, target: Text, alias: Text)
      modifies this`dependencies
      ensures dependencies == old(dependencies) + {Dependency(parent.identity, target, alias)}
    {
      dependencies := dependencies + {Dependency(parent.identity, target, alias)};
    }

    method RegisterAlias(alias: Text, identity: Text, text: Text) returns (r: Outcome<Diagnostic>)
      modifies this`aliases, deadline
      ensures r.Pass? ==> (alias in old(aliases) ==> old(aliases)[alias].0 == identity)
      ensures r.Pass? ==> aliases == if alias in old(aliases) then old(aliases) else old(aliases)[alias := (identity, text)]
      ensures r.Fail? ==>
                || Late(r.error)
                || (r.error == Import && alias in old(aliases) && old(aliases)[alias].0 != identity)
    {
      r := Checkpoint();
      if r.Fail? { return; }
      if alias in aliases {
        return if aliases[alias].0 != identity then Fail(Import) else Pass;
      }
      aliases := aliases[alias := (identity, text)];
      r := Checkpoint();
    }

    method RegisterImport(identity: Text, moduleClass: ModuleClass, source: Source) returns (r: Outcome<Diagnostic>)
      modifies this`identities, this`totalBytes, this`modules, this`pending, deadline
      ensures r.Pass? && identity in old(identities) ==>
                unchanged(`identities) && unchanged(`totalBytes) && unchanged(`modules) && unchanged(`pending)
      ensures r.Pass? && identity !in old(identities) ==>
                && OverLimit(w.limits, |old(identities)|, old(totalBytes), |source.text|).None?
                && totalBytes == old(totalBytes) + |source.text|
                && identities == old(identities) + {identity}
                && modules == old(modules)[identity :=
                     PreparedModule(identity, moduleClass, source.logicalName, w.sha256(source.text))]
                && pending == old(pending) + [View(identity, moduleClass, source)]
      ensures r.Fail? ==>
                || Late(r.error)
                || (identity !in old(identities)
                    && OverLimit(w.limits, |old(identities)|, old(totalBytes), |source.text|) == Some(r.error))
    {
      r := Checkpoint();
      if r.Fail? { return; }
      if identity in identities {
        r := Checkpoint();
        return;
      }
      identities := identities + {identity};
      if |identities| > w.limits.maxImports {
        return Fail(Limit(ImportCount));
      }
      if |source.text| > w.limits.maxImportedFileBytes {
        return Fail(Limit(ImportedFileSize));
      }
      if totalBytes + |source.text| > USIZE_MAX {
        return Fail(Limit(ImportGraphSize));
      }
      totalBytes := totalBytes + |source.text|;
      :- CheckGraphBytes();
      :- Checkpoint();
      modules := modules[identity := PreparedModule(identity, moduleClass, source.logicalName, w.sha256(source.text))];
      pending := pending + [View(identity, moduleClass, source)];
      r := Checkpoint();
    }

    method RegisterExternal(parent: View, name: Text) returns (r: Outcome<Diagnostic>)
      requires name in w.catalog.externals
      modifies this, deadline
      ensures r.Pass? ==> Processed(w, old(Value()), parent, EmbeddedImport(name)) == Ok(Value())
      ensures r.Fail? ==> Late(r.error) || Processed(w, old(Value()), parent, EmbeddedImport(name)) == Err(r.error)
    {
      var external := w.catalog.externals[name];
      :- Checkpoint();
      RegisterDependency(parent, external.identity, name);
      if external.identity in identities {
        r := Checkpoint();
        return;
      }
      identities := identities + {external.identity};
      if |identities| > w.limits.maxImports {
        return Fail(Limit(ImportCount));
      }
      externals := externals + {name};
      :- Checkpoint();
      modules := modules[external.identity := PreparedModule(
        external.identity, External, external.fingerprintName, w.sha256(external.fingerprintSource))];
      r := Checkpoint();
    }

    method AddEmbedded(parent: View, name: Text) returns (r: Outcome<Diagnostic>)
      modifies this, deadline
      ensures r.Pass? ==> Processed(w, old(Value()), parent, EmbeddedImport(name)) == Ok(Value())
      ensures r.Fail? ==> Late(r.error) || Processed(w, old(Value()), parent, EmbeddedImport(name)) == Err(r.error)
    {
      r := Checkpoint();
      if r.Fail? { return; }
      if name in w.catalog.externals {
        r := RegisterExternal(parent, name);
        return;
      }
      :- Checkpoint();
      if name !in w.catalog.sources {
        return Fail(Import);
      }
      r := AddSource(parent, name);
    }

    /** The rest of `add_embedded`, for a name of the source catalog. */
    method AddSource(parent: View, name: Text) returns (r: Outcome<Diagnostic>)
      requires name !in w.catalog.externals && name in w.catalog.sources
      modifies this, deadline
      ensures r.Pass? ==> Processed(w, old(Value()), parent, EmbeddedImport(name)) == Ok(Value())
      ensures r.Fail? ==> Late(r.error) || Processed(w, old(Value()), parent, EmbeddedImport(name)) == Err(r.error)
    {
      var entry := w.catalog.sources[name];
      if entry.identity in identities {
        RegisterDependency(parent, entry.identity, name);
        r := Checkpoint();
        return;
      }
      r := AddNewSource(parent, EmbeddedImport(name), SourceNode(name), name);
    }

    /** The tail of `add_embedded`, for an identity not seen before. */
    method AddNewSource(parent: View, ghost request: Request, node: Node, alias: Text) returns (r: Outcome<Diagnostic>)
      requires Resolve(w, parent, request) == Ok((node, alias)) && node.SourceNode? && Identity(w, node) !in identities
      modifies this, deadline
      ensures r.Pass? ==> Processed(w, old(Value()), parent, request) == Ok(Value())
      ensures r.Fail? ==> Late(r.error) || Processed(w, old(Value()), parent, request) == Err(r.error)
    {
      ghost var st := Value();
      var identity, source := Identity(w, node), SourceOf(w, node);
      NewSourceRefusal(w, st, node, alias);
      :- CheckNewImportLimits(|source.text|);
      :- Checkpoint();
      :- RegisterAlias(alias, identity, source.text);
      RegisterDependency(parent, identity, alias);
      r := RegisterImport(identity, Embedded, source);
      if r.Pass? {
        SourceAdmitted(w, st, parent.identity, node, alias, Value());
      }
    }

    method AddRelative(parent: View, requested: Text) returns (r: Outcome<Diagnostic>)
      modifies this, deadline
      ensures r.Pass? ==> Processed(w, old(Value()), parent, RelativeImport(requested)) == Ok(Value())
      ensures r.Fail? ==> Late(r.error) || Processed(w, old(Value()), parent, RelativeImport(requested)) == Err(r.error)
    {
      r := Checkpoint();
      if r.Fail? { return; }
      if parent.moduleClass == Embedded {
        return Fail(Import);
      }
      if w.sourceRoot.None? {
        return Fail(Import);
      }
      var normalized := w.normalize(requested);
      if normalized.None? {
        return Fail(Import);
      }
      var Normalized(path, alias) := normalized.value;
      if alias in w.catalog.sources {
        return Fail(Import);
      }
      if alias in w.catalog.externals {
        return Fail(Import);
      }
      var loaded := Load(w, w.sourceRoot.value, parent, path, alias);
      :- Checkpoint();
      if loaded.Err? {
        return Fail(loaded.error);
      }
      r := AddLoaded(parent, RelativeImport(requested), loaded.value.0, alias);
    }

    /** The rest of `add_relative`, once the source is loaded. */
    method AddLoaded(parent: View, ghost request: Request, node: Node, alias: Text) returns (r: Outcome<Diagnostic>)
      requires Resolve(w, parent, request) == Ok((node, alias)) && node.FileNode?
      modifies this, deadline
      ensures r.Pass? ==> Processed(w, old(Value()), parent, request) == Ok(Value())
      ensures r.Fail? ==> Late(r.error) || Processed(w, old(Value()), parent, request) == Err(r.error)
    {
      ghost var st := Value();
      FileRefusal(w, st, node, alias);
      var source := SourceOf(w, node);
      var identity := RELATIVE_PREFIX + source.logicalName;
      :- RegisterAlias(alias, identity, source.text);
      RegisterDependency(parent, identity, alias);
      r := RegisterImport(identity, Relative, source);
      if r.Pass? {
        FileAdmitted(w, st, parent.identity, node, alias, Value());
      }
    }

    method Process(parent: View, request: Request) returns (r: Outcome<Diagnostic>)
      modifies this, deadline
      ensures r.Pass? ==> Processed(w, old(Value()), parent, request) == Ok(Value())
      ensures r.Fail? ==> Late(r.error) || Processed(w, old(Value()), parent, request) == Err(r.error)
    {
      r := Checkpoint();
      if r.Fail? { return; }
      match request {
        case EmbeddedImport(name) => r := AddEmbedded(parent, name);
        case RelativeImport(requested) => r := AddRelative(parent, requested);
        case DeniedImport(_, _) => r := Fail(Import);
        case InvalidImport(_) => r := Fail(Import);
      }
    }
  }

  /** The `for request in requests` loop. */
  method ProcessAll(graph: ModuleGraph, parent: View, requests: seq<Request>) returns (r: Outcome<Diagnostic>)
    modifies graph, graph.deadline
    ensures r.Pass? ==> ProcessedAll(graph.w, old(graph.Value()), parent, requests) == Ok(graph.Value())
    ensures r.Fail? ==> graph.Late(r.error) || ProcessedAll(graph.w, old(graph.Value()), parent, requests) == Err(r.error)
  {
    for k := 0 to |requests|
      invariant ProcessedAll(graph.w, old(graph.Value()), parent, requests)
             == ProcessedAll(graph.w, graph.Value(), parent, requests[k..])
    {
      assert requests[k..][0] == requests[k] && requests[k..][1..] == requests[k + 1..];
      r := graph.Process(parent, requests[k]);
      if r.Fail? { return; }
    }
    r := Pass;
  }

  /** One turn of the worklist loop. */
  method Turn(graph: ModuleGraph, ghost n: nat) returns (r: Outcome<Diagnostic>)
    requires graph.pending != [] && Reached(graph.w, n, graph.Value())
    modifies graph, graph.deadline
    ensures r.Pass? ==> Reached(graph.w, n + 1, graph.Value())
    ensures r.Fail? ==> graph.Late(r.error) || Settled(graph.w) == Err(r.error)
  {
    ReachedNext(graph.w, n, graph.Value());
    var next := graph.pending[0];
    graph.pending := graph.pending[1..];
    r := graph.Checkpoint();
    if r.Fail? { return; }
    var requests := graph.w.discover(next);
    r := graph.Checkpoint();
    if r.Fail? { return; }
    if requests.Err? {
      return Fail(requests.error);
    }
    r := ProcessAll(graph, next, requests.value);
  }

  /** The worklist loop: it ends in what the worklist settles on. */
  method Drain(graph: ModuleGraph) returns (r: Outcome<Diagnostic>, ghost shown: seq<View>)
    requires Reached(graph.w, 0, graph.Value())
    modifies graph, graph.deadline
    ensures r.Pass? ==> Settled(graph.w) == Ok(graph.Value()) && shown == Shown(graph.w, graph.w.limits.maxImports + 1)
    ensures r.Fail? ==> graph.Late(r.error) || Settled(graph.w) == Err(r.error)
    ensures |shown| <= graph.w.limits.maxImports + 1
  {
    ghost var n := 0;
    while graph.pending != []
      invariant Reached(graph.w, n, graph.Value())
      decreases graph.w.limits.maxImports + 1 - n
    {
      ReachedNext(graph.w, n, graph.Value());
      shown := Shown(graph.w, n) + [graph.pending[0]];
      r := Turn(graph, n);
      if r.Fail? { return; }
      n := n + 1;
    }
    ReachedEnd(graph.w, n, graph.Value());
    r, shown := Pass, Shown(graph.w, graph.w.limits.maxImports + 1);
  }

  /** The end of `prepare_module_graph`: sorted listings; a cycle among the dependencies is refused. */
  method Finish(graph: ModuleGraph) returns (r: Result<PreparedGraph, Diagnostic>)
    requires Settled(graph.w) == Ok(graph.Value())
    modifies graph.deadline
    ensures (r.Err? && graph.Late(r.error)) || IsResult(graph.w, r)
  {
    ghost var texts := FinalLedger(graph.w);
    ModulesByIdentity(graph.w, graph.Value(), texts);
    var modules := ListAscending(ModuleKey, graph.modules.Values);
    var dependencies := ListAscending(DependencyKey, graph.dependencies);
    var prepared := PreparedGraph(graph.aliases, graph.externals, modules, dependencies);
    assert ImportEdges(prepared.dependencies) == EdgesOf(graph.dependencies);
    var cycle := DetectImportCycle(prepared.dependencies);
    if cycle.Some? {
      return Err(Import);
    }
    var step := graph.Checkpoint();
    r := if step.Fail? then Err(step.error) else Ok(prepared);
  }

  /** `prepare_module_graph`: the result, and what discovery was shown. */
  method PrepareModuleGraph(w: World, deadline: Deadline) returns (r: Result<PreparedGraph, Diagnostic>, ghost shown: seq<View>)
    modifies deadline
    ensures (deadline.passed && r == Err(Time)) || IsResult(w, r)
    ensures CatalogDistinct(w.catalog) ==> (deadline.passed && r == Err(Time)) || IsOutcome(w, r)
    ensures CatalogDistinct(w.catalog) && r.Ok? ==> EachShownOnce(w, shown)
    ensures r.Ok? ==> shown == Shown(w, w.limits.maxImports + 1)
    ensures |shown| <= w.limits.maxImports + 1
  {
    r, shown := RunWorklist(w, deadline);
    if IsResult(w, r) && CatalogDistinct(w.catalog) {
      ResultIsOutcome(w, r);
    }
  }

  method RunWorklist(w: World, deadline: Deadline) returns (r: Result<PreparedGraph, Diagnostic>, ghost shown: seq<View>)
    modifies deadline
    ensures (deadline.passed && r == Err(Time)) || IsResult(w, r)
    ensures r.Ok? ==> shown == Shown(w, w.limits.maxImports + 1)
    ensures |shown| <= w.limits.maxImports + 1
  {
    shown := [];
    var graph := new ModuleGraph(w, deadline);
    var step := graph.Checkpoint();
    if step.Fail? {
      return Err(step.error), shown;
    }
    step := graph.CheckGraphBytes();
    if step.Fail? {
      return Err(step.error), shown;
    }
    step, shown := Drain(graph);
    if step.Fail? {
      return Err(step.error), shown;
    }
    r := Finish(graph);
  }
}

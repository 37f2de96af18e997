/** The worklist's bookkeeping as a value: what admitting one resolved import does to it, when it
    is refused, and how the bookkeeping relates to the graph being discovered. */
module ImportState {
  import opened Basics
  import opened Digraph
  import opened Ordering
  import opened ImportCycle
  import opened ImportSpec

  datatype State = State(
    totalBytes: nat,
    identities: set<Text>,
    aliases: map<Text, (Text, Text)>,
    modules: map<Text, PreparedModule>,
    externals: set<Text>,
    dependencies: set<Dependency>,
    pending: seq<View>)

  /** Why an import that resolved to b is refused in this state. */
  function Refusal(w: World, st: State, b: Node, alias: Text): Option<Diagnostic> {
    var id := Identity(w, b);
    if id in st.identities && !b.FileNode? then None
    else if b.FileNode? && alias in st.aliases && st.aliases[alias].0 != id then Some(Import)
    else if id in st.identities then None
    else if |st.identities| >= w.limits.maxImports then Some(Limit(ImportCount))
    else if b.ExternalNode? then None
    else if Size(w, b) > w.limits.maxImportedFileBytes then Some(Limit(ImportedFileSize))
    else if st.totalBytes + Size(w, b) > w.limits.maxImportGraphBytes then Some(Limit(ImportGraphSize))
    else if b.SourceNode? && alias in st.aliases && st.aliases[alias].0 != id then Some(Import)
    else None
  }

  /** The state after import b of the module with identity `parent` has been admitted. */
  function Admitted(w: World, st: State, parent: Text, b: Node, alias: Text): State {
    var id := Identity(w, b);
    var linked := st.(dependencies := st.dependencies + {Dependency(parent, id, alias)});
    var named :=
      if b.ExternalNode? || (b.SourceNode? && id in st.identities) || alias in st.aliases then linked
      else linked.(aliases := st.aliases[alias := (id, SourceOf(w, b).text)]);
    if id in st.identities then named
    else if b.ExternalNode? then
      named.(identities := st.identities + {id},
             externals := st.externals + {b.name},
             modules := st.modules[id := ModuleOf(w, b)])
    else
      named.(identities := st.identities + {id},
             totalBytes := st.totalBytes + Size(w, b),
             modules := st.modules[id := ModuleOf(w, b)],
             pending := st.pending + [ViewOf(w, b)])
  }

  // ---- the ledger: what holds for every catalog ---------------------------------------

  ghost function TextTotal(texts: map<Text, Text>): nat {
    if texts == map[] then 0 else
      var id :| id in texts;
      |texts[id]| + TextTotal(texts - {id})
  }

  lemma {:induction false} TextTotalRemove(texts: map<Text, Text>, id: Text)
    requires id in texts
    ensures TextTotal(texts) == |texts[id]| + TextTotal(texts - {id})
    decreases |texts|
  {
    var m :| m in texts && TextTotal(texts) == |texts[m]| + TextTotal(texts - {m});
    if m != id {
      TextTotalRemove(texts - {m}, id);
      TextTotalRemove(texts - {id}, m);
      assert texts - {m} - {id} == texts - {id} - {m};
    }
  }

  /** The target an alias stands for: catalog names are fixed, other aliases are registered. */
  ghost predicate AliasMeans(w: World, st: State, alias: Text, target: Text) {
    if Offered(w.catalog, alias) then target == CatalogIdentity(w.catalog, alias)
    else alias in st.aliases && st.aliases[alias].0 == target
  }

  ghost predicate AliasLedger(w: World, st: State) {
    forall d :: d in st.dependencies ==> d.target in st.identities && AliasMeans(w, st, d.alias, d.target)
  }

  /** `texts` holds the text of every registered source module. */
  ghost predicate ModuleLedger(w: World, modules: map<Text, PreparedModule>, texts: map<Text, Text>) {
    && texts.Keys <= modules.Keys
    && (forall id :: id in modules ==>
          modules[id].identity == id && (id in texts <==> modules[id].moduleClass != External))
    && (forall id :: id in texts ==>
          modules[id].sha256 == w.sha256(texts[id]) && |texts[id]| <= w.limits.maxImportedFileBytes)
  }

  /** Counts, byte totals and aliases add up and stay within the limits. */
  ghost predicate Ledger(w: World, st: State, texts: map<Text, Text>) {
    && st.modules.Keys == st.identities && ModuleLedger(w, st.modules, texts)
    && AliasLedger(w, st)
    && |st.identities| <= w.limits.maxImports
    && st.totalBytes == |w.root.text| + TextTotal(texts)
    && st.totalBytes <= w.limits.maxImportGraphBytes
  }

  /** An alias never stands for two targets, whichever modules use it. */
  lemma AliasesAreFunctional(w: World, st: State, texts: map<Text, Text>, d: Dependency, e: Dependency)
    requires Ledger(w, st, texts)
    requires d in st.dependencies && e in st.dependencies && d.alias == e.alias
    ensures d.target == e.target
  {
    assert AliasMeans(w, st, d.alias, d.target) && AliasMeans(w, st, e.alias, e.target);
  }

  ghost function Recorded(w: World, st: State, texts: map<Text, Text>, b: Node): map<Text, Text> {
    if Identity(w, b) in st.identities || b.ExternalNode? then texts
    else texts[Identity(w, b) := SourceOf(w, b).text]
  }

  /** The alias is a catalog name exactly for catalog modules, and then it is their own name. */
  predicate AliasFits(w: World, b: Node, alias: Text) {
    match b
    case RootNode => false
    case SourceNode(name) => alias == name
    case ExternalNode(name) => alias == name
    case FileNode(_) => !Offered(w.catalog, alias)
  }

  lemma ResolvedAliasFits(w: World, parent: View, request: Request)
    requires Resolve(w, parent, request).Ok?
    ensures AliasFits(w, Resolve(w, parent, request).value.0, Resolve(w, parent, request).value.1)
  {
  }

  lemma AdmittedAliases(w: World, st: State, parent: Text, b: Node, alias: Text)
    requires AliasLedger(w, st) && Exists(w, b) && AliasFits(w, b, alias)
    requires Refusal(w, st, b, alias).None?
    ensures AliasLedger(w, Admitted(w, st, parent, b, alias))
  {
    var next := Admitted(w, st, parent, b, alias);
    forall d | d in st.dependencies
      ensures d.target in next.identities && AliasMeans(w, next, d.alias, d.target)
    {
      assert AliasMeans(w, st, d.alias, d.target);
    }
    assert AliasMeans(w, next, alias, Identity(w, b));
  }

  lemma ModuleLedgerGrows(w: World, modules: map<Text, PreparedModule>, texts: map<Text, Text>, b: Node)
    requires ModuleLedger(w, modules, texts) && Exists(w, b) && Identity(w, b) !in modules
    requires Size(w, b) <= w.limits.maxImportedFileBytes
    ensures b.ExternalNode? ==> ModuleLedger(w, modules[Identity(w, b) := ModuleOf(w, b)], texts)
    ensures !b.ExternalNode? ==>
              ModuleLedger(w, modules[Identity(w, b) := ModuleOf(w, b)], texts[Identity(w, b) := SourceOf(w, b).text])
  {
    var m := ModuleOf(w, b);
    assert m.identity == Identity(w, b) && (m.moduleClass == External <==> b.ExternalNode?);
    if !b.ExternalNode? {
      assert m.sha256 == w.sha256(SourceOf(w, b).text);
    }
  }

  lemma AdmittedFields(w: World, st: State, parent: Text, b: Node, alias: Text)
    requires Exists(w, b)
    ensures var next, id := Admitted(w, st, parent, b, alias), Identity(w, b);
            && next.dependencies == st.dependencies + {Dependency(parent, id, alias)}
            && (id in st.identities ==> next == st.(dependencies := next.dependencies, aliases := next.aliases))
            && (id !in st.identities ==>
                  && next.identities == st.identities + {id}
                  && next.modules == st.modules[id := ModuleOf(w, b)]
                  && next.totalBytes == st.totalBytes + Size(w, b)
                  && next.externals == (if b.ExternalNode? then st.externals + {b.name} else st.externals)
                  && next.pending == if b.ExternalNode? then st.pending else st.pending + [ViewOf(w, b)])
  {
  }

  lemma AdmittedTotal(w: World, texts: map<Text, Text>, b: Node)
    requires Exists(w, b) && !b.ExternalNode? && Identity(w, b) !in texts
    ensures TextTotal(texts[Identity(w, b) := SourceOf(w, b).text]) == TextTotal(texts) + Size(w, b)
  {
    var more := texts[Identity(w, b) := SourceOf(w, b).text];
    TextTotalRemove(more, Identity(w, b));
    assert more - {Identity(w, b)} == texts;
  }

  lemma AdmittedLedger(w: World, st: State, texts: map<Text, Text>, parent: Text, b: Node, alias: Text)
    requires Ledger(w, st, texts) && Exists(w, b) && AliasFits(w, b, alias)
    requires Refusal(w, st, b, alias).None?
    ensures Ledger(w, Admitted(w, st, parent, b, alias), Recorded(w, st, texts, b))
  {
    AdmittedAliases(w, st, parent, b, alias);
    AdmittedFields(w, st, parent, b, alias);
    if Identity(w, b) !in st.identities {
      ModuleLedgerGrows(w, st.modules, texts, b);
      if !b.ExternalNode? {
        AdmittedTotal(w, texts, b);
      }
    }
  }

  // ---- what the bookkeeping means under distinct identities ---------------------------

  datatype ImportEdge = ImportEdge(a: Node, b: Node, alias: Text)

  /** The part of the graph discovered so far, in terms of nodes. */
  datatype Trace = Trace(found: set<Node>, seen: set<ImportEdge>, explored: seq<Node>, queue: seq<Node>)

  /** The imports there are to discover: each leads to a target under a fitting alias. */
  ghost predicate Fits(w: World, all: iset<ImportEdge>, targets: set<Node>) {
    && (forall i :: i in all ==> i.b in targets && AliasFits(w, i.b, i.alias))
    && (forall n :: n in targets ==> Exists(w, n) && n != RootNode)
  }

  ghost predicate TracksNodes(all: iset<ImportEdge>, tr: Trace) {
    && (forall i :: i in tr.seen ==> i in all && i.b in tr.found)
    && (forall n {:trigger Imported(tr.seen, n)} :: n in tr.found ==> Imported(tr.seen, n))
  }

  ghost predicate Imported(seen: set<ImportEdge>, n: Node) {
    exists i :: i in seen && i.b == n
  }

  ghost predicate Named(seen: set<ImportEdge>, alias: Text) {
    exists i :: i in seen && i.alias == alias && !i.b.ExternalNode?
  }

  ghost predicate TracksNames(w: World, identities: set<Text>, found: set<Node>) {
    && identities == (set n | n in found :: Identity(w, n))
    && |identities| == |found|
  }

  ghost predicate TracksTable(w: World, modules: map<Text, PreparedModule>, found: set<Node>) {
    forall n :: n in found ==> Identity(w, n) in modules && modules[Identity(w, n)] == ModuleOf(w, n)
  }

  ghost predicate TracksModules(w: World, st: State, found: set<Node>) {
    && TracksNames(w, st.identities, found)
    && st.modules.Keys == st.identities && TracksTable(w, st.modules, found)
    && TracksExternals(st.externals, found)
  }

  ghost predicate TracksExternals(externals: set<Text>, found: set<Node>) {
    forall name :: name in externals <==> ExternalNode(name) in found
  }

  ghost predicate TracksTotal(w: World, total: nat, found: set<Node>) {
    && total == |w.root.text| + TotalSize(w, found)
    && forall n :: n in found ==> Size(w, n) <= w.limits.maxImportedFileBytes
  }

  function DependencyOf(w: World, i: ImportEdge): Dependency {
    Dependency(Identity(w, i.a), Identity(w, i.b), i.alias)
  }

  ghost predicate TracksDependencies(w: World, dependencies: set<Dependency>, seen: set<ImportEdge>) {
    dependencies == set i | i in seen :: DependencyOf(w, i)
  }

  function AliasEntry(w: World, b: Node): (Text, Text) {
    (Identity(w, b), SourceOf(w, b).text)
  }

  ghost predicate TracksAliases(w: World, aliases: map<Text, (Text, Text)>, seen: set<ImportEdge>) {
    && (forall i :: i in seen && !i.b.ExternalNode? ==> i.alias in aliases && aliases[i.alias] == AliasEntry(w, i.b))
    && (forall alias {:trigger Named(seen, alias)} :: alias in aliases ==> Named(seen, alias))
  }

  /** Every source module is explored or waiting, once. */
  ghost predicate TracksQueue(w: World, st: State, tr: Trace) {
    && |st.pending| == |tr.queue|
    && (forall k :: 0 <= k < |tr.queue| ==> st.pending[k] == ViewOf(w, tr.queue[k]))
    && NoDup(tr.explored + tr.queue)
    && forall n :: n in tr.explored + tr.queue <==> n == RootNode || (n in tr.found && !n.ExternalNode?)
  }

  ghost predicate Tracks(w: World, all: iset<ImportEdge>, st: State, tr: Trace) {
    && TracksNodes(all, tr) && TracksModules(w, st, tr.found) && TracksTotal(w, st.totalBytes, tr.found)
    && TracksDependencies(w, st.dependencies, tr.seen) && TracksAliases(w, st.aliases, tr.seen)
    && TracksQueue(w, st, tr)
  }

  ghost function Extended(tr: Trace, i: ImportEdge): Trace {
    tr.(found := tr.found + {i.b},
        seen := tr.seen + {i},
        queue := if i.b in tr.found || i.b.ExternalNode? then tr.queue else tr.queue + [i.b])
  }

  ghost function AdmittedEdge(w: World, st: State, i: ImportEdge): State {
    Admitted(w, st, Identity(w, i.a), i.b, i.alias)
  }

  lemma FoundAreTargets(w: World, all: iset<ImportEdge>, targets: set<Node>, tr: Trace)
    requires Fits(w, all, targets) && TracksNodes(all, tr)
    ensures tr.found <= targets
  {
    forall n | n in tr.found
      ensures n in targets
    {
      assert Imported(tr.seen, n);
    }
  }

  lemma KnownIdentity(w: World, targets: set<Node>, st: State, tr: Trace, b: Node)
    requires Identified(w, b) && tr.found <= targets && b in targets
    requires forall n :: n in targets ==> Exists(w, n)
    requires TracksModules(w, st, tr.found)
    ensures Identity(w, b) in st.identities <==> b in tr.found
  {
    if Identity(w, b) in st.identities {
      var n :| n in tr.found && Identity(w, n) == Identity(w, b);
      IdentityInjective(w, n, b);
    }
  }

  lemma NewModule(w: World, st: State, next: State, found: set<Node>, b: Node)
    requires TracksModules(w, st, found) && Identity(w, b) !in st.identities
    requires next.identities == st.identities + {Identity(w, b)}
    requires next.modules == st.modules[Identity(w, b) := ModuleOf(w, b)]
    requires next.externals == if b.ExternalNode? then st.externals + {b.name} else st.externals
    ensures TracksModules(w, next, found + {b})
  {
    NewName(w, st.identities, found, b);
    NewEntry(w, st.modules, found, b);
    NewExternal(st.externals, found, b);
  }

  lemma NewExternal(externals: set<Text>, found: set<Node>, b: Node)
    requires TracksExternals(externals, found)
    ensures TracksExternals(if b.ExternalNode? then externals + {b.name} else externals, found + {b})
  {
  }

  lemma NewName(w: World, identities: set<Text>, found: set<Node>, b: Node)
    requires TracksNames(w, identities, found) && Identity(w, b) !in identities
    ensures TracksNames(w, identities + {Identity(w, b)}, found + {b})
  {
    assert b !in found;
  }

  lemma NewEntry(w: World, modules: map<Text, PreparedModule>, found: set<Node>, b: Node)
    requires TracksTable(w, modules, found) && Identity(w, b) !in modules
    ensures TracksTable(w, modules[Identity(w, b) := ModuleOf(w, b)], found + {b})
  {
  }

  lemma ExtendedModules(w: World, targets: set<Node>, st: State, tr: Trace, i: ImportEdge)
    requires Identified(w, i.b) && tr.found <= targets && i.b in targets
    requires forall n :: n in targets ==> Exists(w, n)
    requires TracksModules(w, st, tr.found)
    ensures TracksModules(w, AdmittedEdge(w, st, i), tr.found + {i.b})
  {
    var next := AdmittedEdge(w, st, i);
    AdmittedFields(w, st, Identity(w, i.a), i.b, i.alias);
    KnownIdentity(w, targets, st, tr, i.b);
    if i.b in tr.found {
      assert tr.found + {i.b} == tr.found;
    } else {
      NewModule(w, st, next, tr.found, i.b);
    }
  }

  lemma NewQueued(w: World, st: State, next: State, tr: Trace, b: Node)
    requires TracksQueue(w, st, tr) && b !in tr.found && b != RootNode
    requires b.ExternalNode? ==> next.pending == st.pending
    requires !b.ExternalNode? ==> next.pending == st.pending + [ViewOf(w, b)]
    ensures TracksQueue(w, next, tr.(found := tr.found + {b}, queue := if b.ExternalNode? then tr.queue else tr.queue + [b]))
  {
    if !b.ExternalNode? {
      assert tr.explored + (tr.queue + [b]) == (tr.explored + tr.queue) + [b];
    }
  }

  lemma ExtendedQueue(w: World, targets: set<Node>, st: State, tr: Trace, i: ImportEdge)
    requires Identified(w, i.b) && tr.found <= targets && i.b in targets && i.b != RootNode
    requires forall n :: n in targets ==> Exists(w, n)
    requires TracksModules(w, st, tr.found) && TracksQueue(w, st, tr)
    ensures TracksQueue(w, AdmittedEdge(w, st, i), Extended(tr, i))
  {
    var next := AdmittedEdge(w, st, i);
    AdmittedFields(w, st, Identity(w, i.a), i.b, i.alias);
    KnownIdentity(w, targets, st, tr, i.b);
    if i.b in tr.found {
      assert tr.found + {i.b} == tr.found;
    } else {
      NewQueued(w, st, next, tr, i.b);
    }
  }

  lemma AliasesGrow(w: World, aliases: map<Text, (Text, Text)>, more: map<Text, (Text, Text)>, seen: set<ImportEdge>, i: ImportEdge)
    requires TracksAliases(w, aliases, seen)
    requires i.b.ExternalNode? ==> more == aliases
    requires !i.b.ExternalNode? ==> more == aliases[i.alias := AliasEntry(w, i.b)]
    requires !i.b.ExternalNode? && i.alias in aliases ==> more == aliases
    ensures TracksAliases(w, more, seen + {i})
  {
    forall alias | alias in more
      ensures Named(seen + {i}, alias)
    {
      if alias in aliases {
        assert Named(seen, alias);
        var j :| j in seen && j.alias == alias && !j.b.ExternalNode?;
        assert j in seen + {i};
      } else {
        assert i in seen + {i};
      }
    }
  }

  lemma NodesGrow(all: iset<ImportEdge>, tr: Trace, i: ImportEdge)
    requires TracksNodes(all, tr) && i in all
    ensures TracksNodes(all, Extended(tr, i))
  {
    var more := Extended(tr, i);
    forall n | n in more.found
      ensures Imported(more.seen, n)
    {
      if n == i.b {
        assert i in more.seen;
      } else {
        assert Imported(tr.seen, n);
        var j :| j in tr.seen && j.b == n;
        assert j in more.seen;
      }
    }
  }

  /** Admitting an import leaves its alias standing for its target. */
  lemma AdmittedAlias(w: World, all: iset<ImportEdge>, targets: set<Node>, st: State, tr: Trace, i: ImportEdge)
    requires Identified(w, i.b) && Fits(w, all, targets) && TracksNodes(all, tr) && i in all
    requires TracksModules(w, st, tr.found) && TracksAliases(w, st.aliases, tr.seen)
    requires Refusal(w, st, i.b, i.alias).None? && !i.b.ExternalNode?
    ensures AdmittedEdge(w, st, i).aliases == st.aliases[i.alias := AliasEntry(w, i.b)]
    ensures i.alias in st.aliases ==> AdmittedEdge(w, st, i).aliases == st.aliases
  {
    FoundAreTargets(w, all, targets, tr);
    KnownIdentity(w, targets, st, tr, i.b);
    KnownSourceIsNamed(w, all, targets, st.aliases, tr, i);
    if i.alias in st.aliases {
      SameAliasSameTarget(w, all, targets, st, tr, i);
    }
    AliasMapAfter(w, st, i);
  }

  lemma AliasMapAfter(w: World, st: State, i: ImportEdge)
    requires !i.b.ExternalNode?
    requires i.b.SourceNode? && Identity(w, i.b) in st.identities ==> i.alias in st.aliases
    requires i.alias in st.aliases ==> st.aliases[i.alias] == AliasEntry(w, i.b)
    ensures AdmittedEdge(w, st, i).aliases == st.aliases[i.alias := AliasEntry(w, i.b)]
    ensures i.alias in st.aliases ==> AdmittedEdge(w, st, i).aliases == st.aliases
  {
  }

  lemma KnownSourceIsNamed(w: World, all: iset<ImportEdge>, targets: set<Node>, aliases: map<Text, (Text, Text)>, tr: Trace, i: ImportEdge)
    requires Fits(w, all, targets) && TracksNodes(all, tr) && TracksAliases(w, aliases, tr.seen) && i in all
    ensures i.b.SourceNode? && i.b in tr.found ==> i.alias in aliases
  {
    if i.b.SourceNode? && i.b in tr.found {
      assert Imported(tr.seen, i.b);
      var j :| j in tr.seen && j.b == i.b;
      assert j in all && j.alias == i.alias;
    }
  }

  lemma SameAliasSameTarget(w: World, all: iset<ImportEdge>, targets: set<Node>, st: State, tr: Trace, i: ImportEdge)
    requires Identified(w, i.b) && Fits(w, all, targets) && TracksNodes(all, tr) && i in all
    requires TracksModules(w, st, tr.found) && TracksAliases(w, st.aliases, tr.seen)
    requires Refusal(w, st, i.b, i.alias).None? && !i.b.ExternalNode? && i.alias in st.aliases
    ensures st.aliases[i.alias] == AliasEntry(w, i.b)
  {
    assert Named(tr.seen, i.alias);
    var j :| j in tr.seen && j.alias == i.alias && !j.b.ExternalNode?;
    assert j in all && j.b in targets;
    assert st.aliases[i.alias] == AliasEntry(w, j.b);
    FoundAreTargets(w, all, targets, tr);
    KnownIdentity(w, targets, st, tr, i.b);
    if i.b.FileNode? {
      IdentityInjective(w, j.b, i.b);
    }
  }

  lemma DependenciesGrow(w: World, dependencies: set<Dependency>, seen: set<ImportEdge>, i: ImportEdge)
    requires TracksDependencies(w, dependencies, seen)
    ensures TracksDependencies(w, dependencies + {DependencyOf(w, i)}, seen + {i})
  {
  }

  lemma ExtendedTotal(w: World, st: State, found: set<Node>, i: ImportEdge)
    requires TracksTotal(w, st.totalBytes, found) && Exists(w, i.b)
    requires Identity(w, i.b) in st.identities <==> i.b in found
    requires Refusal(w, st, i.b, i.alias).None?
    ensures TracksTotal(w, AdmittedEdge(w, st, i).totalBytes, found + {i.b})
  {
    if i.b in found {
      assert found + {i.b} == found;
    } else {
      NewTotal(w, st.totalBytes, found, i.b);
    }
  }

  lemma NewTotal(w: World, total: nat, found: set<Node>, b: Node)
    requires TracksTotal(w, total, found) && b !in found && Size(w, b) <= w.limits.maxImportedFileBytes
    ensures TracksTotal(w, total + Size(w, b), found + {b})
  {
    TotalSizeAdd(w, found, b);
  }

  lemma ExtendedLinks(w: World, all: iset<ImportEdge>, targets: set<Node>, st: State, tr: Trace, i: ImportEdge)
    requires Identified(w, i.b) && Fits(w, all, targets) && TracksNodes(all, tr) && i in all
    requires TracksModules(w, st, tr.found) && TracksAliases(w, st.aliases, tr.seen)
    requires TracksDependencies(w, st.dependencies, tr.seen) && Refusal(w, st, i.b, i.alias).None?
    ensures TracksDependencies(w, AdmittedEdge(w, st, i).dependencies, tr.seen + {i})
    ensures TracksAliases(w, AdmittedEdge(w, st, i).aliases, tr.seen + {i})
  {
    AdmittedFields(w, st, Identity(w, i.a), i.b, i.alias);
    DependenciesGrow(w, st.dependencies, tr.seen, i);
    if !i.b.ExternalNode? {
      AdmittedAlias(w, all, targets, st, tr, i);
    }
    AliasesGrow(w, st.aliases, AdmittedEdge(w, st, i).aliases, tr.seen, i);
  }

  lemma ExtendedTracks(w: World, all: iset<ImportEdge>, targets: set<Node>, st: State, tr: Trace, i: ImportEdge)
    requires Identified(w, i.b) && Fits(w, all, targets) && Tracks(w, all, st, tr) && i in all
    requires Refusal(w, st, i.b, i.alias).None?
    ensures Tracks(w, all, AdmittedEdge(w, st, i), Extended(tr, i))
  {
    FoundAreTargets(w, all, targets, tr);
    ExtendedModules(w, targets, st, tr, i);
    KnownIdentity(w, targets, st, tr, i.b);
    ExtendedTotal(w, st, tr.found, i);
    ExtendedQueue(w, targets, st, tr, i);
    NodesGrow(all, tr, i);
    ExtendedLinks(w, all, targets, st, tr, i);
  }

  ghost predicate AliasesClash(all: iset<ImportEdge>) {
    exists i, j :: i in all && j in all && i.alias == j.alias && i.b != j.b
  }

  /** A refusal comes from two targets for one alias or from targets over the limits. */
  lemma RefusalReason(w: World, all: iset<ImportEdge>, targets: set<Node>, st: State, tr: Trace, i: ImportEdge)
    requires Identified(w, i.b) && Fits(w, all, targets) && Tracks(w, all, st, tr) && i in all
    requires Refusal(w, st, i.b, i.alias).Some?
    ensures AliasesClash(all) || !WithinLimits(w, targets)
  {
    FoundAreTargets(w, all, targets, tr);
    KnownIdentity(w, targets, st, tr, i.b);
    if i.alias in st.aliases && st.aliases[i.alias].0 != Identity(w, i.b) {
      assert Named(tr.seen, i.alias);
      var j :| j in tr.seen && j.alias == i.alias && !j.b.ExternalNode?;
      assert j in all && j.b != i.b;
    } else {
      OverLimits(w, targets, st, tr, i.b, i.alias);
    }
  }

  lemma OverLimits(w: World, targets: set<Node>, st: State, tr: Trace, b: Node, alias: Text)
    requires tr.found <= targets && b in targets && b !in tr.found
    requires |st.identities| == |tr.found| && TracksTotal(w, st.totalBytes, tr.found)
    requires || |st.identities| >= w.limits.maxImports
             || Size(w, b) > w.limits.maxImportedFileBytes
             || st.totalBytes + Size(w, b) > w.limits.maxImportGraphBytes
    ensures !WithinLimits(w, targets)
  {
    assert tr.found + {b} <= targets;
    SubsetNotLarger(tr.found + {b}, targets);
    TotalSizeAdd(w, tr.found, b);
    TotalSizeMonotone(w, tr.found + {b}, targets);
  }

  /** Handing the next waiting module to discovery. */
  lemma PopTracks(w: World, all: iset<ImportEdge>, st: State, tr: Trace)
    requires Tracks(w, all, st, tr) && st.pending != []
    ensures Tracks(w, all, st.(pending := st.pending[1..]),
                   tr.(explored := tr.explored + [tr.queue[0]], queue := tr.queue[1..]))
  {
    PopQueue(w, st, tr);
  }

  lemma PopQueue(w: World, st: State, tr: Trace)
    requires TracksQueue(w, st, tr) && st.pending != []
    ensures TracksQueue(w, st.(pending := st.pending[1..]),
                        tr.(explored := tr.explored + [tr.queue[0]], queue := tr.queue[1..]))
  {
    assert (tr.explored + [tr.queue[0]]) + tr.queue[1..] == tr.explored + tr.queue;
  }

  // ---- from the trace to the world ----------------------------------------------------

  ghost function AllImports(w: World): iset<ImportEdge> {
    iset i: ImportEdge | Observed(w, i.a, i.b, i.alias)
  }

  lemma ObservedAliasFits(w: World, a: Node, b: Node, alias: Text)
    requires Observed(w, a, b, alias)
    ensures AliasFits(w, b, alias)
  {
    var request :| request in w.discover(ViewOf(w, a)).value && Resolve(w, ViewOf(w, a), request) == Ok((b, alias));
    ResolvedAliasFits(w, ViewOf(w, a), request);
  }

  lemma WorldFits(w: World)
    ensures Fits(w, AllImports(w), Targets(w))
  {
    forall i: ImportEdge | Observed(w, i.a, i.b, i.alias)
      ensures i.b in Targets(w) && AliasFits(w, i.b, i.alias)
    {
      ObservedIsTarget(w, i.a, i.b, i.alias);
      ObservedAliasFits(w, i.a, i.b, i.alias);
    }
    forall n | n in Targets(w)
      ensures Exists(w, n)
    {
      UniverseIsAll(w, n);
    }
  }

  lemma RefusedMeansInadmissible(w: World, st: State, tr: Trace, i: ImportEdge)
    requires Identified(w, i.b) && Tracks(w, AllImports(w), st, tr) && i in AllImports(w)
    requires Refusal(w, st, i.b, i.alias).Some?
    ensures !Admissible(w)
  {
    WorldFits(w);
    RefusalReason(w, AllImports(w), Targets(w), st, tr, i);
  }

  /** All imports of an explored module have been seen. */
  ghost predicate Complete(w: World, seen: set<ImportEdge>, a: Node) {
    Resolvable(w, a) && forall b, alias :: Imports(w, a, b, alias) ==> ImportEdge(a, b, alias) in seen
  }

  ghost predicate AllComplete(w: World, tr: Trace) {
    forall a :: a in tr.explored ==> Complete(w, tr.seen, a)
  }

  /** The explored modules are the root and the source modules found. */
  ghost predicate Exhausted(tr: Trace) {
    forall n :: n in tr.explored <==> n == RootNode || (n in tr.found && !n.ExternalNode?)
  }

  lemma ExploredIsClosed(w: World, all: iset<ImportEdge>, tr: Trace, e: (Node, Node))
    requires TracksNodes(all, tr) && Exhausted(tr) && AllComplete(w, tr)
    requires e in Arcs(w) && e.0 in tr.found + {RootNode}
    ensures e.1 in tr.found
  {
    var alias :| Imports(w, e.0, e.1, alias);
    assert Complete(w, tr.seen, e.0);
    assert ImportEdge(e.0, e.1, alias) in tr.seen;
  }

  lemma ReachableIsFound(w: World, all: iset<ImportEdge>, tr: Trace, n: Node)
    requires TracksNodes(all, tr) && Exhausted(tr) && AllComplete(w, tr) && n in Reachable(w)
    ensures n in tr.found + {RootNode}
  {
    var closed := tr.found + {RootNode};
    forall e | e in Arcs(w) && e.0 in closed
      ensures e.1 in closed
    {
      ExploredIsClosed(w, all, tr, e);
    }
    var walk :| WalkBetween(Arcs(w), walk, RootNode, n);
    ClosedContainsReachable(Arcs(w), closed, walk);
  }

  /** Once nothing is waiting, exactly the reachable part has been found. */
  lemma NothingWaiting(w: World, tr: Trace)
    requires TracksNodes(AllImports(w), tr) && Exhausted(tr) && AllComplete(w, tr)
    ensures tr.found == Targets(w)
    ensures forall i :: i in AllImports(w) <==> i in tr.seen
    ensures forall a :: a in Reachable(w) && !a.ExternalNode? ==> Resolvable(w, a)
  {
    WorldFits(w);
    FoundAreTargets(w, AllImports(w), Targets(w), tr);
    forall n | n in Reachable(w)
      ensures n in tr.found + {RootNode}
      ensures !n.ExternalNode? ==> Complete(w, tr.seen, n)
    {
      ReachableIsFound(w, AllImports(w), tr, n);
    }
  }
}

/** The worklist of import preparation as a function of its inputs, for every catalog: what it keeps,
    and what it amounts to once identities tell modules apart. */
module Worklist {
  import opened Basics
  import opened Digraph
  import opened Ordering
  import opened ImportCycle
  import opened ImportSpec
  import opened ImportState

  // ---- the worklist as a function -----------------------------------------------------

  function Initial(w: World): State {
    State(|w.root.text|, {}, map[], map[], {}, {}, [View(ROOT_IDENTITY, Root, w.root)])
  }

  /** One request of `parent`. */
  function Processed(w: World, st: State, parent: View, request: Request): Result<State, Diagnostic> {
    match Resolve(w, parent, request)
    case Err(d) => Err(d)
    case Ok(found) =>
      match Refusal(w, st, found.0, found.1)
      case Some(d) => Err(d)
      case None => Ok(Admitted(w, st, parent.identity, found.0, found.1))
  }

  function ProcessedAll(w: World, st: State, parent: View, requests: seq<Request>): Result<State, Diagnostic>
    decreases |requests|
  {
    if requests == [] then Ok(st)
    else
      var next := Processed(w, st, parent, requests[0]);
      if next.Err? then next else ProcessedAll(w, next.value, parent, requests[1..])
  }

  /** One turn: the next module is shown to discovery and its requests are processed. */
  function Turned(w: World, st: State): Result<State, Diagnostic>
    requires st.pending != []
  {
    match w.discover(st.pending[0])
    case Err(d) => Err(d)
    case Ok(requests) => ProcessedAll(w, st.(pending := st.pending[1..]), st.pending[0], requests)
  }

  predicate Finished(r: Result<State, Diagnostic>) {
    r.Err? || r.value.pending == []
  }

  /** The state after n turns, or fewer if the worklist is done before. */
  function After(w: World, n: nat): Result<State, Diagnostic> {
    if n == 0 then Ok(Initial(w))
    else
      var before := After(w, n - 1);
      if Finished(before) then before else Turned(w, before.value)
  }

  /** What discovery has been shown by then. */
  function Shown(w: World, n: nat): seq<View> {
    if n == 0 then []
    else
      var before := After(w, n - 1);
      if Finished(before) then Shown(w, n - 1) else Shown(w, n - 1) + [before.value.pending[0]]
  }

  /** The final state; the limit on imports is also one on turns. */
  function Settled(w: World): Result<State, Diagnostic> {
    if |w.root.text| > w.limits.maxImportGraphBytes then Err(Limit(ImportGraphSize))
    else After(w, w.limits.maxImports + 1)
  }

  ghost function EdgesOf(dependencies: set<Dependency>): set<(Text, Text)> {
    set d | d in dependencies :: (d.parent, d.target)
  }

  /** The prepared graph lists the final bookkeeping in canonical order. */
  ghost predicate Lists(st: State, g: PreparedGraph) {
    && g.aliases == st.aliases && g.externals == st.externals
    && StrictBy(ModuleKey, g.modules) && (forall m :: m in g.modules <==> m in st.modules.Values)
    && StrictBy(DependencyKey, g.dependencies) && (forall d :: d in g.dependencies <==> d in st.dependencies)
  }

  /** What preparation returns, whatever the catalog, unless the clock stops it. */
  ghost predicate IsResult(w: World, r: Result<PreparedGraph, Diagnostic>) {
    match Settled(w)
    case Err(d) => r == Err(d)
    case Ok(st) =>
      if Acyclic(EdgesOf(st.dependencies)) then r.Ok? && Lists(st, r.value) else r == Err(Import)
  }

  /** Preparation is a function of its inputs, whatever the catalog. */
  lemma ResultIsUnique(w: World, r: Result<PreparedGraph, Diagnostic>, q: Result<PreparedGraph, Diagnostic>)
    requires IsResult(w, r) && IsResult(w, q)
    ensures r == q
  {
    if r.Ok? {
      StrictByUnique(ModuleKey, r.value.modules, q.value.modules);
      StrictByUnique(DependencyKey, r.value.dependencies, q.value.dependencies);
    }
  }

  lemma {:induction false} AfterFinished(w: World, n: nat, m: nat)
    requires n <= m && Finished(After(w, n))
    ensures After(w, m) == After(w, n) && Shown(w, m) == Shown(w, n)
  {
    if n < m {
      AfterFinished(w, n, m - 1);
    }
  }

  lemma {:induction false} EveryTurnShows(w: World, n: nat)
    ensures !Finished(After(w, n)) ==> |Shown(w, n)| == n
    ensures |Shown(w, n)| <= n
  {
    if n > 0 {
      EveryTurnShows(w, n - 1);
    }
  }

  // ---- what holds for every catalog ---------------------------------------------------

  ghost predicate IsView(w: World, view: View) {
    exists n :: n in Reachable(w) && !n.ExternalNode? && view == ViewOf(w, n)
  }

  ghost predicate IsName(w: World, id: Text) {
    exists n :: n in Targets(w) && Identity(w, n) == id
  }

  /** Only reachable modules are registered or wait. */
  ghost predicate Grounded(w: World, st: State) {
    && (forall view :: view in st.pending ==> IsView(w, view))
    && (forall id :: id in st.identities ==> IsName(w, id))
  }

  /** An edge leads to the identity, from one that the root's leads to. */
  ghost predicate Linked(edges: set<(Text, Text)>, id: Text) {
    exists parent :: (parent, id) in edges && Reaches(edges, ROOT_IDENTITY, parent)
  }

  predicate Known(st: State, id: Text) {
    id == ROOT_IDENTITY || id in st.identities
  }

  ghost predicate Rooted(st: State) {
    && (forall id :: id in st.identities ==> Linked(EdgesOf(st.dependencies), id))
    && (forall view :: view in st.pending ==> Known(st, view.identity))
  }

  ghost predicate Kept(w: World, st: State, texts: map<Text, Text>) {
    Ledger(w, st, texts) && Grounded(w, st) && Rooted(st)
  }

  lemma LinkedMore(small: set<(Text, Text)>, large: set<(Text, Text)>, id: Text)
    requires small <= large && Linked(small, id)
    ensures Linked(large, id)
  {
    var parent :| (parent, id) in small && Reaches(small, ROOT_IDENTITY, parent);
    ReachesMonotone(small, large, ROOT_IDENTITY, parent);
  }

  lemma KnownIsReached(st: State, id: Text)
    requires Rooted(st) && Known(st, id)
    ensures Reaches(EdgesOf(st.dependencies), ROOT_IDENTITY, id)
  {
    var edges := EdgesOf(st.dependencies);
    if id == ROOT_IDENTITY {
      ReachesSelf(edges, id);
    } else {
      var parent :| (parent, id) in edges && Reaches(edges, ROOT_IDENTITY, parent);
      ReachesEdge(edges, parent, id);
      ReachesTrans(edges, ROOT_IDENTITY, parent, id);
    }
  }

  /** An import with the identity of the root closes a cycle. */
  lemma RootIdentityClosesCycle(st: State)
    requires Rooted(st) && ROOT_IDENTITY in st.identities
    ensures !Acyclic(EdgesOf(st.dependencies))
  {
    var edges := EdgesOf(st.dependencies);
    var parent :| (parent, ROOT_IDENTITY) in edges && Reaches(edges, ROOT_IDENTITY, parent);
    var walk :| WalkBetween(edges, walk, ROOT_IDENTITY, parent);
    var closed := walk + [ROOT_IDENTITY];
    assert forall i :: 0 <= i < |closed| - 1 ==>
        (closed[i], closed[i + 1]) == if i < |walk| - 1 then (walk[i], walk[i + 1]) else (parent, ROOT_IDENTITY);
    assert IsClosedWalk(edges, closed);
  }

  // ---- one request --------------------------------------------------------------------

  ghost function TargetOf(w: World, parent: View, request: Request): Node {
    var found := Resolve(w, parent, request);
    if found.Ok? then found.value.0 else RootNode
  }

  ghost function EdgeOf(w: World, cur: Node, request: Request): ImportEdge {
    var found := Resolve(w, ViewOf(w, cur), request);
    if found.Ok? then ImportEdge(cur, found.value.0, found.value.1) else ImportEdge(cur, RootNode, [])
  }

  lemma ProcessedFields(w: World, st: State, parent: View, request: Request)
    requires Processed(w, st, parent, request).Ok?
    ensures var next, b := Processed(w, st, parent, request).value, TargetOf(w, parent, request);
            && Exists(w, b) && b != RootNode
            && EdgesOf(next.dependencies) == EdgesOf(st.dependencies) + {(parent.identity, Identity(w, b))}
            && next.identities == st.identities + {Identity(w, b)}
            && (next.pending == st.pending || (!b.ExternalNode? && next.pending == st.pending + [ViewOf(w, b)]))
  {
    var (b, alias) := Resolve(w, parent, request).value;
    ResolveExists(w, parent, request);
    AdmittedFields(w, st, parent.identity, b, alias);
    EdgesAdd(st.dependencies, Dependency(parent.identity, Identity(w, b), alias));
  }

  lemma EdgesAdd(dependencies: set<Dependency>, d: Dependency)
    ensures EdgesOf(dependencies + {d}) == EdgesOf(dependencies) + {(d.parent, d.target)}
  {
  }

  lemma ProcessedLedger(w: World, st: State, texts: map<Text, Text>, parent: View, request: Request)
    requires Ledger(w, st, texts) && Processed(w, st, parent, request).Ok?
    ensures var next, texts' := Processed(w, st, parent, request).value, Recorded(w, st, texts, TargetOf(w, parent, request));
            Ledger(w, next, texts') && |next.pending| - |texts'| == |st.pending| - |texts|
  {
    var (b, alias) := Resolve(w, parent, request).value;
    ResolveExists(w, parent, request);
    ResolvedAliasFits(w, parent, request);
    AdmittedLedger(w, st, texts, parent.identity, b, alias);
    AdmittedFields(w, st, parent.identity, b, alias);
  }

  lemma ProcessedRooted(w: World, st: State, parent: View, request: Request)
    requires Rooted(st) && Known(st, parent.identity) && Processed(w, st, parent, request).Ok?
    ensures Rooted(Processed(w, st, parent, request).value)
  {
    var next, id := Processed(w, st, parent, request).value, Identity(w, TargetOf(w, parent, request));
    ProcessedFields(w, st, parent, request);
    var small, large := EdgesOf(st.dependencies), EdgesOf(next.dependencies);
    forall known | known in st.identities
      ensures Linked(large, known)
    {
      LinkedMore(small, large, known);
    }
    KnownIsReached(st, parent.identity);
    ReachesMonotone(small, large, ROOT_IDENTITY, parent.identity);
    assert (parent.identity, id) in large;
    assert Linked(large, id);
  }

  /** `cur` is the module whose requests are being processed. */
  ghost predicate Current(w: World, cur: Node, requests: seq<Request>) {
    && cur in Reachable(w) && Exists(w, cur) && !cur.ExternalNode?
    && w.discover(ViewOf(w, cur)) == Ok(requests)
  }

  lemma RequestIsObserved(w: World, cur: Node, requests: seq<Request>, request: Request)
    requires Current(w, cur, requests) && request in requests && Resolve(w, ViewOf(w, cur), request).Ok?
    ensures EdgeOf(w, cur, request) in AllImports(w)
  {
    var i := EdgeOf(w, cur, request);
    assert Resolve(w, ViewOf(w, cur), request) == Ok((i.b, i.alias));
    assert Imports(w, i.a, i.b, i.alias);
  }

  lemma ProcessedGrounded(w: World, st: State, cur: Node, requests: seq<Request>, request: Request)
    requires Grounded(w, st) && Current(w, cur, requests) && request in requests
    requires Processed(w, st, ViewOf(w, cur), request).Ok?
    ensures Grounded(w, Processed(w, st, ViewOf(w, cur), request).value)
  {
    var i := EdgeOf(w, cur, request);
    ProcessedFields(w, st, ViewOf(w, cur), request);
    RequestIsObserved(w, cur, requests, request);
    ObservedIsTarget(w, i.a, i.b, i.alias);
    assert IsName(w, Identity(w, i.b));
    assert !i.b.ExternalNode? ==> IsView(w, ViewOf(w, i.b));
  }

  /** Nothing registered so far can be mistaken for another module. */
  ghost predicate Clear(w: World, st: State) {
    CatalogDistinct(w.catalog) && ROOT_IDENTITY !in st.identities
  }

  lemma ProcessedTracks(w: World, st: State, tr: Trace, cur: Node, requests: seq<Request>, request: Request)
    requires Tracks(w, AllImports(w), st, tr) && Current(w, cur, requests) && request in requests
    requires Processed(w, st, ViewOf(w, cur), request).Ok?
    requires Clear(w, Processed(w, st, ViewOf(w, cur), request).value)
    ensures Tracks(w, AllImports(w), Processed(w, st, ViewOf(w, cur), request).value, Extended(tr, EdgeOf(w, cur, request)))
  {
    ProcessedFields(w, st, ViewOf(w, cur), request);
    RequestIsObserved(w, cur, requests, request);
    WorldFits(w);
    ExtendedTracks(w, AllImports(w), Targets(w), st, tr, EdgeOf(w, cur, request));
  }

  /** Once identities tell modules apart, no run can succeed. */
  ghost predicate Hopeless(w: World) {
    CatalogDistinct(w.catalog) ==> !Admissible(w)
  }

  lemma UnclearIsInadmissible(w: World, st: State)
    requires Grounded(w, st) && ROOT_IDENTITY in st.identities
    ensures !RootIsFree(w)
  {
    assert IsName(w, ROOT_IDENTITY);
  }

  lemma BlameIsInadmissible(w: World, st: State, tr: Trace, cur: Node, requests: seq<Request>, request: Request)
    requires Grounded(w, st) && (Clear(w, st) ==> Tracks(w, AllImports(w), st, tr))
    requires Current(w, cur, requests) && request in requests
    requires Processed(w, st, ViewOf(w, cur), request).Err?
    ensures Hopeless(w)
  {
    if Resolve(w, ViewOf(w, cur), request).Err? {
      assert !Resolvable(w, cur);
    } else if ROOT_IDENTITY in st.identities {
      UnclearIsInadmissible(w, st);
    } else if CatalogDistinct(w.catalog) {
      RequestIsObserved(w, cur, requests, request);
      RefusalIsInadmissible(w, st, tr, EdgeOf(w, cur, request));
    }
  }

  lemma RefusalIsInadmissible(w: World, st: State, tr: Trace, i: ImportEdge)
    requires Clear(w, st) && Tracks(w, AllImports(w), st, tr) && i in AllImports(w)
    requires Refusal(w, st, i.b, i.alias).Some?
    ensures !Admissible(w)
  {
    if Identity(w, i.b) == ROOT_IDENTITY {
      ObservedIsTarget(w, i.a, i.b, i.alias);
    } else {
      RefusedMeansInadmissible(w, st, tr, i);
    }
  }

  ghost predicate SeenRequests(w: World, seen: set<ImportEdge>, cur: Node, requests: seq<Request>) {
    forall request :: request in requests ==>
      Resolve(w, ViewOf(w, cur), request).Ok? && EdgeOf(w, cur, request) in seen
  }

  lemma SeenAllIsComplete(w: World, seen: set<ImportEdge>, cur: Node, requests: seq<Request>)
    requires Current(w, cur, requests) && SeenRequests(w, seen, cur, requests)
    ensures Complete(w, seen, cur)
  {
    forall b, alias | Imports(w, cur, b, alias)
      ensures ImportEdge(cur, b, alias) in seen
    {
      var request :| request in requests && Resolve(w, ViewOf(w, cur), request) == Ok((b, alias));
      assert EdgeOf(w, cur, request) == ImportEdge(cur, b, alias);
    }
  }

  lemma SeenMore(w: World, seen: set<ImportEdge>, cur: Node, requests: seq<Request>, k: nat)
    requires k < |requests| && SeenRequests(w, seen, cur, requests[..k])
    requires Resolve(w, ViewOf(w, cur), requests[k]).Ok?
    ensures SeenRequests(w, seen + {EdgeOf(w, cur, requests[k])}, cur, requests[..k + 1])
  {
    assert requests[..k + 1] == requests[..k] + [requests[k]];
  }

  // ---- all requests of a module -------------------------------------------------------

  /** What a turn starts from. */
  datatype Base = Base(debt: int, explored: seq<Node>, seen: set<ImportEdge>, identities: set<Text>)

  /** The first k requests of `cur` have been processed, since `base`. */
  ghost predicate Underway(w: World, st: State, texts: map<Text, Text>, tr: Trace, base: Base, cur: Node, requests: seq<Request>, k: nat) {
    && k <= |requests| && Kept(w, st, texts) && Known(st, Identity(w, cur))
    && |st.pending| - |texts| == base.debt && base.identities <= st.identities
    && (Clear(w, st) ==>
          && Tracks(w, AllImports(w), st, tr) && SeenRequests(w, tr.seen, cur, requests[..k])
          && tr.explored == base.explored && base.seen <= tr.seen)
  }

  ghost predicate Progress(w: World, st: State, base: Base, cur: Node, requests: seq<Request>, k: nat) {
    exists texts, tr :: Underway(w, st, texts, tr, base, cur, requests, k)
  }

  /** The last request has been processed, or one has failed. */
  ghost predicate Leads(w: World, r: Result<State, Diagnostic>, base: Base, cur: Node, requests: seq<Request>) {
    match r
    case Ok(next) => Progress(w, next, base, cur, requests, |requests|)
    case Err(_) => Hopeless(w)
  }

  lemma Progresses(w: World, st: State, texts: map<Text, Text>, tr: Trace, base: Base, cur: Node, requests: seq<Request>, k: nat)
    requires k <= |requests| && Ledger(w, st, texts) && Grounded(w, st) && Rooted(st) && Known(st, Identity(w, cur))
    requires |st.pending| - |texts| == base.debt && base.identities <= st.identities
    requires Clear(w, st) ==> Tracks(w, AllImports(w), st, tr) && SeenRequests(w, tr.seen, cur, requests[..k])
    requires Clear(w, st) ==> tr.explored == base.explored && base.seen <= tr.seen
    ensures Progress(w, st, base, cur, requests, k)
  {
    assert Underway(w, st, texts, tr, base, cur, requests, k);
  }

  lemma RequestKeeps(w: World, st: State, texts: map<Text, Text>, tr: Trace, base: Base, cur: Node, requests: seq<Request>, k: nat)
    requires k < |requests| && Current(w, cur, requests) && Underway(w, st, texts, tr, base, cur, requests, k)
    requires Processed(w, st, ViewOf(w, cur), requests[k]).Ok?
    ensures Progress(w, Processed(w, st, ViewOf(w, cur), requests[k]).value, base, cur, requests, k + 1)
  {
    var parent, request := ViewOf(w, cur), requests[k];
    var next := Processed(w, st, parent, request).value;
    ProcessedFields(w, st, parent, request);
    ProcessedLedger(w, st, texts, parent, request);
    ProcessedRooted(w, st, parent, request);
    ProcessedGrounded(w, st, cur, requests, request);
    var texts', tr' := Recorded(w, st, texts, TargetOf(w, parent, request)), Extended(tr, EdgeOf(w, cur, request));
    if Clear(w, next) {
      ProcessedTracks(w, st, tr, cur, requests, request);
      SeenMore(w, tr.seen, cur, requests, k);
    }
    Progresses(w, next, texts', tr', base, cur, requests, k + 1);
  }

  lemma {:induction false} RequestsKeep(w: World, st: State, base: Base, cur: Node, requests: seq<Request>, k: nat)
    requires k <= |requests| && Current(w, cur, requests) && Progress(w, st, base, cur, requests, k)
    ensures Leads(w, ProcessedAll(w, st, ViewOf(w, cur), requests[k..]), base, cur, requests)
    decreases |requests| - k
  {
    if k < |requests| {
      var next := Step(w, st, base, cur, requests, k);
      if next.Ok? {
        RequestsKeep(w, next.value, base, cur, requests, k + 1);
      }
    }
  }

  /** One step of processing the requests from the k-th on. */
  lemma Step(w: World, st: State, base: Base, cur: Node, requests: seq<Request>, k: nat)
    returns (next: Result<State, Diagnostic>)
    requires k < |requests| && Current(w, cur, requests) && Progress(w, st, base, cur, requests, k)
    ensures var parent := ViewOf(w, cur);
            ProcessedAll(w, st, parent, requests[k..]) ==
            if next.Ok? then ProcessedAll(w, next.value, parent, requests[k + 1..]) else next
    ensures next.Ok? ==> Progress(w, next.value, base, cur, requests, k + 1)
    ensures next.Err? ==> Hopeless(w)
  {
    var texts, tr :| Underway(w, st, texts, tr, base, cur, requests, k);
    next := Processed(w, st, ViewOf(w, cur), requests[k]);
    if next.Ok? {
      RequestKeeps(w, st, texts, tr, base, cur, requests, k);
    } else {
      BlameIsInadmissible(w, st, tr, cur, requests, requests[k]);
    }
    assert requests[k..][0] == requests[k] && requests[k..][1..] == requests[k + 1..];
  }

  // ---- the finished graph -------------------------------------------------------------

  /** Exactly the reachable part has been found. */
  ghost predicate AllFound(w: World, tr: Trace) {
    && tr.found == Targets(w)
    && (forall i :: i in AllImports(w) <==> i in tr.seen)
  }

  lemma FinalModules(w: World, st: State, found: set<Node>)
    requires TracksModules(w, st, found) && found == Targets(w)
    ensures forall m :: m in st.modules.Values <==> IsModule(w, m)
    ensures forall name :: name in st.externals <==> ExternalNode(name) in Targets(w)
  {
    forall m
      ensures m in st.modules.Values <==> IsModule(w, m)
    {
      if m in st.modules.Values {
        var id :| id in st.modules && st.modules[id] == m;
        var n :| n in found && Identity(w, n) == id;
      }
    }
  }

  lemma FinalDependencies(w: World, dependencies: set<Dependency>, seen: set<ImportEdge>)
    requires TracksDependencies(w, dependencies, seen) && forall i :: i in AllImports(w) <==> i in seen
    ensures forall d :: d in dependencies <==> IsDependency(w, d)
  {
    forall d
      ensures d in dependencies <==> IsDependency(w, d)
    {
      if d in dependencies {
        var i :| i in seen && d == DependencyOf(w, i);
        assert i in AllImports(w);
      }
      if IsDependency(w, d) {
        var a, b :| Observed(w, a, b, d.alias) && d.parent == Identity(w, a) && d.target == Identity(w, b);
        assert ImportEdge(a, b, d.alias) in AllImports(w);
        assert d == DependencyOf(w, ImportEdge(a, b, d.alias));
      }
    }
  }

  lemma FinalAliases(w: World, aliases: map<Text, (Text, Text)>, seen: set<ImportEdge>)
    requires TracksAliases(w, aliases, seen) && forall i :: i in AllImports(w) <==> i in seen
    ensures forall alias, identity, text ::
              IsAlias(w, alias, identity, text) <==> alias in aliases && aliases[alias] == (identity, text)
  {
    forall alias, identity, text
      ensures IsAlias(w, alias, identity, text) <==> alias in aliases && aliases[alias] == (identity, text)
    {
      if IsAlias(w, alias, identity, text) {
        var a, b :| Observed(w, a, b, alias) && !b.ExternalNode? && identity == Identity(w, b) && text == SourceOf(w, b).text;
        assert ImportEdge(a, b, alias) in AllImports(w);
      }
      if alias in aliases && aliases[alias] == (identity, text) {
        assert Named(seen, alias);
        var i :| i in seen && i.alias == alias && !i.b.ExternalNode?;
        assert i in AllImports(w);
      }
    }
  }

  lemma FinalClosure(w: World, st: State, tr: Trace, g: PreparedGraph)
    requires Tracks(w, AllImports(w), st, tr) && AllFound(w, tr) && Lists(st, g)
    ensures IsClosure(w, g)
  {
    FinalModules(w, st, tr.found);
    FinalDependencies(w, st.dependencies, tr.seen);
    FinalAliases(w, st.aliases, tr.seen);
  }

  ghost function Names(w: World): map<Node, Text> {
    map n | n in Reachable(w) :: Identity(w, n)
  }

  lemma ArcsAreNamed(w: World)
    ensures forall e :: e in ObservedArcs(w) ==> e.0 in Names(w) && e.1 in Names(w)
  {
    forall e | e in ObservedArcs(w)
      ensures e.1 in Reachable(w)
    {
      ReachesEdge(Arcs(w), e.0, e.1);
      ReachesTrans(Arcs(w), RootNode, e.0, e.1);
    }
  }

  lemma NamesInjective(w: World)
    requires CatalogDistinct(w.catalog) && RootIsFree(w)
    ensures InjectiveMap(Names(w))
  {
    var name := Names(w);
    forall a, b | a in name && b in name && name[a] == name[b]
      ensures a == b
    {
      UniverseIsAll(w, a);
      UniverseIsAll(w, b);
      if b != RootNode {
        IdentityInjective(w, a, b);
      } else if a != RootNode {
        IdentityInjective(w, b, a);
      }
    }
  }

  lemma DependencyEdges(w: World, dependencies: set<Dependency>)
    requires forall d :: d in dependencies <==> IsDependency(w, d)
    ensures forall e :: e in ObservedArcs(w) ==> e.0 in Names(w) && e.1 in Names(w)
    ensures EdgesOf(dependencies) == Renamed(ObservedArcs(w), Names(w))
  {
    var name := Names(w);
    ArcsAreNamed(w);
    forall e | e in EdgesOf(dependencies)
      ensures e in Renamed(ObservedArcs(w), name)
    {
      var d :| d in dependencies && e == (d.parent, d.target);
      var a, b :| Observed(w, a, b, d.alias) && d.parent == Identity(w, a) && d.target == Identity(w, b);
      ImportIsArc(w, a, b, d.alias);
      assert (a, b) in ObservedArcs(w);
    }
    forall e | e in Renamed(ObservedArcs(w), name)
      ensures e in EdgesOf(dependencies)
    {
      var arc :| arc in ObservedArcs(w) && e == (name[arc.0], name[arc.1]);
      var alias :| Imports(w, arc.0, arc.1, alias);
      assert Observed(w, arc.0, arc.1, alias);
      var d := Dependency(e.0, e.1, alias);
      assert IsDependency(w, d);
    }
  }

  /** The identity-level cycle check decides acyclicity of the observed imports. */
  lemma CyclesAgree(w: World, dependencies: set<Dependency>)
    requires CatalogDistinct(w.catalog) && RootIsFree(w) && forall d :: d in dependencies <==> IsDependency(w, d)
    ensures Acyclic(EdgesOf(dependencies)) <==> Acyclic(ObservedArcs(w))
  {
    NamesInjective(w);
    DependencyEdges(w, dependencies);
    RenamedAcyclic(ObservedArcs(w), Names(w));
  }

  lemma FinalAliasesAgree(w: World, st: State, texts: map<Text, Text>, tr: Trace)
    requires CatalogDistinct(w.catalog) && RootIsFree(w) && Ledger(w, st, texts) && AllFound(w, tr)
    requires TracksDependencies(w, st.dependencies, tr.seen)
    ensures AliasesAgree(w)
  {
    forall a, b, c, d, alias | Observed(w, a, b, alias) && Observed(w, c, d, alias)
      ensures b == d
    {
      var i, j := ImportEdge(a, b, alias), ImportEdge(c, d, alias);
      assert i in AllImports(w) && j in AllImports(w);
      assert DependencyOf(w, i) in st.dependencies && DependencyOf(w, j) in st.dependencies;
      AliasesAreFunctional(w, st, texts, DependencyOf(w, i), DependencyOf(w, j));
      ObservedIsTarget(w, a, b, alias);
      ObservedIsTarget(w, c, d, alias);
      IdentityInjective(w, b, d);
    }
  }

  // ---- the outcome --------------------------------------------------------------------

  /** Ok exactly for admissible inputs, and then with the closure. */
  ghost predicate IsOutcome(w: World, r: Result<PreparedGraph, Diagnostic>) {
    match r
    case Ok(g) => Admissible(w) && IsClosure(w, g)
    case Err(_) => !Admissible(w)
  }

  /** Discovery is shown the root and every source module, once each. */
  ghost predicate ShownOnce(w: World, shown: seq<View>, nodes: seq<Node>) {
    && |shown| == |nodes| && NoDup(nodes)
    && (forall k :: 0 <= k < |nodes| ==> shown[k] == ViewOf(w, nodes[k]))
    && forall n :: n in nodes <==> n in Reachable(w) && !n.ExternalNode?
  }

  ghost predicate EachShownOnce(w: World, shown: seq<View>) {
    exists nodes :: ShownOnce(w, shown, nodes)
  }

  /** The search between two modules: `shown` have been explored completely. */
  ghost predicate Searching(w: World, st: State, tr: Trace, shown: seq<View>) {
    Tracks(w, AllImports(w), st, tr) && ShownAreComplete(w, tr, shown)
  }

  ghost predicate ShownAreComplete(w: World, tr: Trace, shown: seq<View>) {
    && AllComplete(w, tr)
    && |shown| == |tr.explored| && forall k :: 0 <= k < |shown| ==> shown[k] == ViewOf(w, tr.explored[k])
  }

  lemma StartSearching(w: World, st: State)
    requires st == Initial(w)
    ensures st.totalBytes <= w.limits.maxImportGraphBytes ==> Ledger(w, st, map[])
    ensures Searching(w, st, Trace({}, {}, [], [RootNode]), [])
  {
    assert ViewOf(w, RootNode) == View(ROOT_IDENTITY, Root, w.root);
    assert st.identities == set n | n in {} :: Identity(w, n);
  }

  lemma NextIsReachable(w: World, st: State, tr: Trace)
    requires Tracks(w, AllImports(w), st, tr) && st.pending != []
    ensures var n := tr.queue[0]; n in Reachable(w) && Exists(w, n) && !n.ExternalNode? && st.pending[0] == ViewOf(w, n)
  {
    var n := tr.queue[0];
    assert (tr.explored + tr.queue)[|tr.explored|] == n;
    assert n in tr.explored + tr.queue;
    if n == RootNode {
      ReachesSelf(Arcs(w), RootNode);
    } else {
      WorldFits(w);
      FoundAreTargets(w, AllImports(w), Targets(w), tr);
    }
  }

  lemma ExploredMore(w: World, before: Trace, tr: Trace, cur: Node)
    requires AllComplete(w, before) && before.seen <= tr.seen && tr.explored == before.explored + [cur]
    requires Complete(w, tr.seen, cur)
    ensures AllComplete(w, tr)
  {
    forall a | a in tr.explored
      ensures Complete(w, tr.seen, a)
    {
      if a in before.explored {
        assert Complete(w, before.seen, a);
      }
    }
  }

  lemma SearchFoundAll(w: World, st: State, tr: Trace)
    requires Tracks(w, AllImports(w), st, tr) && AllComplete(w, tr) && st.pending == []
    ensures AllFound(w, tr) && Exhausted(tr) && NoDup(tr.explored)
    ensures forall a :: a in Reachable(w) && !a.ExternalNode? ==> Resolvable(w, a)
  {
    assert tr.explored + tr.queue == tr.explored;
    NothingWaiting(w, tr);
  }

  lemma SearchShown(w: World, tr: Trace, shown: seq<View>)
    requires AllFound(w, tr) && Exhausted(tr) && NoDup(tr.explored) && |shown| == |tr.explored|
    requires forall k :: 0 <= k < |shown| ==> shown[k] == ViewOf(w, tr.explored[k])
    ensures ShownOnce(w, shown, tr.explored)
  {
    ReachesSelf(Arcs(w), RootNode);
  }

  lemma FinalLimits(w: World, st: State, texts: map<Text, Text>, found: set<Node>)
    requires Ledger(w, st, texts) && TracksNames(w, st.identities, found) && TracksTotal(w, st.totalBytes, found)
    ensures WithinLimits(w, found)
  {
  }

  lemma SearchAdmissible(w: World, st: State, texts: map<Text, Text>, tr: Trace)
    requires CatalogDistinct(w.catalog) && RootIsFree(w) && Ledger(w, st, texts) && Tracks(w, AllImports(w), st, tr)
    requires AllFound(w, tr) && forall d :: d in st.dependencies <==> IsDependency(w, d)
    requires forall a :: a in Reachable(w) && !a.ExternalNode? ==> Resolvable(w, a)
    ensures Admissible(w) <==> Acyclic(EdgesOf(st.dependencies))
  {
    CyclesAgree(w, st.dependencies);
    FinalAliasesAgree(w, st, texts, tr);
    FinalLimits(w, st, texts, tr.found);
  }

  lemma ClearIsFree(w: World, st: State, tr: Trace)
    requires Clear(w, st) && TracksNames(w, st.identities, tr.found) && AllFound(w, tr)
    ensures RootIsFree(w)
  {
    assert forall n :: n in tr.found ==> Identity(w, n) in st.identities;
  }

  lemma SearchIsDone(w: World, st: State, texts: map<Text, Text>, tr: Trace, shown: seq<View>)
    requires Clear(w, st) && Ledger(w, st, texts) && Searching(w, st, tr, shown) && st.pending == []
    ensures forall g :: Lists(st, g) ==> IsClosure(w, g)
    ensures ShownOnce(w, shown, tr.explored)
    ensures Admissible(w) <==> Acyclic(EdgesOf(st.dependencies))
  {
    SearchFoundAll(w, st, tr);
    forall g | Lists(st, g)
      ensures IsClosure(w, g)
    {
      FinalClosure(w, st, tr, g);
    }
    FinalDependencies(w, st.dependencies, tr.seen);
    SearchShown(w, tr, shown);
    ClearIsFree(w, st, tr);
    SearchAdmissible(w, st, texts, tr);
  }

  // ---- whole runs ---------------------------------------------------------------------

  /** Between two turns. */
  ghost predicate Between(w: World, st: State, texts: map<Text, Text>, tr: Trace, shown: seq<View>) {
    && Kept(w, st, texts) && |shown| + |st.pending| == |texts| + 1
    && (Clear(w, st) ==> Searching(w, st, tr, shown))
  }

  ghost predicate Sound(w: World, st: State, shown: seq<View>) {
    exists texts, tr :: Between(w, st, texts, tr, shown)
  }

  ghost predicate Good(w: World, r: Result<State, Diagnostic>, shown: seq<View>) {
    match r
    case Ok(st) => Sound(w, st, shown)
    case Err(_) => Hopeless(w)
  }

  lemma Sounds(w: World, st: State, texts: map<Text, Text>, tr: Trace, shown: seq<View>)
    requires Ledger(w, st, texts) && Grounded(w, st) && Rooted(st) && |shown| + |st.pending| == |texts| + 1
    requires Clear(w, st) ==> Searching(w, st, tr, shown)
    ensures Sound(w, st, shown)
  {
    assert Between(w, st, texts, tr, shown);
  }

  lemma Start(w: World)
    requires |w.root.text| <= w.limits.maxImportGraphBytes
    ensures Sound(w, Initial(w), [])
  {
    var tr := Trace({}, {}, [], [RootNode]);
    StartSearching(w, Initial(w));
    StartGrounded(w);
    Sounds(w, Initial(w), map[], tr, []);
  }

  lemma StartGrounded(w: World)
    ensures Grounded(w, Initial(w)) && Rooted(Initial(w))
  {
    ReachesSelf(Arcs(w), RootNode);
    UniverseIsAll(w, RootNode);
    assert RootNode in Reachable(w) && ViewOf(w, RootNode) == View(ROOT_IDENTITY, Root, w.root);
    assert IsView(w, ViewOf(w, RootNode));
  }

  /** The module whose turn it is. */
  lemma NextModule(w: World, st: State, texts: map<Text, Text>, tr: Trace, shown: seq<View>) returns (cur: Node)
    requires Between(w, st, texts, tr, shown) && st.pending != []
    ensures cur in Reachable(w) && Exists(w, cur) && !cur.ExternalNode? && st.pending[0] == ViewOf(w, cur)
    ensures Clear(w, st) ==> cur == tr.queue[0]
  {
    if Clear(w, st) {
      NextIsReachable(w, st, tr);
      cur := tr.queue[0];
    } else {
      assert IsView(w, st.pending[0]);
      cur :| cur in Reachable(w) && !cur.ExternalNode? && st.pending[0] == ViewOf(w, cur);
      UniverseIsAll(w, cur);
    }
  }

  lemma PoppedLedger(w: World, st: State, texts: map<Text, Text>)
    requires Ledger(w, st, texts) && st.pending != []
    ensures Ledger(w, st.(pending := st.pending[1..]), texts)
  {
    var popped := st.(pending := st.pending[1..]);
    assert forall alias, target :: AliasMeans(w, popped, alias, target) <==> AliasMeans(w, st, alias, target);
  }

  lemma PoppedKeeps(w: World, st: State)
    requires Grounded(w, st) && Rooted(st) && st.pending != []
    ensures Grounded(w, st.(pending := st.pending[1..])) && Rooted(st.(pending := st.pending[1..]))
    ensures Known(st, st.pending[0].identity)
  {
    assert forall view :: view in st.pending[1..] ==> view in st.pending;
    assert st.pending[0] in st.pending;
  }

  lemma BeginTurn(w: World, st: State, texts: map<Text, Text>, tr: Trace, shown: seq<View>, cur: Node, requests: seq<Request>)
    returns (base: Base)
    requires Between(w, st, texts, tr, shown) && st.pending != [] && st.pending[0] == ViewOf(w, cur)
    requires Clear(w, st) ==> cur == tr.queue[0]
    ensures Progress(w, st.(pending := st.pending[1..]), base, cur, requests, 0)
    ensures base.debt == -|shown| && base.identities == st.identities
    ensures Clear(w, st) ==> base.explored == tr.explored + [cur] && base.seen == tr.seen
  {
    var popped := st.(pending := st.pending[1..]);
    base := Base(-|shown|, tr.explored + [cur], tr.seen, st.identities);
    var begun := tr;
    PoppedLedger(w, st, texts);
    PoppedKeeps(w, st);
    if Clear(w, st) {
      PopTracks(w, AllImports(w), st, tr);
      begun := tr.(explored := tr.explored + [cur], queue := tr.queue[1..]);
    }
    Progresses(w, popped, texts, begun, base, cur, requests, 0);
  }

  lemma EndTurn(w: World, tr: Trace, shown: seq<View>, tr': Trace, cur: Node, requests: seq<Request>)
    requires ShownAreComplete(w, tr, shown) && tr.seen <= tr'.seen && tr'.explored == tr.explored + [cur]
    requires Current(w, cur, requests) && SeenRequests(w, tr'.seen, cur, requests[..|requests|])
    ensures ShownAreComplete(w, tr', shown + [ViewOf(w, cur)])
  {
    assert requests[..|requests|] == requests;
    SeenAllIsComplete(w, tr'.seen, cur, requests);
    ExploredMore(w, tr, tr', cur);
  }

  lemma FinishTurn(w: World, tr: Trace, shown: seq<View>, base: Base, cur: Node, requests: seq<Request>, next: State)
    requires Progress(w, next, base, cur, requests, |requests|) && Current(w, cur, requests) && base.debt == -|shown|
    requires Clear(w, next) ==> ShownAreComplete(w, tr, shown) && base.explored == tr.explored + [cur] && base.seen == tr.seen
    ensures Sound(w, next, shown + [ViewOf(w, cur)])
  {
    var texts, tr' :| Underway(w, next, texts, tr', base, cur, requests, |requests|);
    if Clear(w, next) {
      EndTurn(w, tr, shown, tr', cur, requests);
    }
    Sounds(w, next, texts, tr', shown + [ViewOf(w, cur)]);
  }

  lemma Unforgotten(w: World, st: State, base: Base, cur: Node, requests: seq<Request>, k: nat)
    requires Progress(w, st, base, cur, requests, k)
    ensures base.identities <= st.identities
  {
  }

  lemma DiscoveryFails(w: World, cur: Node)
    requires cur in Reachable(w) && !cur.ExternalNode? && w.discover(ViewOf(w, cur)).Err?
    ensures Hopeless(w)
  {
    assert !Resolvable(w, cur);
  }

  lemma TurnKeeps(w: World, st: State, shown: seq<View>)
    requires Sound(w, st, shown) && st.pending != []
    ensures Good(w, Turned(w, st), shown + [st.pending[0]])
  {
    var texts, tr :| Between(w, st, texts, tr, shown);
    var cur := NextModule(w, st, texts, tr, shown);
    var found := w.discover(st.pending[0]);
    if found.Err? {
      DiscoveryFails(w, cur);
    } else {
      var requests := found.value;
      var base := BeginTurn(w, st, texts, tr, shown, cur, requests);
      RequestsKeep(w, st.(pending := st.pending[1..]), base, cur, requests, 0);
      assert requests[0..] == requests;
      var next := Turned(w, st);
      if next.Ok? {
        Unforgotten(w, next.value, base, cur, requests, |requests|);
        FinishTurn(w, tr, shown, base, cur, requests, next.value);
      }
    }
  }

  lemma {:induction false} AfterKeeps(w: World, n: nat)
    requires |w.root.text| <= w.limits.maxImportGraphBytes
    ensures Good(w, After(w, n), Shown(w, n))
  {
    if n == 0 {
      Start(w);
    } else {
      AfterKeeps(w, n - 1);
      var before := After(w, n - 1);
      if !Finished(before) {
        TurnKeeps(w, before.value, Shown(w, n - 1));
      }
    }
  }

  /** A worklist that is not done has used fewer turns than the limit allows. */
  lemma TurnsAreBounded(w: World, n: nat)
    requires |w.root.text| <= w.limits.maxImportGraphBytes && !Finished(After(w, n))
    ensures n <= w.limits.maxImports && |Shown(w, n)| == n
  {
    AfterKeeps(w, n);
    EveryTurnShows(w, n);
    var st := After(w, n).value;
    var texts, tr :| Between(w, st, texts, tr, Shown(w, n));
    SubsetNotLarger(texts.Keys, st.identities);
  }

  /** The worklist always settles: within the limit on imports it fails or empties its queue. */
  lemma AlwaysSettles(w: World)
    ensures Finished(Settled(w)) && Good(w, Settled(w), Shown(w, w.limits.maxImports + 1))
  {
    if |w.root.text| > w.limits.maxImportGraphBytes {
      RootOverLimit(w);
    } else {
      AfterKeeps(w, w.limits.maxImports + 1);
      EndsInTime(w, w.limits.maxImports + 1);
    }
  }

  lemma EndsInTime(w: World, n: nat)
    requires |w.root.text| <= w.limits.maxImportGraphBytes && n > w.limits.maxImports
    ensures Finished(After(w, n))
  {
    if !Finished(After(w, n)) {
      TurnsAreBounded(w, n);
    }
  }

  /** The state after n turns. */
  ghost predicate Reached(w: World, n: nat, st: State) {
    && |w.root.text| <= w.limits.maxImportGraphBytes
    && n <= w.limits.maxImports + 1 && After(w, n) == Ok(st)
  }

  lemma ReachedNext(w: World, n: nat, st: State)
    requires Reached(w, n, st) && st.pending != []
    ensures match Turned(w, st)
            case Ok(next) => Reached(w, n + 1, next)
            case Err(d) => Settled(w) == Err(d)
    ensures |Shown(w, n)| == n <= w.limits.maxImports
  {
    TurnsAreBounded(w, n);
    if Turned(w, st).Err? {
      AfterFinished(w, n + 1, w.limits.maxImports + 1);
    }
  }

  lemma ReachedEnd(w: World, n: nat, st: State)
    requires Reached(w, n, st) && st.pending == []
    ensures Settled(w) == Ok(st) && |Shown(w, w.limits.maxImports + 1)| <= w.limits.maxImports + 1
  {
    AfterFinished(w, n, w.limits.maxImports + 1);
    EveryTurnShows(w, w.limits.maxImports + 1);
  }

  /** Counts, byte totals and aliases of the final state add up. */
  lemma FinalLedger(w: World) returns (texts: map<Text, Text>)
    requires Settled(w).Ok?
    ensures Ledger(w, Settled(w).value, texts)
    ensures |Shown(w, w.limits.maxImports + 1)| == |texts| + 1
  {
    AlwaysSettles(w);
    var st, shown := Settled(w).value, Shown(w, w.limits.maxImports + 1);
    var all, tr :| Between(w, st, all, tr, shown);
    texts := all;
  }

  lemma RootOverLimit(w: World)
    requires |w.root.text| > w.limits.maxImportGraphBytes
    ensures Hopeless(w)
  {
  }

  /** When identities tell modules apart, preparation succeeds exactly on admissible inputs, with
      the reachable closure, and shows discovery each module once. */
  lemma ResultIsOutcome(w: World, r: Result<PreparedGraph, Diagnostic>)
    requires CatalogDistinct(w.catalog) && IsResult(w, r)
    ensures IsOutcome(w, r)
    ensures r.Ok? ==> EachShownOnce(w, Shown(w, w.limits.maxImports + 1))
  {
    AlwaysSettles(w);
    if Settled(w).Ok? {
      var st, shown := Settled(w).value, Shown(w, w.limits.maxImports + 1);
      var texts, tr :| Between(w, st, texts, tr, shown);
      if ROOT_IDENTITY in st.identities {
        RootIdentityClosesCycle(st);
        UnclearIsInadmissible(w, st);
      } else {
        SearchIsDone(w, st, texts, tr, shown);
      }
    }
  }

  lemma ModulesByIdentity(w: World, st: State, texts: map<Text, Text>)
    requires Ledger(w, st, texts)
    ensures forall m, n :: m in st.modules.Values && n in st.modules.Values && ModuleKey(m) == ModuleKey(n) ==> m == n
  {
    forall m, n | m in st.modules.Values && n in st.modules.Values && ModuleKey(m) == ModuleKey(n)
      ensures m == n
    {
      var i :| i in st.modules && st.modules[i] == m;
      var j :| j in st.modules && st.modules[j] == n;
      assert ModuleKey(m)[0] == i && ModuleKey(n)[0] == j;
    }
  }

  /** Preparation is confluent: the order in which discovery lists requests decides nothing. */
  lemma PreparationIsConfluent(w: World, v: World, r: Result<PreparedGraph, Diagnostic>, q: Result<PreparedGraph, Diagnostic>)
    requires CatalogDistinct(w.catalog) && SameUpToOrder(w, v) && IsResult(w, r) && IsResult(v, q)
    ensures r.Ok? <==> q.Ok?
    ensures r.Ok? ==> r.value == q.value
  {
    ResultIsOutcome(w, r);
    ResultIsOutcome(v, q);
    SameAdmissible(w, v);
    if r.Ok? {
      SameClosure(w, v, q.value);
      ClosureIsUnique(w, r.value, q.value);
    }
  }

  lemma ClosureIsUnique(w: World, g: PreparedGraph, h: PreparedGraph)
    requires IsClosure(w, g) && IsClosure(w, h)
    ensures g == h
  {
    StrictByUnique(ModuleKey, g.modules, h.modules);
    StrictByUnique(DependencyKey, g.dependencies, h.dependencies);
    forall alias
      ensures alias in g.aliases <==> alias in h.aliases
      ensures alias in g.aliases ==> g.aliases[alias] == h.aliases[alias]
    {
      if alias in g.aliases {
        assert IsAlias(w, alias, g.aliases[alias].0, g.aliases[alias].1);
      }
      if alias in h.aliases {
        assert IsAlias(w, alias, h.aliases[alias].0, h.aliases[alias].1);
      }
    }
    assert g.aliases == h.aliases;
    assert g.externals == h.externals;
  }

  // ---- why identities must tell modules apart -----------------------------------------

  /** The root lists the given requests and no other module lists any. */
  function Listing(w: World, requests: seq<Request>): World {
    w.(discover := (view: View) => Ok(if view.moduleClass == Root then requests else []))
  }

  /** A root without text, one file, room for one import. */
  function OneFile(c: Catalog, path: Text, alias: Text): World {
    World(c, Some(SourceRoot(map[path := []], (_, _) => Some(path))), Limits(USIZE_MAX, 1, USIZE_MAX), Source([], []),
          _ => Ok([]), _ => Some(Normalized(path, alias)), text => text)
  }

  /** The lengths of catalog sources are machine words. */
  ghost predicate Storable(c: Catalog) {
    forall name :: name in c.sources ==> |c.sources[name].source.text| <= USIZE_MAX
  }

  predicate Registered(st: State, name: Text) {
    name in st.externals || name in st.aliases
  }

  /** The root imports two modules of one identity, under two aliases. */
  ghost predicate Twins(w: World, x: Request, y: Request, b: Node, d: Node, alias: Text, other: Text) {
    && Resolve(w, ViewOf(w, RootNode), x) == Ok((b, alias)) && Resolve(w, ViewOf(w, RootNode), y) == Ok((d, other))
    && alias != other && Identity(w, b) == Identity(w, d) != ROOT_IDENTITY
    && w.limits.maxImports == 1 && Size(w, b) <= w.limits.maxImportedFileBytes
    && |w.root.text| + Size(w, b) <= w.limits.maxImportGraphBytes
  }

  /** The first import takes the only place there is. */
  ghost predicate FirstState(w: World, st: State, b: Node, alias: Text) {
    && st.dependencies == {Dependency(ROOT_IDENTITY, Identity(w, b), alias)} && st.identities == {Identity(w, b)}
    && st.pending == (if b.ExternalNode? then [] else [ViewOf(w, b)])
    && st.externals == (if b.ExternalNode? then {alias} else {})
    && st.aliases.Keys == if b.ExternalNode? then {} else {alias}
  }

  /** The second import adds a dependency, and a name only if it is a file. */
  ghost predicate TwinState(w: World, st: State, b: Node, d: Node, alias: Text, other: Text) {
    && st.dependencies == {Dependency(ROOT_IDENTITY, Identity(w, b), alias), Dependency(ROOT_IDENTITY, Identity(w, b), other)}
    && st.pending == (if b.ExternalNode? then [] else [ViewOf(w, b)])
    && Registered(st, alias) && (!d.FileNode? ==> !Registered(st, other))
  }

  lemma FirstAdmitted(w: World, empty: State, x: Request, b: Node, alias: Text) returns (one: State)
    requires empty == Initial(w).(pending := []) && Resolve(w, ViewOf(w, RootNode), x) == Ok((b, alias))
    requires w.limits.maxImports == 1 && Size(w, b) <= w.limits.maxImportedFileBytes
    requires |w.root.text| + Size(w, b) <= w.limits.maxImportGraphBytes
    ensures Processed(w, empty, ViewOf(w, RootNode), x) == Ok(one) && FirstState(w, one, b, alias)
  {
    ResolveExists(w, ViewOf(w, RootNode), x);
    ResolvedAliasFits(w, ViewOf(w, RootNode), x);
    AdmittedFields(w, empty, ROOT_IDENTITY, b, alias);
    one := Admitted(w, empty, ROOT_IDENTITY, b, alias);
  }

  lemma SecondAdmitted(w: World, one: State, y: Request, b: Node, d: Node, alias: Text, other: Text) returns (two: State)
    requires Resolve(w, ViewOf(w, RootNode), y) == Ok((d, other)) && FirstState(w, one, b, alias)
    requires Identity(w, b) == Identity(w, d) && alias != other
    ensures Processed(w, one, ViewOf(w, RootNode), y) == Ok(two) && TwinState(w, two, b, d, alias, other)
  {
    two := Processed(w, one, ViewOf(w, RootNode), y).value;
  }

  /** Both imports are admitted, the second without a module of its own. */
  lemma BothAdmitted(w: World, x: Request, y: Request, b: Node, d: Node, alias: Text, other: Text) returns (st: State)
    requires Twins(w, x, y, b, d, alias, other)
    ensures ProcessedAll(w, Initial(w).(pending := []), ViewOf(w, RootNode), [x, y]) == Ok(st)
    ensures TwinState(w, st, b, d, alias, other)
  {
    var empty := Initial(w).(pending := []);
    var one := FirstAdmitted(w, empty, x, b, alias);
    st := SecondAdmitted(w, one, y, b, d, alias, other);
    TwoProcessed(w, empty, ViewOf(w, RootNode), x, y, one, st);
  }

  lemma TwoProcessed(w: World, st: State, parent: View, x: Request, y: Request, one: State, two: State)
    requires Processed(w, st, parent, x) == Ok(one) && Processed(w, one, parent, y) == Ok(two)
    ensures ProcessedAll(w, st, parent, [x, y]) == Ok(two)
  {
    assert [x, y][1..] == [y] && [y][1..] == [];
    assert ProcessedAll(w, one, parent, [y]) == ProcessedAll(w, two, parent, []);
  }

  lemma TwinEdgesAreAcyclic(st: State, id: Text, alias: Text, other: Text)
    requires st.dependencies == {Dependency(ROOT_IDENTITY, id, alias), Dependency(ROOT_IDENTITY, id, other)}
    requires id != ROOT_IDENTITY
    ensures Acyclic(EdgesOf(st.dependencies))
  {
    RankMeansAcyclic(EdgesOf(st.dependencies), map[ROOT_IDENTITY := 0, id := 1]);
  }

  /** The root's turn is followed by at most one more, of a module that lists nothing. */
  lemma TwoTurns(w: World, requests: seq<Request>, st: State, b: Node)
    requires w.limits.maxImports == 1 && |w.root.text| <= w.limits.maxImportGraphBytes
    requires w.discover(ViewOf(w, RootNode)) == Ok(requests) && (b != RootNode ==> w.discover(ViewOf(w, b)) == Ok([]))
    requires ProcessedAll(w, Initial(w).(pending := []), ViewOf(w, RootNode), requests) == Ok(st)
    requires st.pending == [] || (st.pending == [ViewOf(w, b)] && b != RootNode)
    ensures Settled(w) == Ok(st.(pending := []))
  {
    assert Initial(w).pending == [ViewOf(w, RootNode)] && Initial(w).pending[1..] == [];
    assert After(w, 1) == Turned(w, Initial(w)) == Ok(st);
    if st.pending != [] {
      assert st.pending[1..] == [];
      assert After(w, 2) == Turned(w, st) == Ok(st.(pending := []));
    } else {
      assert st.(pending := []) == st;
    }
  }

  /** Preparing succeeds, registers the first name and never a second name of the catalog. */
  lemma FirstIsRegistered(base: World, x: Request, y: Request, b: Node, d: Node, alias: Text, other: Text)
    requires Twins(base, x, y, b, d, alias, other)
    ensures var w := Listing(base, [x, y]);
            && Settled(w).Ok? && Acyclic(EdgesOf(Settled(w).value.dependencies))
            && Registered(Settled(w).value, alias) && (!d.FileNode? ==> !Registered(Settled(w).value, other))
  {
    var w := Listing(base, [x, y]);
    assert Twins(w, x, y, b, d, alias, other);
    var st := BothAdmitted(w, x, y, b, d, alias, other);
    ResolveExists(w, ViewOf(w, RootNode), x);
    TwoTurns(w, [x, y], st, b);
    TwinEdgesAreAcyclic(st, Identity(w, b), alias, other);
  }

  /** Any result of the one world differs from any result of the other. */
  ghost predicate OrderMatters(w: World, v: World) {
    && SameUpToOrder(w, v) && Settled(w).Ok? && Settled(v).Ok?
    && forall r, q :: IsResult(w, r) && IsResult(v, q) ==> r.Ok? && q.Ok? && r.value != q.value
  }

  lemma SwappedOrderMatters(base: World, x: Request, y: Request, b: Node, d: Node, alias: Text, other: Text)
    requires Twins(base, x, y, b, d, alias, other) && Twins(base, y, x, d, b, other, alias) && !b.FileNode?
    ensures OrderMatters(Listing(base, [x, y]), Listing(base, [y, x]))
  {
    var w, v := Listing(base, [x, y]), Listing(base, [y, x]);
    FirstIsRegistered(base, x, y, b, d, alias, other);
    FirstIsRegistered(base, y, x, d, b, other, alias);
    forall r, q | IsResult(w, r) && IsResult(v, q)
      ensures r.Ok? && q.Ok? && r.value != q.value
    {
      assert alias in r.value.externals || alias in r.value.aliases;
    }
  }

  lemma {:induction false} LongerThanAll(names: set<Text>) returns (k: nat)
    ensures forall t :: t in names ==> |t| < k
  {
    k := 0;
    if names != {} {
      var t :| t in names;
      k := LongerThanAll(names - {t});
      k := if |t| < k then k else |t| + 1;
    }
  }

  lemma UnusedAlias(c: Catalog) returns (alias: Text)
    ensures !Offered(c, alias)
  {
    var k := LongerThanAll(c.sources.Keys + c.externals.Keys);
    alias := seq(k, _ => 0);
  }

  /** Distinct identities are what confluence needs: in every other catalog some root can list two
      requests in two orders and have two different graphs prepared. */
  lemma SharedIdentityMakesOrderMatter(c: Catalog) returns (w: World, v: World)
    requires !CatalogDistinct(c) && Storable(c)
    ensures w.catalog == c && OrderMatters(w, v)
  {
    if a, b :| Shared(c, a, b) {
      var base := OneFile(c, [], []);
      SwappedOrderMatters(base, EmbeddedImport(a), EmbeddedImport(b), CatalogNode(c, a), CatalogNode(c, b), a, b);
      w, v := Listing(base, [EmbeddedImport(a), EmbeddedImport(b)]), Listing(base, [EmbeddedImport(b), EmbeddedImport(a)]);
    } else {
      var a :| FileLike(c, a);
      w, v := FileLikeMakesOrderMatter(c, a);
    }
  }

  function CatalogNode(c: Catalog, name: Text): Node {
    if name in c.externals then ExternalNode(name) else SourceNode(name)
  }

  lemma FileLikeMakesOrderMatter(c: Catalog, a: Text) returns (w: World, v: World)
    requires FileLike(c, a) && Storable(c)
    ensures w.catalog == c && OrderMatters(w, v)
  {
    var path := CatalogIdentity(c, a)[|RELATIVE_PREFIX|..];
    assert RELATIVE_PREFIX + path == CatalogIdentity(c, a);
    var alias := UnusedAlias(c);
    var base, x, y := OneFile(c, path, alias), EmbeddedImport(a), RelativeImport([]);
    assert CatalogIdentity(c, a)[0] != ROOT_IDENTITY[0] || CatalogIdentity(c, a)[1] != ROOT_IDENTITY[1];
    SwappedOrderMatters(base, x, y, CatalogNode(c, a), FileNode(path), a, alias);
    w, v := Listing(base, [x, y]), Listing(base, [y, x]);
  }
}

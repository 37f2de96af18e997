/** What preparing an import graph means, independently of the worklist that does it: how one
    request resolves, which modules are reachable, when preparation is admissible and which
    graph it must then return. */
module ImportSpec {
  import opened Basics
  import opened Digraph
  import opened Ordering
  import opened ImportCycle

  type usize = x: nat | x <= 0xFFFF_FFFF_FFFF_FFFF
  const USIZE_MAX: nat := 0xFFFF_FFFF_FFFF_FFFF

  /** "root" */
  const ROOT_IDENTITY: Text := [114, 111, 111, 116]
  /** "relative:" */
  const RELATIVE_PREFIX: Text := [114, 101, 108, 97, 116, 105, 118, 101, 58]

  datatype ModuleClass = Root | Embedded | Relative | External

  datatype Source = Source(logicalName: Text, text: Text)

  datatype Request =
    | EmbeddedImport(name: Text)
    | RelativeImport(requested: Text)
    | DeniedImport(requested: Text, reason: Text)
    | InvalidImport(message: Text)

  datatype LimitKind = ImportCount | ImportedFileSize | ImportGraphSize

  datatype Diagnostic = Import | Limit(kind: LimitKind) | Time

  /** A module handed to import discovery. */
  datatype View = View(identity: Text, moduleClass: ModuleClass, source: Source)

  datatype CatalogSource = CatalogSource(identity: Text, source: Source)
  datatype CatalogExternal = CatalogExternal(identity: Text, fingerprintName: Text, fingerprintSource: Text)
  datatype Catalog = Catalog(sources: map<Text, CatalogSource>, externals: map<Text, CatalogExternal>)

  datatype Normalized = Normalized(path: Text, alias: Text)

  /** `locate` maps a parent's logical name and a requested path to the normalized name below the
      root, or rejects it; `files` are the readable files by normalized name. */
  datatype SourceRoot = SourceRoot(files: map<Text, Text>, locate: (Text, Text) -> Option<Text>)

  datatype Limits = Limits(maxImportedFileBytes: usize, maxImports: usize, maxImportGraphBytes: usize)

  /** Everything a preparation depends on except the clock. */
  datatype World = World(
    catalog: Catalog,
    sourceRoot: Option<SourceRoot>,
    limits: Limits,
    root: Source,
    discover: View -> Result<seq<Request>, Diagnostic>,
    normalize: Text -> Option<Normalized>,
    sha256: Text -> Text)

  /** A module, named by where it comes from. */
  datatype Node = RootNode | SourceNode(name: Text) | ExternalNode(name: Text) | FileNode(path: Text)

  datatype PreparedModule = PreparedModule(identity: Text, moduleClass: ModuleClass, logicalName: Text, sha256: Text)

  datatype PreparedGraph = PreparedGraph(
    aliases: map<Text, (Text, Text)>,
    externals: set<Text>,
    modules: seq<PreparedModule>,
    dependencies: seq<Dependency>)

  // ---- nodes --------------------------------------------------------------------------

  predicate Exists(w: World, n: Node) {
    match n
    case RootNode => true
    case SourceNode(name) => name in w.catalog.sources && name !in w.catalog.externals
    case ExternalNode(name) => name in w.catalog.externals
    case FileNode(path) => w.sourceRoot.Some? && path in w.sourceRoot.value.files
  }

  /** Meaningful for nodes that exist, like the next functions. */
  function Identity(w: World, n: Node): Text {
    match n
    case RootNode => ROOT_IDENTITY
    case SourceNode(name) => if name in w.catalog.sources then w.catalog.sources[name].identity else []
    case ExternalNode(name) => if name in w.catalog.externals then w.catalog.externals[name].identity else []
    case FileNode(path) => RELATIVE_PREFIX + path
  }

  function Class(n: Node): ModuleClass {
    match n
    case RootNode => Root
    case SourceNode(_) => Embedded
    case ExternalNode(_) => External
    case FileNode(_) => Relative
  }

  function SourceOf(w: World, n: Node): Source {
    if !Exists(w, n) then Source([], []) else
      match n
      case RootNode => w.root
      case SourceNode(name) => w.catalog.sources[name].source
      case ExternalNode(_) => Source([], [])
      case FileNode(path) => Source(path, w.sourceRoot.value.files[path])
  }

  function ViewOf(w: World, n: Node): View {
    View(Identity(w, n), Class(n), SourceOf(w, n))
  }

  function ModuleOf(w: World, n: Node): PreparedModule {
    if n.ExternalNode? && n.name in w.catalog.externals then
      var e := w.catalog.externals[n.name];
      PreparedModule(e.identity, External, e.fingerprintName, w.sha256(e.fingerprintSource))
    else
      var s := SourceOf(w, n);
      PreparedModule(Identity(w, n), Class(n), s.logicalName, w.sha256(s.text))
  }

  ghost function Universe(w: World): set<Node> {
    {RootNode}
    + (set name | name in w.catalog.sources && name !in w.catalog.externals :: SourceNode(name))
    + (set name | name in w.catalog.externals :: ExternalNode(name))
    + (if w.sourceRoot.None? then {} else set path | path in w.sourceRoot.value.files :: FileNode(path))
  }

  lemma UniverseIsAll(w: World, n: Node)
    ensures n in Universe(w) <==> Exists(w, n)
  {
  }

  predicate Offered(c: Catalog, name: Text) {
    name in c.externals || name in c.sources
  }

  /** An external entry overrides a source entry of the same name. */
  function CatalogIdentity(c: Catalog, name: Text): Text
    requires Offered(c, name)
  {
    if name in c.externals then c.externals[name].identity else c.sources[name].identity
  }

  /** Two request names share an identity other than the root's. */
  ghost predicate Shared(c: Catalog, a: Text, b: Text) {
    && Offered(c, a) && Offered(c, b) && a != b
    && CatalogIdentity(c, a) == CatalogIdentity(c, b) != ROOT_IDENTITY
  }

  /** A request name whose identity a source-root file could have. */
  ghost predicate FileLike(c: Catalog, a: Text) {
    Offered(c, a) && RELATIVE_PREFIX <= CatalogIdentity(c, a)
  }

  /** Different request names have different identities, and none of them can be mistaken for a
      source-root file. Names may have the identity of the root: importing one closes a cycle. */
  ghost predicate CatalogDistinct(c: Catalog) {
    (forall a, b :: !Shared(c, a, b)) && (forall a :: !FileLike(c, a))
  }

  /** The identity of b tells it apart from every other module. */
  ghost predicate Identified(w: World, b: Node) {
    CatalogDistinct(w.catalog) && Identity(w, b) != ROOT_IDENTITY
  }

  lemma IdentityInjective(w: World, a: Node, b: Node)
    requires Identified(w, b) && Exists(w, a) && Exists(w, b)
    requires Identity(w, a) == Identity(w, b)
    ensures a == b
  {
    if a.FileNode? && b.FileNode? {
      assert a.path == Identity(w, a)[|RELATIVE_PREFIX|..];
      assert b.path == Identity(w, b)[|RELATIVE_PREFIX|..];
    } else if a.FileNode? {
      NamedLikeFile(w, a, b);
    } else if b.FileNode? {
      NamedLikeFile(w, b, a);
    } else {
      assert !Shared(w.catalog, a.name, b.name);
    }
  }

  lemma NamedLikeFile(w: World, a: Node, b: Node)
    requires Exists(w, a) && Exists(w, b) && a.FileNode? && !b.FileNode?
    requires Identity(w, a) == Identity(w, b) != ROOT_IDENTITY
    ensures !b.RootNode? && FileLike(w.catalog, b.name)
  {
    assert RELATIVE_PREFIX <= Identity(w, a);
  }

  // ---- resolution ---------------------------------------------------------------------

  /** Where one request of a module leads, or why it is refused. */
  function Resolve(w: World, parent: View, request: Request): Result<(Node, Text), Diagnostic> {
    match request
    case EmbeddedImport(name) =>
      if name in w.catalog.externals then Ok((ExternalNode(name), name))
      else if name in w.catalog.sources then Ok((SourceNode(name), name))
      else Err(Import)
    case RelativeImport(requested) =>
      if parent.moduleClass == Embedded || w.sourceRoot.None? || w.normalize(requested).None? then Err(Import) else
        var Normalized(path, alias) := w.normalize(requested).value;
        if alias in w.catalog.sources || alias in w.catalog.externals then Err(Import) else
          Load(w, w.sourceRoot.value, parent, path, alias)
    case DeniedImport(_, _) => Err(Import)
    case InvalidImport(_) => Err(Import)
  }

  /** `load_import`: the file must exist below the root and respect the per-file limit. */
  function Load(w: World, root: SourceRoot, parent: View, path: Text, alias: Text): Result<(Node, Text), Diagnostic> {
    match root.locate(parent.source.logicalName, path)
    case None => Err(Import)
    case Some(name) =>
      if name !in root.files then Err(Import)
      else if |root.files[name]| > w.limits.maxImportedFileBytes then Err(Limit(ImportedFileSize))
      else Ok((FileNode(name), alias))
  }

  lemma ResolveExists(w: World, parent: View, request: Request)
    requires Resolve(w, parent, request).Ok?
    ensures Exists(w, Resolve(w, parent, request).value.0) && Resolve(w, parent, request).value.0 != RootNode
  {
  }

  /** Module a imports module b under the given alias. */
  ghost predicate Imports(w: World, a: Node, b: Node, alias: Text) {
    && Exists(w, a) && !a.ExternalNode?
    && var found := w.discover(ViewOf(w, a));
    && found.Ok?
    && exists request :: request in found.value && Resolve(w, ViewOf(w, a), request) == Ok((b, alias))
  }

  ghost predicate ImportsSome(w: World, a: Node, b: Node) {
    exists alias :: Imports(w, a, b, alias)
  }

  ghost function Arcs(w: World): set<(Node, Node)> {
    set a, b | a in Universe(w) && b in Universe(w) && ImportsSome(w, a, b) :: (a, b)
  }

  lemma ImportIsArc(w: World, a: Node, b: Node, alias: Text)
    requires Imports(w, a, b, alias)
    ensures (a, b) in Arcs(w) && Exists(w, b) && b != RootNode
  {
    var request :| request in w.discover(ViewOf(w, a)).value && Resolve(w, ViewOf(w, a), request) == Ok((b, alias));
    ResolveExists(w, ViewOf(w, a), request);
    UniverseIsAll(w, a);
    UniverseIsAll(w, b);
    assert ImportsSome(w, a, b);
  }

  ghost function Reachable(w: World): set<Node> {
    set n | n in Universe(w) && Reaches(Arcs(w), RootNode, n)
  }

  /** The imported modules: everything reachable but the root. */
  ghost function Targets(w: World): set<Node> {
    Reachable(w) - {RootNode}
  }

  /** The arcs preparation gets to see. */
  ghost function ObservedArcs(w: World): set<(Node, Node)> {
    set e | e in Arcs(w) && e.0 in Reachable(w)
  }

  ghost predicate Observed(w: World, a: Node, b: Node, alias: Text) {
    a in Reachable(w) && Imports(w, a, b, alias)
  }

  lemma ObservedIsTarget(w: World, a: Node, b: Node, alias: Text)
    requires Observed(w, a, b, alias)
    ensures b in Targets(w) && Exists(w, a) && Exists(w, b)
  {
    ImportIsArc(w, a, b, alias);
    UniverseIsAll(w, a);
    UniverseIsAll(w, b);
    ReachesEdge(Arcs(w), a, b);
    ReachesTrans(Arcs(w), RootNode, a, b);
  }

  // ---- sizes --------------------------------------------------------------------------

  function Size(w: World, n: Node): nat {
    |SourceOf(w, n).text|
  }

  ghost function TotalSize(w: World, s: set<Node>): nat {
    if s == {} then 0 else
      var n :| n in s;
      Size(w, n) + TotalSize(w, s - {n})
  }

  lemma {:induction false} TotalSizeRemove(w: World, s: set<Node>, n: Node)
    requires n in s
    ensures TotalSize(w, s) == Size(w, n) + TotalSize(w, s - {n})
  {
    var m :| m in s && TotalSize(w, s) == Size(w, m) + TotalSize(w, s - {m});
    if m != n {
      TotalSizeRemove(w, s - {m}, n);
      TotalSizeRemove(w, s - {n}, m);
      assert s - {m} - {n} == s - {n} - {m};
    }
  }

  lemma TotalSizeAdd(w: World, s: set<Node>, n: Node)
    requires n !in s
    ensures TotalSize(w, s + {n}) == TotalSize(w, s) + Size(w, n)
  {
    TotalSizeRemove(w, s + {n}, n);
    assert s + {n} - {n} == s;
  }

  lemma {:induction false} TotalSizeMonotone(w: World, s: set<Node>, t: set<Node>)
    requires s <= t
    ensures TotalSize(w, s) <= TotalSize(w, t)
  {
    if s != {} {
      var n :| n in s;
      TotalSizeRemove(w, s, n);
      TotalSizeRemove(w, t, n);
      TotalSizeMonotone(w, s - {n}, t - {n});
    }
  }

  // ---- admissibility and the expected graph -------------------------------------------

  ghost predicate Resolvable(w: World, a: Node) {
    var found := w.discover(ViewOf(w, a));
    found.Ok? && forall request :: request in found.value ==> Resolve(w, ViewOf(w, a), request).Ok?
  }

  ghost predicate AliasesAgree(w: World) {
    forall a, b, c, d, alias :: Observed(w, a, b, alias) && Observed(w, c, d, alias) ==> b == d
  }

  ghost predicate WithinLimits(w: World, targets: set<Node>) {
    && |targets| <= w.limits.maxImports
    && (forall n :: n in targets ==> Size(w, n) <= w.limits.maxImportedFileBytes)
    && |w.root.text| + TotalSize(w, targets) <= w.limits.maxImportGraphBytes
  }

  /** The conditions on the inputs under which preparation succeeds. */
  ghost predicate Admissible(w: World) {
    && (forall a :: a in Reachable(w) && !a.ExternalNode? ==> Resolvable(w, a))
    && AliasesAgree(w)
    && WithinLimits(w, Targets(w))
    && Acyclic(ObservedArcs(w))
    && RootIsFree(w)
  }

  /** No import has the identity of the root. */
  ghost predicate RootIsFree(w: World) {
    forall n :: n in Targets(w) ==> Identity(w, n) != ROOT_IDENTITY
  }

  const DependencyKey: Dependency -> seq<Text> := (d: Dependency) => [d.parent, d.target, d.alias]
  const ModuleKey: PreparedModule -> seq<Text> := (m: PreparedModule) => [m.identity]

  ghost predicate IsDependency(w: World, d: Dependency) {
    exists a, b ::
      && Observed(w, a, b, d.alias)
      && d.parent == Identity(w, a) && d.target == Identity(w, b)
  }

  ghost predicate IsModule(w: World, m: PreparedModule) {
    exists n :: n in Targets(w) && m == ModuleOf(w, n)
  }

  ghost predicate IsAlias(w: World, alias: Text, identity: Text, text: Text) {
    exists a, b ::
      && Observed(w, a, b, alias) && !b.ExternalNode?
      && identity == Identity(w, b) && text == SourceOf(w, b).text
  }

  /** The graph holds exactly the reachable closure, in canonical order. */
  ghost predicate IsClosure(w: World, g: PreparedGraph) {
    && StrictBy(ModuleKey, g.modules) && (forall m :: m in g.modules <==> IsModule(w, m))
    && StrictBy(DependencyKey, g.dependencies) && (forall d :: d in g.dependencies <==> IsDependency(w, d))
    && (forall name :: name in g.externals <==> ExternalNode(name) in Targets(w))
    && (forall alias, identity, text ::
          IsAlias(w, alias, identity, text) <==> alias in g.aliases && g.aliases[alias] == (identity, text))
  }

  // ---- order of discovery -------------------------------------------------------------

  /** Two worlds that differ only in the order (or repetition) of the requests discovery lists. */
  ghost predicate SameUpToOrder(w: World, v: World) {
    && v == w.(discover := v.discover)
    && forall view :: w.discover(view).Ok? == v.discover(view).Ok?
                      && (w.discover(view).Ok? ==>
                            forall r :: r in w.discover(view).value <==> r in v.discover(view).value)
  }

  lemma SameImports(w: World, v: World)
    requires SameUpToOrder(w, v)
    ensures forall n :: Exists(w, n) <==> Exists(v, n)
    ensures forall a, b, alias :: Imports(w, a, b, alias) <==> Imports(v, a, b, alias)
    ensures Universe(w) == Universe(v) && Arcs(w) == Arcs(v)
    ensures Reachable(w) == Reachable(v)
  {
    forall a, b, alias
      ensures Imports(w, a, b, alias) <==> Imports(v, a, b, alias)
    {
      if Exists(w, a) && !a.ExternalNode? {
        assert ViewOf(w, a) == ViewOf(v, a);
        assert forall r :: Resolve(w, ViewOf(w, a), r) == Resolve(v, ViewOf(w, a), r);
      }
    }
    forall a, b
      ensures ImportsSome(w, a, b) <==> ImportsSome(v, a, b)
    {
    }
    assert Arcs(w) == Arcs(v);
  }

  lemma SameNodes(w: World, v: World)
    requires SameUpToOrder(w, v)
    ensures forall n :: Identity(w, n) == Identity(v, n) && ModuleOf(w, n) == ModuleOf(v, n) && SourceOf(w, n) == SourceOf(v, n)
  {
  }

  lemma {:induction false} SameTotal(w: World, v: World, s: set<Node>)
    requires SameUpToOrder(w, v)
    ensures TotalSize(w, s) == TotalSize(v, s)
  {
    SameNodes(w, v);
    if s != {} {
      var n :| n in s;
      TotalSizeRemove(w, s, n);
      TotalSizeRemove(v, s, n);
      SameTotal(w, v, s - {n});
    }
  }

  lemma SameResolvable(w: World, v: World, a: Node)
    requires SameUpToOrder(w, v)
    ensures Resolvable(w, a) <==> Resolvable(v, a)
  {
    SameNodes(w, v);
    assert ViewOf(w, a) == ViewOf(v, a);
    assert forall r :: Resolve(w, ViewOf(w, a), r) == Resolve(v, ViewOf(w, a), r);
  }

  lemma SameAdmissible(w: World, v: World)
    requires SameUpToOrder(w, v)
    ensures Admissible(w) <==> Admissible(v)
  {
    SameImports(w, v);
    SameLimits(w, v, Targets(w));
    SameAliases(w, v);
    SameRootIsFree(w, v);
    forall a
      ensures Resolvable(w, a) <==> Resolvable(v, a)
    {
      SameResolvable(w, v, a);
    }
    assert ObservedArcs(w) == ObservedArcs(v);
  }

  lemma SameRootIsFree(w: World, v: World)
    requires SameUpToOrder(w, v)
    ensures RootIsFree(w) <==> RootIsFree(v)
  {
    SameImports(w, v);
    SameNodes(w, v);
  }

  lemma SameLimits(w: World, v: World, s: set<Node>)
    requires SameUpToOrder(w, v)
    ensures WithinLimits(w, s) <==> WithinLimits(v, s)
  {
    SameNodes(w, v);
    SameTotal(w, v, s);
  }

  lemma SameAliases(w: World, v: World)
    requires SameUpToOrder(w, v)
    ensures AliasesAgree(w) <==> AliasesAgree(v)
  {
    SameImports(w, v);
    assert forall a, b, alias :: Observed(w, a, b, alias) <==> Observed(v, a, b, alias);
  }

  lemma SameClosure(w: World, v: World, g: PreparedGraph)
    requires SameUpToOrder(w, v) && IsClosure(v, g)
    ensures IsClosure(w, g)
  {
    SameImports(w, v);
    SameNodes(w, v);
    assert forall a, b, alias :: Observed(w, a, b, alias) <==> Observed(v, a, b, alias);
    forall m ensures IsModule(w, m) <==> IsModule(v, m) {}
    forall d ensures IsDependency(w, d) <==> IsDependency(v, d) {}
    forall alias, identity, text ensures IsAlias(w, alias, identity, text) <==> IsAlias(v, alias, identity, text) {}
  }
}

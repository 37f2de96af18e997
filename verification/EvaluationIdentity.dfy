/** Building and validating an evaluation identity. SHA-256 is any function to 64 lower-case
    hexadecimal digits. */
module EvaluationIdentity {
  import opened Basics
  import opened Ordering
  import opened ImportCycle
  import opened ImportSpec
  import opened IdentityCodec

  datatype Identity = Identity(inputs: Inputs, encodingVersion: nat, sha256: Text)

  // ---- text checks --------------------------------------------------------------------

  predicate IsHexDigit(b: byte) {
    48 <= b <= 57 || 97 <= b <= 102
  }

  predicate IsSha256(value: Text) {
    |value| == 64 && forall i :: 0 <= i < |value| ==> IsHexDigit(value[i])
  }

  /** Bytes of the white-space character `value` starts with, 0 if it starts with none: the
      Unicode White_Space characters in UTF-8. */
  function WhiteSpaceLength(value: Text): (n: nat)
    ensures n <= |value|
  {
    if |value| >= 1 && (9 <= value[0] <= 13 || value[0] == 32) then 1
    else if |value| >= 2 && value[0] == 0xC2 && (value[1] == 0x85 || value[1] == 0xA0) then 2
    else if |value| >= 3 && value[0] == 0xE1 && value[1] == 0x9A && value[2] == 0x80 then 3
    else if |value| >= 3 && value[0] == 0xE2 && value[1] == 0x80
            && (0x80 <= value[2] <= 0x8A || value[2] == 0xA8 || value[2] == 0xA9 || value[2] == 0xAF) then 3
    else if |value| >= 3 && value[0] == 0xE2 && value[1] == 0x81 && value[2] == 0x9F then 3
    else if |value| >= 3 && value[0] == 0xE3 && value[1] == 0x80 && value[2] == 0x80 then 3
    else 0
  }

  /** `value.trim().is_empty()` */
  predicate IsBlank(value: Text) {
    value == [] || (WhiteSpaceLength(value) > 0 && IsBlank(value[WhiteSpaceLength(value)..]))
  }

  // ---- canonical order ----------------------------------------------------------------

  const ModuleFields: PreparedModule -> seq<Text> :=
    (m: PreparedModule) => [m.identity, [ClassTag(m.moduleClass)], m.logicalName, m.sha256]

  /** The derived order of modules: identity, class, logical name, hash. */
  const MODULE_LE: (PreparedModule, PreparedModule) -> bool :=
    (a: PreparedModule, b: PreparedModule) => FIELDS_LE(ModuleFields(a), ModuleFields(b))

  const DEPENDENCY_LE: (Dependency, Dependency) -> bool :=
    (a: Dependency, b: Dependency) => FIELDS_LE(DependencyKey(a), DependencyKey(b))

  lemma ModuleFieldsInjective(a: PreparedModule, b: PreparedModule)
    requires ModuleFields(a) == ModuleFields(b)
    ensures a == b
  {
    var f, g := ModuleFields(a), ModuleFields(b);
    assert f[0] == g[0] && f[1] == g[1] && f[2] == g[2] && f[3] == g[3];
    assert f[1][0] == g[1][0];
    TagInverse(a.moduleClass);
    TagInverse(b.moduleClass);
  }

  lemma DependencyKeyInjective(a: Dependency, b: Dependency)
    requires DependencyKey(a) == DependencyKey(b)
    ensures a == b
  {
    var f, g := DependencyKey(a), DependencyKey(b);
    assert f[0] == g[0] && f[1] == g[1] && f[2] == g[2];
  }

  lemma ModuleOrder()
    ensures TotalOrder(MODULE_LE)
  {
    FieldsOrder();
    forall a, b | MODULE_LE(a, b) && MODULE_LE(b, a) { ModuleFieldsInjective(a, b); }
  }

  lemma DependencyOrder()
    ensures TotalOrder(DEPENDENCY_LE)
  {
    FieldsOrder();
    forall a, b | DEPENDENCY_LE(a, b) && DEPENDENCY_LE(b, a) { DependencyKeyInjective(a, b); }
  }

  /** A module order puts identities in order. */
  lemma ModuleOrderByIdentity(a: PreparedModule, b: PreparedModule)
    requires MODULE_LE(a, b)
    ensures FIELDS_LE(ModuleKey(a), ModuleKey(b))
  {
    var f, g := ModuleFields(a), ModuleFields(b);
    assert LexLe(TEXT_LE, f, g) && f[0] == a.identity && g[0] == b.identity;
    assert LexLe(TEXT_LE, [a.identity], [b.identity]) by {
      if a.identity == b.identity {
        assert [a.identity][1..] == [];
      }
    }
  }

  /** `dedup_by`: an element with the key of the last one kept is dropped. */
  function DedupBy<T(!new)>(key: T -> seq<Text>, s: seq<T>): seq<T> {
    if s == [] then [] else
      var kept := DedupBy(key, s[..|s| - 1]);
      var x := s[|s| - 1];
      if kept != [] && key(kept[|kept| - 1]) == key(x) then kept else kept + [x]
  }

  ghost predicate OrderedBy<T(!new)>(key: T -> seq<Text>, s: seq<T>) {
    forall i, j :: 0 <= i < j < |s| ==> FIELDS_LE(key(s[i]), key(s[j]))
  }

  lemma {:induction false} DedupDropsOnly<T(!new)>(key: T -> seq<Text>, s: seq<T>)
    ensures forall x :: x in DedupBy(key, s) ==> x in s
  {
    if s != [] {
      SplitLast(s);
      DedupDropsOnly(key, s[..|s| - 1]);
    }
  }

  ghost predicate HasKey<T(!new)>(key: T -> seq<Text>, s: seq<T>, k: seq<Text>) {
    exists y :: y in s && key(y) == k
  }

  lemma {:induction false} DedupKeepsKey<T(!new)>(key: T -> seq<Text>, s: seq<T>, x: T)
    requires x in s
    ensures HasKey(key, DedupBy(key, s), key(x))
  {
    var init, last := s[..|s| - 1], s[|s| - 1];
    SplitLast(s);
    var kept, r := DedupBy(key, init), DedupBy(key, s);
    if x in init {
      DedupKeepsKey(key, init, x);
      var y :| y in kept && key(y) == key(x);
      assert y in r;
    } else {
      assert r[|r| - 1] in r;
    }
  }

  lemma DedupKeeps<T(!new)>(key: T -> seq<Text>, s: seq<T>)
    ensures forall x :: x in DedupBy(key, s) ==> x in s
    ensures forall x :: x in s ==> exists y :: y in DedupBy(key, s) && key(y) == key(x)
  {
    DedupDropsOnly(key, s);
    forall x | x in s
      ensures exists y :: y in DedupBy(key, s) && key(y) == key(x)
    {
      DedupKeepsKey(key, s, x);
    }
  }

  /** On an ordered sequence deduplication leaves one element of each key. */
  lemma {:induction false} DedupIsStrict<T(!new)>(key: T -> seq<Text>, s: seq<T>)
    requires OrderedBy(key, s)
    ensures StrictBy(key, DedupBy(key, s))
  {
    if s != [] {
      var init, x := s[..|s| - 1], s[|s| - 1];
      DedupIsStrict(key, init);
      DedupKeeps(key, init);
      var kept := DedupBy(key, init);
      forall y | y in kept
        ensures FIELDS_LE(key(y), key(x))
      {
        assert y in init;
        var i :| 0 <= i < |init| && init[i] == y;
        assert s[i] == y;
      }
      if kept == [] || key(kept[|kept| - 1]) != key(x) {
        AppendStrict(key, kept, x);
      }
    }
  }

  lemma AppendStrict<T(!new)>(key: T -> seq<Text>, kept: seq<T>, x: T)
    requires StrictBy(key, kept) && forall y :: y in kept ==> FIELDS_LE(key(y), key(x))
    requires kept != [] ==> key(kept[|kept| - 1]) != key(x)
    ensures StrictBy(key, kept + [x])
  {
    forall j | 0 <= j < |kept|
      ensures FIELDS_LE(key(kept[j]), key(x)) && key(kept[j]) != key(x)
    {
      FieldsOrder();
      var last := kept[|kept| - 1];
      assert j < |kept| - 1 ==> FIELDS_LE(key(kept[j]), key(last));
      assert FIELDS_LE(key(last), key(x));
    }
  }

  function CanonicalModules(ms: seq<PreparedModule>): seq<PreparedModule> {
    DedupBy(ModuleKey, Sort(MODULE_LE, ms))
  }

  function CanonicalDependencies(ds: seq<Dependency>): seq<Dependency> {
    DedupBy(DependencyKey, Sort(DEPENDENCY_LE, ds))
  }

  lemma CanonicalModulesStrict(ms: seq<PreparedModule>)
    ensures StrictBy(ModuleKey, CanonicalModules(ms))
    ensures forall m :: m in CanonicalModules(ms) ==> m in ms
    ensures forall m :: m in ms ==> exists c :: c in CanonicalModules(ms) && c.identity == m.identity
  {
    ModuleOrder();
    SortSorted(MODULE_LE, ms);
    var s := Sort(MODULE_LE, ms);
    forall i, j | 0 <= i < j < |s|
      ensures FIELDS_LE(ModuleKey(s[i]), ModuleKey(s[j]))
    {
      ModuleOrderByIdentity(s[i], s[j]);
    }
    DedupIsStrict(ModuleKey, s);
    DedupKeeps(ModuleKey, s);
    SameElements(s, ms);
    forall m | m in ms
      ensures exists c :: c in CanonicalModules(ms) && c.identity == m.identity
    {
      var c :| c in CanonicalModules(ms) && ModuleKey(c) == ModuleKey(m);
      assert ModuleKey(c)[0] == ModuleKey(m)[0];
    }
  }

  lemma CanonicalDependenciesStrict(ds: seq<Dependency>)
    ensures StrictBy(DependencyKey, CanonicalDependencies(ds))
    ensures forall d :: d in CanonicalDependencies(ds) <==> d in ds
  {
    DependencyOrder();
    SortSorted(DEPENDENCY_LE, ds);
    var s := Sort(DEPENDENCY_LE, ds);
    DedupIsStrict(DependencyKey, s);
    DedupKeeps(DependencyKey, s);
    SameElements(s, ds);
    forall d | d in ds
      ensures d in CanonicalDependencies(ds)
    {
      var c :| c in CanonicalDependencies(ds) && DependencyKey(c) == DependencyKey(d);
      DependencyKeyInjective(c, d);
    }
  }

  lemma SameElements<T(!new)>(s: seq<T>, t: seq<T>)
    requires multiset(s) == multiset(t)
    ensures forall x :: x in s <==> x in t
  {
    forall x
      ensures x in s <==> x in t
    {
      assert x in s <==> x in multiset(s);
      assert x in t <==> x in multiset(t);
    }
  }

  /** A strictly ascending listing is already canonical. */
  lemma {:induction false} DedupFixes<T(!new)>(key: T -> seq<Text>, s: seq<T>)
    requires StrictBy(key, s)
    ensures DedupBy(key, s) == s
  {
    if s != [] {
      DedupFixes(key, s[..|s| - 1]);
      SplitLast(s);
    }
  }

  lemma StrictModulesSorted(ms: seq<PreparedModule>)
    requires StrictBy(ModuleKey, ms)
    ensures Sorted(MODULE_LE, ms)
  {
    forall i, j | 0 <= i < j < |ms|
      ensures MODULE_LE(ms[i], ms[j])
    {
      var a, b := ms[i], ms[j];
      assert LexLe(TEXT_LE, [a.identity], [b.identity]) && [a.identity] != [b.identity];
      assert ModuleFields(a)[0] == a.identity && ModuleFields(b)[0] == b.identity;
    }
  }

  lemma StrictIsCanonical(ms: seq<PreparedModule>, ds: seq<Dependency>)
    requires StrictBy(ModuleKey, ms) && StrictBy(DependencyKey, ds)
    ensures CanonicalModules(ms) == ms && CanonicalDependencies(ds) == ds
  {
    ModuleOrder();
    SortSorted(MODULE_LE, ms);
    StrictModulesSorted(ms);
    SortedUnique(MODULE_LE, Sort(MODULE_LE, ms), ms);
    DedupFixes(ModuleKey, ms);
    DependencyOrder();
    SortSorted(DEPENDENCY_LE, ds);
    SortedUnique(DEPENDENCY_LE, Sort(DEPENDENCY_LE, ds), ds);
    DedupFixes(DependencyKey, ds);
  }

  // ---- construction -------------------------------------------------------------------

  /** The evaluation an identity stands for. */
  datatype Request = Request(
    language: Text,
    sourceProfile: Text,
    engineImplementation: Text,
    engineVersion: Text,
    abiName: Text,
    abiVersion: Text,
    evaluatorPolicy: Text,
    limits: ResourceLimits,
    rootLogicalName: Text,
    rootText: Text,
    explicitInputs: Text,
    modules: seq<PreparedModule>,
    dependencies: seq<Dependency>)

  function InputsOf(sha: Text -> Text, q: Request): Inputs {
    Inputs(q.language, q.sourceProfile, q.engineImplementation, q.engineVersion, q.abiName, q.abiVersion,
           q.evaluatorPolicy, sha(ResourcePolicyBytes(q.limits)), q.rootLogicalName, sha(q.rootText),
           sha(q.explicitInputs), CanonicalModules(q.modules), CanonicalDependencies(q.dependencies))
  }

  function NewIdentity(sha: Text -> Text, q: Request): Identity {
    var inputs := InputsOf(sha, q);
    Identity(inputs, IDENTITY_ENCODING_VERSION, sha(Stream(inputs)))
  }

  /** The identity does not depend on the order in which modules and imports are listed. */
  lemma IdentityIgnoresOrder(sha: Text -> Text, q: Request, p: Request)
    requires p == q.(modules := p.modules, dependencies := p.dependencies)
    requires multiset(q.modules) == multiset(p.modules)
    requires forall d :: d in q.dependencies <==> d in p.dependencies
    ensures NewIdentity(sha, q) == NewIdentity(sha, p)
  {
    ModuleOrder();
    SortSorted(MODULE_LE, q.modules);
    SortSorted(MODULE_LE, p.modules);
    SortedUnique(MODULE_LE, Sort(MODULE_LE, q.modules), Sort(MODULE_LE, p.modules));
    CanonicalDependenciesStrict(q.dependencies);
    CanonicalDependenciesStrict(p.dependencies);
    StrictByUnique(DependencyKey, CanonicalDependencies(q.dependencies), CanonicalDependencies(p.dependencies));
  }

  // ---- validation ---------------------------------------------------------------------

  predicate ModuleWellFormed(m: PreparedModule) {
    !IsBlank(m.identity) && !IsBlank(m.logicalName) && IsSha256(m.sha256)
  }

  predicate DependencyWellFormed(d: Dependency) {
    !IsBlank(d.parent) && !IsBlank(d.target) && !IsBlank(d.alias)
  }

  /** A canonical identity: every text is well formed, each module and each dependency stands once,
      in order, and the digest is the one the inputs have. */
  ghost predicate Valid(sha: Text -> Text, id: Identity) {
    && !IsBlank(id.inputs.sourceProfile) && !IsBlank(id.inputs.rootLogicalName)
    && IsSha256(id.inputs.resourcePolicySha256) && IsSha256(id.inputs.rootSourceSha256)
    && IsSha256(id.inputs.explicitInputsSha256) && IsSha256(id.sha256)
    && (forall m :: m in id.inputs.modules ==> ModuleWellFormed(m))
    && StrictBy(ModuleKey, id.inputs.modules)
    && (forall d :: d in id.inputs.dependencies ==> DependencyWellFormed(d))
    && StrictBy(DependencyKey, id.inputs.dependencies)
    && id.encodingVersion == IDENTITY_ENCODING_VERSION
    && id.sha256 == sha(Stream(id.inputs))
  }

  datatype FieldName =
    | SourceProfile
    | ResourcePolicySha256
    | RootLogicalName
    | RootSourceSha256
    | ExplicitInputsSha256
    | Sha256
    | ModuleIdentity(index: nat)
    | ModuleLogicalName(index: nat)
    | ModuleSha256(index: nat)
    | ParentIdentity(index: nat)
    | TargetIdentity(index: nat)
    | Alias(index: nat)

  datatype ValidationError =
    | Empty(field: FieldName)
    | InvalidSha256(field: FieldName)
    | DuplicateModule(first: nat, duplicate: nat)
    | NonCanonicalModuleOrder(previous: nat)
    | NonCanonicalDependencyOrder(previous: nat)
    | UnknownEncodingVersion
    | AggregateMismatch

  function Lookup(id: Identity, f: FieldName): Option<Text> {
    match f
    case SourceProfile => Some(id.inputs.sourceProfile)
    case ResourcePolicySha256 => Some(id.inputs.resourcePolicySha256)
    case RootLogicalName => Some(id.inputs.rootLogicalName)
    case RootSourceSha256 => Some(id.inputs.rootSourceSha256)
    case ExplicitInputsSha256 => Some(id.inputs.explicitInputsSha256)
    case Sha256 => Some(id.sha256)
    case ModuleIdentity(i) => if i < |id.inputs.modules| then Some(id.inputs.modules[i].identity) else None
    case ModuleLogicalName(i) => if i < |id.inputs.modules| then Some(id.inputs.modules[i].logicalName) else None
    case ModuleSha256(i) => if i < |id.inputs.modules| then Some(id.inputs.modules[i].sha256) else None
    case ParentIdentity(i) => if i < |id.inputs.dependencies| then Some(id.inputs.dependencies[i].parent) else None
    case TargetIdentity(i) => if i < |id.inputs.dependencies| then Some(id.inputs.dependencies[i].target) else None
    case Alias(i) => if i < |id.inputs.dependencies| then Some(id.inputs.dependencies[i].alias) else None
  }

  predicate HoldsDigest(f: FieldName) {
    f.ResourcePolicySha256? || f.RootSourceSha256? || f.ExplicitInputsSha256? || f.Sha256? || f.ModuleSha256?
  }

  /** The error names something that is really wrong with the identity. */
  predicate Explains(sha: Text -> Text, id: Identity, e: ValidationError) {
    var ms, ds := id.inputs.modules, id.inputs.dependencies;
    match e
    case Empty(f) => !HoldsDigest(f) && Lookup(id, f).Some? && IsBlank(Lookup(id, f).value)
    case InvalidSha256(f) => HoldsDigest(f) && Lookup(id, f).Some? && !IsSha256(Lookup(id, f).value)
    case DuplicateModule(i, j) => i < j < |ms| && ms[i].identity == ms[j].identity
    case NonCanonicalModuleOrder(i) => i + 1 < |ms| && !MODULE_LE(ms[i], ms[i + 1])
    case NonCanonicalDependencyOrder(i) => i + 1 < |ds| && DEPENDENCY_LE(ds[i + 1], ds[i])
    case UnknownEncodingVersion => id.encodingVersion != IDENTITY_ENCODING_VERSION
    case AggregateMismatch => id.sha256 != sha(Stream(id.inputs))
  }

  ghost predicate DistinctIdentities(ms: seq<PreparedModule>) {
    forall i, j :: 0 <= i < j < |ms| ==> ms[i].identity != ms[j].identity
  }

  lemma DistinctGrows(ms: seq<PreparedModule>, i: nat)
    requires i < |ms| && DistinctIdentities(ms[..i]) && forall k :: 0 <= k < i ==> ms[k].identity != ms[i].identity
    ensures DistinctIdentities(ms[..i + 1])
  {
    var more, less := ms[..i + 1], ms[..i];
    assert forall k :: 0 <= k < i ==> more[k] == less[k];
  }

  method CheckModules(sha: Text -> Text, id: Identity) returns (r: Outcome<ValidationError>)
    ensures r.Pass? ==> forall m :: m in id.inputs.modules ==> ModuleWellFormed(m)
    ensures r.Pass? ==> DistinctIdentities(id.inputs.modules)
    ensures r.Fail? ==> Explains(sha, id, r.error)
  {
    var ms := id.inputs.modules;
    var seen: map<Text, nat> := map[];
    for i := 0 to |ms|
      invariant forall k :: 0 <= k < i ==> ModuleWellFormed(ms[k]) && ms[k].identity in seen
      invariant forall name :: name in seen ==> seen[name] < i && ms[seen[name]].identity == name
      invariant DistinctIdentities(ms[..i])
    {
      if IsBlank(ms[i].identity) { return Fail(Empty(ModuleIdentity(i))); }
      if IsBlank(ms[i].logicalName) { return Fail(Empty(ModuleLogicalName(i))); }
      if !IsSha256(ms[i].sha256) { return Fail(InvalidSha256(ModuleSha256(i))); }
      if ms[i].identity in seen { return Fail(DuplicateModule(seen[ms[i].identity], i)); }
      DistinctGrows(ms, i);
      seen := seen[ms[i].identity := i];
    }
    assert ms[..|ms|] == ms;
    return Pass;
  }

  method CheckModuleOrder(sha: Text -> Text, id: Identity) returns (r: Outcome<ValidationError>)
    requires DistinctIdentities(id.inputs.modules)
    ensures r.Pass? ==> StrictBy(ModuleKey, id.inputs.modules)
    ensures r.Fail? ==> Explains(sha, id, r.error)
  {
    var ms := id.inputs.modules;
    var i := 0;
    while i + 1 < |ms|
      invariant forall j, k :: 0 <= j < i && k == j + 1 && k < |ms| ==> MODULE_LE(ms[j], ms[k])
    {
      if !MODULE_LE(ms[i], ms[i + 1]) { return Fail(NonCanonicalModuleOrder(i)); }
      i := i + 1;
    }
    DistinctSortedIsStrict(ms);
    return Pass;
  }

  method CheckDependencies(sha: Text -> Text, id: Identity) returns (r: Outcome<ValidationError>)
    ensures r.Pass? ==> forall d :: d in id.inputs.dependencies ==> DependencyWellFormed(d)
    ensures r.Pass? ==> StrictBy(DependencyKey, id.inputs.dependencies)
    ensures r.Fail? ==> Explains(sha, id, r.error)
  {
    var ds := id.inputs.dependencies;
    for i := 0 to |ds|
      invariant forall k :: 0 <= k < i ==> DependencyWellFormed(ds[k])
    {
      if IsBlank(ds[i].parent) { return Fail(Empty(ParentIdentity(i))); }
      if IsBlank(ds[i].target) { return Fail(Empty(TargetIdentity(i))); }
      if IsBlank(ds[i].alias) { return Fail(Empty(Alias(i))); }
    }
    var i := 0;
    while i + 1 < |ds|
      invariant forall j, k :: 0 <= j < i && k == j + 1 && k < |ds| ==> !DEPENDENCY_LE(ds[k], ds[j])
    {
      if DEPENDENCY_LE(ds[i + 1], ds[i]) { return Fail(NonCanonicalDependencyOrder(i)); }
      i := i + 1;
    }
    AscendingIsStrict(ds);
    return Pass;
  }

  method CheckHeader(sha: Text -> Text, id: Identity) returns (r: Outcome<ValidationError>)
    ensures r.Pass? ==> !IsBlank(id.inputs.sourceProfile) && !IsBlank(id.inputs.rootLogicalName)
    ensures r.Pass? ==> IsSha256(id.inputs.resourcePolicySha256) && IsSha256(id.inputs.rootSourceSha256)
    ensures r.Pass? ==> IsSha256(id.inputs.explicitInputsSha256) && IsSha256(id.sha256)
    ensures r.Fail? ==> Explains(sha, id, r.error)
  {
    if IsBlank(id.inputs.sourceProfile) { return Fail(Empty(SourceProfile)); }
    if !IsSha256(id.inputs.resourcePolicySha256) { return Fail(InvalidSha256(ResourcePolicySha256)); }
    if IsBlank(id.inputs.rootLogicalName) { return Fail(Empty(RootLogicalName)); }
    if !IsSha256(id.inputs.rootSourceSha256) { return Fail(InvalidSha256(RootSourceSha256)); }
    if !IsSha256(id.inputs.explicitInputsSha256) { return Fail(InvalidSha256(ExplicitInputsSha256)); }
    if !IsSha256(id.sha256) { return Fail(InvalidSha256(Sha256)); }
    return Pass;
  }

  /** Accepts exactly the canonical identities, and blames only what is wrong. */
  method Validate(sha: Text -> Text, id: Identity) returns (r: Outcome<ValidationError>)
    ensures r.Pass? <==> Valid(sha, id)
    ensures r.Fail? ==> Explains(sha, id, r.error)
  {
    r := CheckHeader(sha, id);
    if r.Pass? {
      r := CheckModules(sha, id);
    }
    if r.Pass? {
      r := CheckModuleOrder(sha, id);
    }
    if r.Pass? {
      r := CheckDependencies(sha, id);
    }
    if r.Pass? && id.encodingVersion != IDENTITY_ENCODING_VERSION {
      r := Fail(UnknownEncodingVersion);
    }
    if r.Pass? {
      var digest := AggregateStream(id.inputs);
      if id.sha256 != sha(digest) {
        r := Fail(AggregateMismatch);
      }
    }
    if r.Fail? {
      ExplainedIsInvalid(sha, id, r.error);
    }
  }

  lemma {:induction false} AdjacentIsSorted<T(!new)>(le: (T, T) -> bool, s: seq<T>, i: nat, j: nat)
    requires TotalOrder(le) && forall m, n :: 0 <= m && n == m + 1 && n < |s| ==> le(s[m], s[n])
    requires i < j < |s|
    ensures le(s[i], s[j])
    decreases j
  {
    assert le(s[j - 1], s[j]);
    if i < j - 1 {
      AdjacentIsSorted(le, s, i, j - 1);
    }
  }

  /** Distinct identities in module order are in strict identity order. */
  lemma DistinctSortedIsStrict(ms: seq<PreparedModule>)
    requires DistinctIdentities(ms)
    requires forall j, k :: 0 <= j && k == j + 1 && k < |ms| ==> MODULE_LE(ms[j], ms[k])
    ensures StrictBy(ModuleKey, ms)
  {
    ModuleOrder();
    forall i, j | 0 <= i < j < |ms|
      ensures FIELDS_LE(ModuleKey(ms[i]), ModuleKey(ms[j])) && ModuleKey(ms[i]) != ModuleKey(ms[j])
    {
      AdjacentIsSorted(MODULE_LE, ms, i, j);
      ModuleOrderByIdentity(ms[i], ms[j]);
      assert ModuleKey(ms[i])[0] != ModuleKey(ms[j])[0];
    }
  }

  lemma AscendingIsStrict(ds: seq<Dependency>)
    requires forall j, k :: 0 <= j && k == j + 1 && k < |ds| ==> !DEPENDENCY_LE(ds[k], ds[j])
    ensures StrictBy(DependencyKey, ds)
  {
    DependencyOrder();
    forall i, j | 0 <= i < j < |ds|
      ensures DEPENDENCY_LE(ds[i], ds[j]) && DependencyKey(ds[i]) != DependencyKey(ds[j])
    {
      assert !DEPENDENCY_LE(ds[i + 1], ds[i]);
      if i + 1 < j {
        AdjacentIsSorted(DEPENDENCY_LE, ds, i + 1, j);
      }
      assert !DEPENDENCY_LE(ds[j], ds[i]);
    }
  }

  lemma ExplainedIsInvalid(sha: Text -> Text, id: Identity, e: ValidationError)
    requires Explains(sha, id, e)
    ensures !Valid(sha, id)
  {
    var ms, ds := id.inputs.modules, id.inputs.dependencies;
    match e
    case Empty(f) =>
      assert f.ModuleIdentity? || f.ModuleLogicalName? ==> ms[f.index] in ms;
      assert f.ParentIdentity? || f.TargetIdentity? || f.Alias? ==> ds[f.index] in ds;
    case InvalidSha256(f) =>
      assert f.ModuleSha256? ==> ms[f.index] in ms;
    case DuplicateModule(i, j) =>
      assert ModuleKey(ms[i]) == ModuleKey(ms[j]);
    case NonCanonicalModuleOrder(i) =>
      if StrictBy(ModuleKey, ms) {
        StrictModulesSorted(ms);
      }
    case NonCanonicalDependencyOrder(i) =>
      DependencyOrder();
      assert DEPENDENCY_LE(ds[i], ds[i + 1]) ==> ds[i] == ds[i + 1];
    case UnknownEncodingVersion =>
    case AggregateMismatch =>
  }

  // ---- what validation accepts --------------------------------------------------------

  /** SHA-256 renders as 64 hexadecimal digits. */
  ghost predicate IsDigest(sha: Text -> Text) {
    forall s :: IsSha256(sha(s))
  }

  /** A built identity validates exactly when the names it was given are well formed. */
  lemma BuiltIdentityIsValid(sha: Text -> Text, q: Request)
    requires IsDigest(sha)
    ensures Valid(sha, NewIdentity(sha, q)) <==>
              && !IsBlank(q.sourceProfile) && !IsBlank(q.rootLogicalName)
              && (forall m :: m in CanonicalModules(q.modules) ==> ModuleWellFormed(m))
              && (forall d :: d in q.dependencies ==> DependencyWellFormed(d))
  {
    CanonicalModulesStrict(q.modules);
    CanonicalDependenciesStrict(q.dependencies);
  }

  /** A valid identity is rebuilt, field for field, from what it records. */
  lemma ValidIdentityIsRebuilt(sha: Text -> Text, id: Identity, q: Request)
    requires Valid(sha, id)
    requires id.inputs == InputsOf(sha, q).(modules := q.modules, dependencies := q.dependencies)
    ensures NewIdentity(sha, q) == id
  {
    StrictIsCanonical(q.modules, q.dependencies);
  }

  /** Two valid identities with one digest are one identity, unless their streams collide. */
  lemma DigestNamesTheIdentity(sha: Text -> Text, a: Identity, b: Identity)
    requires Valid(sha, a) && Valid(sha, b) && Encodable(a.inputs) && Encodable(b.inputs)
    requires sha(Stream(a.inputs)) == sha(Stream(b.inputs)) ==> Stream(a.inputs) == Stream(b.inputs)
    ensures a.sha256 == b.sha256 <==> a == b
  {
    if a.sha256 == b.sha256 {
      StreamIsInjective(a.inputs, b.inputs);
    }
  }

  /** A prepared graph is listed canonically: the identity records it unchanged. */
  lemma PreparedGraphIsRecorded(sha: Text -> Text, w: World, g: PreparedGraph, q: Request)
    requires IsClosure(w, g) && q.modules == g.modules && q.dependencies == g.dependencies
    ensures NewIdentity(sha, q).inputs.modules == g.modules
    ensures NewIdentity(sha, q).inputs.dependencies == g.dependencies
  {
    StrictIsCanonical(q.modules, q.dependencies);
  }
}

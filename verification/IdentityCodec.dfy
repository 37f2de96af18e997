/** The byte stream an evaluation identity hashes, and a decoder that inverts it. */
module IdentityCodec {
  import opened Basics
  import opened Ordering
  import opened ImportCycle
  import opened ImportSpec

  /** "os-tools-declaration-evaluation" and a zero byte. */
  const IDENTITY_HASH_DOMAIN: Text := [
    111, 115, 45, 116, 111, 111, 108, 115, 45, 100, 101, 99, 108, 97, 114, 97,
    116, 105, 111, 110, 45, 101, 118, 97, 108, 117, 97, 116, 105, 111, 110, 0]

  const IDENTITY_ENCODING_VERSION: nat := 1

  /** Bytes in a 64-bit length or count. */
  const WORD: nat := 8

  /** Everything the aggregate digest commits to. */
  datatype Inputs = Inputs(
    language: Text,
    sourceProfile: Text,
    engineImplementation: Text,
    engineVersion: Text,
    abiName: Text,
    abiVersion: Text,
    evaluatorPolicy: Text,
    resourcePolicySha256: Text,
    rootLogicalName: Text,
    rootSourceSha256: Text,
    explicitInputsSha256: Text,
    modules: seq<PreparedModule>,
    dependencies: seq<Dependency>)

  // ---- little-endian numbers ----------------------------------------------------------

  function Pow256(k: nat): nat {
    if k == 0 then 1 else 256 * Pow256(k - 1)
  }

  /** The low k bytes of n, least significant first; `as` casts truncate the same way. */
  function LittleEndian(n: nat, k: nat): (r: Text)
    ensures |r| == k
  {
    if k == 0 then [] else [(n % 256) as byte] + LittleEndian(n / 256, k - 1)
  }

  function FromLittleEndian(s: Text): nat {
    if s == [] then 0 else s[0] as nat + 256 * FromLittleEndian(s[1..])
  }

  lemma {:induction false} LittleEndianInverse(n: nat, k: nat)
    requires n < Pow256(k)
    ensures FromLittleEndian(LittleEndian(n, k)) == n
  {
    if k > 0 {
      LittleEndianInverse(n / 256, k - 1);
      assert LittleEndian(n, k)[1..] == LittleEndian(n / 256, k - 1);
    }
  }

  // ---- encoding -----------------------------------------------------------------------

  function Field(value: Text): Text {
    LittleEndian(|value|, WORD) + value
  }

  function Fields(values: seq<Text>): Text {
    if values == [] then [] else Field(values[0]) + Fields(values[1..])
  }

  function ClassTag(c: ModuleClass): byte {
    match c
    case Root => 0
    case Embedded => 1
    case Relative => 2
    case External => 3
  }

  function ModuleBytes(m: PreparedModule): Text {
    Field(m.identity) + [ClassTag(m.moduleClass)] + Field(m.logicalName) + Field(m.sha256)
  }

  function DependencyBytes(d: Dependency): Text {
    Field(d.parent) + Field(d.target) + Field(d.alias)
  }

  function AllModuleBytes(ms: seq<PreparedModule>): Text {
    if ms == [] then [] else ModuleBytes(ms[0]) + AllModuleBytes(ms[1..])
  }

  function AllDependencyBytes(ds: seq<Dependency>): Text {
    if ds == [] then [] else DependencyBytes(ds[0]) + AllDependencyBytes(ds[1..])
  }

  function HeaderFields(x: Inputs): seq<Text> {
    [x.language, x.sourceProfile, x.engineImplementation, x.engineVersion, x.abiName, x.abiVersion, x.evaluatorPolicy,
     x.resourcePolicySha256, x.rootLogicalName, x.rootSourceSha256, x.explicitInputsSha256]
  }

  function Prefix(): Text {
    IDENTITY_HASH_DOMAIN + LittleEndian(IDENTITY_ENCODING_VERSION, 4)
  }

  function Stream(x: Inputs): Text {
    Prefix() + (Fields(HeaderFields(x))
    + (LittleEndian(|x.modules|, WORD) + (AllModuleBytes(x.modules)
    + (LittleEndian(|x.dependencies|, WORD) + AllDependencyBytes(x.dependencies)))))
  }

  // ---- decoding -----------------------------------------------------------------------

  function TakeNumber(k: nat, s: Text): Option<(nat, Text)> {
    if |s| < k then None else Some((FromLittleEndian(s[..k]), s[k..]))
  }

  function TakeField(s: Text): Option<(Text, Text)> {
    match TakeNumber(WORD, s)
    case None => None
    case Some((n, rest)) => if |rest| < n then None else Some((rest[..n], rest[n..]))
  }

  function TakeFields(count: nat, s: Text): Option<(seq<Text>, Text)> {
    if count == 0 then Some(([], s)) else
      match TakeField(s)
      case None => None
      case Some((value, rest)) =>
        match TakeFields(count - 1, rest)
        case None => None
        case Some((values, end)) => Some(([value] + values, end))
  }

  function TagClass(tag: byte): Option<ModuleClass> {
    if tag == 0 then Some(Root)
    else if tag == 1 then Some(Embedded)
    else if tag == 2 then Some(Relative)
    else if tag == 3 then Some(External)
    else None
  }

  function TakeModule(s: Text): Option<(PreparedModule, Text)> {
    match TakeField(s)
    case None => None
    case Some((identity, tagged)) =>
      if tagged == [] || TagClass(tagged[0]).None? then None else
        match TakeField(tagged[1..])
        case None => None
        case Some((logicalName, afterName)) =>
          match TakeField(afterName)
          case None => None
          case Some((sha256, rest)) =>
            Some((PreparedModule(identity, TagClass(tagged[0]).value, logicalName, sha256), rest))
  }

  function TakeDependency(s: Text): Option<(Dependency, Text)> {
    match TakeField(s)
    case None => None
    case Some((parent, afterParent)) =>
      match TakeField(afterParent)
      case None => None
      case Some((target, afterTarget)) =>
        match TakeField(afterTarget)
        case None => None
        case Some((alias, rest)) => Some((Dependency(parent, target, alias), rest))
  }

  function TakeModules(count: nat, s: Text): Option<(seq<PreparedModule>, Text)> {
    if count == 0 then Some(([], s)) else
      match TakeModule(s)
      case None => None
      case Some((m, rest)) =>
        match TakeModules(count - 1, rest)
        case None => None
        case Some((ms, end)) => Some(([m] + ms, end))
  }

  function TakeDependencies(count: nat, s: Text): Option<(seq<Dependency>, Text)> {
    if count == 0 then Some(([], s)) else
      match TakeDependency(s)
      case None => None
      case Some((d, rest)) =>
        match TakeDependencies(count - 1, rest)
        case None => None
        case Some((ds, end)) => Some(([d] + ds, end))
  }

  function Decode(s: Text): Option<Inputs> {
    if !(Prefix() <= s) then None else
      match TakeFields(11, s[|Prefix()|..])
      case None => None
      case Some((f, afterFields)) =>
        match TakeNumber(WORD, afterFields)
        case None => None
        case Some((moduleCount, afterCount)) =>
          match TakeModules(moduleCount, afterCount)
          case None => None
          case Some((ms, afterModules)) =>
            match TakeNumber(WORD, afterModules)
            case None => None
            case Some((dependencyCount, afterDependencyCount)) =>
              match TakeDependencies(dependencyCount, afterDependencyCount)
              case None => None
              case Some((ds, rest)) =>
                if rest != [] || |f| != 11 then None
                else Some(Inputs(f[0], f[1], f[2], f[3], f[4], f[5], f[6], f[7], f[8], f[9], f[10], ms, ds))
  }

  lemma Regroup3<T>(a: seq<T>, b: seq<T>, c: seq<T>, rest: seq<T>)
    ensures a + b + c + rest == a + (b + (c + rest))
    ensures rest + a + b + c == rest + (a + b + c)
  {
  }

  lemma Regroup4<T>(a: seq<T>, b: seq<T>, c: seq<T>, d: seq<T>, rest: seq<T>)
    ensures a + b + c + d + rest == a + (b + (c + (d + rest)))
    ensures rest + a + b + c + d == rest + (a + b + c + d)
  {
  }

  // ---- round trip ---------------------------------------------------------------------

  /** Every length fits in 64 bits. */
  ghost predicate Encodable(x: Inputs) {
    && Fit(HeaderFields(x))
    && |x.modules| < Pow256(WORD) && |x.dependencies| < Pow256(WORD)
    && (forall m :: m in x.modules ==> ModuleFits(m))
    && (forall d :: d in x.dependencies ==> DependencyFits(d))
  }

  ghost predicate ModuleFits(m: PreparedModule) {
    |m.identity| < Pow256(WORD) && |m.logicalName| < Pow256(WORD) && |m.sha256| < Pow256(WORD)
  }

  ghost predicate DependencyFits(d: Dependency) {
    |d.parent| < Pow256(WORD) && |d.target| < Pow256(WORD) && |d.alias| < Pow256(WORD)
  }

  ghost predicate Fit(values: seq<Text>) {
    forall i :: 0 <= i < |values| ==> |values[i]| < Pow256(WORD)
  }

  lemma TakeNumberInverse(n: nat, k: nat, rest: Text)
    requires n < Pow256(k)
    ensures TakeNumber(k, LittleEndian(n, k) + rest) == Some((n, rest))
  {
    LittleEndianInverse(n, k);
    var s := LittleEndian(n, k) + rest;
    assert s[..k] == LittleEndian(n, k) && s[k..] == rest;
  }

  lemma TakeFieldInverse(value: Text, rest: Text)
    requires |value| < Pow256(WORD)
    ensures TakeField(Field(value) + rest) == Some((value, rest))
  {
    assert Field(value) + rest == LittleEndian(|value|, WORD) + (value + rest);
    TakeNumberInverse(|value|, WORD, value + rest);
  }

  lemma {:induction false} TakeFieldsInverse(values: seq<Text>, rest: Text)
    requires Fit(values)
    ensures TakeFields(|values|, Fields(values) + rest) == Some((values, rest))
  {
    if values == [] {
      assert Fields(values) + rest == rest;
    } else {
      assert Fields(values) + rest == Field(values[0]) + (Fields(values[1..]) + rest);
      TakeFieldInverse(values[0], Fields(values[1..]) + rest);
      TakeFieldsInverse(values[1..], rest);
      assert values == [values[0]] + values[1..];
    }
  }

  lemma TagInverse(c: ModuleClass)
    ensures TagClass(ClassTag(c)) == Some(c)
  {
  }

  lemma TakeModuleSteps(s: Text, m: PreparedModule, named: Text, afterName: Text, rest: Text)
    requires TakeField(s) == Some((m.identity, [ClassTag(m.moduleClass)] + named))
    requires TakeField(named) == Some((m.logicalName, afterName))
    requires TakeField(afterName) == Some((m.sha256, rest))
    ensures TakeModule(s) == Some((m, rest))
  {
    TagInverse(m.moduleClass);
    assert ([ClassTag(m.moduleClass)] + named)[1..] == named;
  }

  lemma TakeModuleInverse(m: PreparedModule, rest: Text)
    requires ModuleFits(m)
    ensures TakeModule(ModuleBytes(m) + rest) == Some((m, rest))
  {
    var afterName := Field(m.sha256) + rest;
    var named := Field(m.logicalName) + afterName;
    Regroup4(Field(m.identity), [ClassTag(m.moduleClass)], Field(m.logicalName), Field(m.sha256), rest);
    TakeFieldInverse(m.identity, [ClassTag(m.moduleClass)] + named);
    TakeFieldInverse(m.logicalName, afterName);
    TakeFieldInverse(m.sha256, rest);
    TakeModuleSteps(ModuleBytes(m) + rest, m, named, afterName, rest);
  }

  lemma TakeDependencyInverse(d: Dependency, rest: Text)
    requires DependencyFits(d)
    ensures TakeDependency(DependencyBytes(d) + rest) == Some((d, rest))
  {
    var afterTarget := Field(d.alias) + rest;
    var afterParent := Field(d.target) + afterTarget;
    Regroup3(Field(d.parent), Field(d.target), Field(d.alias), rest);
    TakeFieldInverse(d.parent, afterParent);
    TakeFieldInverse(d.target, afterTarget);
    TakeFieldInverse(d.alias, rest);
  }

  lemma TakeFirstModule(ms: seq<PreparedModule>, rest: Text)
    requires ms != [] && ModuleFits(ms[0])
    ensures TakeModule(AllModuleBytes(ms) + rest) == Some((ms[0], AllModuleBytes(ms[1..]) + rest))
  {
    Associates(ModuleBytes(ms[0]), AllModuleBytes(ms[1..]), rest);
    TakeModuleInverse(ms[0], AllModuleBytes(ms[1..]) + rest);
  }

  lemma TakeModulesStep(s: Text, ms: seq<PreparedModule>, after: Text, rest: Text)
    requires ms != [] && TakeModule(s) == Some((ms[0], after)) && TakeModules(|ms| - 1, after) == Some((ms[1..], rest))
    ensures TakeModules(|ms|, s) == Some((ms, rest))
  {
    assert ms == [ms[0]] + ms[1..];
  }

  lemma {:induction false} TakeModulesInverse(ms: seq<PreparedModule>, rest: Text)
    requires forall m :: m in ms ==> ModuleFits(m)
    ensures TakeModules(|ms|, AllModuleBytes(ms) + rest) == Some((ms, rest))
  {
    if ms == [] {
      assert AllModuleBytes(ms) + rest == rest;
    } else {
      TakeFirstModule(ms, rest);
      TakeModulesInverse(ms[1..], rest);
      TakeModulesStep(AllModuleBytes(ms) + rest, ms, AllModuleBytes(ms[1..]) + rest, rest);
    }
  }

  lemma {:induction false} TakeDependenciesInverse(ds: seq<Dependency>, rest: Text)
    requires forall d :: d in ds ==> DependencyFits(d)
    ensures TakeDependencies(|ds|, AllDependencyBytes(ds) + rest) == Some((ds, rest))
  {
    if ds == [] {
      assert AllDependencyBytes(ds) + rest == rest;
    } else {
      Associates(DependencyBytes(ds[0]), AllDependencyBytes(ds[1..]), rest);
      TakeDependencyInverse(ds[0], AllDependencyBytes(ds[1..]) + rest);
      TakeDependenciesInverse(ds[1..], rest);
      assert ds == [ds[0]] + ds[1..];
    }
  }

  /** The stream is uniquely decodable. */
  lemma DecodeInvertsStream(x: Inputs)
    requires Encodable(x)
    ensures Decode(Stream(x)) == Some(x)
  {
    var tail4 := AllDependencyBytes(x.dependencies);
    var tail3 := LittleEndian(|x.dependencies|, WORD) + tail4;
    var tail2 := AllModuleBytes(x.modules) + tail3;
    var tail1 := LittleEndian(|x.modules|, WORD) + tail2;
    var body := Fields(HeaderFields(x)) + tail1;
    assert Stream(x) == Prefix() + body;
    assert Stream(x)[|Prefix()|..] == body;
    TakeFieldsInverse(HeaderFields(x), tail1);
    TakeNumberInverse(|x.modules|, WORD, tail2);
    TakeModulesInverse(x.modules, tail3);
    TakeNumberInverse(|x.dependencies|, WORD, tail4);
    TakeDependenciesInverse(x.dependencies, []);
    assert tail4 + [] == tail4;
  }

  lemma StreamIsInjective(x: Inputs, y: Inputs)
    requires Encodable(x) && Encodable(y) && Stream(x) == Stream(y)
    ensures x == y
  {
    DecodeInvertsStream(x);
    DecodeInvertsStream(y);
  }

  // ---- the running digest -------------------------------------------------------------

  lemma {:induction false} AllModuleBytesAppend(ms: seq<PreparedModule>, m: PreparedModule)
    ensures AllModuleBytes(ms + [m]) == AllModuleBytes(ms) + ModuleBytes(m)
  {
    if ms == [] {
      assert ms + [m] == [m];
    } else {
      assert (ms + [m])[1..] == ms[1..] + [m];
      AllModuleBytesAppend(ms[1..], m);
    }
  }

  lemma {:induction false} AllDependencyBytesAppend(ds: seq<Dependency>, d: Dependency)
    ensures AllDependencyBytes(ds + [d]) == AllDependencyBytes(ds) + DependencyBytes(d)
  {
    if ds == [] {
      assert ds + [d] == [d];
    } else {
      assert (ds + [d])[1..] == ds[1..] + [d];
      AllDependencyBytesAppend(ds[1..], d);
    }
  }

  method FeedHeader(start: Text, header: seq<Text>) returns (digest: Text)
    ensures digest == start + Fields(header)
  {
    digest := start;
    for i := 0 to |header|
      invariant digest + Fields(header[i..]) == start + Fields(header)
    {
      assert header[i..][1..] == header[i + 1..];
      assert digest + (Field(header[i]) + Fields(header[i + 1..])) == (digest + Field(header[i])) + Fields(header[i + 1..]);
      digest := digest + Field(header[i]);
    }
    assert header[|header|..] == [];
    assert digest + [] == digest;
  }

  method FeedModule(start: Text, m: PreparedModule) returns (digest: Text)
    ensures digest == start + ModuleBytes(m)
  {
    digest := start + Field(m.identity);
    digest := digest + [ClassTag(m.moduleClass)];
    digest := digest + Field(m.logicalName);
    digest := digest + Field(m.sha256);
    Regroup4(Field(m.identity), [ClassTag(m.moduleClass)], Field(m.logicalName), Field(m.sha256), start);
  }

  method FeedModules(start: Text, modules: seq<PreparedModule>) returns (digest: Text)
    ensures digest == start + LittleEndian(|modules|, WORD) + AllModuleBytes(modules)
  {
    var counted := start + LittleEndian(|modules|, WORD);
    digest := counted;
    for i := 0 to |modules|
      invariant digest == counted + AllModuleBytes(modules[..i])
    {
      digest := FeedModule(digest, modules[i]);
      assert modules[..i + 1] == modules[..i] + [modules[i]];
      AllModuleBytesAppend(modules[..i], modules[i]);
      Associates(counted, AllModuleBytes(modules[..i]), ModuleBytes(modules[i]));
    }
    assert modules[..|modules|] == modules;
  }

  method FeedDependency(start: Text, d: Dependency) returns (digest: Text)
    ensures digest == start + DependencyBytes(d)
  {
    digest := start + Field(d.parent);
    digest := digest + Field(d.target);
    digest := digest + Field(d.alias);
    Regroup3(Field(d.parent), Field(d.target), Field(d.alias), start);
  }

  method FeedDependencies(start: Text, dependencies: seq<Dependency>) returns (digest: Text)
    ensures digest == start + LittleEndian(|dependencies|, WORD) + AllDependencyBytes(dependencies)
  {
    var counted := start + LittleEndian(|dependencies|, WORD);
    digest := counted;
    for i := 0 to |dependencies|
      invariant digest == counted + AllDependencyBytes(dependencies[..i])
    {
      digest := FeedDependency(digest, dependencies[i]);
      assert dependencies[..i + 1] == dependencies[..i] + [dependencies[i]];
      AllDependencyBytesAppend(dependencies[..i], dependencies[i]);
      Associates(counted, AllDependencyBytes(dependencies[..i]), DependencyBytes(dependencies[i]));
    }
    assert dependencies[..|dependencies|] == dependencies;
  }

  /** `aggregate_sha256_checked` up to the final digest: what is fed to the hash, in order. */
  method AggregateStream(x: Inputs) returns (digest: Text)
    ensures digest == Stream(x)
  {
    digest := IDENTITY_HASH_DOMAIN;
    digest := digest + LittleEndian(IDENTITY_ENCODING_VERSION, 4);
    digest := FeedHeader(digest, HeaderFields(x));
    digest := FeedModules(digest, x.modules);
    digest := FeedDependencies(digest, x.dependencies);
    Regroup6(Prefix(), Fields(HeaderFields(x)), LittleEndian(|x.modules|, WORD), AllModuleBytes(x.modules),
             LittleEndian(|x.dependencies|, WORD), AllDependencyBytes(x.dependencies));
  }

  lemma Regroup6<T>(a: seq<T>, b: seq<T>, c: seq<T>, d: seq<T>, e: seq<T>, f: seq<T>)
    ensures a + b + c + d + e + f == a + (b + (c + (d + (e + f))))
  {
  }

  // ---- resource policy ----------------------------------------------------------------

  datatype ResourceLimits = ResourceLimits(
    maxSourceBytes: nat,
    maxExplicitInputBytes: nat,
    maxImportedFileBytes: nat,
    maxImports: nat,
    maxImportGraphBytes: nat,
    memoryBytes: nat,
    maxStackSize: nat,
    timeoutNanos: nat)

  function WordLimits(l: ResourceLimits): seq<nat> {
    [l.maxSourceBytes, l.maxExplicitInputBytes, l.maxImportedFileBytes, l.maxImports, l.maxImportGraphBytes,
     l.memoryBytes, l.maxStackSize]
  }

  function Words(values: seq<nat>): Text {
    if values == [] then [] else LittleEndian(values[0], WORD) + Words(values[1..])
  }

  /** Seven 64-bit words and a 128-bit nanosecond count. */
  function ResourcePolicyBytes(l: ResourceLimits): Text {
    Words(WordLimits(l)) + LittleEndian(l.timeoutNanos, 16)
  }

  lemma {:induction false} WordsInjective(a: seq<nat>, b: seq<nat>, s: Text, t: Text)
    requires |a| == |b| && Words(a) + s == Words(b) + t
    requires forall i :: 0 <= i < |a| ==> a[i] < Pow256(WORD) && b[i] < Pow256(WORD)
    ensures a == b && s == t
  {
    if a == [] {
      assert Words(a) + s == s && Words(b) + t == t;
    } else {
      assert Words(a) + s == LittleEndian(a[0], WORD) + (Words(a[1..]) + s);
      assert Words(b) + t == LittleEndian(b[0], WORD) + (Words(b[1..]) + t);
      TakeNumberInverse(a[0], WORD, Words(a[1..]) + s);
      TakeNumberInverse(b[0], WORD, Words(b[1..]) + t);
      WordsInjective(a[1..], b[1..], s, t);
      assert a == [a[0]] + a[1..] && b == [b[0]] + b[1..];
    }
  }

  ghost predicate MachineSized(l: ResourceLimits) {
    && (forall i :: 0 <= i < 7 ==> WordLimits(l)[i] < Pow256(WORD))
    && l.timeoutNanos < Pow256(16)
  }

  lemma ResourcePolicyIsInjective(k: ResourceLimits, l: ResourceLimits)
    requires MachineSized(k) && MachineSized(l) && ResourcePolicyBytes(k) == ResourcePolicyBytes(l)
    ensures k == l
  {
    var a, b := WordLimits(k), WordLimits(l);
    WordsInjective(a, b, LittleEndian(k.timeoutNanos, 16), LittleEndian(l.timeoutNanos, 16));
    LittleEndianInverse(k.timeoutNanos, 16);
    LittleEndianInverse(l.timeoutNanos, 16);
    assert a[0] == b[0] && a[1] == b[1] && a[2] == b[2] && a[3] == b[3] && a[4] == b[4] && a[5] == b[5] && a[6] == b[6];
  }
}

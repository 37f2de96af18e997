/** The regular expression a glob compiles to accepts the language of the glob. */
module GlobRegex {
  import opened Basics
  import opened Fnmatch

  // ---- emitting a regular expression --------------------------------------------------

  function Emit(f: Fragment): string {
    match f
    case MatchOne => "."
    case MatchAnyExceptForwardSlash => SEGMENT
    case MatchAny => ".*"
    case BackSlash => "\\"
    case Dot => "\\."
    case ForwardSlash => "\\/"
    case Text(text) => text
    case Group(name, parts) => "(?<" + name + ">" + EmitAll(parts) + ")"
  }

  /** Any run of characters but '/'. */
  const SEGMENT: string := "[^\\/]*"

  function EmitAll(fs: seq<Fragment>): string {
    if fs == [] then [] else Emit(fs[0]) + EmitAll(fs[1..])
  }

  /** Group names in the order they are collected: those inside a group before its own. */
  function Names(fs: seq<Fragment>): seq<string> {
    if fs == [] then [] else NamesOf(fs[0]) + Names(fs[1..])
  }

  function NamesOf(f: Fragment): seq<string> {
    match f
    case Group(name, parts) => Names(parts) + [name]
    case _ => []
  }

  // ---- reading the regular expression -------------------------------------------------

  datatype ReToken = Lit(c: char) | AnyOne | AnyRun | SegmentRun | Open(name: string) | Close

  /** ASCII characters that stand for themselves outside a class. */
  predicate PlainChar(c: char) {
    IsAscii(c) && c !in {'\\', '.', '+', '*', '?', '(', ')', '|', '[', ']', '{', '}', '^', '$', '/'}
  }

  predicate NameStart(c: char) {
    'A' <= c <= 'Z' || 'a' <= c <= 'z' || c == '_'
  }

  predicate ValidName(n: string) {
    n != [] && NameStart(n[0]) && forall c :: c in n ==> NameStart(c) || '0' <= c <= '9' || c in ".[]"
  }

  function Join(front: seq<ReToken>, r: Option<seq<ReToken>>): Option<seq<ReToken>> {
    if r.Some? then Some(front + r.value) else None
  }

  /** The part of regular-expression syntax the compiler uses; None for anything else. A repetition is
      only understood right after `.` or the segment class, so a group or literal is never repeated. */
  function Lex(r: string): Option<seq<ReToken>> {
    if r == [] then Some([])
    else if |r| > 1 && r[0] == '\\' && (r[1] == '/' || r[1] == '.') then Join([Lit(r[1])], Lex(r[2..]))
    else if |r| > 1 && r[0] == '.' && r[1] == '*' then Join([AnyRun], Lex(r[2..]))
    else if r[0] == '.' then Join([AnyOne], Lex(r[1..]))
    else if SEGMENT <= r then Join([SegmentRun], Lex(r[6..]))
    else if "(?<" <= r then
      (match Find(r[3..], '>')
       case None => None
       case Some(k) => Join([Open(r[3..][..k])], Lex(r[3..][k + 1..])))
    else if r[0] == ')' then Join([Close], Lex(r[1..]))
    else if PlainChar(r[0]) then Join([Lit(r[0])], Lex(r[1..]))
    else None
  }

  function OpenNames(ts: seq<ReToken>): seq<string> {
    if ts == [] then [] else (if ts[0].Open? then [ts[0].name] else []) + OpenNames(ts[1..])
  }

  /** Whole-path matching as the engine does it: a capture group is transparent, and `.` does not match
      a line feed. */
  ghost predicate EngineMatches(ts: seq<ReToken>, path: string) {
    if ts == [] then path == []
    else
      match ts[0]
      case Lit(c) => path != [] && path[0] == c && EngineMatches(ts[1..], path[1..])
      case AnyOne => path != [] && path[0] != '\n' && EngineMatches(ts[1..], path[1..])
      case AnyRun => exists k :: 0 <= k <= |path| && '\n' !in path[..k] && EngineMatches(ts[1..], path[k..])
      case SegmentRun => exists k :: 0 <= k <= |path| && '/' !in path[..k] && EngineMatches(ts[1..], path[k..])
      case Open(_) => EngineMatches(ts[1..], path)
      case Close => EngineMatches(ts[1..], path)
  }

  /** The same, were `.` to match every character. */
  ghost predicate Matches(ts: seq<ReToken>, path: string) {
    if ts == [] then path == []
    else
      match ts[0]
      case Lit(c) => path != [] && path[0] == c && Matches(ts[1..], path[1..])
      case AnyOne => path != [] && Matches(ts[1..], path[1..])
      case AnyRun => exists k :: 0 <= k <= |path| && Matches(ts[1..], path[k..])
      case SegmentRun => exists k :: 0 <= k <= |path| && '/' !in path[..k] && Matches(ts[1..], path[k..])
      case Open(_) => Matches(ts[1..], path)
      case Close => Matches(ts[1..], path)
  }

  /** The expression compiles, group names being valid and distinct, and accepts the whole path. */
  ghost predicate Accepts(regex: string, path: string) {
    && |regex| >= 2 && regex[0] == '^' && regex[|regex| - 1] == '$'
    && var tokens := Lex(regex[1..|regex| - 1]);
       && tokens.Some? && NoDup(OpenNames(tokens.value))
       && (forall n :: n in OpenNames(tokens.value) ==> ValidName(n))
       && EngineMatches(tokens.value, path)
  }

  // ---- the glob language --------------------------------------------------------------

  /** What a pattern means, read off the pattern itself: `?` is one character, `**` any text, `*` any
      text without '/', and a group means what its value means. */
  ghost predicate Glob(s: string, path: string)
    decreases |s|
  {
    if s == [] then path == []
    else if s[0] == '?' then path != [] && Glob(s[1..], path[1..])
    else if |s| > 1 && s[0] == '*' && s[1] == '*' then
      exists k :: 0 <= k <= |path| && Glob(s[2..], path[k..])
    else if s[0] == '*' then
      exists k :: 0 <= k <= |path| && '/' !in path[..k] && Glob(s[1..], path[k..])
    else if s[0] == '(' then
      GroupAt(s[1..]).Some? &&
      var g := GroupAt(s[1..]).value;
      exists k :: 0 <= k <= |path| && Glob(g.value, path[..k]) && Glob(s[1 + g.length..], path[k..])
    else path != [] && path[0] == s[0] && Glob(s[1..], path[1..])
  }

  // ---- the emitted text is the intended expression ------------------------------------

  function Literals(t: string): seq<ReToken> {
    if t == [] then [] else [Lit(t[0])] + Literals(t[1..])
  }

  function Tokens(f: Fragment): seq<ReToken> {
    match f
    case MatchOne => [AnyOne]
    case MatchAnyExceptForwardSlash => [SegmentRun]
    case MatchAny => [AnyRun]
    case BackSlash => [Lit('\\')]
    case Dot => [Lit('.')]
    case ForwardSlash => [Lit('/')]
    case Text(text) => Literals(text)
    case Group(name, parts) => [Open(name)] + TokensAll(parts) + [Close]
  }

  function TokensAll(fs: seq<Fragment>): seq<ReToken> {
    if fs == [] then [] else Tokens(fs[0]) + TokensAll(fs[1..])
  }

  /** Plain literals, no backslash, valid group names. */
  predicate Plain(f: Fragment) {
    match f
    case BackSlash => false
    case Text(text) => forall c :: c in text ==> PlainChar(c)
    case Group(name, parts) => ValidName(name) && AllPlain(parts)
    case _ => true
  }

  predicate AllPlain(fs: seq<Fragment>) {
    fs == [] || (Plain(fs[0]) && AllPlain(fs[1..]))
  }

  predicate Unstarred(r: string) {
    r == [] || r[0] != '*'
  }

  lemma EmittedUnstarred(fs: seq<Fragment>, r: string)
    requires AllPlain(fs) && Unstarred(r)
    ensures Unstarred(EmitAll(fs) + r)
  {
    if fs != [] {
      if fs[0].Text? {
        if fs[0].text == [] {
          EmittedUnstarred(fs[1..], r);
          assert EmitAll(fs) == EmitAll(fs[1..]);
        } else {
          assert fs[0].text[0] in fs[0].text;
        }
      }
    }
  }

  lemma JoinTwice(a: seq<ReToken>, b: seq<ReToken>, r: Option<seq<ReToken>>)
    ensures Join(a, Join(b, r)) == Join(a + b, r)
  {
    if r.Some? {
      assert a + (b + r.value) == (a + b) + r.value;
    }
  }

  lemma {:induction false} LexLiterals(t: string, r: string)
    requires forall c :: c in t ==> PlainChar(c)
    ensures Lex(t + r) == Join(Literals(t), Lex(r))
  {
    if t == [] {
      assert t + r == r;
      assert Lex(r).Some? ==> [] + Lex(r).value == Lex(r).value;
    } else {
      LexLiterals(t[1..], r);
      assert t[0] in t && (t + r)[1..] == t[1..] + r;
      JoinTwice([Lit(t[0])], Literals(t[1..]), Lex(r));
    }
  }

  /** Finding the end of a group name. */
  lemma {:induction false} FindName(name: string, r: string)
    requires forall c :: c in name ==> IsAscii(c) && c != '>'
    ensures Find(name + ">" + r, '>') == Some(|name|)
  {
    if name != [] {
      FindName(name[1..], r);
      assert name[0] in name && (name + ">" + r)[1..] == name[1..] + ">" + r;
    }
  }

  lemma LexOpen(name: string, r: string)
    requires ValidName(name)
    ensures Lex("(?<" + name + ">" + r) == Join([Open(name)], Lex(r))
  {
    var text := "(?<" + name + ">" + r;
    assert text[3..] == name + ">" + r;
    FindName(name, r);
    assert text[3..][..|name|] == name && text[3..][|name| + 1..] == r;
  }

  lemma LexSimple(f: Fragment, r: string)
    requires Plain(f) && !f.Group? && Unstarred(r)
    ensures Lex(Emit(f) + r) == Join(Tokens(f), Lex(r))
  {
    if f.Text? {
      LexLiterals(f.text, r);
    } else {
      assert (Emit(f) + r)[|Emit(f)|..] == r;
    }
  }

  /** Reading what was emitted gives the tokens of the fragments. */
  lemma {:induction false} LexEmitted(fs: seq<Fragment>, r: string)
    requires AllPlain(fs) && Unstarred(r)
    ensures Lex(EmitAll(fs) + r) == Join(TokensAll(fs), Lex(r))
    decreases fs
  {
    if fs == [] {
      assert EmitAll(fs) + r == r;
      assert Lex(r).Some? ==> [] + Lex(r).value == Lex(r).value;
    } else {
      var f, rest := fs[0], EmitAll(fs[1..]) + r;
      EmittedUnstarred(fs[1..], r);
      LexEmitted(fs[1..], r);
      assert EmitAll(fs) + r == Emit(f) + rest;
      if f.Group? {
        LexGroup(f, rest);
      } else {
        LexSimple(f, rest);
      }
      JoinTwice(Tokens(f), TokensAll(fs[1..]), Lex(r));
    }
  }

  lemma LexGroup(f: Fragment, r: string)
    requires f.Group? && Plain(f) && Unstarred(r)
    ensures Lex(Emit(f) + r) == Join(Tokens(f), Lex(r))
    decreases f, 0
  {
    var closed := ")" + r;
    assert Emit(f) + r == "(?<" + f.name + ">" + (EmitAll(f.parts) + closed);
    LexOpen(f.name, EmitAll(f.parts) + closed);
    LexEmitted(f.parts, closed);
    assert closed[1..] == r && Lex(closed) == Join([Close], Lex(r));
    JoinTwice(TokensAll(f.parts), [Close], Lex(r));
    JoinTwice([Open(f.name)], TokensAll(f.parts) + [Close], Lex(r));
    assert [Open(f.name)] + (TokensAll(f.parts) + [Close]) == Tokens(f);
  }

  // ---- matching -----------------------------------------------------------------------

  lemma {:induction false} MatchLiterals(t: string, ts: seq<ReToken>, path: string)
    ensures Matches(Literals(t) + ts, path) <==> t <= path && Matches(ts, path[|t|..])
  {
    if t == [] {
      assert Literals(t) + ts == ts && path[0..] == path;
    } else {
      assert Literals(t) + ts == [Lit(t[0])] + (Literals(t[1..]) + ts);
      if path != [] && path[0] == t[0] {
        MatchLiterals(t[1..], ts, path[1..]);
        assert t <= path <==> t[1..] <= path[1..];
        assert t <= path ==> path[1..][|t[1..]|..] == path[|t|..];
      }
    }
  }

  ghost predicate Splits(a: seq<ReToken>, b: seq<ReToken>, path: string, k: nat) {
    k <= |path| && Matches(a, path[..k]) && Matches(b, path[k..])
  }

  lemma {:induction false} SplitOf(a: seq<ReToken>, b: seq<ReToken>, path: string) returns (k: nat)
    requires Matches(a + b, path)
    ensures Splits(a, b, path, k)
  {
    if a == [] {
      assert a + b == b && path[0..] == path;
      k := 0;
    } else {
      var rest := a[1..];
      assert a + b == [a[0]] + (rest + b);
      var j := Step(a[0], rest + b, path);
      var i := SplitOf(rest, b, path[j..]);
      k := j + i;
      Regroup(path, j, i);
      TakesPrefix(a[0], path, j, k);
      StepBack(a, path[..k], j);
    }
  }

  lemma {:induction false} Concatenate(a: seq<ReToken>, b: seq<ReToken>, path: string, k: nat)
    requires Splits(a, b, path, k)
    ensures Matches(a + b, path)
  {
    if a == [] {
      assert a + b == b && path[0..] == path;
    } else {
      var rest := a[1..];
      assert a == [a[0]] + rest && a + b == [a[0]] + (rest + b);
      var j := Step(a[0], rest, path[..k]);
      Regroup(path, j, k - j);
      Concatenate(rest, b, path[j..], k - j);
      TakesPrefix(a[0], path, j, k);
      StepBack(a + b, path, j);
    }
  }

  /** A concatenation matches what splits into a match of either part. */
  lemma MatchConcat(a: seq<ReToken>, b: seq<ReToken>, path: string)
    ensures Matches(a + b, path) <==> exists k: nat :: Splits(a, b, path, k)
  {
    if Matches(a + b, path) {
      var k := SplitOf(a, b, path);
    }
    if k: nat :| Splits(a, b, path, k) {
      Concatenate(a, b, path, k);
    }
  }

  /** What a token takes does not depend on what follows. */
  lemma TakesPrefix(t: ReToken, path: string, j: nat, k: nat)
    requires j <= k <= |path|
    ensures Takes(t, path[..k], j) <==> Takes(t, path, j)
  {
    assert path[..k][..j] == path[..j];
  }

  lemma Regroup(path: string, j: nat, k: nat)
    requires j + k <= |path|
    ensures path[j..][..k] == path[..j + k][j..] && path[j..][k..] == path[j + k..] && path[..j + k][..j] == path[..j]
  {
  }

  /** The first j characters of the path are what the token takes. */
  predicate Takes(t: ReToken, path: string, j: nat)
    requires j <= |path|
  {
    match t
    case Lit(c) => j == 1 && path[0] == c
    case AnyOne => j == 1
    case AnyRun => true
    case SegmentRun => '/' !in path[..j]
    case Open(_) => j == 0
    case Close => j == 0
  }

  lemma Step(t: ReToken, ts: seq<ReToken>, path: string) returns (j: nat)
    requires Matches([t] + ts, path)
    ensures j <= |path| && Takes(t, path, j) && Matches(ts, path[j..])
  {
    assert ([t] + ts)[1..] == ts && path[0..] == path;
    match t
    case Lit(_) => j := 1;
    case AnyOne => j := 1;
    case AnyRun => j :| 0 <= j <= |path| && Matches(ts, path[j..]);
    case SegmentRun => j :| 0 <= j <= |path| && '/' !in path[..j] && Matches(ts, path[j..]);
    case Open(_) => j := 0;
    case Close => j := 0;
  }

  lemma StepBack(ts: seq<ReToken>, path: string, j: nat)
    requires ts != [] && j <= |path| && Takes(ts[0], path, j) && Matches(ts[1..], path[j..])
    ensures Matches(ts, path)
  {
    assert path[0..] == path;
  }

  // ---- line feeds ---------------------------------------------------------------------

  /** On a path without a line feed `.` matches every character. */
  lemma {:induction false} AgreeOnLine(ts: seq<ReToken>, path: string)
    requires '\n' !in path
    ensures EngineMatches(ts, path) <==> Matches(ts, path)
  {
    if ts != [] {
      forall k | 0 <= k <= |path|
        ensures EngineMatches(ts[1..], path[k..]) <==> Matches(ts[1..], path[k..])
      {
        AgreeOnLine(ts[1..], path[k..]);
      }
      assert path[0..] == path;
    }
  }

  /** Without `.` the engine matches every path as meant. */
  lemma {:induction false} AgreeWithoutDots(ts: seq<ReToken>, path: string)
    requires AnyOne !in ts && AnyRun !in ts
    ensures EngineMatches(ts, path) <==> Matches(ts, path)
  {
    if ts != [] {
      assert ts[0] in ts;
      forall k | 0 <= k <= |path|
        ensures EngineMatches(ts[1..], path[k..]) <==> Matches(ts[1..], path[k..])
      {
        AgreeWithoutDots(ts[1..], path[k..]);
      }
      assert path[0..] == path;
    }
  }

  /** The least a token takes: a line feed for `.`, nothing for a run. */
  function Least(t: ReToken): string {
    match t
    case Lit(c) => [c]
    case AnyOne => ['\n']
    case _ => []
  }

  function Word(ts: seq<ReToken>): string {
    if ts == [] then [] else Least(ts[0]) + Word(ts[1..])
  }

  lemma {:induction false} WordMatches(ts: seq<ReToken>)
    ensures Matches(ts, Word(ts))
  {
    if ts != [] {
      WordMatches(ts[1..]);
      assert Word(ts)[|Least(ts[0])|..] == Word(ts[1..]);
      TakesLeast(ts, Word(ts));
    }
  }

  lemma TakesLeast(ts: seq<ReToken>, path: string)
    requires ts != [] && Least(ts[0]) <= path && Matches(ts[1..], path[|Least(ts[0])|..])
    ensures Matches(ts, path)
  {
    StepBack(ts, path, |Least(ts[0])|);
  }

  /** Nothing shorter than the word matches. */
  lemma {:induction false} WordIsShortest(ts: seq<ReToken>, path: string)
    requires EngineMatches(ts, path)
    ensures |path| >= |Word(ts)|
  {
    if ts != [] {
      var j := EngineStep(ts, path);
      WordIsShortest(ts[1..], path[j..]);
    }
  }

  /** How much of the path the first token takes. */
  lemma EngineStep(ts: seq<ReToken>, path: string) returns (j: nat)
    requires ts != [] && EngineMatches(ts, path)
    ensures |Least(ts[0])| <= j <= |path| && EngineMatches(ts[1..], path[j..])
    ensures ts[0].AnyOne? ==> j == 1 && path[0] != '\n'
    ensures ts[0].Lit? ==> j == 1
    ensures ts[0].AnyRun? ==> '\n' !in path[..j]
    ensures ts[0].SegmentRun? ==> '/' !in path[..j]
    ensures ts[0].Open? || ts[0].Close? ==> j == 0
  {
    assert path[0..] == path;
    match ts[0]
    case Lit(_) => j := 1;
    case AnyOne => j := 1;
    case AnyRun => j :| 0 <= j <= |path| && '\n' !in path[..j] && EngineMatches(ts[1..], path[j..]);
    case SegmentRun => j :| 0 <= j <= |path| && '/' !in path[..j] && EngineMatches(ts[1..], path[j..]);
    case Open(_) => j := 0;
    case Close => j := 0;
  }

  /** The engine refuses the word of an expression with a single `.`. */
  lemma {:induction false} WordIsRefused(ts: seq<ReToken>)
    requires AnyOne in ts
    ensures !EngineMatches(ts, Word(ts))
  {
    var word, rest := Word(ts), Word(ts[1..]);
    assert word[|Least(ts[0])|..] == rest;
    if EngineMatches(ts, word) {
      var j := EngineStep(ts, word);
      WordIsShortest(ts[1..], word[j..]);
      assert j == |Least(ts[0])|;
      if !ts[0].AnyOne? {
        WordIsRefused(ts[1..]);
      }
    }
  }

  /** How often a line feed and a '/' stand next to each other. */
  function Breaks(path: string): nat {
    if |path| < 2 then 0
    else (if (path[0] == '\n' && path[1] == '/') || (path[0] == '/' && path[1] == '\n') then 1 else 0) + Breaks(path[1..])
  }

  lemma {:induction false} NoBreaks(path: string)
    requires '\n' !in path || '/' !in path || |path| < 2
    ensures Breaks(path) == 0
  {
    if |path| >= 2 {
      assert path[0] in path && path[1] in path;
      NoBreaks(path[1..]);
    }
  }

  /** Cutting a path loses at most one break, and a suffix has no more breaks than the path. */
  lemma {:induction false} BreaksSplit(path: string, j: nat)
    requires j <= |path|
    ensures Breaks(path[j..]) <= Breaks(path) <= Breaks(path[..j]) + 1 + Breaks(path[j..])
  {
    if j == 0 {
      assert path[0..] == path;
    } else if |path| >= 2 {
      BreaksSplit(path[1..], j - 1);
      assert path[1..][j - 1..] == path[j..] && path[..j][1..] == path[1..][..j - 1];
    } else {
      assert path[j..] == [] || j == 0;
    }
  }

  /** Each token takes a stretch without breaks, so an expression matches a bounded number of them. */
  lemma {:induction false} BreaksAreBounded(ts: seq<ReToken>, path: string)
    requires EngineMatches(ts, path)
    ensures Breaks(path) <= |ts|
  {
    if ts != [] {
      var j := EngineStep(ts, path);
      NoBreaks(path[..j]);
      BreaksSplit(path, j);
      BreaksAreBounded(ts[1..], path[j..]);
    }
  }

  function Zigzag(n: nat): string {
    if n == 0 then "/" else "\n/" + Zigzag(n - 1)
  }

  /** The word with its first `.*` stretched over n line feeds. */
  function Stretched(ts: seq<ReToken>, n: nat): string {
    if ts == [] then []
    else if ts[0].AnyRun? then Zigzag(n) + Word(ts[1..])
    else Least(ts[0]) + Stretched(ts[1..], n)
  }

  lemma {:induction false} StretchedMatches(ts: seq<ReToken>, n: nat)
    requires AnyRun in ts
    ensures Matches(ts, Stretched(ts, n)) && Breaks(Stretched(ts, n)) >= n
  {
    var path := Stretched(ts, n);
    if ts[0].AnyRun? {
      WordMatches(ts[1..]);
      assert path[|Zigzag(n)|..] == Word(ts[1..]);
      StepBack(ts, path, |Zigzag(n)|);
      ZigzagBreaks(n, Word(ts[1..]));
    } else {
      StretchedMatches(ts[1..], n);
      assert path[|Least(ts[0])|..] == Stretched(ts[1..], n);
      TakesLeast(ts, path);
      BreaksSplit(path, |Least(ts[0])|);
    }
  }

  lemma {:induction false} ZigzagBreaks(n: nat, rest: string)
    ensures Breaks(Zigzag(n) + rest) >= n
  {
    if n > 0 {
      ZigzagBreaks(n - 1, rest);
      var path := Zigzag(n) + rest;
      assert path[2..] == Zigzag(n - 1) + rest;
      BreaksSplit(path[1..], 1);
      assert path[1..][1..] == path[2..];
    }
  }

  ghost predicate EngineAgrees(ts: seq<ReToken>) {
    forall path :: EngineMatches(ts, path) <==> Matches(ts, path)
  }

  /** The engine matches every path as meant exactly when the expression holds no `.`. */
  lemma AgreesIffWithoutDots(ts: seq<ReToken>)
    ensures EngineAgrees(ts) <==> AnyOne !in ts && AnyRun !in ts
  {
    if AnyOne in ts {
      WordMatches(ts);
      WordIsRefused(ts);
    } else if AnyRun in ts {
      var path := Stretched(ts, |ts| + 1);
      StretchedMatches(ts, |ts| + 1);
      if EngineMatches(ts, path) {
        BreaksAreBounded(ts, path);
      }
      assert Matches(ts, path) && !EngineMatches(ts, path);
    } else {
      forall path: string {
        AgreeWithoutDots(ts, path);
      }
    }
  }

  // ---- meaning preserved --------------------------------------------------------------

  lemma {:induction false} TokensAppend(a: seq<Fragment>, b: seq<Fragment>)
    ensures TokensAll(a + b) == TokensAll(a) + TokensAll(b)
  {
    if a == [] {
      assert a + b == b;
    } else {
      TokensAppend(a[1..], b);
      assert (a + b)[1..] == a[1..] + b && (a + b)[0] == a[0];
      Associates(Tokens(a[0]), TokensAll(a[1..]), TokensAll(b));
    }
  }

  lemma TokensFlush(text: string, fs: seq<Fragment>)
    ensures TokensAll(Flush(text) + fs) == Literals(text) + TokensAll(fs)
  {
    TokensAppend(Flush(text), fs);
    if text != [] {
      assert [Text(text)][1..] == [];
      assert Literals(text) + [] == Literals(text);
    }
  }

  /** A single token means the same on both sides, if what follows does. */
  lemma TokenMeaning(s: string, ts: seq<ReToken>, path: string)
    requires s != [] && Token(s).Some? && s[0] != '\\'
    requires forall q :: Matches(ts, q) <==> Glob(s[Token(s).value.1..], q)
    ensures Matches(Tokens(Token(s).value.0) + ts, path) <==> Glob(s, path)
  {
    var f := Token(s).value.0;
    assert (Tokens(f) + ts)[1..] == ts;
  }

  lemma Transparent(t: ReToken, ts: seq<ReToken>, path: string)
    requires t.Open? || t.Close?
    ensures Matches([t] + ts, path) <==> Matches(ts, path)
  {
    assert ([t] + ts)[1..] == ts;
  }

  lemma MatchGroup(name: string, parts: seq<ReToken>, rest: seq<ReToken>, path: string)
    ensures Matches([Open(name)] + parts + [Close] + rest, path) <==> exists k: nat :: Splits(parts, rest, path, k)
  {
    var closed := [Close] + rest;
    assert [Open(name)] + parts + [Close] + rest == [Open(name)] + (parts + closed);
    Transparent(Open(name), parts + closed, path);
    MatchConcat(parts, closed, path);
    forall k: nat
      ensures Splits(parts, closed, path, k) <==> Splits(parts, rest, path, k)
    {
      if k <= |path| {
        Transparent(Close, rest, path[k..]);
      }
    }
  }

  ghost predicate GlobSplits(value: string, rest: string, path: string, k: nat) {
    k <= |path| && Glob(value, path[..k]) && Glob(rest, path[k..])
  }

  lemma GlobGroup(s: string, g: GroupText, rest: string, path: string)
    requires s != [] && s[0] == '(' && GroupAt(s[1..]) == Some(g) && rest == s[1 + g.length..]
    ensures Glob(s, path) <==> exists k: nat :: GlobSplits(g.value, rest, path, k)
  {
    if Glob(s, path) {
      var k :| 0 <= k <= |path| && Glob(g.value, path[..k]) && Glob(rest, path[k..]);
      assert GlobSplits(g.value, rest, path, k);
    } else if k: nat :| GlobSplits(g.value, rest, path, k) {
      GroupSplit(s, g, rest, path, k);
    }
  }

  lemma GroupSplit(s: string, g: GroupText, rest: string, path: string, k: nat)
    requires s != [] && s[0] == '(' && GroupAt(s[1..]) == Some(g) && rest == s[1 + g.length..]
    requires GlobSplits(g.value, rest, path, k)
    ensures Glob(s, path)
  {
    assert Glob(g.value, path[..k]) && Glob(rest, path[k..]);
  }

  lemma SameSplits(parts: seq<ReToken>, rest: seq<ReToken>, value: string, tail: string, path: string)
    requires forall q :: Matches(parts, q) <==> Glob(value, q)
    requires forall q :: Matches(rest, q) <==> Glob(tail, q)
    ensures (exists k: nat :: Splits(parts, rest, path, k)) <==> exists k: nat :: GlobSplits(value, tail, path, k)
  {
    if k: nat :| Splits(parts, rest, path, k) {
      assert GlobSplits(value, tail, path, k);
    }
    if k: nat :| GlobSplits(value, tail, path, k) {
      assert Splits(parts, rest, path, k);
    }
  }

  /** So does a group. */
  lemma GroupMeaning(s: string, g: GroupText, parts: seq<ReToken>, rest: seq<ReToken>, path: string)
    requires s != [] && s[0] == '(' && GroupAt(s[1..]) == Some(g)
    requires forall q :: Matches(parts, q) <==> Glob(g.value, q)
    requires forall q :: Matches(rest, q) <==> Glob(s[1 + g.length..], q)
    ensures Matches([Open(g.name)] + parts + [Close] + rest, path) <==> Glob(s, path)
  {
    var tail := s[1 + g.length..];
    MatchGroup(g.name, parts, rest, path);
    GlobGroup(s, g, tail, path);
    SameSplits(parts, rest, g.value, tail, path);
  }

  /** The tokens of a clean pattern match what the pattern means. */
  lemma {:induction false} MeaningOf(s: string, text: string, path: string)
    requires Parse(s, text).Ok? && Clean(s, text != []) && '\\' !in s
    ensures Matches(TokensAll(Parse(s, text).value), path) <==> text <= path && Glob(s, path[|text|..])
    decreases |s|
  {
    if s == [] {
      TokensFlush(text, []);
      MatchLiterals(text, [], path);
      assert Flush(text) + [] == Flush(text);
    } else if Token(s).Some? {
      MeaningOfToken(s, text, path);
    } else if s[0] == '(' {
      MeaningOfGroup(s, path);
      assert path[0..] == path;
    } else {
      MeaningOf(s[1..], text + [s[0]], path);
      assert text <= path && |path| > |text| ==> path[|text|..][1..] == path[|text| + 1..];
      assert text + [s[0]] <= path <==> text <= path && |path| > |text| && path[|text|] == s[0];
    }
  }

  lemma TokensOfToken(text: string, f: Fragment, rest: seq<Fragment>)
    ensures TokensAll(Flush(text) + [f] + rest) == Literals(text) + (Tokens(f) + TokensAll(rest))
  {
    assert Flush(text) + [f] + rest == Flush(text) + ([f] + rest);
    TokensFlush(text, [f] + rest);
    assert ([f] + rest)[1..] == rest;
  }

  lemma MeaningOfToken(s: string, text: string, path: string)
    requires s != [] && Token(s).Some? && Parse(s, text).Ok? && Clean(s, text != []) && '\\' !in s
    ensures Matches(TokensAll(Parse(s, text).value), path) <==> text <= path && Glob(s, path[|text|..])
    decreases |s|, 0
  {
    var f, n := Token(s).value.0, Token(s).value.1;
    var rest := Parse(s[n..], []).value;
    forall q: string
      ensures Matches(TokensAll(rest), q) <==> Glob(s[n..], q)
    {
      MeaningOf(s[n..], [], q);
      assert q[0..] == q;
    }
    TokensOfToken(text, f, rest);
    MatchLiterals(text, Tokens(f) + TokensAll(rest), path);
    if text <= path {
      assert s[0] in s;
      TokenMeaning(s, TokensAll(rest), path[|text|..]);
    }
  }

  lemma MeaningOfGroup(s: string, path: string)
    requires s != [] && s[0] == '(' && Parse(s, []).Ok? && Clean(s, false) && '\\' !in s
    ensures Matches(TokensAll(Parse(s, []).value), path) <==> Glob(s, path)
    decreases |s|, 0
  {
    var g := GroupAt(s[1..]).value;
    var parts, rest := Parse(g.value, []).value, Parse(s[1 + g.length..], []).value;
    GroupInPlace(s);
    forall q: string
      ensures Matches(TokensAll(parts), q) <==> Glob(g.value, q)
      ensures Matches(TokensAll(rest), q) <==> Glob(s[1 + g.length..], q)
    {
      MeaningOf(g.value, [], q);
      MeaningOf(s[1 + g.length..], [], q);
      assert q[0..] == q;
    }
    var group := Group(g.name, parts);
    assert ([group] + rest)[1..] == rest;
    GroupMeaning(s, g, TokensAll(parts), TokensAll(rest), path);
  }

  // ---- whole patterns -----------------------------------------------------------------

  function Compile(fs: seq<Fragment>): string {
    "^" + EmitAll(fs) + "$"
  }

  /** Every character is a plain literal, a single token but the backslash, or a parenthesis. */
  predicate Safe(s: string) {
    forall c :: c in s ==> PlainChar(c) || c in {'?', '*', '.', '/', '(', ')'}
  }

  lemma FlushIsPlain(text: string)
    requires forall c :: c in text ==> PlainChar(c)
    ensures AllPlain(Flush(text))
  {
    if text != [] {
      assert [Text(text)][1..] == [];
    }
  }

  lemma {:induction false} SafeIsPlain(s: string, text: string)
    requires Parse(s, text).Ok? && Safe(s) && (forall c :: c in text ==> PlainChar(c))
    requires forall n :: n in Names(Parse(s, text).value) ==> ValidName(n)
    ensures AllPlain(Parse(s, text).value)
    decreases |s|
  {
    if s == [] || !IsAscii(s[0]) {
      FlushIsPlain(text);
    } else if Token(s).Some? {
      var f, rest := Token(s).value.0, s[Token(s).value.1..];
      assert s[0] in s;
      TokenIsPlain(text, f, Parse(rest, []).value);
      SafeIsPlain(rest, []);
    } else if s[0] == '(' {
      SafeGroupIsPlain(s, text);
    } else if s[0] == ')' {
      SafeIsPlain(s[1..], text);
    } else {
      assert s[0] in s;
      SafeIsPlain(s[1..], text + [s[0]]);
    }
  }

  lemma SafeGroupIsPlain(s: string, text: string)
    requires s != [] && s[0] == '(' && Parse(s, text).Ok? && Safe(s) && (forall c :: c in text ==> PlainChar(c))
    requires forall n :: n in Names(Parse(s, text).value) ==> ValidName(n)
    ensures AllPlain(Parse(s, text).value)
    decreases |s|, 0
  {
    ParseGroup(s, text);
    GroupInPlace(s);
    var g := GroupAt(s[1..]).value;
    var tail := s[1 + g.length..];
    NamesOfGroup(g.name, Parse(g.value, []).value, Parse(tail, text).value);
    SafeIsPlain(g.value, []);
    SafeIsPlain(tail, text);
    GroupIsPlain(g.name, Parse(g.value, []).value, Parse(tail, text).value);
  }

  lemma TokenIsPlain(text: string, f: Fragment, rest: seq<Fragment>)
    requires !f.BackSlash? && !f.Text? && !f.Group? && (forall c :: c in text ==> PlainChar(c))
    ensures Names(Flush(text) + [f] + rest) == Names(rest)
    ensures AllPlain(Flush(text) + [f] + rest) <==> AllPlain(rest)
  {
    FlushIsPlain(text);
    PlainAppend(Flush(text) + [f], rest);
    PlainAppend(Flush(text), [f]);
    NamesAppend(Flush(text) + [f], rest);
    NoGroupNoName(Flush(text) + [f]);
    assert [f][1..] == [];
    assert [] + Names(rest) == Names(rest);
  }

  lemma GroupIsPlain(name: string, parts: seq<Fragment>, rest: seq<Fragment>)
    ensures Names([Group(name, parts)] + rest) == Names(parts) + [name] + Names(rest)
    ensures AllPlain([Group(name, parts)] + rest) <==> ValidName(name) && AllPlain(parts) && AllPlain(rest)
  {
    assert ([Group(name, parts)] + rest)[1..] == rest;
  }

  lemma NamesOfGroup(name: string, parts: seq<Fragment>, rest: seq<Fragment>)
    requires forall n :: n in Names([Group(name, parts)] + rest) ==> ValidName(n)
    ensures ValidName(name)
    ensures forall n :: n in Names(parts) || n in Names(rest) ==> ValidName(n)
  {
    GroupIsPlain(name, parts, rest);
    assert name in Names(parts) + [name] + Names(rest);
  }

  lemma {:induction false} NamesAppend(a: seq<Fragment>, b: seq<Fragment>)
    ensures Names(a + b) == Names(a) + Names(b)
  {
    if a == [] {
      assert a + b == b;
    } else {
      NamesAppend(a[1..], b);
      assert (a + b)[1..] == a[1..] + b && (a + b)[0] == a[0];
      Associates(NamesOf(a[0]), Names(a[1..]), Names(b));
    }
  }

  lemma {:induction false} PlainAppend(a: seq<Fragment>, b: seq<Fragment>)
    ensures AllPlain(a + b) <==> AllPlain(a) && AllPlain(b)
  {
    if a == [] {
      assert a + b == b;
    } else {
      PlainAppend(a[1..], b);
      assert (a + b)[1..] == a[1..] + b;
    }
  }

  lemma {:induction false} OpenNamesAppend(a: seq<ReToken>, b: seq<ReToken>)
    ensures OpenNames(a + b) == OpenNames(a) + OpenNames(b)
  {
    if a == [] {
      assert a + b == b;
    } else {
      OpenNamesAppend(a[1..], b);
      assert (a + b)[1..] == a[1..] + b && (a + b)[0] == a[0];
      Associates(if a[0].Open? then [a[0].name] else [], OpenNames(a[1..]), OpenNames(b));
    }
  }

  lemma {:induction false} LiteralsOpenNothing(t: string)
    ensures OpenNames(Literals(t)) == []
  {
    if t != [] {
      LiteralsOpenNothing(t[1..]);
      assert Literals(t)[1..] == Literals(t[1..]);
    }
  }

  lemma {:induction false} NoGroupNoName(fs: seq<Fragment>)
    requires forall f :: f in fs ==> !f.Group?
    ensures Names(fs) == []
  {
    if fs != [] {
      assert fs[0] in fs;
      NoGroupNoName(fs[1..]);
    }
  }

  /** The expression names the groups of the pattern, in order. */
  lemma {:induction false} OpenNamesAreNames(fs: seq<Fragment>)
    requires forall f :: f in fs && f.Group? ==> forall p :: p in f.parts ==> !p.Group?
    ensures OpenNames(TokensAll(fs)) == Names(fs)
  {
    if fs != [] {
      var f := fs[0];
      assert f in fs;
      OpenNamesAreNames(fs[1..]);
      OpenNamesAppend(Tokens(f), TokensAll(fs[1..]));
      match f
      case Text(text) => LiteralsOpenNothing(text);
      case Group(name, parts) =>
        OpenNamesAreNames(parts);
        NoGroupNoName(parts);
        OpenNamesAppend([Open(name)] + TokensAll(parts), [Close]);
        OpenNamesAppend([Open(name)], TokensAll(parts));
        assert [Open(name)][1..] == [] && [Close][1..] == [];
      case _ =>
        assert Tokens(f)[1..] == [];
    }
  }

  lemma LexCompiled(fs: seq<Fragment>)
    requires AllPlain(fs)
    ensures var regex := Compile(fs);
            && |regex| >= 2 && regex[0] == '^' && regex[|regex| - 1] == '$'
            && Lex(regex[1..|regex| - 1]) == Some(TokensAll(fs))
  {
    LexEmitted(fs, []);
    assert EmitAll(fs) + [] == EmitAll(fs) && TokensAll(fs) + [] == TokensAll(fs);
    var regex := Compile(fs);
    assert regex[1..|regex| - 1] == EmitAll(fs);
  }

  /** The engine accepts the emitted text: safe characters and valid, distinct group names. */
  ghost predicate Emittable(s: string) {
    && Parse(s, []).Ok? && Safe(s)
    && NoDup(Names(Parse(s, []).value)) && forall n :: n in Names(Parse(s, []).value) ==> ValidName(n)
  }

  /** A clean pattern besides. */
  ghost predicate Compilable(s: string) {
    Emittable(s) && Clean(s, false)
  }

  lemma AcceptsByTokens(s: string, path: string)
    requires Emittable(s)
    ensures Accepts(Compile(Parse(s, []).value), path) <==> EngineMatches(TokensAll(Parse(s, []).value), path)
  {
    var fs := Parse(s, []).value;
    SafeIsPlain(s, []);
    LexCompiled(fs);
    GroupsAreFlat(s, []);
    OpenNamesAreNames(fs);
  }

  /** Compilation preserves meaning: on a path without a line feed the expression accepts exactly what
      the pattern means. */
  lemma CompilationPreservesMeaning(s: string, path: string)
    requires Compilable(s) && '\n' !in path
    ensures Accepts(Compile(Parse(s, []).value), path) <==> Glob(s, path)
  {
    AcceptsByTokens(s, path);
    AgreeOnLine(TokensAll(Parse(s, []).value), path);
    SafeMeaning(s, path);
  }

  lemma SafeMeaning(s: string, path: string)
    requires Parse(s, []).Ok? && Clean(s, false) && Safe(s)
    ensures Matches(TokensAll(Parse(s, []).value), path) <==> Glob(s, path)
  {
    MeaningOf(s, [], path);
    assert path[0..] == path;
  }

  /** `**` stands somewhere in the pattern. */
  ghost predicate Doubled(s: string) {
    exists i :: 0 <= i && StarsAt(s, i)
  }

  predicate StarsAt(s: string, i: nat) {
    i + 1 < |s| && s[i] == '*' && s[i + 1] == '*'
  }

  lemma DoubledAround(a: string, c: char, b: string)
    requires c != '*'
    ensures Doubled(a + [c] + b) <==> Doubled(a) || Doubled(b)
  {
    var s := a + [c] + b;
    if i: nat :| StarsAt(s, i) {
      if i < |a| {
        assert StarsAt(a, i);
      } else {
        assert StarsAt(b, i - |a| - 1);
      }
    }
    if i: nat :| StarsAt(a, i) {
      assert StarsAt(s, i);
    }
    if i: nat :| StarsAt(b, i) {
      assert StarsAt(s, i + |a| + 1);
    }
  }

  lemma DoubledTail(s: string)
    requires s != [] && !StarsAt(s, 0)
    ensures Doubled(s) <==> Doubled(s[1..])
  {
    if i: nat :| StarsAt(s, i) {
      assert StarsAt(s[1..], i - 1);
    }
    if i: nat :| StarsAt(s[1..], i) {
      assert StarsAt(s, i + 1);
    }
  }

  lemma ValidNameHasNoStar(name: string)
    requires ValidName(name)
    ensures '?' !in name && !Doubled(name)
  {
    forall i: nat
      ensures !StarsAt(name, i)
    {
      assert i + 1 < |name| ==> name[i] in name;
    }
  }

  lemma {:induction false} LiteralsHaveNoDot(t: string)
    ensures AnyOne !in Literals(t) && AnyRun !in Literals(t)
  {
    if t != [] {
      LiteralsHaveNoDot(t[1..]);
    }
  }

  /** The expression holds a `.` for every `?` of the pattern and a `.*` for every `**`. */
  lemma {:induction false} DotsOfPattern(s: string, text: string)
    requires Parse(s, text).Ok? && Clean(s, text != []) && '\\' !in s
    requires forall n :: n in Names(Parse(s, text).value) ==> ValidName(n)
    ensures var ts := TokensAll(Parse(s, text).value);
            (AnyOne in ts <==> '?' in s) && (AnyRun in ts <==> Doubled(s))
    decreases |s|
  {
    if s == [] {
      TokensFlush(text, []);
      LiteralsHaveNoDot(text);
      assert Flush(text) + [] == Flush(text);
    } else if Token(s).Some? {
      DotsOfToken(s, text);
    } else if s[0] == '(' {
      DotsOfGroup(s);
    } else {
      DotsOfPattern(s[1..], text + [s[0]]);
      DoubledTail(s);
    }
  }

  lemma DotsOfToken(s: string, text: string)
    requires s != [] && Token(s).Some? && Parse(s, text).Ok? && Clean(s, text != []) && '\\' !in s
    requires forall n :: n in Names(Parse(s, text).value) ==> ValidName(n)
    ensures var ts := TokensAll(Parse(s, text).value);
            (AnyOne in ts <==> '?' in s) && (AnyRun in ts <==> Doubled(s))
    decreases |s|, 0
  {
    var f, n := Token(s).value.0, Token(s).value.1;
    var rest := Parse(s[n..], []).value;
    ParseToken(s, text);
    NamesAppend(Flush(text) + [f], rest);
    DotsOfPattern(s[n..], []);
    DotsAfterToken(text, f, rest);
    DotsOfFirst(s);
  }

  lemma DotsAfterToken(text: string, f: Fragment, rest: seq<Fragment>)
    ensures forall t :: t == AnyOne || t == AnyRun ==>
              (t in TokensAll(Flush(text) + [f] + rest) <==> t in Tokens(f) || t in TokensAll(rest))
  {
    TokensOfToken(text, f, rest);
    LiteralsHaveNoDot(text);
  }

  lemma DotsOfFirst(s: string)
    requires s != [] && Token(s).Some?
    ensures var f, tail := Token(s).value.0, s[Token(s).value.1..];
            && (AnyOne in Tokens(f) || '?' in tail <==> '?' in s)
            && (AnyRun in Tokens(f) || Doubled(tail) <==> Doubled(s))
  {
    var n := Token(s).value.1;
    assert s[0] in s && s == s[..n] + s[n..];
    if n == 2 {
      assert StarsAt(s, 0);
    } else {
      DoubledTail(s);
    }
  }

  lemma DotsOfGroup(s: string)
    requires s != [] && s[0] == '(' && Parse(s, []).Ok? && Clean(s, false) && '\\' !in s
    requires forall n :: n in Names(Parse(s, []).value) ==> ValidName(n)
    ensures var ts := TokensAll(Parse(s, []).value);
            (AnyOne in ts <==> '?' in s) && (AnyRun in ts <==> Doubled(s))
    decreases |s|, 0
  {
    var g, tail := InsideGroup(s);
    DotsOfPattern(g.value, []);
    DotsOfPattern(tail, []);
    DotsTogether(s, g.name, g.value, tail, Parse(g.value, []).value, Parse(tail, []).value);
  }

  lemma InsideGroup(s: string) returns (g: GroupText, tail: string)
    requires s != [] && s[0] == '(' && Parse(s, []).Ok? && Clean(s, false) && '\\' !in s
    requires forall n :: n in Names(Parse(s, []).value) ==> ValidName(n)
    ensures s == "(" + g.name + ":" + g.value + ")" + tail && ValidName(g.name)
    ensures Parse(g.value, []).Ok? && Clean(g.value, false) && '\\' !in g.value
    ensures Parse(tail, []).Ok? && Clean(tail, false) && '\\' !in tail
    ensures Parse(s, []) == Ok([Group(g.name, Parse(g.value, []).value)] + Parse(tail, []).value)
    ensures forall n :: n in Names(Parse(g.value, []).value) || n in Names(Parse(tail, []).value) ==> ValidName(n)
  {
    ParseGroup(s, []);
    GroupInPlace(s);
    g := GroupAt(s[1..]).value;
    tail := s[1 + g.length..];
    NamesOfGroup(g.name, Parse(g.value, []).value, Parse(tail, []).value);
  }

  lemma DotsTogether(s: string, name: string, value: string, tail: string, parts: seq<Fragment>, rest: seq<Fragment>)
    requires s == "(" + name + ":" + value + ")" + tail && ValidName(name)
    requires (AnyOne in TokensAll(parts) <==> '?' in value) && (AnyRun in TokensAll(parts) <==> Doubled(value))
    requires (AnyOne in TokensAll(rest) <==> '?' in tail) && (AnyRun in TokensAll(rest) <==> Doubled(tail))
    ensures var ts := TokensAll([Group(name, parts)] + rest);
            (AnyOne in ts <==> '?' in s) && (AnyRun in ts <==> Doubled(s))
  {
    ValidNameHasNoStar(name);
    TokensOfGroup(name, parts, rest);
    DoubledInGroup(s, name, value, tail);
  }

  lemma TokensOfGroup(name: string, parts: seq<Fragment>, rest: seq<Fragment>)
    ensures TokensAll([Group(name, parts)] + rest) == [Open(name)] + TokensAll(parts) + [Close] + TokensAll(rest)
    ensures forall t :: t in TokensAll([Group(name, parts)] + rest) <==>
                        t == Open(name) || t == Close || t in TokensAll(parts) || t in TokensAll(rest)
  {
    assert ([Group(name, parts)] + rest)[1..] == rest;
  }

  lemma DoubledInGroup(s: string, name: string, value: string, tail: string)
    requires s == "(" + name + ":" + value + ")" + tail && '?' !in name && !Doubled(name)
    ensures Doubled(s) <==> Doubled(value) || Doubled(tail)
    ensures '?' in s <==> '?' in value || '?' in tail
  {
    assert s == (("" + ['('] + name) + [':'] + value) + [')'] + tail;
    DoubledAround("", '(', name);
    DoubledAround("" + ['('] + name, ':', value);
    DoubledAround(("" + ['('] + name) + [':'] + value, ')', tail);
    assert forall i: nat :: !StarsAt("", i);
  }

  /** The expression accepts exactly the paths the pattern means. */
  ghost predicate SameLanguage(regex: string, s: string) {
    forall path :: Accepts(regex, path) <==> Glob(s, path)
  }

  /** Compilation preserves the meaning on every path, line feeds included, exactly when the pattern
      holds neither `?` nor `**`. */
  lemma PreservesEveryPathIff(s: string)
    requires Compilable(s)
    ensures SameLanguage(Compile(Parse(s, []).value), s) <==> '?' !in s && !Doubled(s)
  {
    var ts, regex := TokensAll(Parse(s, []).value), Compile(Parse(s, []).value);
    AgreesIffWithoutDots(ts);
    DotsOfPattern(s, []);
    if EngineAgrees(ts) {
      forall path ensures Accepts(regex, path) <==> Glob(s, path) {
        AcceptsByTokens(s, path);
        SafeMeaning(s, path);
      }
    } else {
      var path :| EngineMatches(ts, path) != Matches(ts, path);
      AcceptsByTokens(s, path);
      SafeMeaning(s, path);
      assert Accepts(regex, path) != Glob(s, path);
    }
  }

  /** One character that `?` means and its expression refuses. */
  lemma LineFeedIsRefused()
    ensures Compilable("?") && Glob("?", "\n") && !Accepts(Compile(Parse("?", []).value), "\n")
  {
    assert "?"[1..] == [];
    var fs := Parse("?", []).value;
    assert fs == [MatchOne] && fs[1..] == [];
    AcceptsByTokens("?", "\n");
    assert TokensAll(fs) == [AnyOne];
  }

  datatype Pattern = Pattern(pattern: string, regex: string, groups: set<string>)

  lemma EmittedFrom(fs: seq<Fragment>, i: nat, text: string, names: seq<string>)
    requires i < |fs|
    ensures text + EmitAll(fs[i..]) == text + Emit(fs[i]) + EmitAll(fs[i + 1..])
    ensures names + Names(fs[i..]) == names + NamesOf(fs[i]) + Names(fs[i + 1..])
  {
    var rest := fs[i..];
    assert rest[1..] == fs[i + 1..];
  }

  /** `from_str`, up to the regular-expression engine. */
  method PatternFromString(s: string) returns (r: Result<Pattern, Error>)
    ensures r.Err? <==> Parse(s, []).Err?
    ensures r.Ok? ==> r.value.pattern == s && r.value.regex == Compile(Parse(s, []).value)
    ensures r.Ok? ==> forall n :: n in r.value.groups <==> n in Names(Parse(s, []).value)
  {
    var fragments := FragmentsFromString(s);
    if fragments.Err? { return Err(fragments.error); }
    var fs := fragments.value;
    var compiled: string, groups: set<string> := [], {};
    for i := 0 to |fs|
      invariant EmitAll(fs) == compiled + EmitAll(fs[i..])
      invariant forall n :: n in Names(fs) <==> n in groups || n in Names(fs[i..])
    {
      var text, names := FragmentToRegex(fs[i]);
      EmittedFrom(fs, i, compiled, []);
      compiled := compiled + text;
      groups := groups + set n | n in names;
    }
    assert compiled + [] == compiled;
    return Ok(Pattern(s, "^" + compiled + "$", groups));
  }

  /** The text of a fragment and the names inside it. */
  method FragmentToRegex(f: Fragment) returns (text: string, groups: seq<string>)
    ensures text == Emit(f)
    ensures groups == NamesOf(f)
    decreases f
  {
    groups := [];
    match f
    case MatchOne => text := ".";
    case MatchAnyExceptForwardSlash => text := SEGMENT;
    case MatchAny => text := ".*";
    case BackSlash => text := "\\";
    case Dot => text := "\\.";
    case ForwardSlash => text := "\\/";
    case Text(t) => text := t;
    case Group(name, parts) =>
      var elements: string;
      elements, groups := ElementsToRegex(parts);
      groups := groups + [name];
      text := "(?<" + name + ">" + elements + ")";
  }

  method ElementsToRegex(parts: seq<Fragment>) returns (elements: string, groups: seq<string>)
    ensures elements == EmitAll(parts) && groups == Names(parts)
    decreases parts
  {
    elements, groups := [], [];
    for i := 0 to |parts|
      invariant EmitAll(parts) == elements + EmitAll(parts[i..])
      invariant Names(parts) == groups + Names(parts[i..])
    {
      var s, g := FragmentToRegex(parts[i]);
      EmittedFrom(parts, i, elements, groups);
      elements := elements + s;
      groups := groups + g;
    }
    assert elements + [] == elements && groups + [] == groups;
  }
}

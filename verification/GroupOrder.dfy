/** A group is emitted before the text in front of it. When that matters, and when it does not. */
module GroupOrder {
  import opened Basics
  import opened Fnmatch
  import opened GlobRegex

  // ---- text in front of a last group --------------------------------------------------

  lemma TokensOfTextBeforeGroup(t: string, inner: string, g: GroupText, parts: seq<Fragment>)
    requires (forall c :: c in t ==> PlainChar(c)) && GroupAt(inner) == Some(g) && g.length == |inner|
    requires Parse(g.value, []) == Ok(parts)
    ensures Parse(t + ("(" + inner), []) == Ok([Group(g.name, parts)] + Flush(t))
    ensures TokensAll(Parse(t + ("(" + inner), []).value) == [Open(g.name)] + TokensAll(parts) + [Close] + Literals(t)
  {
    LastGroup("(" + inner, t, g);
    PlainTextIsPending(t, "(" + inner, []);
    assert [] + t == t;
    TokensOfGroup(g.name, parts, Flush(t));
    TokensFlush(t, []);
    assert Flush(t) + [] == Flush(t) && Literals(t) + [] == Literals(t);
  }

  lemma LastGroup(s: string, text: string, g: GroupText)
    requires s != [] && s[0] == '(' && GroupAt(s[1..]) == Some(g) && g.length == |s| - 1 && Parse(g.value, []).Ok?
    ensures Parse(s, text) == Ok([Group(g.name, Parse(g.value, []).value)] + Flush(text))
  {
    assert s[1 + g.length..] == [];
  }

  lemma {:induction false} PlainTextIsPending(t: string, r: string, text: string)
    requires forall c :: c in t ==> PlainChar(c)
    ensures Parse(t + r, text) == Parse(r, text + t)
  {
    if t == [] {
      assert t + r == r && text + t == text;
    } else {
      assert t[0] in t && (t + r)[1..] == t[1..] + r;
      PlainTextIsPending(t[1..], r, text + [t[0]]);
      assert text + [t[0]] + t[1..] == text + t;
    }
  }

  /** Text just before a group is emitted after it: such a pattern accepts the group's language first. */
  lemma TextBeforeGroup(t: string, inner: string, g: GroupText, path: string)
    requires (forall c :: c in t ==> PlainChar(c)) && GroupAt(inner) == Some(g) && g.length == |inner|
    requires Parse(g.value, []).Ok? && Clean(g.value, false) && '\\' !in g.value
    ensures Parse(t + ("(" + inner), []).Ok?
    ensures Matches(TokensAll(Parse(t + ("(" + inner), []).value), path) <==>
              exists k: nat :: k <= |path| && Glob(g.value, path[..k]) && path[k..] == t
  {
    var parts := Parse(g.value, []).value;
    TokensOfTextBeforeGroup(t, inner, g, parts);
    MatchGroup(g.name, TokensAll(parts), Literals(t), path);
    forall k: nat
      ensures Splits(TokensAll(parts), Literals(t), path, k) <==> k <= |path| && Glob(g.value, path[..k]) && path[k..] == t
    {
      if k <= |path| {
        MeaningOf(g.value, [], path[..k]);
        assert path[..k][0..] == path[..k];
        MatchLiterals(t, [], path[k..]);
        assert Literals(t) + [] == Literals(t);
      }
    }
  }

  lemma {:induction false} GlobText(t: string, r: string, path: string)
    requires forall c :: c in t ==> PlainChar(c)
    ensures Glob(t + r, path) <==> t <= path && Glob(r, path[|t|..])
  {
    if t == [] {
      assert t + r == r && path[0..] == path;
    } else {
      assert t[0] in t && (t + r)[1..] == t[1..] + r;
      if path != [] {
        GlobText(t[1..], r, path[1..]);
        assert t <= path ==> path[1..][|t| - 1..] == path[|t|..];
        assert t <= path <==> t[0] == path[0] && t[1..] <= path[1..];
      }
    }
  }

  /** What such a pattern means: the text, then the group's language. */
  lemma MeaningOfTextBeforeGroup(t: string, inner: string, g: GroupText, path: string)
    requires (forall c :: c in t ==> PlainChar(c)) && GroupAt(inner) == Some(g) && g.length == |inner|
    ensures Glob(t + ("(" + inner), path) <==> t <= path && Glob(g.value, path[|t|..])
  {
    var s := "(" + inner;
    assert s[1..] == inner && s[1 + g.length..] == [];
    GlobText(t, s, path);
    if t <= path {
      var tail := path[|t|..];
      GlobGroup(s, g, [], tail);
      assert tail[..|tail|] == tail && tail[|tail|..] == [];
      assert GlobSplits(g.value, [], tail, |tail|) <==> Glob(g.value, tail);
      assert forall k: nat :: GlobSplits(g.value, [], tail, k) ==> k == |tail|;
    }
  }

  // ---- values without groups ----------------------------------------------------------

  lemma {:induction false} UnclosedIsNoGroup(v: string, text: string)
    requires Parse(v, text).Ok? && ')' !in v && forall c :: c in v ==> IsAscii(c)
    ensures '(' !in v
    decreases |v|
  {
    if v != [] {
      assert v[0] in v;
      if Token(v).Some? {
        var n := Token(v).value.1;
        UnclosedIsNoGroup(v[n..], []);
        assert v == v[..n] + v[n..];
      } else if v[0] == '(' {
        ParseGroup(v, text);
        GroupInPlace(v);
      } else {
        UnclosedIsNoGroup(v[1..], text + [v[0]]);
        assert v == [v[0]] + v[1..];
      }
    }
  }

  lemma {:induction false} CleanWithoutGroups(v: string, pending: bool)
    requires '(' !in v && ')' !in v && forall c :: c in v ==> IsAscii(c)
    ensures Clean(v, pending)
    decreases |v|
  {
    if v != [] {
      assert v[0] in v;
      if Token(v).Some? {
        CleanWithoutGroups(v[Token(v).value.1..], false);
      } else {
        CleanWithoutGroups(v[1..], true);
      }
    }
  }

  /** What the engine demands of the pattern makes the group's value a clean pattern without groups. */
  lemma ValueIsClean(t: string, inner: string, g: GroupText)
    requires (forall c :: c in t ==> PlainChar(c)) && GroupAt(inner) == Some(g) && g.length == |inner|
    requires Emittable(t + ("(" + inner))
    ensures Parse(g.value, []).Ok? && Clean(g.value, false) && '(' !in g.value && '\\' !in g.value
    ensures forall c :: c in g.value ==> IsAscii(c) && c in inner
    ensures "(" + inner == "(" + g.name + ":" + g.value + ")"
  {
    var group := "(" + inner;
    assert group[1..] == inner && group[1 + g.length..] == [];
    PlainTextIsPending(t, group, []);
    ParseGroup(group, [] + t);
    GroupInPlace(group);
    assert forall c :: c in g.value ==> c in inner;
    assert forall c :: c in inner ==> c in t + ("(" + inner);
    UnclosedIsNoGroup(g.value, []);
    CleanWithoutGroups(g.value, false);
  }

  predicate Wild(v: string) {
    '?' in v || '*' in v
  }

  lemma {:induction false} LiteralMeansItself(v: string, path: string)
    requires !Wild(v) && '(' !in v
    ensures Glob(v, path) <==> path == v
  {
    if v != [] && path != [] {
      LiteralMeansItself(v[1..], path[1..]);
      assert v == [v[0]] + v[1..] && path == [path[0]] + path[1..];
    }
  }

  // ---- a path that tells the two orders apart -----------------------------------------

  /** The text behind the last wildcard; everything if there is none. */
  function Tail(v: string): string {
    if v == [] then []
    else if Wild(v[1..]) then Tail(v[1..])
    else if v[0] == '?' || v[0] == '*' then v[1..]
    else v
  }

  lemma TailWithoutWild(v: string)
    ensures !Wild(v) ==> Tail(v) == v
    ensures v != [] && (v[0] == '?' || v[0] == '*') ==> Tail(v) == Tail(v[1..])
    ensures v != [] && Wild(v[1..]) ==> Tail(v) == Tail(v[1..])
  {
    if v != [] {
      assert v == [v[0]] + v[1..];
      if !Wild(v[1..]) {
        TailOfLiteral(v[1..]);
      }
    }
  }

  lemma TailOfLiteral(v: string)
    requires !Wild(v)
    ensures Tail(v) == v
  {
    if v != [] {
      assert v == [v[0]] + v[1..] && v[0] in v;
    }
  }

  ghost predicate EndsWith(path: string, tail: string) {
    |tail| <= |path| && path[|path| - |tail|..] == tail
  }

  lemma EndsWithMore(path: string, k: nat, tail: string)
    requires k <= |path| && EndsWith(path[k..], tail)
    ensures EndsWith(path, tail)
  {
    assert path[k..][|path| - k - |tail|..] == path[|path| - |tail|..];
  }

  /** Whatever a pattern matches ends with its tail. */
  lemma {:induction false} MatchEndsWithTail(v: string, path: string)
    requires Glob(v, path) && '(' !in v
    ensures EndsWith(path, Tail(v))
    decreases |v|
  {
    TailWithoutWild(v);
    if !Wild(v) {
      LiteralMeansItself(v, path);
      assert path[0..] == path;
    } else {
      var n, k := MatchStep(v, path);
      MatchEndsWithTail(v[n..], path[k..]);
      EndsWithMore(path, k, Tail(v[n..]));
      if n == 2 {
        TailWithoutWild(v[1..]);
        assert v[1..][1..] == v[2..];
      } else if v[0] != '?' && v[0] != '*' {
        assert v == [v[0]] + v[1..];
      }
    }
  }

  /** A match of a pattern is a match of its first character or token, then one of the rest. */
  lemma MatchStep(v: string, path: string) returns (n: nat, k: nat)
    requires Glob(v, path) && '(' !in v && v != []
    ensures 0 < n <= |v| && k <= |path| && Glob(v[n..], path[k..])
    ensures n == 1 || (n == 2 && v[0] == '*' && v[1] == '*')
  {
    if v[0] == '?' {
      n, k := 1, 1;
    } else if |v| > 1 && v[0] == '*' && v[1] == '*' {
      n := 2;
      k :| 0 <= k <= |path| && Glob(v[2..], path[k..]);
    } else if v[0] == '*' {
      n := 1;
      k :| 0 <= k <= |path| && '/' !in path[..k] && Glob(v[1..], path[k..]);
    } else {
      assert v[0] in v;
      n, k := 1, 1;
    }
  }

  /** Every wildcard filled with the same character. */
  function Filled(v: string, c: char): string {
    if v == [] then []
    else if v[0] == '*' && |v| > 1 && v[1] == '*' then [c] + Filled(v[2..], c)
    else if v[0] == '?' || v[0] == '*' then [c] + Filled(v[1..], c)
    else [v[0]] + Filled(v[1..], c)
  }

  lemma {:induction false} FilledMatches(v: string, c: char)
    requires '(' !in v && c != '/'
    ensures Glob(v, Filled(v, c))
  {
    if v != [] {
      assert v[0] in v;
      var n := if v[0] == '*' && |v| > 1 && v[1] == '*' then 2 else 1;
      var path, rest := Filled(v, c), Filled(v[n..], c);
      FilledMatches(v[n..], c);
      assert path[1..] == rest && '/' !in [c] && path[..1] == [path[0]];
    }
  }

  lemma {:induction false} FilledEnds(v: string, c: char)
    ensures !Wild(v) ==> Filled(v, c) == v
    ensures Wild(v) ==> EndsWith(Filled(v, c), [c] + Tail(v))
    decreases |v|
  {
    TailWithoutWild(v);
    if v != [] {
      var n := if v[0] == '*' && |v| > 1 && v[1] == '*' then 2 else 1;
      FilledEnds(v[n..], c);
      assert v == v[..n] + v[n..];
      assert Filled(v, c)[1..] == Filled(v[n..], c);
      if n == 2 {
        TailWithoutWild(v[1..]);
        assert v[1..][1..] == v[2..];
      }
      if Wild(v[n..]) {
        EndsWithMore(Filled(v, c), 1, [c] + Tail(v));
      } else {
        TailWithoutWild(v[n..]);
        assert Filled(v, c) == [Filled(v, c)[0]] + v[n..];
      }
    }
  }

  lemma {:induction false} TailIsPart(v: string)
    ensures forall x :: x in Tail(v) ==> x in v
  {
    if v != [] {
      assert v == [v[0]] + v[1..];
      TailIsPart(v[1..]);
    }
  }

  lemma TailOrText(x: string, t: string, tail: string, j: nat)
    requires EndsWith(x, tail) && |x| - |tail| <= j < |x| + |t|
    ensures (x + t)[j] in tail || (x + t)[j] in t
  {
    if j < |x| {
      assert x[j] == x[|x| - |tail|..][j - (|x| - |tail|)];
    }
  }

  /** The character before the tail of `filled` would have to lie inside the tail of x or inside t. */
  lemma OrdersDiffer(t: string, filled: string, c: char, x: string, tail: string)
    requires t != [] && c !in t && c !in tail && EndsWith(filled, [c] + tail) && EndsWith(x, tail)
    ensures t + filled != x + t
  {
    if |x| == |filled| {
      var j := |x| + |t| - 1 - |tail|;
      assert (t + filled)[j] == filled[|filled| - |[c] + tail|..][0] == c;
      TailOrText(x, t, tail, j);
    }
  }

  /** With a wildcard in the group, the meaning holds a path that does not end with the text. */
  lemma FilledTellsApart(t: string, v: string, c: char, x: string)
    requires t != [] && Wild(v) && '(' !in v && c !in t && c !in v
    ensures Glob(v, x) ==> t + Filled(v, c) != x + t
  {
    FilledEnds(v, c);
    TailIsPart(v);
    if Glob(v, x) {
      MatchEndsWithTail(v, x);
      OrdersDiffer(t, Filled(v, c), c, x, Tail(v));
    }
  }

  // ---- when the order does not matter -------------------------------------------------

  lemma {:induction false} EngineIsStricter(ts: seq<ReToken>, path: string)
    requires EngineMatches(ts, path)
    ensures Matches(ts, path)
  {
    if ts != [] {
      match ts[0]
      case AnyRun =>
        var k :| 0 <= k <= |path| && '\n' !in path[..k] && EngineMatches(ts[1..], path[k..]);
        EngineIsStricter(ts[1..], path[k..]);
      case SegmentRun =>
        var k :| 0 <= k <= |path| && '/' !in path[..k] && EngineMatches(ts[1..], path[k..]);
        EngineIsStricter(ts[1..], path[k..]);
      case Lit(_) => EngineIsStricter(ts[1..], path[1..]);
      case AnyOne => EngineIsStricter(ts[1..], path[1..]);
      case _ => EngineIsStricter(ts[1..], path);
    }
  }

  /** The group stands for one word only, and that word commutes with the text. */
  predicate Commutes(t: string, v: string) {
    !Wild(v) && t + v == v + t
  }

  /** The expression accepts exactly the paths without a line feed that the pattern means. */
  ghost predicate SameOnLines(regex: string, s: string) {
    forall path :: '\n' !in path ==> (Accepts(regex, path) <==> Glob(s, path))
  }

  /** A wildcard-free group: the expression accepts v + t, the pattern means t + v. */
  lemma LiteralGroupAccepts(t: string, inner: string, g: GroupText, path: string)
    requires (forall c :: c in t ==> PlainChar(c)) && GroupAt(inner) == Some(g) && g.length == |inner|
    requires Emittable(t + ("(" + inner)) && !Wild(g.value)
    ensures Accepts(Compile(Parse(t + ("(" + inner), []).value), path) <==> path == g.value + t
  {
    var s, v := t + ("(" + inner), g.value;
    ValueIsClean(t, inner, g);
    LiteralGroupHasNoDot(t, inner, g);
    AcceptsByTokens(s, path);
    AgreeWithoutDots(TokensAll(Parse(s, []).value), path);
    TextBeforeGroup(t, inner, g, path);
    LiteralSplit(v, t, path);
  }

  lemma LiteralSplit(v: string, t: string, path: string)
    requires !Wild(v) && '(' !in v
    ensures (exists k: nat :: k <= |path| && Glob(v, path[..k]) && path[k..] == t) <==> path == v + t
  {
    forall k: nat | k <= |path|
      ensures Glob(v, path[..k]) <==> path[..k] == v
    {
      LiteralMeansItself(v, path[..k]);
    }
    if k: nat :| k <= |path| && Glob(v, path[..k]) && path[k..] == t {
      assert path == path[..k] + path[k..];
    }
    if path == v + t {
      assert path[..|v|] == v && path[|v|..] == t;
    }
  }

  lemma LiteralGroupMeans(t: string, inner: string, g: GroupText, path: string)
    requires (forall c :: c in t ==> PlainChar(c)) && GroupAt(inner) == Some(g) && g.length == |inner|
    requires !Wild(g.value) && '(' !in g.value
    ensures Glob(t + ("(" + inner), path) <==> path == t + g.value
  {
    MeaningOfTextBeforeGroup(t, inner, g, path);
    if t <= path {
      LiteralMeansItself(g.value, path[|t|..]);
      assert path == path[..|t|] + path[|t|..];
    }
  }

  lemma LiteralGroupHasNoDot(t: string, inner: string, g: GroupText)
    requires (forall c :: c in t ==> PlainChar(c)) && GroupAt(inner) == Some(g) && g.length == |inner|
    requires Emittable(t + ("(" + inner)) && !Wild(g.value)
    ensures var ts := TokensAll(Parse(t + ("(" + inner), []).value); AnyOne !in ts && AnyRun !in ts
  {
    ValueIsClean(t, inner, g);
    var parts := Parse(g.value, []).value;
    TokensOfTextBeforeGroup(t, inner, g, parts);
    GroupIsPlain(g.name, parts, Flush(t));
    DotsOfPattern(g.value, []);
    LiteralsHaveNoDot(t);
    assert forall i: nat :: !StarsAt(g.value, i);
  }

  /** A character no pattern of safe characters holds. */
  const FOREIGN: char := 128 as char

  /** A group with a wildcard behind text: some path is meant and refused. */
  lemma WildGroup(t: string, inner: string, g: GroupText) returns (path: string)
    requires (forall c :: c in t ==> PlainChar(c)) && GroupAt(inner) == Some(g) && g.length == |inner|
    requires Emittable(t + ("(" + inner)) && Wild(g.value) && t != []
    ensures Glob(t + ("(" + inner), path) && !Accepts(Compile(Parse(t + ("(" + inner), []).value), path)
    ensures '\n' !in t + ("(" + inner) ==> '\n' !in path
  {
    path := t + Filled(g.value, FOREIGN);
    ValueIsClean(t, inner, g);
    FilledIsPart(g.value, FOREIGN);
    WildIsMeant(t, inner, g, path);
    WildIsRefused(t, inner, g, path);
  }

  lemma WildIsMeant(t: string, inner: string, g: GroupText, path: string)
    requires (forall c :: c in t ==> PlainChar(c)) && GroupAt(inner) == Some(g) && g.length == |inner|
    requires '(' !in g.value && path == t + Filled(g.value, FOREIGN)
    ensures Glob(t + ("(" + inner), path)
  {
    FilledMatches(g.value, FOREIGN);
    assert path[|t|..] == Filled(g.value, FOREIGN);
    MeaningOfTextBeforeGroup(t, inner, g, path);
  }

  lemma WildIsRefused(t: string, inner: string, g: GroupText, path: string)
    requires (forall c :: c in t ==> PlainChar(c)) && GroupAt(inner) == Some(g) && g.length == |inner|
    requires Emittable(t + ("(" + inner)) && Wild(g.value) && t != [] && path == t + Filled(g.value, FOREIGN)
    ensures !Accepts(Compile(Parse(t + ("(" + inner), []).value), path)
  {
    ValueIsClean(t, inner, g);
    TextBeforeGroup(t, inner, g, path);
    NoSplit(t, g.value, FOREIGN, path);
    RefusedUnlessMatched(t + ("(" + inner), path);
  }

  lemma NoSplit(t: string, v: string, c: char, path: string)
    requires t != [] && Wild(v) && '(' !in v && c !in t && c !in v && path == t + Filled(v, c)
    ensures !exists k: nat :: k <= |path| && Glob(v, path[..k]) && path[k..] == t
  {
    forall k: nat | k <= |path| && path[k..] == t
      ensures !Glob(v, path[..k])
    {
      FilledTellsApart(t, v, c, path[..k]);
      assert path == path[..k] + path[k..];
    }
  }

  lemma RefusedUnlessMatched(s: string, path: string)
    requires Emittable(s) && !Matches(TokensAll(Parse(s, []).value), path)
    ensures !Accepts(Compile(Parse(s, []).value), path)
  {
    AcceptsByTokens(s, path);
    if EngineMatches(TokensAll(Parse(s, []).value), path) {
      EngineIsStricter(TokensAll(Parse(s, []).value), path);
    }
  }

  lemma {:induction false} FilledIsPart(v: string, c: char)
    ensures forall x :: x in Filled(v, c) ==> x == c || x in v
    decreases |v|
  {
    if v != [] {
      var n := if v[0] == '*' && |v| > 1 && v[1] == '*' then 2 else 1;
      FilledIsPart(v[n..], c);
      assert v == v[..n] + v[n..];
    }
  }

  /** Text right before a last group keeps its meaning on paths without a line feed exactly if there is
      no text or the group has no wildcard and commutes with it. */
  lemma TextBeforeGroupIff(t: string, inner: string, g: GroupText)
    requires (forall c :: c in t ==> PlainChar(c)) && GroupAt(inner) == Some(g) && g.length == |inner|
    requires Emittable(t + ("(" + inner)) && '\n' !in t + ("(" + inner)
    ensures SameOnLines(Compile(Parse(t + ("(" + inner), []).value), t + ("(" + inner)) <==>
              t == [] || Commutes(t, g.value)
  {
    var s, v := t + ("(" + inner), g.value;
    var regex := Compile(Parse(s, []).value);
    ValueIsClean(t, inner, g);
    if t == [] {
      LoneGroup(inner, g);
      assert s == "(" + inner;
      forall path | '\n' !in path
        ensures Accepts(regex, path) <==> Glob(s, path)
      {
        CompilationPreservesMeaning(s, path);
      }
    } else if Wild(v) {
      var path := WildGroup(t, inner, g);
    } else {
      forall path
        ensures Accepts(regex, path) <==> path == v + t
        ensures Glob(s, path) <==> path == t + v
      {
        LiteralGroupAccepts(t, inner, g, path);
        LiteralGroupMeans(t, inner, g, path);
      }
      assert '\n' !in t + v;
      assert Glob(s, t + v) && (Accepts(regex, t + v) <==> t + v == v + t);
    }
  }

  /** A pattern that is one group is clean. */
  lemma LoneGroup(inner: string, g: GroupText)
    requires GroupAt(inner) == Some(g) && g.length == |inner| && Emittable([] + ("(" + inner))
    ensures Compilable("(" + inner)
  {
    ValueIsClean([], inner, g);
    CleanGroup("(" + inner, g);
    assert [] + ("(" + inner) == "(" + inner;
  }

  lemma CleanGroup(s: string, g: GroupText)
    requires s != [] && s[0] == '(' && GroupAt(s[1..]) == Some(g) && g.length == |s| - 1 && Clean(g.value, false)
    ensures Clean(s, false)
  {
    assert s[1 + g.length..] == [];
  }

  lemma LoneGroupDots(inner: string, g: GroupText)
    requires GroupAt(inner) == Some(g) && g.length == |inner| && Emittable([] + ("(" + inner))
    ensures ('?' in "(" + inner <==> '?' in g.value) && (Doubled("(" + inner) <==> Doubled(g.value))
  {
    var s := "(" + inner;
    assert [] + s == s && s[1..] == inner && s[1 + g.length..] == [];
    ValueIsClean([], inner, g);
    LastGroup(s, [], g);
    NamesOfGroup(g.name, Parse(g.value, []).value, Flush([]));
    ValidNameHasNoStar(g.name);
    GroupDots(s, g.name, g.value);
  }

  lemma GroupDots(s: string, name: string, value: string)
    requires s == "(" + name + ":" + value + ")" && '?' !in name && !Doubled(name)
    ensures ('?' in s <==> '?' in value) && (Doubled(s) <==> Doubled(value))
  {
    assert s == "(" + name + ":" + value + ")" + [];
    DoubledInGroup(s, name, value, []);
    assert forall i: nat :: !StarsAt([], i);
  }

  /** On all paths it does exactly if there is text and the same holds, or none and the group has neither
      `?` nor `**`. */
  lemma TextBeforeGroupEverywhereIff(t: string, inner: string, g: GroupText)
    requires (forall c :: c in t ==> PlainChar(c)) && GroupAt(inner) == Some(g) && g.length == |inner|
    requires Emittable(t + ("(" + inner))
    ensures SameLanguage(Compile(Parse(t + ("(" + inner), []).value), t + ("(" + inner)) <==>
              if t == [] then '?' !in g.value && !Doubled(g.value) else Commutes(t, g.value)
  {
    var s, v := t + ("(" + inner), g.value;
    var regex := Compile(Parse(s, []).value);
    ValueIsClean(t, inner, g);
    if t == [] {
      LoneGroup(inner, g);
      LoneGroupDots(inner, g);
      assert s == "(" + inner;
      PreservesEveryPathIff(s);
    } else if Wild(v) {
      var path := WildGroup(t, inner, g);
    } else {
      forall path
        ensures Accepts(regex, path) <==> path == v + t
        ensures Glob(s, path) <==> path == t + v
      {
        LiteralGroupAccepts(t, inner, g, path);
        LiteralGroupMeans(t, inner, g, path);
      }
      assert Glob(s, t + v) && (Accepts(regex, t + v) <==> t + v == v + t);
    }
  }

  // ---- the smallest example -----------------------------------------------------------

  lemma SmallGroup()
    ensures GroupAt("n:b)") == Some(GroupText("n", "b", 4))
  {
    assert "n:b)"[1..] == ":b)" && ":b)"[1..] == "b)" && "b)"[1..] == ")";
    assert Find(")", ')') == Some(0) && Find("b)", ')') == Some(1) && Find(":b)", ')') == Some(2);
    assert "n:b)"[..3] == "n:b" && "n:b"[1..] == ":b" && ":b"[1..] == "b" && "b"[1..] == [];
    assert Colons([]) == 0 && Colons("b") == 0 && Colons(":b") == 1;
    assert BeforeColon(":b") == [] && BeforeColon("n:b") == "n" && "n:b"[2..] == "b";
  }

  lemma OneLetter(s: string, path: string)
    requires s == "b"
    ensures Parse(s, []) == Ok([Text(s)]) && Clean(s, false)
    ensures Glob(s, path) <==> path == s
  {
    assert s[1..] == [] && [] + [s[0]] == s;
    GlobText(s, [], path);
    assert s + [] == s;
  }

  /** A group that does not commute with the text before it: the pattern means "ab", the expression
      accepts "ba" instead. */
  lemma GroupAfterText()
    ensures var s := "a" + ("(" + "n:b)");
            && Parse(s, []).Ok? && Glob(s, "ab") && !Glob(s, "ba")
            && Accepts(Compile(Parse(s, []).value), "ba") && !Accepts(Compile(Parse(s, []).value), "ab")
  {
    SmallGroup();
    var t, inner, g := "a", "n:b)", GroupText("n", "b", 4);
    var s := t + ("(" + inner);
    OneLetter(g.value, "b");
    OneLetter(g.value, "a");
    MeaningOfTextBeforeGroup(t, inner, g, "ab");
    MeaningOfTextBeforeGroup(t, inner, g, "ba");
    assert "ab"[1..] == "b";
    SmallGroupAccepts(t, inner, g, "ab");
    SmallGroupAccepts(t, inner, g, "ba");
  }

  lemma SmallGroupAccepts(t: string, inner: string, g: GroupText, path: string)
    requires t == "a" && inner == "n:b)" && g == GroupText("n", "b", 4) && GroupAt(inner) == Some(g)
    requires '\n' !in path
    ensures Parse(t + ("(" + inner), []).Ok?
    ensures Accepts(Compile(Parse(t + ("(" + inner), []).value), path) <==> path == "ba"
  {
    var s := t + ("(" + inner);
    SmallGroupIsEmittable(t, inner, g);
    AcceptsByTokens(s, path);
    AgreeOnLine(TokensAll(Parse(s, []).value), path);
    OneLetter(g.value, []);
    TextBeforeGroup(t, inner, g, path);
    forall k: nat | k <= |path|
      ensures Glob(g.value, path[..k]) <==> path[..k] == g.value
    {
      OneLetter(g.value, path[..k]);
    }
    if path == "ba" {
      assert path[..1] == g.value && path[1..] == t;
    }
  }

  lemma SmallGroupIsEmittable(t: string, inner: string, g: GroupText)
    requires t == "a" && inner == "n:b)" && g == GroupText("n", "b", 4) && GroupAt(inner) == Some(g)
    ensures Emittable(t + ("(" + inner))
  {
    OneLetter(g.value, []);
    var parts := [Text(g.value)];
    TokensOfTextBeforeGroup(t, inner, g, parts);
    GroupIsPlain(g.name, parts, Flush(t));
    TextHasNoNames(g.value);
    TextHasNoNames(t);
    assert Names(Parse(t + ("(" + inner), []).value) == [g.name];
    SmallGroupIsSafe();
  }

  lemma TextHasNoNames(t: string)
    ensures Names([Text(t)]) == []
  {
    assert [Text(t)][1..] == [];
  }

  lemma SmallGroupIsSafe()
    ensures Safe("a" + ("(" + "n:b)")) && ValidName("n") && NoDup(["n"])
  {
  }
}

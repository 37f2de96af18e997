/** Compiling glob patterns with named groups to regular expressions. */
module Fnmatch {
  import opened Basics

  datatype Fragment =
    | MatchOne
    | MatchAnyExceptForwardSlash
    | MatchAny
    | BackSlash
    | Dot
    | ForwardSlash
    | Text(text: string)
    | Group(name: string, parts: seq<Fragment>)

  datatype Error = MalformedGroup

  // ---- reading a pattern --------------------------------------------------------------

  predicate IsAscii(c: char) {
    c < 128 as char
  }

  /** The single-token fragment a pattern starts with, and its length. */
  function Token(s: string): (r: Option<(Fragment, nat)>)
    requires s != []
    ensures r.Some? ==> 0 < r.value.1 <= |s| && r.value.1 <= 2
  {
    match s[0]
    case '?' => Some((MatchOne, 1))
    case '*' => if |s| > 1 && s[1] == '*' then Some((MatchAny, 2)) else Some((MatchAnyExceptForwardSlash, 1))
    case '\\' => Some((BackSlash, 1))
    case '/' => Some((ForwardSlash, 1))
    case '.' => Some((Dot, 1))
    case _ => None
  }

  /** Position of the first `c` the walker reaches; it stops at a character that is not ASCII. */
  function Find(s: string, c: char): (r: Option<nat>)
    ensures r.Some? ==> r.value < |s| && s[r.value] == c && c !in s[..r.value]
  {
    if s == [] || !IsAscii(s[0]) then None
    else if s[0] == c then Some(0)
    else
      match Find(s[1..], c)
      case None => None
      case Some(i) => assert s[..i + 1] == [s[0]] + s[1..][..i]; Some(i + 1)
  }

  function Colons(s: string): nat {
    if s == [] then 0 else (if s[0] == ':' then 1 else 0) + Colons(s[1..])
  }

  /** What stands before the first colon. */
  function BeforeColon(s: string): (r: string)
    ensures r <= s && ':' !in r
    ensures Colons(s) > 0 ==> |r| < |s| && s[|r|] == ':'
  {
    if s == [] || s[0] == ':' then [] else [s[0]] + BeforeColon(s[1..])
  }

  datatype GroupText = GroupText(name: string, value: string, length: nat)

  /** Name, value and length of the group whose '(' comes just before `s`. */
  function GroupAt(s: string): (r: Option<GroupText>)
    ensures r.Some? ==> r.value.length <= |s| && s[..r.value.length] == r.value.name + ":" + r.value.value + ")"
    ensures r.Some? ==> |r.value.value| < |s| && ')' !in r.value.value
  {
    match Find(s, ')')
    case None => None
    case Some(end) =>
      var inner := s[..end];
      if Colons(inner) != 1 then None
      else
        var name := BeforeColon(inner);
        assert s[..end + 1] == inner + ")" && inner == name + ":" + inner[|name| + 1..];
        Some(GroupText(name, inner[|name| + 1..], end + 1))
  }

  function Flush(text: string): seq<Fragment> {
    if text == [] then [] else [Text(text)]
  }

  function Prepend(front: seq<Fragment>, r: Result<seq<Fragment>, Error>): Result<seq<Fragment>, Error> {
    if r.Ok? then Ok(front + r.value) else r
  }

  /** The fragments of a pattern read with `text` pending: only single tokens flush it, not groups. */
  function Parse(s: string, text: string): Result<seq<Fragment>, Error>
    decreases |s|
  {
    if s == [] || !IsAscii(s[0]) then Ok(Flush(text))
    else if Token(s).Some? then
      Prepend(Flush(text) + [Token(s).value.0], Parse(s[Token(s).value.1..], []))
    else if s[0] == '(' then
      match GroupAt(s[1..])
      case None => Err(MalformedGroup)
      case Some(g) =>
        var parts := Parse(g.value, []);
        if parts.Err? then parts else Prepend([Group(g.name, parts.value)], Parse(s[1 + g.length..], text))
    else if s[0] == ')' then Parse(s[1..], text)
    else Parse(s[1..], text + [s[0]])
  }

  /** A cursor over a pattern. */
  class StringWalker {
    const data: string
    var index: nat

    constructor (data: string)
      ensures this.data == data && index == 0
    {
      this.data, index := data, 0;
    }

    method Next() returns (r: Option<char>)
      modifies this
      ensures old(index) >= |data| ==> r.None? && index == old(index)
      ensures old(index) < |data| ==> index == old(index) + 1
      ensures r == if old(index) < |data| && IsAscii(data[old(index)]) then Some(data[old(index)]) else None
    {
      if index >= |data| { return None; }
      index := index + 1;
      return if IsAscii(data[index - 1]) then Some(data[index - 1]) else None;
    }

    method Eat(much: nat)
      modifies this
      ensures index == old(index) + much
    {
      index := index + much;
    }

    method Peek() returns (r: Option<char>)
      ensures r == if index < |data| && IsAscii(data[index]) then Some(data[index]) else None
    {
      return if index < |data| && IsAscii(data[index]) then Some(data[index]) else None;
    }

    method SubstringTo(c: char) returns (r: Option<string>)
      requires index <= |data|
      ensures r == match Find(data[index..], c) case None => None case Some(i) => Some(data[index..index + i])
    {
      var at := index;
      while at < |data| && IsAscii(data[at])
        invariant index <= at <= |data|
        invariant Find(data[index..], c) == match Find(data[at..], c) case None => None case Some(i) => Some(at - index + i)
      {
        if data[at] == c { return Some(data[index..at]); }
        assert data[at..][1..] == data[at + 1..];
        at := at + 1;
      }
      return None;
    }
  }

  lemma PrependTwice(a: seq<Fragment>, b: seq<Fragment>, r: Result<seq<Fragment>, Error>)
    ensures Prepend(a, Prepend(b, r)) == Prepend(a + b, r)
  {
    if r.Ok? {
      assert a + (b + r.value) == (a + b) + r.value;
    }
  }

  lemma PrependNothing(r: Result<seq<Fragment>, Error>)
    ensures Prepend([], r) == r
  {
    if r.Ok? {
      assert [] + r.value == r.value;
    }
  }

  lemma ParseGroupFails(s: string, text: string)
    requires s != [] && s[0] == '('
    requires GroupAt(s[1..]).None? || Parse(GroupAt(s[1..]).value.value, []).Err?
    ensures Parse(s, text) == Err(MalformedGroup)
  {
    if GroupAt(s[1..]).Some? {
      match Parse(GroupAt(s[1..]).value.value, []).error
      case MalformedGroup =>
    }
  }

  lemma ReadOnToken(builder: seq<Fragment>, s: string, text: string)
    requires s != [] && IsAscii(s[0]) && Token(s).Some?
    ensures Prepend(builder, Parse(s, text))
            == Prepend(builder + (Flush(text) + [Token(s).value.0]), Parse(s[Token(s).value.1..], []))
  {
    PrependTwice(builder, Flush(text) + [Token(s).value.0], Parse(s[Token(s).value.1..], []));
  }

  lemma ReadOnOther(s: string, text: string)
    requires s != [] && IsAscii(s[0]) && Token(s).None? && s[0] != '('
    ensures Parse(s, text) == Parse(s[1..], if s[0] == ')' then text else text + [s[0]])
  {
  }

  lemma ReadOnGroup(builder: seq<Fragment>, s: string, text: string, g: GroupText)
    requires s != [] && s[0] == '(' && GroupAt(s[1..]) == Some(g) && Parse(g.value, []).Ok?
    ensures Prepend(builder, Parse(s, text))
            == Prepend(builder + [Group(g.name, Parse(g.value, []).value)], Parse(s[1 + g.length..], text))
  {
    PrependTwice(builder, [Group(g.name, Parse(g.value, []).value)], Parse(s[1 + g.length..], text));
  }

  /** `(`: the group up to the next `)`, whose value is read on its own. */
  method ReadGroup(walker: StringWalker) returns (r: Result<Fragment, Error>)
    requires walker.index <= |walker.data|
    modifies walker
    ensures r.Err? <==> GroupAt(walker.data[old(walker.index)..]).None?
                        || Parse(GroupAt(walker.data[old(walker.index)..]).value.value, []).Err?
    ensures r.Ok? ==> var g := GroupAt(walker.data[old(walker.index)..]).value;
                      walker.index == old(walker.index) + g.length && Parse(g.value, []).Ok?
                      && r.value == Group(g.name, Parse(g.value, []).value)
    decreases |walker.data| - walker.index, 1
  {
    ghost var rest := walker.data[walker.index..];
    var end := walker.SubstringTo(')');
    if end.None? { return Err(MalformedGroup); }
    assert end.value == rest[..|end.value|];
    walker.Eat(|end.value| + 1);
    GroupUpTo(rest, end.value);
    if Colons(end.value) != 1 { return Err(MalformedGroup); }
    var name := BeforeColon(end.value);
    var parts := FragmentsFromString(end.value[|name| + 1..]);
    return if parts.Err? then Err(parts.error) else Ok(Group(name, parts.value));
  }

  lemma GroupUpTo(rest: string, inner: string)
    requires Find(rest, ')') == Some(|inner|) && inner == rest[..|inner|]
    ensures Colons(inner) != 1 ==> GroupAt(rest).None?
    ensures Colons(inner) == 1 ==>
              var name := BeforeColon(inner);
              GroupAt(rest) == Some(GroupText(name, inner[|name| + 1..], |inner| + 1))
  {
  }

  /** The single-token fragment `ch` starts, if any; `**` takes a second character. */
  method ReadToken(walker: StringWalker, ch: char) returns (r: Option<Fragment>)
    requires 0 < walker.index <= |walker.data| && walker.data[walker.index - 1] == ch
    modifies walker
    ensures var token := Token(walker.data[old(walker.index) - 1..]);
            && (r.Some? <==> token.Some?)
            && (r.Some? ==> r.value == token.value.0 && walker.index == old(walker.index) - 1 + token.value.1)
            && (r.None? ==> walker.index == old(walker.index))
  {
    match ch
    case '?' => return Some(MatchOne);
    case '*' =>
      var following := walker.Peek();
      if following != Some('*') { return Some(MatchAnyExceptForwardSlash); }
      walker.Eat(1);
      return Some(MatchAny);
    case '\\' => return Some(BackSlash);
    case '/' => return Some(ForwardSlash);
    case '.' => return Some(Dot);
    case _ => return None;
  }

  /** One round of the reading loop, after the walker returned `ch`. */
  method ReadFragment(walker: StringWalker, ch: char, builder0: seq<Fragment>, text0: string)
    returns (r: Outcome<Error>, builder: seq<Fragment>, text: string)
    requires 0 < walker.index <= |walker.data| && walker.data[walker.index - 1] == ch && IsAscii(ch)
    modifies walker
    ensures r.Fail? ==> r == Fail(MalformedGroup) && Parse(walker.data[old(walker.index) - 1..], text0) == Err(MalformedGroup)
    ensures r.Pass? ==> old(walker.index) <= walker.index <= |walker.data|
                        && Prepend(builder0, Parse(walker.data[old(walker.index) - 1..], text0))
                           == Prepend(builder, Parse(walker.data[walker.index..], text))
    decreases |walker.data| - walker.index, 4
  {
    builder, text := builder0, text0;
    ghost var from := walker.index - 1;
    ghost var rest := walker.data[from..];
    var token := ReadToken(walker, ch);
    if token.Some? {
      assert rest[Token(rest).value.1..] == walker.data[walker.index..];
      ReadOnToken(builder, rest, text);
      return Pass, builder + (Flush(text) + [token.value]), [];
    }
    r, builder, text := ReadOther(walker, ch, builder, text);
  }

  /** A group, a stray `)`, or a character of text. */
  method ReadOther(walker: StringWalker, ch: char, builder0: seq<Fragment>, text0: string)
    returns (r: Outcome<Error>, builder: seq<Fragment>, text: string)
    requires 0 < walker.index <= |walker.data| && walker.data[walker.index - 1] == ch && IsAscii(ch)
    requires Token(walker.data[walker.index - 1..]).None?
    modifies walker
    ensures r.Fail? ==> r == Fail(MalformedGroup) && Parse(walker.data[old(walker.index) - 1..], text0) == Err(MalformedGroup)
    ensures r.Pass? ==> old(walker.index) <= walker.index <= |walker.data|
                        && Prepend(builder0, Parse(walker.data[old(walker.index) - 1..], text0))
                           == Prepend(builder, Parse(walker.data[walker.index..], text))
    decreases |walker.data| - walker.index, 3
  {
    builder, text := builder0, text0;
    if ch == '(' {
      r, builder := ReadGroupInto(walker, builder, text);
      return;
    }
    ReadOnOther(walker.data[walker.index - 1..], text);
    assert walker.data[walker.index - 1..][1..] == walker.data[walker.index..];
    if ch != ')' {
      text := text + [ch];
    }
    r := Pass;
  }

  method ReadGroupInto(walker: StringWalker, builder0: seq<Fragment>, ghost text: string)
    returns (r: Outcome<Error>, builder: seq<Fragment>)
    requires 0 < walker.index <= |walker.data| && walker.data[walker.index - 1] == '('
    modifies walker
    ensures r.Fail? ==> r == Fail(MalformedGroup) && Parse(walker.data[old(walker.index) - 1..], text) == Err(MalformedGroup)
    ensures r.Pass? ==> old(walker.index) <= walker.index <= |walker.data|
                        && Prepend(builder0, Parse(walker.data[old(walker.index) - 1..], text))
                           == Prepend(builder, Parse(walker.data[walker.index..], text))
    decreases |walker.data| - walker.index, 2
  {
    builder := builder0;
    ghost var from := walker.index - 1;
    ghost var rest := walker.data[from..];
    assert rest[1..] == walker.data[from + 1..];
    var group := ReadGroup(walker);
    if group.Err? {
      ParseGroupFails(rest, text);
      return Fail(MalformedGroup), builder;
    }
    ghost var g := GroupAt(rest[1..]).value;
    assert rest[1 + g.length..] == walker.data[walker.index..];
    ReadOnGroup(builder, rest, text, g);
    return Pass, builder + [group.value];
  }

  /** The reading loop computes Parse. */
  method FragmentsFromString(s: string) returns (r: Result<seq<Fragment>, Error>)
    ensures r == Parse(s, [])
    decreases |s|, 0
  {
    var walker := new StringWalker(s);
    var builder: seq<Fragment>, text: string := [], [];
    assert s[0..] == s;
    PrependNothing(Parse(s, []));
    while true
      invariant fresh(walker) && walker.data == s && walker.index <= |s|
      invariant Parse(s, []) == Prepend(builder, Parse(s[walker.index..], text))
      decreases |s| - walker.index
    {
      var ch := walker.Next();
      if ch.None? { break; }
      var step: Outcome<Error>;
      step, builder, text := ReadFragment(walker, ch.value, builder, text);
      if step.Fail? { return Err(step.error); }
    }
    return Ok(builder + Flush(text));
  }

  // ---- printing back ------------------------------------------------------------------

  function Print(f: Fragment): string {
    match f
    case MatchOne => "?"
    case MatchAnyExceptForwardSlash => "*"
    case MatchAny => "**"
    case BackSlash => "\\"
    case Dot => "."
    case ForwardSlash => "/"
    case Text(text) => text
    case Group(name, parts) => "(" + name + ":" + PrintAll(parts) + ")"
  }

  function PrintAll(fs: seq<Fragment>): string {
    if fs == [] then [] else Print(fs[0]) + PrintAll(fs[1..])
  }

  /** ASCII, no `)` outside a group, and every `(` directly after a single token, a group or the start:
      `pending` says that literal text came last. */
  predicate Clean(s: string, pending: bool)
    decreases |s|
  {
    s == [] ||
    (IsAscii(s[0]) &&
     if Token(s).Some? then Clean(s[Token(s).value.1..], false)
     else if s[0] == '(' then
       !pending && GroupAt(s[1..]).Some? && Clean(GroupAt(s[1..]).value.value, false)
       && Clean(s[1 + GroupAt(s[1..]).value.length..], false)
     else s[0] != ')' && Clean(s[1..], true))
  }

  lemma {:induction false} PrintAllAppend(a: seq<Fragment>, b: seq<Fragment>)
    ensures PrintAll(a + b) == PrintAll(a) + PrintAll(b)
  {
    if a == [] {
      assert a + b == b;
    } else {
      PrintAllAppend(a[1..], b);
      assert (a + b)[1..] == a[1..] + b && (a + b)[0] == a[0];
      Associates(Print(a[0]), PrintAll(a[1..]), PrintAll(b));
    }
  }

  lemma PrintOne(f: Fragment)
    ensures PrintAll([f]) == Print(f)
  {
    assert [f][1..] == [];
    assert Print(f) + [] == Print(f);
  }

  lemma PrintFlush(text: string)
    ensures PrintAll(Flush(text)) == text
  {
    if text != [] {
      PrintOne(Text(text));
    }
  }

  lemma TokenPrints(s: string)
    requires s != [] && Token(s).Some?
    ensures Print(Token(s).value.0) == s[..Token(s).value.1]
  {
  }

  lemma ParseToken(s: string, text: string)
    requires s != [] && Token(s).Some? && Parse(s, text).Ok?
    ensures var rest := Parse(s[Token(s).value.1..], []);
            rest.Ok? && Parse(s, text) == Ok(Flush(text) + [Token(s).value.0] + rest.value)
  {
  }

  lemma PrintToken(text: string, token: Fragment, rest: seq<Fragment>)
    ensures PrintAll(Flush(text) + [token] + rest) == text + Print(token) + PrintAll(rest)
  {
    PrintAllAppend(Flush(text) + [token], rest);
    PrintAllAppend(Flush(text), [token]);
    PrintFlush(text);
    PrintOne(token);
  }

  lemma ParsedToken(s: string, text: string)
    requires s != [] && Token(s).Some? && Parse(s, text).Ok?
    ensures var rest := Parse(s[Token(s).value.1..], []);
            rest.Ok? && PrintAll(Parse(s, text).value) == text + s[..Token(s).value.1] + PrintAll(rest.value)
  {
    ParseToken(s, text);
    PrintToken(text, Token(s).value.0, Parse(s[Token(s).value.1..], []).value);
    TokenPrints(s);
  }

  lemma ParseGroup(s: string, text: string)
    requires s != [] && s[0] == '(' && Parse(s, text).Ok?
    ensures GroupAt(s[1..]).Some?
    ensures var g := GroupAt(s[1..]).value;
            var parts, rest := Parse(g.value, []), Parse(s[1 + g.length..], text);
            parts.Ok? && rest.Ok? && Parse(s, text) == Ok([Group(g.name, parts.value)] + rest.value)
  {
  }

  lemma PrintGroup(name: string, parts: seq<Fragment>, rest: seq<Fragment>)
    ensures PrintAll([Group(name, parts)] + rest) == "(" + name + ":" + PrintAll(parts) + ")" + PrintAll(rest)
  {
    assert ([Group(name, parts)] + rest)[1..] == rest;
  }

  lemma ParsedGroup(s: string, text: string)
    requires s != [] && s[0] == '(' && Parse(s, text).Ok?
    ensures GroupAt(s[1..]).Some?
    ensures var g := GroupAt(s[1..]).value;
            var parts, rest := Parse(g.value, []), Parse(s[1 + g.length..], text);
            && parts.Ok? && rest.Ok?
            && PrintAll(Parse(s, text).value) == "(" + g.name + ":" + PrintAll(parts.value) + ")" + PrintAll(rest.value)
  {
    ParseGroup(s, text);
    var g := GroupAt(s[1..]).value;
    PrintGroup(g.name, Parse(g.value, []).value, Parse(s[1 + g.length..], text).value);
  }

  /** Where the text of a group lies in the pattern. */
  lemma GroupInPlace(s: string)
    requires s != [] && s[0] == '(' && GroupAt(s[1..]).Some?
    ensures var g := GroupAt(s[1..]).value;
            s == "(" + g.name + ":" + g.value + ")" + s[1 + g.length..]
  {
    var g := GroupAt(s[1..]).value;
    assert s == "(" + s[1..][..g.length] + s[1 + g.length..];
  }

  /** Reading never adds characters. */
  lemma {:induction false} PrintIsNoLonger(s: string, text: string)
    requires Parse(s, text).Ok?
    ensures |PrintAll(Parse(s, text).value)| <= |text| + |s|
    decreases |s|
  {
    if s == [] || !IsAscii(s[0]) {
      PrintFlush(text);
    } else if Token(s).Some? {
      ParsedToken(s, text);
      PrintIsNoLonger(s[Token(s).value.1..], []);
    } else if s[0] == '(' {
      ParsedGroup(s, text);
      GroupInPlace(s);
      var g := GroupAt(s[1..]).value;
      PrintIsNoLonger(g.value, []);
      PrintIsNoLonger(s[1 + g.length..], text);
    } else if s[0] == ')' {
      PrintIsNoLonger(s[1..], text);
    } else {
      PrintIsNoLonger(s[1..], text + [s[0]]);
    }
  }

  /** Fragments print back to the pattern exactly when it is clean. */
  lemma {:induction false} PrintsBackIffClean(s: string, text: string)
    requires Parse(s, text).Ok? && '(' !in text
    ensures PrintAll(Parse(s, text).value) == text + s <==> Clean(s, text != [])
    decreases |s|
  {
    if s == [] || !IsAscii(s[0]) {
      PrintFlush(text);
    } else if Token(s).Some? {
      PrintsBackToken(s, text);
    } else if s[0] == '(' {
      PrintsBackGroup(s, text);
    } else if s[0] == ')' {
      PrintIsNoLonger(s[1..], text);
    } else {
      PrintsBackIffClean(s[1..], text + [s[0]]);
      assert text + [s[0]] + s[1..] == text + s;
    }
  }

  lemma PrintsBackToken(s: string, text: string)
    requires s != [] && IsAscii(s[0]) && Token(s).Some? && Parse(s, text).Ok?
    ensures PrintAll(Parse(s, text).value) == text + s <==> Clean(s, text != [])
    decreases |s|, 0
  {
    var n := Token(s).value.1;
    ParsedToken(s, text);
    PrintsBackIffClean(s[n..], []);
    assert [] + s[n..] == s[n..];
    SameTail(text, s, n, PrintAll(Parse(s[n..], []).value));
  }

  lemma SameTail(text: string, s: string, n: nat, rest: string)
    requires n <= |s|
    ensures text + s[..n] + rest == text + s <==> rest == s[n..]
  {
    assert text + s == text + s[..n] + s[n..];
    assert (text + s[..n] + rest)[|text| + n..] == rest;
    assert (text + s)[|text| + n..] == s[n..];
  }

  lemma CleanGroup(s: string, pending: bool, g: GroupText)
    requires s != [] && s[0] == '(' && GroupAt(s[1..]) == Some(g)
    ensures Clean(s, pending) <==> !pending && Clean(g.value, false) && Clean(s[1 + g.length..], false)
  {
  }

  lemma PendingTextMoves(s: string, text: string)
    requires s != [] && s[0] == '(' && Parse(s, text).Ok? && '(' !in text && text != []
    ensures PrintAll(Parse(s, text).value) != text + s
  {
    ParsedGroup(s, text);
    assert (text + s)[0] == text[0] && text[0] in text;
  }

  lemma PrintsBackGroup(s: string, text: string)
    requires s != [] && s[0] == '(' && Parse(s, text).Ok? && '(' !in text
    ensures PrintAll(Parse(s, text).value) == text + s <==> Clean(s, text != [])
    decreases |s|, 2
  {
    if text != [] {
      PendingTextMoves(s, text);
      ParsedGroup(s, text);
      CleanGroup(s, true, GroupAt(s[1..]).value);
    } else {
      assert text + s == s;
      PrintsBackOpenGroup(s);
    }
  }

  lemma PrintsBackOpenGroup(s: string)
    requires s != [] && s[0] == '(' && Parse(s, []).Ok?
    ensures PrintAll(Parse(s, []).value) == s <==> Clean(s, false)
    decreases |s|, 1
  {
    ParsedGroup(s, []);
    var g := GroupAt(s[1..]).value;
    CleanGroup(s, false, g);
    PrintsBackPieces(s, g, Parse(g.value, []).value, Parse(s[1 + g.length..], []).value);
  }

  lemma PrintsBackPieces(s: string, g: GroupText, parts: seq<Fragment>, rest: seq<Fragment>)
    requires s != [] && s[0] == '(' && GroupAt(s[1..]) == Some(g)
    requires Parse(g.value, []) == Ok(parts) && Parse(s[1 + g.length..], []) == Ok(rest)
    ensures "(" + g.name + ":" + PrintAll(parts) + ")" + PrintAll(rest) == s
            <==> Clean(g.value, false) && Clean(s[1 + g.length..], false)
    decreases |s|, 0
  {
    var tail := s[1 + g.length..];
    GroupInPlace(s);
    PrintIsNoLonger(g.value, []);
    PrintIsNoLonger(tail, []);
    PrintsBackIffClean(g.value, []);
    PrintsBackIffClean(tail, []);
    assert [] + g.value == g.value && [] + tail == tail;
    SamePieces("(" + g.name + ":", PrintAll(parts), g.value, PrintAll(rest), tail);
  }

  /** Two concatenations whose pieces are no longer on one side agree only piece by piece. */
  lemma SamePieces(head: string, a: string, b: string, x: string, y: string)
    requires |a| <= |b| && |x| <= |y|
    ensures head + a + ")" + x == head + b + ")" + y <==> a == b && x == y
  {
    var l, r := head + a + ")" + x, head + b + ")" + y;
    if l == r {
      assert |a| == |b| && |x| == |y|;
      assert a == l[|head|..|head| + |a|] && b == r[|head|..|head| + |b|];
      assert x == l[|head| + |a| + 1..] && y == r[|head| + |b| + 1..];
    }
  }

  /** A pattern with no `)` yields no group. */
  lemma {:induction false} NoGroupWithoutClose(s: string, text: string)
    requires Parse(s, text).Ok? && ')' !in s
    ensures forall f :: f in Parse(s, text).value ==> !f.Group?
    decreases |s|
  {
    if s == [] || !IsAscii(s[0]) {
    } else if Token(s).Some? {
      ParseToken(s, text);
      NoGroupWithoutClose(s[Token(s).value.1..], []);
    } else if s[0] == '(' {
      ParseGroup(s, text);
    } else {
      NoGroupWithoutClose(s[1..], text + [s[0]]);
    }
  }

  /** So the parts of a group hold none. */
  lemma {:induction false} GroupsAreFlat(s: string, text: string)
    requires Parse(s, text).Ok?
    ensures forall f :: f in Parse(s, text).value && f.Group? ==> forall p :: p in f.parts ==> !p.Group?
    decreases |s|
  {
    if s == [] || !IsAscii(s[0]) {
    } else if Token(s).Some? {
      ParseToken(s, text);
      GroupsAreFlat(s[Token(s).value.1..], []);
    } else if s[0] == '(' {
      ParseGroup(s, text);
      var g := GroupAt(s[1..]).value;
      NoGroupWithoutClose(g.value, []);
      GroupsAreFlat(s[1 + g.length..], text);
    } else if s[0] == ')' {
      GroupsAreFlat(s[1..], text);
    } else {
      GroupsAreFlat(s[1..], text + [s[0]]);
    }
  }
}

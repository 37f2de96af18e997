/** Total orders, lexicographic order and canonical (sorted) listings. Rust compares strings by
    their UTF-8 bytes and derived structs field by field, so both are lexicographic. */
module Ordering {

  newtype byte = x: int | 0 <= x < 256

  /** A Rust `String` or byte vector: its bytes. */
  type Text = seq<byte>

  ghost predicate TotalOrder<T(!new)>(le: (T, T) -> bool) {
    && (forall x, y :: le(x, y) || le(y, x))
    && (forall x, y :: le(x, y) && le(y, x) ==> x == y)
    && (forall x, y, z :: le(x, y) && le(y, z) ==> le(x, z))
  }

  const BYTE_LE: (byte, byte) -> bool := (x, y) => x <= y

  predicate LexLe<T(==)>(le: (T, T) -> bool, a: seq<T>, b: seq<T>) {
    a == [] || (b != [] && if a[0] == b[0] then LexLe(le, a[1..], b[1..]) else le(a[0], b[0]))
  }

  const TEXT_LE: (Text, Text) -> bool := (a, b) => LexLe(BYTE_LE, a, b)

  /** The order of a struct whose fields are texts, given as the list of its fields. */
  const FIELDS_LE: (seq<Text>, seq<Text>) -> bool := (a, b) => LexLe(TEXT_LE, a, b)

  lemma {:induction false} LexTotal<T(!new)>(le: (T, T) -> bool, a: seq<T>, b: seq<T>)
    requires TotalOrder(le)
    ensures LexLe(le, a, b) || LexLe(le, b, a)
  {
    if a != [] && b != [] && a[0] == b[0] {
      LexTotal(le, a[1..], b[1..]);
    }
  }

  lemma {:induction false} LexAntisymmetric<T(!new)>(le: (T, T) -> bool, a: seq<T>, b: seq<T>)
    requires TotalOrder(le) && LexLe(le, a, b) && LexLe(le, b, a)
    ensures a == b
  {
    if a != [] && b != [] && a[0] == b[0] {
      LexAntisymmetric(le, a[1..], b[1..]);
      assert a == [a[0]] + a[1..] && b == [b[0]] + b[1..];
    }
  }

  lemma {:induction false} LexTransitive<T(!new)>(le: (T, T) -> bool, a: seq<T>, b: seq<T>, c: seq<T>)
    requires TotalOrder(le) && LexLe(le, a, b) && LexLe(le, b, c)
    ensures LexLe(le, a, c)
  {
    if a != [] && a[0] == b[0] && b[0] == c[0] {
      LexTransitive(le, a[1..], b[1..], c[1..]);
    }
  }

  lemma TextOrder()
    ensures TotalOrder(TEXT_LE)
  {
    forall a, b { LexTotal(BYTE_LE, a, b); }
    forall a, b | TEXT_LE(a, b) && TEXT_LE(b, a) { LexAntisymmetric(BYTE_LE, a, b); }
    forall a, b, c | TEXT_LE(a, b) && TEXT_LE(b, c) { LexTransitive(BYTE_LE, a, b, c); }
  }

  lemma FieldsOrder()
    ensures TotalOrder(FIELDS_LE)
  {
    TextOrder();
    forall a, b { LexTotal(TEXT_LE, a, b); }
    forall a, b | FIELDS_LE(a, b) && FIELDS_LE(b, a) { LexAntisymmetric(TEXT_LE, a, b); }
    forall a, b, c | FIELDS_LE(a, b) && FIELDS_LE(b, c) { LexTransitive(TEXT_LE, a, b, c); }
  }

  // ---- least elements and sorted listings ---------------------------------------------

  ghost predicate IsLeast<T(!new)>(le: (T, T) -> bool, m: T, s: set<T>) {
    m in s && forall x :: x in s ==> le(m, x)
  }

  lemma {:induction false} LeastExists<T(!new)>(le: (T, T) -> bool, s: set<T>) returns (m: T)
    requires TotalOrder(le) && s != {}
    ensures IsLeast(le, m, s)
  {
    m :| m in s;
    if s != {m} {
      var rest := LeastExists(le, s - {m});
      if !le(m, rest) {
        m := rest;
      }
    }
  }

  ghost predicate Sorted<T(!new)>(le: (T, T) -> bool, s: seq<T>) {
    forall i, j :: 0 <= i < j < |s| ==> le(s[i], s[j])
  }

  function Insert<T(!new)>(le: (T, T) -> bool, x: T, s: seq<T>): seq<T> {
    if s == [] then [x]
    else if le(x, s[0]) then [x] + s
    else [s[0]] + Insert(le, x, s[1..])
  }

  function Sort<T(!new)>(le: (T, T) -> bool, s: seq<T>): seq<T> {
    if s == [] then [] else Insert(le, s[0], Sort(le, s[1..]))
  }

  lemma {:induction false} InsertAdds<T(!new)>(le: (T, T) -> bool, x: T, s: seq<T>)
    ensures multiset(Insert(le, x, s)) == multiset(s) + multiset{x}
  {
    if s != [] && !le(x, s[0]) {
      InsertAdds(le, x, s[1..]);
      assert s == [s[0]] + s[1..];
    }
  }

  lemma InsertedMembers<T(!new)>(le: (T, T) -> bool, x: T, s: seq<T>)
    ensures forall y :: y in Insert(le, x, s) ==> y == x || y in s
  {
    InsertAdds(le, x, s);
    forall y | y in Insert(le, x, s)
      ensures y == x || y in s
    {
      assert y in multiset(Insert(le, x, s));
    }
  }

  lemma {:induction false} InsertSorted<T(!new)>(le: (T, T) -> bool, x: T, s: seq<T>)
    requires TotalOrder(le) && Sorted(le, s)
    ensures Sorted(le, Insert(le, x, s))
  {
    if s != [] && !le(x, s[0]) {
      SortedRest(le, s);
      InsertSorted(le, x, s[1..]);
      InsertedMembers(le, x, s[1..]);
      var t := Insert(le, x, s[1..]);
      assert forall j :: 0 <= j < |t| ==> t[j] in t;
    }
  }

  lemma {:induction false} SortSorted<T(!new)>(le: (T, T) -> bool, s: seq<T>)
    requires TotalOrder(le)
    ensures Sorted(le, Sort(le, s)) && multiset(Sort(le, s)) == multiset(s)
  {
    if s != [] {
      SortSorted(le, s[1..]);
      InsertSorted(le, s[0], Sort(le, s[1..]));
      InsertAdds(le, s[0], Sort(le, s[1..]));
      assert s == [s[0]] + s[1..];
    }
  }

  /** Sorting has one possible result. */
  lemma {:induction false} SortedUnique<T(!new)>(le: (T, T) -> bool, s: seq<T>, t: seq<T>)
    requires TotalOrder(le) && Sorted(le, s) && Sorted(le, t) && multiset(s) == multiset(t)
    ensures s == t
  {
    SameLength(s, t);
    if s != [] {
      SameLeast(le, s, t);
      WithoutFirst(s);
      WithoutFirst(t);
      SortedRest(le, s);
      SortedRest(le, t);
      SortedUnique(le, s[1..], t[1..]);
    }
  }

  lemma SameLength<T>(s: seq<T>, t: seq<T>)
    requires multiset(s) == multiset(t)
    ensures |s| == |t|
  {
    assert |multiset(s)| == |s| && |multiset(t)| == |t|;
  }

  lemma SortedRest<T(!new)>(le: (T, T) -> bool, s: seq<T>)
    requires Sorted(le, s) && s != []
    ensures Sorted(le, s[1..])
  {
  }

  lemma SameLeast<T(!new)>(le: (T, T) -> bool, s: seq<T>, t: seq<T>)
    requires TotalOrder(le) && Sorted(le, s) && Sorted(le, t) && multiset(s) == multiset(t) && s != [] && t != []
    ensures s[0] == t[0]
  {
    assert s[0] in multiset(t) && t[0] in multiset(s);
  }

  lemma WithoutFirst<T>(s: seq<T>)
    requires s != []
    ensures s == [s[0]] + s[1..] && multiset(s[1..]) == multiset(s) - multiset{s[0]}
  {
    assert s == [s[0]] + s[1..];
  }

  /** Strictly ascending by a key made of text fields: how a BTreeSet or BTreeMap is listed. */
  ghost predicate StrictBy<T(!new)>(key: T -> seq<Text>, s: seq<T>) {
    forall i, j :: 0 <= i < j < |s| ==> FIELDS_LE(key(s[i]), key(s[j])) && key(s[i]) != key(s[j])
  }

  /** A set has exactly one strictly ascending listing. */
  lemma {:induction false} StrictByUnique<T(!new)>(key: T -> seq<Text>, s: seq<T>, t: seq<T>)
    requires StrictBy(key, s) && StrictBy(key, t) && forall x :: x in s <==> x in t
    ensures s == t
  {
    assert t == [] || t[0] in t;
    if s != [] {
      assert s[0] in t && t != [] && t[0] in s;
      FieldsOrder();
      assert FIELDS_LE(key(t[0]), key(s[0])) && FIELDS_LE(key(s[0]), key(t[0]));
      assert s[0] == t[0];
      forall x
        ensures x in s[1..] <==> x in t[1..]
      {
        assert x in s <==> x == s[0] || x in s[1..];
        assert x in t <==> x == t[0] || x in t[1..];
        assert s[0] !in s[1..] && t[0] !in t[1..];
      }
      StrictByUnique(key, s[1..], t[1..]);
      assert s == [s[0]] + s[1..] && t == [t[0]] + t[1..];
    }
  }

  method ListAscending<T(==,!new)>(key: T -> seq<Text>, s: set<T>) returns (r: seq<T>)
    requires forall x, y :: x in s && y in s && key(x) == key(y) ==> x == y
    ensures StrictBy(key, r) && forall x :: x in r <==> x in s
  {
    r := [];
    var rest := s;
    FieldsOrder();
    while rest != {}
      invariant rest <= s && StrictBy(key, r)
      invariant forall x :: x in s <==> x in r || x in rest
      invariant forall x, y :: x in r && y in rest ==> FIELDS_LE(key(x), key(y)) && key(x) != key(y)
      decreases rest
    {
      LeastKey(key, rest);
      var m :| m in rest && forall x :: x in rest ==> FIELDS_LE(key(m), key(x));
      r := r + [m];
      rest := rest - {m};
    }
  }

  lemma {:induction false} LeastKey<T(!new)>(key: T -> seq<Text>, s: set<T>)
    requires s != {}
    ensures exists m :: m in s && forall x :: x in s ==> FIELDS_LE(key(m), key(x))
  {
    FieldsOrder();
    var keys := set x | x in s :: key(x);
    var x :| x in s;
    assert key(x) in keys;
    var k := LeastExists(FIELDS_LE, keys);
    var m :| m in s && key(m) == k;
  }
}

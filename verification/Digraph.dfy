/** Finite directed graphs given by their edge set: walks, reachability, acyclicity and
    the length of the longest walk that ends at a vertex. */
module Digraph {
  import opened Basics

  ghost predicate IsWalk<T(!new)>(edges: set<(T, T)>, walk: seq<T>) {
    && walk != []
    && forall i :: 0 <= i < |walk| - 1 ==> (walk[i], walk[i + 1]) in edges
  }

  ghost predicate WalkBetween<T(!new)>(edges: set<(T, T)>, walk: seq<T>, a: T, b: T) {
    IsWalk(edges, walk) && walk[0] == a && walk[|walk| - 1] == b
  }

  ghost predicate ShortestWalk<T(!new)>(edges: set<(T, T)>, walk: seq<T>, a: T, b: T) {
    WalkBetween(edges, walk, a, b) && forall other :: WalkBetween(edges, other, a, b) ==> |walk| <= |other|
  }

  /** Reflexive: the one-vertex walk joins every vertex to itself. */
  ghost predicate Reaches<T(!new)>(edges: set<(T, T)>, a: T, b: T) {
    exists walk :: WalkBetween(edges, walk, a, b)
  }

  ghost predicate IsClosedWalk<T(!new)>(edges: set<(T, T)>, walk: seq<T>) {
    |walk| >= 2 && IsWalk(edges, walk) && walk[0] == walk[|walk| - 1]
  }

  ghost predicate Acyclic<T(!new)>(edges: set<(T, T)>) {
    forall walk :: !IsClosedWalk(edges, walk)
  }

  /** A topological numbering: every edge goes to a strictly larger number. */
  ghost predicate IsRank<T(!new)>(edges: set<(T, T)>, rank: map<T, nat>) {
    forall e :: e in edges ==> e.0 in rank && e.1 in rank && rank[e.0] < rank[e.1]
  }

  ghost predicate WalkInto<T(!new)>(edges: set<(T, T)>, walk: seq<T>, v: T, k: nat) {
    IsWalk(edges, walk) && |walk| == k + 1 && walk[k] == v
  }

  /** Some walk of exactly k edges ends at v. */
  ghost predicate PathInto<T(!new)>(edges: set<(T, T)>, v: T, k: nat) {
    exists walk :: WalkInto(edges, walk, v, k)
  }

  /** The longest walk ending at v has exactly k edges. */
  ghost predicate LongestInto<T(!new)>(edges: set<(T, T)>, v: T, k: nat) {
    PathInto(edges, v, k) && !PathInto(edges, v, k + 1)
  }

  ghost function Transposed<T(!new)>(edges: set<(T, T)>): set<(T, T)> {
    set e | e in edges :: (e.1, e.0)
  }

  // ---- reachability -------------------------------------------------------------------

  lemma ReachesSelf<T(!new)>(edges: set<(T, T)>, a: T)
    ensures Reaches(edges, a, a)
  {
    assert WalkBetween(edges, [a], a, a);
  }

  lemma ReachesEdge<T(!new)>(edges: set<(T, T)>, a: T, b: T)
    requires (a, b) in edges
    ensures Reaches(edges, a, b)
  {
    assert WalkBetween(edges, [a, b], a, b);
  }

  lemma ReachesTrans<T(!new)>(edges: set<(T, T)>, a: T, b: T, c: T)
    requires Reaches(edges, a, b) && Reaches(edges, b, c)
    ensures Reaches(edges, a, c)
  {
    var p :| WalkBetween(edges, p, a, b);
    var q :| WalkBetween(edges, q, b, c);
    var r := p + q[1..];
    forall i | 0 <= i < |r| - 1
      ensures (r[i], r[i + 1]) in edges
    {
      if i < |p| - 1 {
        assert (p[i], p[i + 1]) in edges;
      } else {
        assert r[i] == q[i - |p| + 1] && r[i + 1] == q[i - |p| + 2];
      }
    }
    assert WalkBetween(edges, r, a, c);
  }

  lemma ReachesMonotone<T(!new)>(small: set<(T, T)>, large: set<(T, T)>, a: T, b: T)
    requires small <= large && Reaches(small, a, b)
    ensures Reaches(large, a, b)
  {
    var p :| WalkBetween(small, p, a, b);
    assert WalkBetween(large, p, a, b);
  }

  /** A set that is closed under the edges contains everything reachable from its members. */
  lemma {:induction false} ClosedContainsReachable<T(!new)>(edges: set<(T, T)>, closed: set<T>, walk: seq<T>)
    requires forall e :: e in edges && e.0 in closed ==> e.1 in closed
    requires IsWalk(edges, walk) && walk[0] in closed
    ensures forall x :: x in walk ==> x in closed
  {
    if |walk| > 1 {
      assert (walk[0], walk[1]) in edges;
      ClosedContainsReachable(edges, closed, walk[1..]);
      assert walk == [walk[0]] + walk[1..];
    }
  }

  lemma TransposedReaches<T(!new)>(edges: set<(T, T)>, a: T, b: T)
    ensures Reaches(Transposed(edges), a, b) <==> Reaches(edges, b, a)
  {
    TransposedTwice(edges);
    if Reaches(edges, b, a) {
      ReversedWalk(edges, b, a);
    }
    if Reaches(Transposed(edges), a, b) {
      ReversedWalk(Transposed(edges), a, b);
    }
  }

  lemma TransposedTwice<T(!new)>(edges: set<(T, T)>)
    ensures Transposed(Transposed(edges)) == edges
  {
    forall e | e in edges
      ensures e in Transposed(Transposed(edges))
    {
      assert (e.1, e.0) in Transposed(edges);
    }
  }

  ghost function Reversed<T>(s: seq<T>): (r: seq<T>)
    ensures |r| == |s| && forall i :: 0 <= i < |s| ==> r[i] == s[|s| - 1 - i]
  {
    seq(|s|, i requires 0 <= i < |s| => s[|s| - 1 - i])
  }

  lemma ReversedWalk<T(!new)>(edges: set<(T, T)>, a: T, b: T)
    requires Reaches(edges, a, b)
    ensures Reaches(Transposed(edges), b, a)
  {
    var p :| WalkBetween(edges, p, a, b);
    var r := Reversed(p);
    ReversedIsWalk(edges, p);
    assert WalkBetween(Transposed(edges), r, b, a);
  }

  lemma ReversedIsWalk<T(!new)>(edges: set<(T, T)>, p: seq<T>)
    requires IsWalk(edges, p)
    ensures IsWalk(Transposed(edges), Reversed(p))
  {
    var r := Reversed(p);
    forall i | 0 <= i < |r| - 1
      ensures (r[i], r[i + 1]) in Transposed(edges)
    {
      var j := |p| - 2 - i;
      assert (p[j], p[j + 1]) in edges;
    }
  }

  // ---- acyclicity ---------------------------------------------------------------------

  lemma {:induction false} RankGrowsAlongWalk<T(!new)>(edges: set<(T, T)>, rank: map<T, nat>, walk: seq<T>)
    requires IsRank(edges, rank) && IsWalk(edges, walk) && |walk| >= 2
    ensures walk[0] in rank && walk[|walk| - 1] in rank
    ensures rank[walk[0]] < rank[walk[|walk| - 1]]
  {
    assert (walk[0], walk[1]) in edges;
    if |walk| > 2 {
      RankGrowsAlongWalk(edges, rank, walk[1..]);
    }
  }

  lemma RankMeansAcyclic<T(!new)>(edges: set<(T, T)>, rank: map<T, nat>)
    requires IsRank(edges, rank)
    ensures Acyclic(edges)
  {
    forall walk
      ensures !IsClosedWalk(edges, walk)
    {
      if IsClosedWalk(edges, walk) {
        RankGrowsAlongWalk(edges, rank, walk);
      }
    }
  }

  lemma TransposedAcyclic<T(!new)>(edges: set<(T, T)>)
    requires Acyclic(edges)
    ensures Acyclic(Transposed(edges))
  {
    TransposedTwice(edges);
    forall walk
      ensures !IsClosedWalk(Transposed(edges), walk)
    {
      if IsClosedWalk(Transposed(edges), walk) {
        ReversedIsWalk(Transposed(edges), walk);
        assert IsClosedWalk(edges, Reversed(walk));
      }
    }
  }

  lemma SubsetAcyclic<T(!new)>(small: set<(T, T)>, large: set<(T, T)>)
    requires small <= large && Acyclic(large)
    ensures Acyclic(small)
  {
    forall walk
      ensures !IsClosedWalk(small, walk)
    {
      if IsClosedWalk(small, walk) {
        assert IsClosedWalk(large, walk);
      }
    }
  }

  /** A walk that may use one extra edge (a, b) either avoids it or passes a and then b. */
  lemma {:induction false} WalkWithExtraEdge<T(!new)>(edges: set<(T, T)>, a: T, b: T, walk: seq<T>)
    requires IsWalk(edges + {(a, b)}, walk)
    ensures var x, y := walk[0], walk[|walk| - 1];
            Reaches(edges, x, y) || (Reaches(edges, x, a) && Reaches(edges, b, y))
  {
    var x, y := walk[0], walk[|walk| - 1];
    if |walk| == 1 {
      ReachesSelf(edges, x);
    } else {
      var next := walk[1];
      WalkWithExtraEdge(edges, a, b, walk[1..]);
      assert (walk[0], walk[1]) in edges + {(a, b)};
      if (x, next) in edges {
        ReachesEdge(edges, x, next);
        if Reaches(edges, next, y) {
          ReachesTrans(edges, x, next, y);
        } else {
          ReachesTrans(edges, x, next, a);
        }
      } else {
        ReachesSelf(edges, x);
      }
    }
  }

  /** Adding (a, b) keeps a graph acyclic exactly when b does not already reach a. */
  lemma ExtraEdgeAcyclic<T(!new)>(edges: set<(T, T)>, a: T, b: T)
    requires Acyclic(edges)
    ensures Acyclic(edges + {(a, b)}) <==> !Reaches(edges, b, a)
  {
    if Reaches(edges, b, a) {
      var p :| WalkBetween(edges, p, b, a);
      var c := [a] + p;
      assert IsClosedWalk(edges + {(a, b)}, c);
    } else {
      forall walk
        ensures !IsClosedWalk(edges + {(a, b)}, walk)
      {
        if IsClosedWalk(edges + {(a, b)}, walk) {
          ExtraEdgeClosedWalk(edges, a, b, walk);
        }
      }
    }
  }

  lemma ExtraEdgeClosedWalk<T(!new)>(edges: set<(T, T)>, a: T, b: T, walk: seq<T>)
    requires Acyclic(edges) && IsClosedWalk(edges + {(a, b)}, walk)
    ensures Reaches(edges, b, a)
  {
    var x, next := walk[0], walk[1];
    WalkWithExtraEdge(edges, a, b, walk[1..]);
    assert (walk[0], walk[1]) in edges + {(a, b)};
    if (x, next) in edges {
      if Reaches(edges, next, x) {
        var p :| WalkBetween(edges, p, next, x);
        assert IsClosedWalk(edges, [x] + p);
      } else {
        ReachesEdge(edges, x, next);
        ReachesTrans(edges, b, x, next);
        ReachesTrans(edges, b, next, a);
      }
    }
  }

  // ---- renaming -----------------------------------------------------------------------

  ghost function Renamed<T(!new), U(!new)>(edges: set<(T, T)>, name: map<T, U>): set<(U, U)>
    requires forall e :: e in edges ==> e.0 in name && e.1 in name
  {
    set e | e in edges :: (name[e.0], name[e.1])
  }

  ghost predicate InjectiveMap<T(!new), U(!new)>(name: map<T, U>) {
    forall x, y :: x in name && y in name && name[x] == name[y] ==> x == y
  }

  lemma {:induction false} UnnamedWalk<T(!new), U(!new)>(edges: set<(T, T)>, name: map<T, U>, walk: seq<U>, start: T)
    returns (origin: seq<T>)
    requires forall e :: e in edges ==> e.0 in name && e.1 in name
    requires InjectiveMap(name) && IsWalk(Renamed(edges, name), walk)
    requires start in name && name[start] == walk[0]
    ensures IsWalk(edges, origin) && |origin| == |walk| && origin[0] == start
    ensures origin[|origin| - 1] in name && name[origin[|origin| - 1]] == walk[|walk| - 1]
    decreases |walk|
  {
    if |walk| == 1 {
      origin := [start];
    } else {
      assert (walk[0], walk[1]) in Renamed(edges, name);
      var e :| e in edges && (walk[0], walk[1]) == (name[e.0], name[e.1]);
      var rest := UnnamedWalk(edges, name, walk[1..], e.1);
      origin := [start] + rest;
      assert forall i :: 0 <= i < |origin| - 1 ==> i == 0 || (origin[i], origin[i + 1]) == (rest[i - 1], rest[i]);
    }
  }

  /** Renaming the vertices injectively neither creates nor destroys cycles. */
  lemma RenamedAcyclic<T(!new), U(!new)>(edges: set<(T, T)>, name: map<T, U>)
    requires forall e :: e in edges ==> e.0 in name && e.1 in name
    requires InjectiveMap(name)
    ensures Acyclic(Renamed(edges, name)) <==> Acyclic(edges)
  {
    if walk :| IsClosedWalk(Renamed(edges, name), walk) {
      assert (walk[0], walk[1]) in Renamed(edges, name);
      var e :| e in edges && (walk[0], walk[1]) == (name[e.0], name[e.1]);
      var origin := UnnamedWalk(edges, name, walk, e.0);
      assert IsClosedWalk(edges, origin);
    }
    if walk :| IsClosedWalk(edges, walk) {
      assert (walk[0], walk[1]) in edges;
      forall i | 0 <= i < |walk|
        ensures walk[i] in name
      {
        if i < |walk| - 1 {
          assert (walk[i], walk[i + 1]) in edges;
        }
      }
      var image := seq(|walk|, i requires 0 <= i < |walk| => name[walk[i]]);
      forall i | 0 <= i < |image| - 1
        ensures (image[i], image[i + 1]) in Renamed(edges, name)
      {
        assert (walk[i], walk[i + 1]) in edges;
      }
      assert IsClosedWalk(Renamed(edges, name), image);
    }
  }

  // ---- longest walks ------------------------------------------------------------------

  lemma PathIntoZero<T(!new)>(edges: set<(T, T)>, v: T)
    ensures PathInto(edges, v, 0)
  {
    assert WalkInto(edges, [v], v, 0);
  }

  lemma PathIntoStep<T(!new)>(edges: set<(T, T)>, v: T, k: nat)
    ensures PathInto(edges, v, k + 1) <==> exists u :: (u, v) in edges && PathInto(edges, u, k)
  {
    if PathInto(edges, v, k + 1) {
      var w :| WalkInto(edges, w, v, k + 1);
      assert WalkInto(edges, w[..k + 1], w[k], k);
      assert (w[k], w[k + 1]) in edges;
    }
    if u :| (u, v) in edges && PathInto(edges, u, k) {
      var w :| WalkInto(edges, w, u, k);
      assert WalkInto(edges, w + [v], v, k + 1);
    }
  }

  lemma {:induction false} PathIntoShorter<T(!new)>(edges: set<(T, T)>, v: T, k: nat, j: nat)
    requires j <= k && PathInto(edges, v, k)
    ensures PathInto(edges, v, j)
  {
    if j < k {
      var w :| WalkInto(edges, w, v, k);
      var t := w[1..];
      assert forall i :: 0 <= i < |t| - 1 ==> (t[i], t[i + 1]) == (w[i + 1], w[i + 2]);
      assert WalkInto(edges, t, v, k - 1);
      PathIntoShorter(edges, v, k - 1, j);
    }
  }

  lemma LongestIsUnique<T(!new)>(edges: set<(T, T)>, v: T, j: nat, k: nat)
    requires LongestInto(edges, v, j) && LongestInto(edges, v, k)
    ensures j == k
  {
    if j < k {
      PathIntoShorter(edges, v, k, j + 1);
    } else if k < j {
      PathIntoShorter(edges, v, j, k + 1);
    }
  }

  lemma LongestGrowsAlongEdge<T(!new)>(edges: set<(T, T)>, u: T, v: T, j: nat, k: nat)
    requires (u, v) in edges && LongestInto(edges, u, j) && LongestInto(edges, v, k)
    ensures j < k
  {
    PathIntoStep(edges, v, j);
    if k <= j {
      PathIntoShorter(edges, v, j + 1, k + 1);
    }
  }

  /** Any numbering that strictly grows along edges is at least the longest-walk number. */
  lemma {:induction false} RankBoundsPath<T(!new)>(edges: set<(T, T)>, rank: map<T, nat>, v: T, k: nat)
    requires IsRank(edges, rank) && v in rank && PathInto(edges, v, k)
    ensures rank[v] >= k
  {
    if k > 0 {
      PathIntoStep(edges, v, k - 1);
      var u :| (u, v) in edges && PathInto(edges, u, k - 1);
      RankBoundsPath(edges, rank, u, k - 1);
    }
  }

  lemma {:induction false} NoDupFits<T>(s: seq<T>, within: set<T>)
    requires NoDup(s) && forall x :: x in s ==> x in within
    ensures |s| <= |within|
  {
    if s != [] {
      var n := |s| - 1;
      forall x | x in s[..n]
        ensures x in within - {s[n]}
      {
      }
      NoDupFits(s[..n], within - {s[n]});
    }
  }

  lemma WalkIsNoDup<T(!new)>(edges: set<(T, T)>, walk: seq<T>)
    requires Acyclic(edges) && IsWalk(edges, walk)
    ensures NoDup(walk)
  {
    if i, j :| 0 <= i < j < |walk| && walk[i] == walk[j] {
      RepeatIsCycle(edges, walk, i, j);
    }
  }

  lemma RepeatIsCycle<T(!new)>(edges: set<(T, T)>, walk: seq<T>, i: int, j: int)
    requires IsWalk(edges, walk) && 0 <= i < j < |walk| && walk[i] == walk[j]
    ensures IsClosedWalk(edges, walk[i..j + 1])
  {
    var c := walk[i..j + 1];
    assert forall k :: 0 <= k < |c| - 1 ==> (c[k], c[k + 1]) == (walk[i + k], walk[i + k + 1]);
  }

  /** In an acyclic graph on finitely many vertices no walk has as many edges as there are vertices. */
  lemma AcyclicWalksAreShort<T(!new)>(edges: set<(T, T)>, vertices: set<T>, v: T)
    requires Acyclic(edges) && v in vertices
    requires forall e :: e in edges ==> e.0 in vertices && e.1 in vertices
    ensures !PathInto(edges, v, |vertices|)
  {
    if PathInto(edges, v, |vertices|) {
      var w :| WalkInto(edges, w, v, |vertices|);
      WalkIsNoDup(edges, w);
      forall x | x in w
        ensures x in vertices
      {
        var i :| 0 <= i < |w| && w[i] == x;
        if i < |w| - 1 {
          assert (w[i], w[i + 1]) in edges;
        }
      }
      NoDupFits(w, vertices);
    }
  }

  lemma {:induction false} LongestExistsBelow<T(!new)>(edges: set<(T, T)>, v: T, n: nat) returns (k: nat)
    requires !PathInto(edges, v, n)
    ensures k < n && LongestInto(edges, v, k)
  {
    PathIntoZero(edges, v);
    k := n - 1;
    while !PathInto(edges, v, k)
      invariant k < n && !PathInto(edges, v, k + 1)
      decreases k
    {
      k := k - 1;
    }
  }
}

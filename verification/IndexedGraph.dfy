/** petgraph's index-addressed storage: node weights in a vector, edges as index pairs, and a
    node removal that moves the last node into the hole. */
module IndexedGraph {
  import opened Basics
  import opened Digraph

  datatype Graph<N(!new)> = Graph(nodes: seq<N>, edges: seq<(nat, nat)>) {

    ghost predicate InRange() {
      forall e :: e in edges ==> e.0 < |nodes| && e.1 < |nodes|
    }

    ghost predicate WellFormed() {
      InRange() && NoDup(nodes)
    }

    /** What every `Dag` operation keeps. */
    ghost predicate Valid() {
      WellFormed() && NoDup(edges) && Acyclic(Arcs())
    }

    ghost function Weights(): set<N> {
      set n | n in nodes
    }

    /** The edges between indices. */
    ghost function Links(): set<(nat, nat)> {
      set e | e in edges
    }

    /** The edges between weights: what survives renumbering. */
    ghost function Arcs(): set<(N, N)>
      requires InRange()
    {
      set e | e in edges :: (nodes[e.0], nodes[e.1])
    }
  }

  // ---- node removal -------------------------------------------------------------------

  function Moved(i: nat, hole: nat, last: nat): nat {
    if i == last then hole else i
  }

  /** The edges left after dropping those at `hole` and redirecting `last` into it. */
  function KeptEdges(edges: seq<(nat, nat)>, hole: nat, last: nat): (r: seq<(nat, nat)>) {
    if edges == [] then [] else
      var e := edges[|edges| - 1];
      var rest := KeptEdges(edges[..|edges| - 1], hole, last);
      if e.0 == hole || e.1 == hole then rest
      else rest + [(Moved(e.0, hole, last), Moved(e.1, hole, last))]
  }

  /** petgraph's `remove_node`: swap-remove of the weight, incident edges gone. */
  function RemoveIndex<N(!new)>(g: Graph<N>, hole: nat): Graph<N>
    requires hole < |g.nodes|
  {
    var last := |g.nodes| - 1;
    Graph(g.nodes[hole := g.nodes[last]][..last], KeptEdges(g.edges, hole, last))
  }

  lemma {:induction false} KeptEdgesMembers(edges: seq<(nat, nat)>, hole: nat, last: nat, f: (nat, nat))
    ensures f in KeptEdges(edges, hole, last) <==>
            exists e :: e in edges && e.0 != hole && e.1 != hole
                        && f == (Moved(e.0, hole, last), Moved(e.1, hole, last))
  {
    if edges != [] {
      var n := |edges| - 1;
      KeptEdgesMembers(edges[..n], hole, last, f);
      assert edges == edges[..n] + [edges[n]];
    }
  }

  lemma {:induction false} KeptEdgesNoDup(edges: seq<(nat, nat)>, hole: nat, last: nat)
    requires NoDup(edges)
    ensures NoDup(KeptEdges(edges, hole, last))
  {
    if edges != [] {
      var n := |edges| - 1;
      var e := edges[n];
      KeptEdgesNoDup(edges[..n], hole, last);
      if e.0 != hole && e.1 != hole {
        var f := (Moved(e.0, hole, last), Moved(e.1, hole, last));
        KeptEdgesMembers(edges[..n], hole, last, f);
        assert f !in KeptEdges(edges[..n], hole, last);
      }
    }
  }

  lemma RemoveIndexNodes<N(!new)>(g: Graph<N>, hole: nat)
    requires g.WellFormed() && hole < |g.nodes|
    ensures var h := RemoveIndex(g, hole);
            && |h.nodes| == |g.nodes| - 1
            && NoDup(h.nodes)
            && h.Weights() == g.Weights() - {g.nodes[hole]}
            && h.nodes[..hole] == g.nodes[..hole]
            && forall i :: 0 <= i < |g.nodes| && i != hole ==>
                 Moved(i, hole, |g.nodes| - 1) < |h.nodes| && h.nodes[Moved(i, hole, |g.nodes| - 1)] == g.nodes[i]
  {
    var last := |g.nodes| - 1;
    var h := RemoveIndex(g, hole);
    assert forall i :: 0 <= i < |h.nodes| ==> h.nodes[i] == g.nodes[if i == hole then last else i];
    forall i | 0 <= i < |g.nodes| && i != hole
      ensures Moved(i, hole, last) < |h.nodes| && h.nodes[Moved(i, hole, last)] == g.nodes[i]
    {
    }
    forall n | n in g.Weights() - {g.nodes[hole]}
      ensures n in h.Weights()
    {
      var i :| 0 <= i < |g.nodes| && g.nodes[i] == n;
      assert h.nodes[Moved(i, hole, last)] == n;
    }
  }

  lemma RemoveIndexArc<N(!new)>(g: Graph<N>, hole: nat, a: (N, N))
    requires g.WellFormed() && hole < |g.nodes|
    ensures var h := RemoveIndex(g, hole);
            && h.InRange()
            && (a in h.Arcs() <==> a in g.Arcs() && a.0 != g.nodes[hole] && a.1 != g.nodes[hole])
  {
    var last := |g.nodes| - 1;
    var h := RemoveIndex(g, hole);
    RemoveIndexNodes(g, hole);
    forall f | f in h.edges
      ensures f.0 < |h.nodes| && f.1 < |h.nodes|
    {
      KeptEdgesMembers(g.edges, hole, last, f);
    }
    if a in h.Arcs() {
      ArcBefore(g, hole, a);
    }
    if a in g.Arcs() && a.0 != g.nodes[hole] && a.1 != g.nodes[hole] {
      ArcAfter(g, hole, a);
    }
  }

  lemma ArcBefore<N(!new)>(g: Graph<N>, hole: nat, a: (N, N))
    requires g.WellFormed() && hole < |g.nodes| && RemoveIndex(g, hole).InRange() && a in RemoveIndex(g, hole).Arcs()
    ensures a in g.Arcs() && a.0 != g.nodes[hole] && a.1 != g.nodes[hole]
  {
    var last := |g.nodes| - 1;
    var h := RemoveIndex(g, hole);
    RemoveIndexNodes(g, hole);
    var f :| f in h.edges && a == (h.nodes[f.0], h.nodes[f.1]);
    KeptEdgesMembers(g.edges, hole, last, f);
    var e :| e in g.edges && e.0 != hole && e.1 != hole
             && f == (Moved(e.0, hole, last), Moved(e.1, hole, last));
    assert a == (g.nodes[e.0], g.nodes[e.1]);
  }

  lemma ArcAfter<N(!new)>(g: Graph<N>, hole: nat, a: (N, N))
    requires g.WellFormed() && hole < |g.nodes| && RemoveIndex(g, hole).InRange()
    requires a in g.Arcs() && a.0 != g.nodes[hole] && a.1 != g.nodes[hole]
    ensures a in RemoveIndex(g, hole).Arcs()
  {
    var last := |g.nodes| - 1;
    var h := RemoveIndex(g, hole);
    RemoveIndexNodes(g, hole);
    var e :| e in g.edges && a == (g.nodes[e.0], g.nodes[e.1]);
    var f := (Moved(e.0, hole, last), Moved(e.1, hole, last));
    KeptEdgesMembers(g.edges, hole, last, f);
    assert a == (h.nodes[f.0], h.nodes[f.1]);
  }

  /** Swap-removal by index is removal of the weight: everything else, edges included, survives. */
  lemma RemoveIndexRefinesRemoval<N(!new)>(g: Graph<N>, hole: nat)
    requires g.WellFormed() && hole < |g.nodes|
    ensures var h := RemoveIndex(g, hole);
            && h.WellFormed()
            && |h.nodes| == |g.nodes| - 1
            && h.Weights() == g.Weights() - {g.nodes[hole]}
            && h.nodes[..hole] == g.nodes[..hole]
            && h.Arcs() == set a | a in g.Arcs() && a.0 != g.nodes[hole] && a.1 != g.nodes[hole]
  {
    RemoveIndexNodes(g, hole);
    RemoveIndexArc(g, hole, (g.nodes[hole], g.nodes[hole]));
    forall a: (N, N) {
      RemoveIndexArc(g, hole, a);
    }
  }

  // ---- runs of operations -------------------------------------------------------------

  datatype Op<N> = InsertNode(node: N) | DeleteNode(node: N) | InsertEdge(a: nat, b: nat)

  function WithNode<N(==,!new)>(g: Graph<N>, node: N): Graph<N> {
    if node in g.nodes then g else g.(nodes := g.nodes + [node])
  }

  function WithoutNode<N(==,!new)>(g: Graph<N>, node: N): Graph<N> {
    match FindIndex(g.nodes, node)
    case None => g
    case Some(i) => RemoveIndex(g, i)
  }

  /** The edge is taken only when it is new and closes no cycle. */
  ghost function WithEdge<N(!new)>(g: Graph<N>, a: nat, b: nat): Graph<N> {
    if a < |g.nodes| && b < |g.nodes| && (a, b) !in g.edges && !Reaches(g.Links(), b, a)
    then g.(edges := g.edges + [(a, b)])
    else g
  }

  ghost function Apply<N(!new)>(g: Graph<N>, op: Op<N>): Graph<N> {
    match op
    case InsertNode(node) => WithNode(g, node)
    case DeleteNode(node) => WithoutNode(g, node)
    case InsertEdge(a, b) => WithEdge(g, a, b)
  }

  ghost function Run<N(!new)>(ops: seq<Op<N>>): Graph<N> {
    if ops == [] then Graph([], [])
    else Apply(Run(ops[..|ops| - 1]), ops[|ops| - 1])
  }

  lemma {:induction false} LiftedReach<N(!new)>(g: Graph<N>, walk: seq<nat>)
    requires g.WellFormed() && IsWalk(g.Links(), walk) && walk[0] < |g.nodes|
    ensures walk[|walk| - 1] < |g.nodes|
    ensures Reaches(g.Arcs(), g.nodes[walk[0]], g.nodes[walk[|walk| - 1]])
  {
    if |walk| == 1 {
      ReachesSelf(g.Arcs(), g.nodes[walk[0]]);
    } else {
      assert (walk[0], walk[1]) in g.edges;
      assert (g.nodes[walk[0]], g.nodes[walk[1]]) in g.Arcs();
      LiftedReach(g, walk[1..]);
      ReachesEdge(g.Arcs(), g.nodes[walk[0]], g.nodes[walk[1]]);
      ReachesTrans(g.Arcs(), g.nodes[walk[0]], g.nodes[walk[1]], g.nodes[walk[|walk| - 1]]);
    }
  }

  /** A walk over weights is one over indices, of the same length. */
  lemma {:induction false} LoweredWalk<N(!new)>(g: Graph<N>, a: nat, b: nat, walk: seq<N>) returns (p: seq<nat>)
    requires g.WellFormed() && a < |g.nodes| && b < |g.nodes|
    requires WalkBetween(g.Arcs(), walk, g.nodes[a], g.nodes[b])
    ensures WalkBetween(g.Links(), p, a, b) && |p| == |walk|
    decreases |walk|
  {
    if |walk| == 1 {
      p := [a];
    } else {
      assert (walk[0], walk[1]) in g.Arcs();
      var e :| e in g.edges && (walk[0], walk[1]) == (g.nodes[e.0], g.nodes[e.1]);
      var rest := LoweredWalk(g, e.1, b, walk[1..]);
      p := [a] + rest;
      assert (a, e.1) in g.Links();
      assert forall i :: 0 < i < |p| - 1 ==> (p[i], p[i + 1]) == (rest[i - 1], rest[i]);
    }
  }

  /** Distinct weights make index reachability and weight reachability the same thing. */
  lemma SameReach<N(!new)>(g: Graph<N>, a: nat, b: nat)
    requires g.WellFormed() && a < |g.nodes| && b < |g.nodes|
    ensures Reaches(g.Links(), a, b) <==> Reaches(g.Arcs(), g.nodes[a], g.nodes[b])
  {
    if Reaches(g.Links(), a, b) {
      var walk :| WalkBetween(g.Links(), walk, a, b);
      LiftedReach(g, walk);
    }
    if Reaches(g.Arcs(), g.nodes[a], g.nodes[b]) {
      var walk :| WalkBetween(g.Arcs(), walk, g.nodes[a], g.nodes[b]);
      var p := LoweredWalk(g, a, b, walk);
    }
  }

  lemma WithNodeValid<N(!new)>(g: Graph<N>, node: N)
    requires g.Valid()
    ensures var h := WithNode(g, node); h.Valid() && h.Weights() == g.Weights() + {node} && h.Arcs() == g.Arcs()
  {
    var h := WithNode(g, node);
    assert h.Arcs() == g.Arcs();
  }

  lemma WithoutNodeValid<N(!new)>(g: Graph<N>, node: N)
    requires g.Valid()
    ensures var h := WithoutNode(g, node);
            && h.Valid()
            && h.Weights() == g.Weights() - {node}
            && h.Arcs() == set a | a in g.Arcs() && a.0 != node && a.1 != node
  {
    match FindIndex(g.nodes, node)
    case None =>
      forall a | a in g.Arcs()
        ensures a.0 != node && a.1 != node
      {
        var e :| e in g.edges && a == (g.nodes[e.0], g.nodes[e.1]);
      }
    case Some(i) =>
      RemoveIndexRefinesRemoval(g, i);
      KeptEdgesNoDup(g.edges, i, |g.nodes| - 1);
      SubsetAcyclic(RemoveIndex(g, i).Arcs(), g.Arcs());
  }

  lemma WithEdgeValid<N(!new)>(g: Graph<N>, a: nat, b: nat)
    requires g.Valid()
    ensures WithEdge(g, a, b).Valid()
  {
    var h := WithEdge(g, a, b);
    if h != g {
      assert h.Arcs() == g.Arcs() + {(g.nodes[a], g.nodes[b])};
      SameReach(g, b, a);
      ExtraEdgeAcyclic(g.Arcs(), g.nodes[a], g.nodes[b]);
    }
  }

  /** Every run of insertions and renumbering removals from the empty graph stays a valid DAG. */
  lemma {:induction false} RunIsValid<N(!new)>(ops: seq<Op<N>>)
    ensures Run(ops).Valid()
  {
    if ops == [] {
      var g: Graph<N> := Graph([], []);
      RankMeansAcyclic(g.Arcs(), map[]);
    } else {
      var g := Run(ops[..|ops| - 1]);
      RunIsValid(ops[..|ops| - 1]);
      match ops[|ops| - 1]
      case InsertNode(node) => WithNodeValid(g, node);
      case DeleteNode(node) => WithoutNodeValid(g, node);
      case InsertEdge(a, b) => WithEdgeValid(g, a, b);
    }
  }
}

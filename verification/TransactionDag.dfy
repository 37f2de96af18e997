/** The `Dag` type and its algorithms: acyclic edge insertion, layered topological batches,
    transposition and the subgraph reachable from given weights. */
module TransactionDag {
  import opened Basics
  import opened Digraph
  import opened IndexedGraph

  // ---- listing nodes and neighbours ---------------------------------------------------

  predicate HasIncoming(edges: seq<(nat, nat)>, v: nat) {
    exists e :: e in edges && e.1 == v
  }

  ghost predicate Ascending(s: seq<nat>) {
    forall j, k :: 0 <= j < k < |s| ==> s[j] < s[k]
  }

  ghost predicate Below(s: seq<nat>, n: nat) {
    forall j :: 0 <= j < |s| ==> s[j] < n
  }

  /** Indices below n without an incoming edge, ascending: `externals(Incoming)`. */
  function Sources(edges: seq<(nat, nat)>, n: nat): (r: seq<nat>)
    ensures forall i: nat :: i in r <==> i < n && !HasIncoming(edges, i)
    ensures Ascending(r) && Below(r, n)
  {
    if n == 0 then [] else
      var rest := Sources(edges, n - 1);
      if HasIncoming(edges, n - 1) then rest else rest + [n - 1]
  }

  /** Outgoing neighbours, newest edge first. */
  function Successors(edges: seq<(nat, nat)>, v: nat): (r: seq<nat>)
    ensures forall j :: j in r <==> (v, j) in edges
    ensures NoDup(edges) ==> NoDup(r)
  {
    if edges == [] then [] else
      var n := |edges| - 1;
      assert edges == edges[..n] + [edges[n]];
      var rest := Successors(edges[..n], v);
      if edges[n].0 == v then [edges[n].1] + rest else rest
  }

  function Pick<N(!new)>(nodes: seq<N>, indices: seq<nat>): (r: seq<N>)
    requires Below(indices, |nodes|)
    ensures |r| == |indices| && forall k :: 0 <= k < |r| ==> r[k] == nodes[indices[k]]
  {
    if indices == [] then [] else
      Pick(nodes, indices[..|indices| - 1]) + [nodes[indices[|indices| - 1]]]
  }

  // ---- layered batches ----------------------------------------------------------------

  /** What remains after k rounds: the induced graph on weights with a walk of k edges into them. */
  ghost predicate IsRemainder<N(!new)>(whole: Graph<N>, rest: Graph<N>, k: nat)
    requires whole.WellFormed()
  {
    && rest.WellFormed()
    && (forall v :: v in rest.Weights() <==> v in whole.Weights() && PathInto(whole.Arcs(), v, k))
    && rest.Arcs() == set a | a in whole.Arcs() && a.0 in rest.Weights() && a.1 in rest.Weights()
  }

  lemma HasIncomingArc<N(!new)>(g: Graph<N>, i: nat)
    requires g.WellFormed() && i < |g.nodes|
    ensures HasIncoming(g.edges, i) <==> exists u :: (u, g.nodes[i]) in g.Arcs()
  {
    if HasIncoming(g.edges, i) {
      var e :| e in g.edges && e.1 == i;
      assert (g.nodes[e.0], g.nodes[i]) in g.Arcs();
    }
    if u :| (u, g.nodes[i]) in g.Arcs() {
      var e :| e in g.edges && (u, g.nodes[i]) == (g.nodes[e.0], g.nodes[e.1]);
      assert e.1 == i;
    }
  }

  lemma ArcEnds<N(!new)>(g: Graph<N>, a: (N, N))
    requires g.InRange() && a in g.Arcs()
    ensures a.0 in g.Weights() && a.1 in g.Weights()
  {
    var e :| e in g.edges && a == (g.nodes[e.0], g.nodes[e.1]);
  }

  /** A weight of the remainder has an incoming arc exactly when a longer walk ends there. */
  lemma SourcesAreDone<N(!new)>(whole: Graph<N>, rest: Graph<N>, k: nat, i: nat)
    requires whole.WellFormed() && IsRemainder(whole, rest, k) && i < |rest.nodes|
    ensures HasIncoming(rest.edges, i) <==> PathInto(whole.Arcs(), rest.nodes[i], k + 1)
  {
    var v := rest.nodes[i];
    assert v in rest.Weights();
    HasIncomingArc(rest, i);
    PathIntoStep(whole.Arcs(), v, k);
    if u :| (u, v) in whole.Arcs() && PathInto(whole.Arcs(), u, k) {
      ArcEnds(whole, (u, v));
      assert (u, v) in rest.Arcs();
    }
    if u :| (u, v) in rest.Arcs() {
      ArcEnds(rest, (u, v));
    }
  }

  /** Batch k holds, once each, exactly the weights whose longest incoming walk has k edges. */
  ghost predicate IsBatch<N(!new)>(g: Graph<N>, batch: seq<N>, k: nat)
    requires g.WellFormed()
  {
    && NoDup(batch)
    && forall v :: v in batch <==> v in g.Weights() && LongestInto(g.Arcs(), v, k)
  }

  ghost predicate AreBatches<N(!new)>(g: Graph<N>, batches: seq<seq<N>>)
    requires g.WellFormed()
  {
    && (forall k :: 0 <= k < |batches| ==> batches[k] != [] && IsBatch(g, batches[k], k))
    && (forall v, k: nat :: v in g.Weights() && LongestInto(g.Arcs(), v, k) ==> k < |batches|)
  }

  ghost function WeightsAt<N(!new)>(nodes: seq<N>, indices: seq<nat>): set<N>
    requires Below(indices, |nodes|)
  {
    set j | 0 <= j < |indices| :: nodes[indices[j]]
  }

  lemma WeightsAtStep<N(!new)>(nodes: seq<N>, indices: seq<nat>, i: nat)
    requires Below(indices, |nodes|) && i < |indices|
    ensures WeightsAt(nodes, indices[i..]) == WeightsAt(nodes, indices[i + 1..]) + {nodes[indices[i]]}
  {
    var all, rest := indices[i..], indices[i + 1..];
    forall n | n in WeightsAt(nodes, rest)
      ensures n in WeightsAt(nodes, all)
    {
      var j :| 0 <= j < |rest| && n == nodes[rest[j]];
      assert n == nodes[all[j + 1]];
    }
    assert nodes[indices[i]] == nodes[all[0]];
    forall n | n in WeightsAt(nodes, all)
      ensures n in WeightsAt(nodes, rest) + {nodes[indices[i]]}
    {
      var j :| 0 <= j < |all| && n == nodes[all[j]];
      if j > 0 {
        assert n == nodes[rest[j - 1]];
      }
    }
  }

  method RemoveAll<N(!new)>(h: Graph<N>, sources: seq<nat>) returns (g: Graph<N>)
    requires h.WellFormed()
    requires Below(sources, |h.nodes|) && Ascending(sources)
    ensures g.WellFormed()
    ensures |g.nodes| == |h.nodes| - |sources|
    ensures g.Weights() == h.Weights() - WeightsAt(h.nodes, sources)
    ensures g.Arcs() == set a | a in h.Arcs() && a.0 in g.Weights() && a.1 in g.Weights()
  {
    g := h;
    var i := |sources|;
    forall a | a in h.Arcs() {
      ArcEnds(h, a);
    }
    while i > 0
      invariant 0 <= i <= |sources|
      invariant g.WellFormed()
      invariant |g.nodes| == |h.nodes| - (|sources| - i)
      invariant g.Weights() == h.Weights() - WeightsAt(h.nodes, sources[i..])
      invariant g.Arcs() == set a | a in h.Arcs() && a.0 in g.Weights() && a.1 in g.Weights()
      invariant var untouched := if i == |sources| then |h.nodes| else sources[i];
                untouched <= |g.nodes| && g.nodes[..untouched] == h.nodes[..untouched]
    {
      i := i - 1;
      ghost var before := g;
      ghost var untouched := if i + 1 == |sources| then |h.nodes| else sources[i + 1];
      assert sources[i] < untouched;
      assert g.nodes[sources[i]] == g.nodes[..untouched][sources[i]] == h.nodes[sources[i]];
      RemoveIndexRefinesRemoval(g, sources[i]);
      g := RemoveIndex(g, sources[i]);
      WeightsAtStep(h.nodes, sources, i);
      assert g.nodes[..sources[i]] == before.nodes[..sources[i]] == before.nodes[..untouched][..sources[i]];
      assert h.nodes[..untouched][..sources[i]] == h.nodes[..sources[i]];
    }
    assert sources[0..] == sources;
  }

  /** `batched_topo`. The contract holds of every graph with distinct weights; on a cyclic one
      the loop stops early and leaves out the weights with arbitrarily long incoming walks. */
  method LayeredBatches<N(!new)>(whole: Graph<N>) returns (batches: seq<seq<N>>)
    requires whole.WellFormed()
    ensures AreBatches(whole, batches)
  {
    var g := whole;
    batches := [];
    WholeIsRemainder(whole);
    while |g.nodes| > 0
      invariant IsRemainder(whole, g, |batches|)
      invariant forall k :: 0 <= k < |batches| ==> batches[k] != [] && IsBatch(whole, batches[k], k)
      decreases |g.nodes|
    {
      var sources := Sources(g.edges, |g.nodes|);
      if sources == [] { break; }
      var batch, rest := TakeBatch(whole, g, |batches|, sources);
      batches := batches + [batch];
      g := rest;
    }
    NoSourcesNoMore(whole, g, |batches|);
  }

  /** One round: the present sources become a batch and leave the graph. */
  method TakeBatch<N(!new)>(ghost whole: Graph<N>, g: Graph<N>, ghost k: nat, sources: seq<nat>) returns (batch: seq<N>, rest: Graph<N>)
    requires whole.WellFormed() && IsRemainder(whole, g, k) && sources == Sources(g.edges, |g.nodes|) && sources != []
    ensures batch != [] && IsBatch(whole, batch, k)
    ensures IsRemainder(whole, rest, k + 1) && |rest.nodes| < |g.nodes|
  {
    batch := Pick(g.nodes, sources);
    PickIsBatch(whole, g, k, sources, batch);
    rest := RemoveAll(g, sources);
    NextRemainder(whole, g, rest, k, sources);
  }

  lemma WholeIsRemainder<N(!new)>(whole: Graph<N>)
    requires whole.WellFormed()
    ensures IsRemainder(whole, whole, 0)
  {
    forall a | a in whole.Arcs() {
      ArcEnds(whole, a);
    }
    forall v {
      PathIntoZero(whole.Arcs(), v);
    }
  }

  lemma PickIsBatch<N(!new)>(whole: Graph<N>, g: Graph<N>, k: nat, sources: seq<nat>, batch: seq<N>)
    requires whole.WellFormed() && IsRemainder(whole, g, k)
    requires sources == Sources(g.edges, |g.nodes|) && batch == Pick(g.nodes, sources)
    ensures IsBatch(whole, batch, k)
  {
    assert forall j :: 0 <= j < |batch| ==> batch[j] == g.nodes[sources[j]];
    forall v | v in batch
      ensures v in whole.Weights() && LongestInto(whole.Arcs(), v, k)
    {
      var j :| 0 <= j < |batch| && batch[j] == v;
      assert sources[j] in sources && batch[j] == g.nodes[sources[j]];
      SourcesAreDone(whole, g, k, sources[j]);
      assert v in g.Weights();
    }
    forall v | v in whole.Weights() && LongestInto(whole.Arcs(), v, k)
      ensures v in batch
    {
      assert v in g.Weights();
      var i: nat :| i < |g.nodes| && g.nodes[i] == v;
      SourcesAreDone(whole, g, k, i);
      assert i in sources;
      var j :| 0 <= j < |sources| && sources[j] == i;
      assert batch[j] == v;
    }
  }

  lemma NextRemainder<N(!new)>(whole: Graph<N>, g: Graph<N>, rest: Graph<N>, k: nat, sources: seq<nat>)
    requires whole.WellFormed() && IsRemainder(whole, g, k)
    requires sources == Sources(g.edges, |g.nodes|)
    requires rest.WellFormed()
    requires rest.Weights() == g.Weights() - WeightsAt(g.nodes, sources)
    requires rest.Arcs() == set a | a in g.Arcs() && a.0 in rest.Weights() && a.1 in rest.Weights()
    ensures IsRemainder(whole, rest, k + 1)
  {
    forall v
      ensures v in rest.Weights() <==> v in whole.Weights() && PathInto(whole.Arcs(), v, k + 1)
    {
      if v in whole.Weights() && PathInto(whole.Arcs(), v, k + 1) {
        PathIntoShorter(whole.Arcs(), v, k + 1, k);
      }
      if v in g.Weights() {
        var i: nat :| i < |g.nodes| && g.nodes[i] == v;
        SourcesAreDone(whole, g, k, i);
      }
    }
  }

  /** Without a source every remaining weight has walks of every length into it. */
  lemma {:induction false} StuckForever<N(!new)>(whole: Graph<N>, g: Graph<N>, k: nat, v: N, n: nat)
    requires whole.WellFormed() && IsRemainder(whole, g, k)
    requires forall u :: u in g.Weights() ==> PathInto(whole.Arcs(), u, k + 1)
    requires v in g.Weights()
    ensures PathInto(whole.Arcs(), v, k + n)
  {
    if n > 0 {
      PathIntoStep(whole.Arcs(), v, k);
      var u :| (u, v) in whole.Arcs() && PathInto(whole.Arcs(), u, k);
      ArcEnds(whole, (u, v));
      StuckForever(whole, g, k, u, n - 1);
      PathIntoStep(whole.Arcs(), v, k + n - 1);
    }
  }

  lemma NoSourcesNoMore<N(!new)>(whole: Graph<N>, g: Graph<N>, k: nat)
    requires whole.WellFormed() && IsRemainder(whole, g, k)
    requires Sources(g.edges, |g.nodes|) == []
    ensures forall v, j: nat :: v in whole.Weights() && LongestInto(whole.Arcs(), v, j) ==> j < k
  {
    forall u | u in g.Weights()
      ensures PathInto(whole.Arcs(), u, k + 1)
    {
      var i: nat :| i < |g.nodes| && g.nodes[i] == u;
      assert i !in Sources(g.edges, |g.nodes|);
      SourcesAreDone(whole, g, k, i);
    }
    forall v, j: nat | v in whole.Weights() && LongestInto(whole.Arcs(), v, j)
      ensures j < k
    {
      if j >= k {
        PathIntoShorter(whole.Arcs(), v, j, k);
        StuckForever(whole, g, k, v, j + 1 - k);
      }
    }
  }

  /** On a DAG the batches partition the weights and every edge goes to a strictly later batch. */
  lemma BatchesPartition<N(!new)>(g: Graph<N>, batches: seq<seq<N>>)
    requires g.Valid() && AreBatches(g, batches)
    ensures forall v :: v in g.Weights() ==> exists k :: 0 <= k < |batches| && v in batches[k]
    ensures forall j, k, v :: 0 <= j < |batches| && 0 <= k < |batches| && v in batches[j] && v in batches[k] ==> j == k
    ensures forall u, v, j, k ::
              (u, v) in g.Arcs() && 0 <= j < |batches| && 0 <= k < |batches| && u in batches[j] && v in batches[k]
              ==> j < k
  {
    var arcs := g.Arcs();
    forall a | a in arcs {
      ArcEnds(g, a);
    }
    forall v | v in g.Weights()
      ensures exists k :: 0 <= k < |batches| && v in batches[k]
    {
      AcyclicWalksAreShort(arcs, g.Weights(), v);
      var k := LongestExistsBelow(arcs, v, |g.Weights()|);
      assert v in batches[k];
    }
    forall j, k, v | 0 <= j < |batches| && 0 <= k < |batches| && v in batches[j] && v in batches[k]
      ensures j == k
    {
      LongestIsUnique(arcs, v, j, k);
    }
    forall u, v, j, k | (u, v) in arcs && 0 <= j < |batches| && 0 <= k < |batches| && u in batches[j] && v in batches[k]
      ensures j < k
    {
      LongestGrowsAlongEdge(arcs, u, v, j, k);
    }
  }

  /** No assignment of the weights to stages that respects the edges uses fewer stages. */
  lemma BatchCountIsMinimal<N(!new)>(g: Graph<N>, batches: seq<seq<N>>, stage: map<N, nat>, stages: nat)
    requires g.WellFormed() && AreBatches(g, batches)
    requires IsRank(g.Arcs(), stage) && g.Weights() <= stage.Keys
    requires forall v :: v in g.Weights() ==> stage[v] < stages
    ensures |batches| <= stages
  {
    if batches != [] {
      var k := |batches| - 1;
      var v := batches[k][0];
      assert v in batches[k];
      RankBoundsPath(g.Arcs(), stage, v, k);
    }
  }

  // ---- path search --------------------------------------------------------------------

  ghost function Indices(n: nat): (r: set<nat>)
    ensures forall i: nat :: i in r <==> i < n
  {
    if n == 0 then {} else Indices(n - 1) + {n - 1}
  }

  /** Every vertex found has a walk from the start. */
  ghost predicate HasWalks<N(!new)>(g: Graph<N>, start: nat, found: map<nat, seq<nat>>)
    requires g.InRange()
  {
    forall u :: u in found ==> u < |g.nodes| && WalkBetween(g.Links(), found[u], start, u)
  }

  /** The walks of the waiting vertices never get shorter. */
  ghost predicate Ordered(found: map<nat, seq<nat>>, queue: seq<nat>) {
    && (forall q :: q in queue ==> q in found)
    && (forall i, j :: 0 <= i < j < |queue| ==> |found[queue[i]]| <= |found[queue[j]]|)
  }

  /** No walk found is more than one step longer. */
  ghost predicate Within(found: map<nat, seq<nat>>, length: nat) {
    forall u :: u in found ==> |found[u]| <= length + 1
  }

  /** One step from a vertex that is done leads to a found one, no more than a step farther. */
  ghost predicate Relaxed(edges: seq<(nat, nat)>, found: map<nat, seq<nat>>, queue: seq<nat>) {
    forall e :: e in edges && e.0 in found && e.0 !in queue ==> e.1 in found && |found[e.1]| <= |found[e.0]| + 1
  }

  /** The newer vertices are one step behind v. */
  ghost predicate OneStepOn(before: map<nat, seq<nat>>, v: nat, found: map<nat, seq<nat>>, newer: seq<nat>) {
    && v in before
    && (forall u :: u in before ==> u in found && found[u] == before[u])
    && (forall u :: u in found && u !in before <==> u in newer)
    && (forall u :: u in newer ==> |found[u]| == |before[v]| + 1)
  }

  /** The state of the search: shorter walks are found first. */
  ghost predicate BreadthFirst<N(!new)>(g: Graph<N>, start: nat, goal: nat, found: map<nat, seq<nat>>, queue: seq<nat>)
    requires g.InRange()
  {
    && HasWalks(g, start, found) && start in found && |found[start]| == 1
    && Ordered(found, queue) && Relaxed(g.edges, found, queue) && (goal in found ==> goal in queue)
    && (queue != [] ==> Within(found, |found[queue[0]]|))
  }

  /** Queues the successors of v that are new, one step behind v. */
  method Discover<N(!new)>(g: Graph<N>, start: nat, before: map<nat, seq<nat>>, waiting: seq<nat>, v: nat)
    returns (found: map<nat, seq<nat>>, queue: seq<nat>, ghost newer: seq<nat>)
    requires g.InRange() && HasWalks(g, start, before) && v in before
    ensures HasWalks(g, start, found) && queue == waiting + newer
    ensures OneStepOn(before, v, found, newer)
    ensures forall e :: e in g.edges && e.0 == v ==> e.1 in found
  {
    found, queue, newer := before, waiting, [];
    var next := Successors(g.edges, v);
    for i := 0 to |next|
      invariant HasWalks(g, start, found) && queue == waiting + newer
      invariant OneStepOn(before, v, found, newer)
      invariant forall j :: 0 <= j < i ==> next[j] in found
    {
      assert next[i] in next;
      if next[i] !in found {
        assert (v, next[i]) in g.Links();
        assert WalkBetween(g.Links(), found[v] + [next[i]], start, next[i]);
        found := found[next[i] := found[v] + [next[i]]];
        queue := queue + [next[i]];
        newer := newer + [next[i]];
      }
    }
    assert forall u :: u in next ==> u in found;
  }

  lemma DiscoveredOrder(before: map<nat, seq<nat>>, waiting: seq<nat>, v: nat, found: map<nat, seq<nat>>, newer: seq<nat>)
    requires v in before && Ordered(before, [v] + waiting) && Within(before, |before[v]|)
    requires OneStepOn(before, v, found, newer)
    ensures Ordered(found, waiting + newer)
    ensures forall q :: q in waiting + newer ==> q in found && Within(found, |found[q]|)
  {
    var queue := [v] + waiting;
    assert forall i :: 0 <= i < |waiting| ==> waiting[i] == queue[i + 1] && waiting[i] in queue;
    forall q | q in waiting
      ensures |before[v]| <= |before[q]|
    {
      var i :| 0 <= i < |waiting| && waiting[i] == q;
      assert |before[queue[0]]| <= |before[queue[i + 1]]|;
    }
    forall i, j | 0 <= i < j < |waiting + newer|
      ensures |found[(waiting + newer)[i]]| <= |found[(waiting + newer)[j]]|
    {
      if j < |waiting| {
        assert |before[queue[i + 1]]| <= |before[queue[j + 1]]|;
      } else if i < |waiting| {
        assert waiting[i] in waiting && newer[j - |waiting|] in newer;
      } else {
        assert newer[i - |waiting|] in newer && newer[j - |waiting|] in newer;
      }
    }
  }

  lemma DiscoveredRelaxed(edges: seq<(nat, nat)>, before: map<nat, seq<nat>>, waiting: seq<nat>, v: nat,
                          found: map<nat, seq<nat>>, newer: seq<nat>)
    requires Relaxed(edges, before, [v] + waiting) && v in before && Within(before, |before[v]|)
    requires OneStepOn(before, v, found, newer)
    requires forall e :: e in edges && e.0 == v ==> e.1 in found
    ensures Relaxed(edges, found, waiting + newer)
  {
    forall e | e in edges && e.0 in found && e.0 !in waiting + newer
      ensures e.1 in found && |found[e.1]| <= |found[e.0]| + 1
    {
      if e.0 != v {
        assert e.0 !in [v] + waiting;
      }
    }
  }

  lemma NextVertex<N(!new)>(g: Graph<N>, start: nat, goal: nat, before: map<nat, seq<nat>>, waiting: seq<nat>, v: nat,
                            found: map<nat, seq<nat>>, newer: seq<nat>)
    requires g.InRange() && BreadthFirst(g, start, goal, before, [v] + waiting) && v != goal
    requires HasWalks(g, start, found) && OneStepOn(before, v, found, newer)
    requires forall e :: e in g.edges && e.0 == v ==> e.1 in found
    ensures BreadthFirst(g, start, goal, found, waiting + newer)
  {
    DiscoveredOrder(before, waiting, v, found, newer);
    DiscoveredRelaxed(g.edges, before, waiting, v, found, newer);
    var queue := waiting + newer;
    if queue != [] {
      assert queue[0] in queue;
    }
  }

  ghost function Missing<N(!new)>(g: Graph<N>, found: map<nat, seq<nat>>): set<nat> {
    Indices(|g.nodes|) - found.Keys
  }

  lemma FewerMissing<N(!new)>(g: Graph<N>, start: nat, before: map<nat, seq<nat>>, v: nat, found: map<nat, seq<nat>>, newer: seq<nat>)
    requires g.InRange() && HasWalks(g, start, found) && OneStepOn(before, v, found, newer)
    ensures newer == [] ==> Missing(g, found) == Missing(g, before)
    ensures newer != [] ==> Missing(g, found) < Missing(g, before)
  {
    if newer == [] {
      assert found.Keys == before.Keys;
    } else {
      assert newer[0] in newer && newer[0] in Missing(g, before);
    }
  }

  /** Walks shorter than the one to the head of the queue stay among the vertices that are done. */
  lemma {:induction false} ShortWalksAreDone<N(!new)>(g: Graph<N>, found: map<nat, seq<nat>>, queue: seq<nat>, walk: seq<nat>, k: nat)
    requires g.InRange() && Relaxed(g.edges, found, queue) && Ordered(found, queue) && queue != []
    requires IsWalk(g.Links(), walk) && k < |walk| < |found[queue[0]]| && walk[0] in found && |found[walk[0]]| == 1
    ensures walk[k] in found && walk[k] !in queue && |found[walk[k]]| <= k + 1
  {
    if k > 0 {
      ShortWalksAreDone(g, found, queue, walk, k - 1);
      assert (walk[k - 1], walk[k]) in g.edges;
    }
    assert forall q :: q in queue ==> |found[queue[0]]| <= |found[q]|;
  }

  lemma HeadIsShortest<N(!new)>(g: Graph<N>, start: nat, found: map<nat, seq<nat>>, queue: seq<nat>)
    requires g.InRange() && Relaxed(g.edges, found, queue) && Ordered(found, queue) && queue != []
    requires HasWalks(g, start, found) && start in found && |found[start]| == 1
    ensures ShortestWalk(g.Links(), found[queue[0]], start, queue[0])
  {
    forall other | WalkBetween(g.Links(), other, start, queue[0])
      ensures |found[queue[0]]| <= |other|
    {
      if |other| < |found[queue[0]]| {
        ShortWalksAreDone(g, found, queue, other, |other| - 1);
      }
    }
  }

  /** The `astar` call with unit costs and no heuristic: a shortest path, if there is one. */
  method FindPath<N(!new)>(g: Graph<N>, start: nat, goal: nat) returns (path: Option<seq<nat>>)
    requires g.InRange() && start < |g.nodes|
    ensures path.Some? ==> ShortestWalk(g.Links(), path.value, start, goal)
    ensures path.None? ==> !Reaches(g.Links(), start, goal)
  {
    var found: map<nat, seq<nat>> := map[start := [start]];
    var queue := [start];
    while queue != []
      invariant BreadthFirst(g, start, goal, found, queue)
      decreases Missing(g, found), |queue|
    {
      var v, waiting := queue[0], queue[1..];
      if v == goal {
        HeadIsShortest(g, start, found, queue);
        return Some(found[v]);
      }
      assert queue == [v] + waiting;
      ghost var before := found;
      ghost var newer;
      found, queue, newer := Discover(g, start, found, waiting, v);
      NextVertex(g, start, goal, before, waiting, v, found, newer);
      FewerMissing(g, start, before, v, found, newer);
    }
    path := None;
    Exhausted(g, start, goal, found);
  }

  lemma Exhausted<N(!new)>(g: Graph<N>, start: nat, goal: nat, found: map<nat, seq<nat>>)
    requires g.InRange() && BreadthFirst(g, start, goal, found, [])
    ensures !Reaches(g.Links(), start, goal)
  {
    if walk :| WalkBetween(g.Links(), walk, start, goal) {
      ClosedContainsReachable(g.Links(), found.Keys, walk);
    }
  }

  // ---- reachable subgraph -------------------------------------------------------------

  /** The index of `node`, appending it when absent. */
  function Ensured<N(==,!new)>(g: Graph<N>, node: N): (r: (Graph<N>, nat))
    requires g.WellFormed()
    ensures r.0.WellFormed() && r.0.edges == g.edges && g.nodes <= r.0.nodes
    ensures r.1 < |r.0.nodes| && r.0.nodes[r.1] == node
    ensures r.0.Weights() == g.Weights() + {node}
  {
    match FindIndex(g.nodes, node)
    case Some(i) => (g, i)
    case None => (g.(nodes := g.nodes + [node]), |g.nodes|)
  }

  /** Arcs leaving the given indices. */
  ghost function ArcsFrom<N(!new)>(g: Graph<N>, from: set<nat>): set<(N, N)>
    requires g.InRange()
  {
    set e | e in g.edges && e.0 in from :: (g.nodes[e.0], g.nodes[e.1])
  }

  ghost function HeadsFrom<N(!new)>(g: Graph<N>, from: set<nat>): set<N>
    requires g.InRange()
  {
    set e | e in g.edges && e.0 in from :: g.nodes[e.1]
  }

  ghost predicate IsStart<N(!new)>(g: Graph<N>, starting: seq<N>, i: nat) {
    i < |g.nodes| && g.nodes[i] in starting
  }

  /** Some present starting weight reaches index i. */
  ghost predicate Selected<N(!new)>(g: Graph<N>, starting: seq<N>, i: nat) {
    exists s :: IsStart(g, starting, s) && Reaches(g.Links(), s, i)
  }

  /** `part` with an edge from its index `at` to `node`, which is appended when absent. */
  function Linked<N(==,!new)>(part: Graph<N>, at: nat, node: N): (r: Graph<N>)
    requires part.WellFormed() && NoDup(part.edges) && at < |part.nodes|
    requires (part.nodes[at], node) !in part.Arcs()
    ensures r.WellFormed() && NoDup(r.edges) && part.nodes <= r.nodes
    ensures r.Arcs() == part.Arcs() + {(part.nodes[at], node)}
    ensures r.Weights() == part.Weights() + {node}
  {
    var (wider, to) := Ensured(part, node);
    assert wider.Arcs() == part.Arcs();
    assert (at, to) !in wider.edges;
    wider.(edges := wider.edges + [(at, to)])
  }

  /** `res` is `part` with `node` at `at` and its edges to `heads`. */
  ghost predicate PartlyCopied<N(!new)>(part: Graph<N>, node: N, res: Graph<N>, at: nat, heads: set<N>)
    requires part.WellFormed()
  {
    && res.WellFormed() && NoDup(res.edges) && at < |res.nodes| && res.nodes[at] == node
    && res.Arcs() == part.Arcs() + (set n | n in heads :: (node, n))
    && res.Weights() == part.Weights() + {node} + heads
  }

  lemma LinkCopies<N(!new)>(part: Graph<N>, node: N, res: Graph<N>, at: nat, heads: set<N>, head: N)
    requires part.WellFormed() && PartlyCopied(part, node, res, at, heads) && head !in heads
    requires forall a :: a in part.Arcs() ==> a.0 != node
    ensures (node, head) !in res.Arcs() && PartlyCopied(part, node, Linked(res, at, head), at, heads + {head})
  {
    assert (set n | n in heads + {head} :: (node, n)) == (set n | n in heads :: (node, n)) + {(node, head)};
  }

  /** Copies node v and its outgoing edges into `part`. */
  method CopyNode<N(==,!new)>(g: Graph<N>, part: Graph<N>, v: nat) returns (res: Graph<N>)
    requires g.WellFormed() && NoDup(g.edges) && v < |g.nodes|
    requires part.WellFormed() && NoDup(part.edges)
    requires forall a :: a in part.Arcs() ==> a.0 != g.nodes[v]
    ensures res.WellFormed() && NoDup(res.edges)
    ensures res.Arcs() == part.Arcs() + ArcsFrom(g, {v})
    ensures res.Weights() == part.Weights() + {g.nodes[v]} + HeadsFrom(g, {v})
  {
    var (grown, at) := Ensured(part, g.nodes[v]);
    res := grown;
    assert res.Arcs() == part.Arcs();
    var next := Successors(g.edges, v);
    NeighboursAreHeads(g, v);
    for i := 0 to |next|
      invariant PartlyCopied(part, g.nodes[v], res, at, Heads(g.nodes, next, i))
    {
      HeadIsNew(g, v, i);
      LinkCopies(part, g.nodes[v], res, at, Heads(g.nodes, next, i), g.nodes[next[i]]);
      res := Linked(res, at, g.nodes[next[i]]);
    }
  }

  /** The weights of the first i indices. */
  ghost function Heads<N(!new)>(nodes: seq<N>, indices: seq<nat>, i: nat): set<N>
    requires i <= |indices| && Below(indices, |nodes|)
  {
    set j | 0 <= j < i :: nodes[indices[j]]
  }

  lemma HeadIsNew<N(!new)>(g: Graph<N>, v: nat, i: nat)
    requires g.WellFormed() && NoDup(g.edges) && i < |Successors(g.edges, v)| && Below(Successors(g.edges, v), |g.nodes|)
    ensures var next := Successors(g.edges, v);
            && g.nodes[next[i]] !in Heads(g.nodes, next, i)
            && Heads(g.nodes, next, i + 1) == Heads(g.nodes, next, i) + {g.nodes[next[i]]}
  {
  }

  lemma NeighboursAreHeads<N(!new)>(g: Graph<N>, v: nat)
    requires g.InRange() && v < |g.nodes|
    ensures var next := Successors(g.edges, v);
            && Below(next, |g.nodes|) && HeadsFrom(g, {v}) == Heads(g.nodes, next, |next|)
            && ArcsFrom(g, {v}) == set n | n in Heads(g.nodes, next, |next|) :: (g.nodes[v], n)
  {
    var next := Successors(g.edges, v);
    forall j | 0 <= j < |next|
      ensures (v, next[j]) in g.edges
    {
      assert next[j] in next;
    }
    forall e | e in g.edges && e.0 == v
      ensures exists j :: 0 <= j < |next| && next[j] == e.1
    {
      assert e == (v, e.1);
    }
  }

  /** Everything found or pending is selected, and every edge out of a found index is followed. */
  ghost predicate Frontier<N(!new)>(g: Graph<N>, starting: seq<N>, seen: set<nat>, stack: seq<nat>) {
    && (forall v :: v in seen || v in stack ==> v < |g.nodes|)
    && (forall v {:trigger Selected(g, starting, v)} :: v in seen || v in stack ==> Selected(g, starting, v))
    && (forall e :: e in g.edges && e.0 in seen ==> e.1 in seen || e.1 in stack)
  }

  /** `res` holds exactly the found indices, their outgoing edges and the ends of those. */
  ghost predicate Copied<N(!new)>(g: Graph<N>, seen: set<nat>, res: Graph<N>)
    requires g.InRange()
  {
    && res.WellFormed() && NoDup(res.edges)
    && res.Arcs() == ArcsFrom(g, seen)
    && res.Weights() == (set v | v in seen && v < |g.nodes| :: g.nodes[v]) + HeadsFrom(g, seen)
  }

  lemma SelectedStep<N(!new)>(g: Graph<N>, starting: seq<N>, v: nat, w: nat)
    requires Selected(g, starting, v) && (v, w) in g.edges
    ensures Selected(g, starting, w)
  {
    var s :| IsStart(g, starting, s) && Reaches(g.Links(), s, v);
    ReachesEdge(g.Links(), v, w);
    ReachesTrans(g.Links(), s, v, w);
  }

  lemma SelectedMore<N(!new)>(g: Graph<N>, fewer: seq<N>, more: seq<N>, seen: set<nat>, res: Graph<N>)
    requires g.WellFormed() && Frontier(g, fewer, seen, []) && Copied(g, seen, res)
    requires forall n :: n in fewer ==> n in more
    ensures Frontier(g, more, seen, []) && Copied(g, seen, res)
  {
    forall v | v in seen
      ensures Selected(g, more, v)
    {
      assert Selected(g, fewer, v);
      var s :| IsStart(g, fewer, s) && Reaches(g.Links(), s, v);
      assert IsStart(g, more, s);
    }
  }

  function Unseen(indices: seq<nat>, seen: set<nat>): (r: seq<nat>)
    ensures forall i: nat :: i in r <==> i in indices && i !in seen
  {
    if indices == [] then [] else
      (if indices[0] in seen then [] else [indices[0]]) + Unseen(indices[1..], seen)
  }

  method Visit<N(==,!new)>(g: Graph<N>, ghost starting: seq<N>, seen0: set<nat>, start: nat, res0: Graph<N>)
    returns (seen: set<nat>, res: Graph<N>)
    requires g.WellFormed() && NoDup(g.edges)
    requires Frontier(g, starting, seen0, []) && Copied(g, seen0, res0)
    requires IsStart(g, starting, start)
    ensures Frontier(g, starting, seen, []) && Copied(g, seen, res)
    ensures seen0 <= seen && start in seen
  {
    seen, res := seen0, res0;
    var stack: seq<nat> := [start];
    ReachesSelf(g.Links(), start);
    while stack != []
      invariant Frontier(g, starting, seen, stack) && Copied(g, seen, res)
      invariant seen0 <= seen && (start in seen || start in stack)
      decreases Indices(|g.nodes|) - seen, |stack|
    {
      var v := stack[|stack| - 1];
      assert stack == stack[..|stack| - 1] + [v];
      stack := stack[..|stack| - 1];
      FrontierStep(g, starting, seen, v, stack);
      if v !in seen {
        stack := stack + Unseen(Successors(g.edges, v), seen + {v});
        res := CopyVisited(g, seen, res, v);
        seen := seen + {v};
      }
    }
  }

  method CopyVisited<N(==,!new)>(g: Graph<N>, ghost seen: set<nat>, part: Graph<N>, v: nat) returns (res: Graph<N>)
    requires g.WellFormed() && NoDup(g.edges) && v < |g.nodes| && v !in seen && Copied(g, seen, part)
    ensures Copied(g, seen + {v}, res)
  {
    SeenGrows(g, seen, v, part);
    res := CopyNode(g, part, v);
  }

  lemma FrontierStep<N(!new)>(g: Graph<N>, starting: seq<N>, seen: set<nat>, v: nat, stack: seq<nat>)
    requires g.InRange() && Frontier(g, starting, seen, stack + [v])
    ensures v in seen ==> Frontier(g, starting, seen, stack)
    ensures Frontier(g, starting, seen + {v}, stack + Unseen(Successors(g.edges, v), seen + {v}))
  {
    var next := Unseen(Successors(g.edges, v), seen + {v});
    assert v in stack + [v];
    assert Selected(g, starting, v);
    forall w | w in stack
      ensures w < |g.nodes|
    {
      assert w in stack + [v];
    }
    forall w | w in next
      ensures w < |g.nodes| && Selected(g, starting, w)
    {
      SelectedStep(g, starting, v, w);
    }
    forall e | e in g.edges && e.0 in seen + {v}
      ensures e.1 in seen + {v} || e.1 in stack + next
    {
      if e.0 == v {
        assert e == (v, e.1);
      } else {
        assert e.1 in seen || e.1 in stack + [v];
      }
    }
  }

  lemma SeenGrows<N(!new)>(g: Graph<N>, seen: set<nat>, v: nat, res: Graph<N>)
    requires g.WellFormed() && v < |g.nodes| && v !in seen
    requires res.InRange() && res.Arcs() == ArcsFrom(g, seen)
    ensures forall a :: a in res.Arcs() ==> a.0 != g.nodes[v]
    ensures ArcsFrom(g, seen + {v}) == ArcsFrom(g, seen) + ArcsFrom(g, {v})
    ensures HeadsFrom(g, seen + {v}) == HeadsFrom(g, seen) + HeadsFrom(g, {v})
  {
  }

  /** `subgraph`: one visited set is shared by all starts. */
  method ReachableSubgraph<N(==,!new)>(g: Graph<N>, starting: seq<N>) returns (res: Graph<N>)
    requires g.WellFormed() && NoDup(g.edges)
    ensures res.WellFormed() && NoDup(res.edges)
    ensures IsSelection(g, starting, res)
  {
    res := Graph([], []);
    var seen: set<nat> := {};
    var k := 0;
    while k < |starting|
      invariant 0 <= k <= |starting|
      invariant Frontier(g, starting[..k], seen, []) && Copied(g, seen, res)
      invariant forall s :: IsStart(g, starting[..k], s) ==> s in seen
    {
      assert starting[..k + 1] == starting[..k] + [starting[k]];
      SelectedMore(g, starting[..k], starting[..k + 1], seen, res);
      match FindIndex(g.nodes, starting[k]) {
        case None =>
        case Some(start) =>
          seen, res := Visit(g, starting[..k + 1], seen, start, res);
      }
      k := k + 1;
    }
    assert starting[..k] == starting;
    SeenIsSelection(g, starting, seen, res);
  }

  /** The induced graph on the weights that some present start reaches. */
  ghost predicate IsSelection<N(!new)>(g: Graph<N>, starting: seq<N>, res: Graph<N>)
    requires g.WellFormed() && res.WellFormed()
  {
    && (forall n :: n in res.Weights() <==>
                      n in g.Weights() && exists s :: s in starting && s in g.Weights() && Reaches(g.Arcs(), s, n))
    && res.Arcs() == set a | a in g.Arcs() && a.0 in res.Weights() && a.1 in res.Weights()
  }

  lemma SeenIsSelected<N(!new)>(g: Graph<N>, starting: seq<N>, seen: set<nat>, res: Graph<N>, v: nat)
    requires g.WellFormed() && Frontier(g, starting, seen, []) && Copied(g, seen, res) && v < |g.nodes|
    requires forall s :: IsStart(g, starting, s) ==> s in seen
    ensures v in seen <==> Selected(g, starting, v)
    ensures v in seen <==> g.nodes[v] in res.Weights()
  {
    if Selected(g, starting, v) {
      var s :| IsStart(g, starting, s) && Reaches(g.Links(), s, v);
      var walk :| WalkBetween(g.Links(), walk, s, v);
      ClosedContainsReachable(g.Links(), seen, walk);
    }
  }

  lemma SeenIsSelection<N(!new)>(g: Graph<N>, starting: seq<N>, seen: set<nat>, res: Graph<N>)
    requires g.WellFormed() && Frontier(g, starting, seen, []) && Copied(g, seen, res)
    requires forall s :: IsStart(g, starting, s) ==> s in seen
    ensures IsSelection(g, starting, res)
  {
    assert res.Weights() <= g.Weights();
    forall n | n in g.Weights()
      ensures n in res.Weights() <==> exists s :: s in starting && s in g.Weights() && Reaches(g.Arcs(), s, n)
    {
      var v: nat :| v < |g.nodes| && g.nodes[v] == n;
      SelectedByWeight(g, starting, v);
      SeenIsSelected(g, starting, seen, res, v);
    }
    forall a | a in g.Arcs() && a.0 in res.Weights()
      ensures a in res.Arcs()
    {
      var e :| e in g.edges && a == (g.nodes[e.0], g.nodes[e.1]);
      SeenIsSelected(g, starting, seen, res, e.0);
    }
    forall a | a in res.Arcs()
      ensures a in g.Arcs() && a.0 in res.Weights() && a.1 in res.Weights()
    {
      ArcEnds(res, a);
    }
  }

  lemma SelectedByWeight<N(!new)>(g: Graph<N>, starting: seq<N>, v: nat)
    requires g.WellFormed() && v < |g.nodes|
    ensures Selected(g, starting, v) <==>
            exists s :: s in starting && s in g.Weights() && Reaches(g.Arcs(), s, g.nodes[v])
  {
    if Selected(g, starting, v) {
      var s :| IsStart(g, starting, s) && Reaches(g.Links(), s, v);
      SameReach(g, s, v);
    }
    if n :| n in starting && n in g.Weights() && Reaches(g.Arcs(), n, g.nodes[v]) {
      var s: nat :| s < |g.nodes| && g.nodes[s] == n;
      SameReach(g, s, v);
      assert IsStart(g, starting, s);
    }
  }

  // ---- transposition ------------------------------------------------------------------

  function Flipped(edges: seq<(nat, nat)>): (r: seq<(nat, nat)>)
    ensures |r| == |edges| && forall i :: 0 <= i < |r| ==> r[i] == (edges[i].1, edges[i].0)
  {
    if edges == [] then [] else
      Flipped(edges[..|edges| - 1]) + [(edges[|edges| - 1].1, edges[|edges| - 1].0)]
  }

  function Flip<N(!new)>(g: Graph<N>): Graph<N> {
    g.(edges := Flipped(g.edges))
  }

  lemma TransposeArcs<N(!new)>(g: Graph<N>)
    requires g.InRange()
    ensures Flip(g).InRange() && Flip(g).Weights() == g.Weights()
    ensures Flip(g).Arcs() == Transposed(g.Arcs())
  {
    var t := Flip(g);
    forall e | e in g.edges
      ensures (e.1, e.0) in t.edges
    {
      var i :| 0 <= i < |g.edges| && g.edges[i] == e;
      assert t.edges[i] == (e.1, e.0);
    }
    forall f | f in t.edges
      ensures (f.1, f.0) in g.edges
    {
      var i :| 0 <= i < |t.edges| && t.edges[i] == f;
      assert g.edges[i] == (f.1, f.0);
    }
    forall a | a in t.Arcs()
      ensures a in Transposed(g.Arcs())
    {
      var f :| f in t.edges && a == (t.nodes[f.0], t.nodes[f.1]);
      assert (a.1, a.0) in g.Arcs();
    }
    forall a | a in Transposed(g.Arcs())
      ensures a in t.Arcs()
    {
      var e :| e in g.edges && (a.1, a.0) == (g.nodes[e.0], g.nodes[e.1]);
      assert (e.1, e.0) in t.edges;
    }
  }

  lemma TransposeValid<N(!new)>(g: Graph<N>)
    requires g.Valid()
    ensures Flip(g).Valid()
  {
    TransposeArcs(g);
    TransposedAcyclic(g.Arcs());
    var t := Flip(g);
    assert forall i :: 0 <= i < |t.edges| ==> g.edges[i] == (t.edges[i].1, t.edges[i].0);
  }

  lemma SelectionValid<N(!new)>(g: Graph<N>, starting: seq<N>, res: Graph<N>)
    requires g.Valid() && res.WellFormed() && NoDup(res.edges) && IsSelection(g, starting, res)
    ensures res.Valid()
  {
    SubsetAcyclic(res.Arcs(), g.Arcs());
  }

  /** A selection of the transposed graph is the set of weights from which some start is reached. */
  lemma ReverseSelection<N(!new)>(g: Graph<N>, starting: seq<N>, res: Graph<N>)
    requires g.Valid() && res.WellFormed() && Flip(g).WellFormed()
    requires IsSelection(Flip(g), starting, res)
    ensures forall n :: n in res.Weights() <==>
                          n in g.Weights() && exists s :: s in starting && s in g.Weights() && Reaches(g.Arcs(), n, s)
  {
    TransposeArcs(g);
    forall s, n
      ensures Reaches(Flip(g).Arcs(), s, n) <==> Reaches(g.Arcs(), n, s)
    {
      TransposedReaches(g.Arcs(), s, n);
    }
  }

  // ---- the Dag ------------------------------------------------------------------------

  datatype EdgeOutcome<N> = Added | AlreadyPresent | Cycle(path: seq<N>)

  class Dag<N(==,!new)> {
    var inner: Graph<N>

    constructor ()
      ensures inner == Graph([], []) && inner.Valid()
    {
      inner := Graph([], []);
      new;
      RankMeansAcyclic(inner.Arcs(), map[]);
    }

    constructor Of(g: Graph<N>)
      ensures inner == g
    {
      inner := g;
    }

    method AddNodeOrGetIndex(node: N) returns (index: nat)
      requires inner.Valid()
      modifies this
      ensures inner == WithNode(old(inner), node) && inner.Valid()
      ensures index < |inner.nodes| && inner.nodes[index] == node
    {
      WithNodeValid(inner, node);
      match FindIndex(inner.nodes, node) {
        case Some(i) => index := i;
        case None =>
          index := |inner.nodes|;
          inner := inner.(nodes := inner.nodes + [node]);
      }
    }

    method RemoveNode(node: N) returns (removed: Option<N>)
      requires inner.Valid()
      modifies this
      ensures inner == WithoutNode(old(inner), node) && inner.Valid()
      ensures removed == if node in old(inner).nodes then Some(node) else None
    {
      WithoutNodeValid(inner, node);
      match FindIndex(inner.nodes, node) {
        case None => removed := None;
        case Some(i) =>
          removed := Some(inner.nodes[i]);
          inner := RemoveIndex(inner, i);
      }
    }

    /** `try_add_edge`. Indices out of range panic in petgraph, hence the precondition. */
    method TryAddEdge(a: nat, b: nat) returns (outcome: EdgeOutcome<N>)
      requires inner.Valid() && a < |inner.nodes| && b < |inner.nodes|
      modifies this
      ensures inner == WithEdge(old(inner), a, b) && inner.Valid()
      ensures outcome.AlreadyPresent? <==> (a, b) in old(inner).edges
      ensures outcome.Cycle? <==> (a, b) !in old(inner).edges && Reaches(old(inner).Links(), b, a)
      ensures outcome.Cycle? ==>
                && |outcome.path| >= 2
                && outcome.path[0] == inner.nodes[a]
                && ShortestWalk(inner.Arcs(), outcome.path[1..], inner.nodes[b], inner.nodes[a])
    {
      WithEdgeValid(inner, a, b);
      if (a, b) in inner.edges {
        return AlreadyPresent;
      }
      var path := FindPath(inner, b, a);
      match path {
        case Some(p) =>
          WalkInRange(inner, p);
          var weights := Pick(inner.nodes, p);
          PickedShortest(inner, p, b, a);
          outcome := Cycle([inner.nodes[a]] + weights);
          assert outcome.path[1..] == weights;
        case None =>
          inner := inner.(edges := inner.edges + [(a, b)]);
          outcome := Added;
      }
    }

    method AddEdge(a: nat, b: nat) returns (added: bool)
      requires inner.Valid() && a < |inner.nodes| && b < |inner.nodes|
      modifies this
      ensures inner == WithEdge(old(inner), a, b) && inner.Valid()
      ensures added <==> inner != old(inner)
    {
      var outcome := TryAddEdge(a, b);
      added := outcome.Added?;
    }

    method BatchedTopo() returns (batches: seq<seq<N>>)
      requires inner.Valid()
      ensures AreBatches(inner, batches)
      ensures forall v :: v in inner.Weights() ==> exists k :: 0 <= k < |batches| && v in batches[k]
    {
      batches := LayeredBatches(inner);
      BatchesPartition(inner, batches);
    }

    method Transpose() returns (flipped: Dag<N>)
      requires inner.Valid()
      ensures fresh(flipped) && flipped.inner == Flip(inner) && flipped.inner.Valid()
    {
      TransposeValid(inner);
      flipped := new Dag.Of(Flip(inner));
    }

    method Subgraph(starting: seq<N>) returns (part: Dag<N>)
      requires inner.Valid()
      ensures fresh(part) && part.inner.Valid() && IsSelection(inner, starting, part.inner)
    {
      var g := ReachableSubgraph(inner, starting);
      SelectionValid(inner, starting, g);
      part := new Dag.Of(g);
    }
  }

  lemma {:induction false} WalkInRange<N(!new)>(g: Graph<N>, p: seq<nat>)
    requires g.InRange() && IsWalk(g.Links(), p) && p[0] < |g.nodes|
    ensures Below(p, |g.nodes|)
  {
    if |p| > 1 {
      assert (p[0], p[1]) in g.edges;
      WalkInRange(g, p[1..]);
      assert p == [p[0]] + p[1..];
    }
  }

  lemma PickedShortest<N(!new)>(g: Graph<N>, p: seq<nat>, a: nat, b: nat)
    requires g.WellFormed() && Below(p, |g.nodes|) && a < |g.nodes| && b < |g.nodes|
    requires ShortestWalk(g.Links(), p, a, b)
    ensures ShortestWalk(g.Arcs(), Pick(g.nodes, p), g.nodes[a], g.nodes[b])
  {
    PickedWalk(g, p);
    forall other | WalkBetween(g.Arcs(), other, g.nodes[a], g.nodes[b])
      ensures |p| <= |other|
    {
      var q := LoweredWalk(g, a, b, other);
    }
  }

  lemma PickedWalk<N(!new)>(g: Graph<N>, p: seq<nat>)
    requires g.InRange() && IsWalk(g.Links(), p) && Below(p, |g.nodes|)
    ensures IsWalk(g.Arcs(), Pick(g.nodes, p))
  {
    var w := Pick(g.nodes, p);
    forall i | 0 <= i < |w| - 1
      ensures (w[i], w[i + 1]) in g.Arcs()
    {
      assert (p[i], p[i + 1]) in g.edges;
    }
  }
}

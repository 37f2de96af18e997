/** Cycle detection over the observed import edges: an iterative three-colour depth-first
    search with an explicit stack of (node, next neighbour) frames. */
module ImportCycle {
  import opened Basics
  import opened Digraph
  import opened Ordering

  datatype Dependency = Dependency(parent: Text, target: Text, alias: Text)

  /** A node of the active path and the index of the neighbour to look at next. */
  datatype Frame = Frame(node: Text, index: nat)

  datatype Color = White | Gray | Black

  ghost function ImportEdges(deps: seq<Dependency>): set<(Text, Text)> {
    set d | d in deps :: (d.parent, d.target)
  }

  function Neighbors(adjacency: map<Text, seq<Text>>, v: Text): seq<Text> {
    if v in adjacency then adjacency[v] else []
  }

  /** The adjacency lists hold exactly the edges, and `nodes` all their ends. */
  ghost predicate Represents(edges: set<(Text, Text)>, adjacency: map<Text, seq<Text>>, nodes: set<Text>) {
    && (forall u, v :: v in Neighbors(adjacency, u) <==> (u, v) in edges)
    && (forall e :: e in edges ==> e.0 in nodes && e.1 in nodes)
  }

  lemma NeighborIsNode(edges: set<(Text, Text)>, adjacency: map<Text, seq<Text>>, nodes: set<Text>, node: Text, index: nat)
    requires Represents(edges, adjacency, nodes) && index < |Neighbors(adjacency, node)|
    ensures var next := Neighbors(adjacency, node)[index]; (node, next) in edges && next in nodes
  {
    assert Neighbors(adjacency, node)[index] in Neighbors(adjacency, node);
  }

  method BuildAdjacency(deps: seq<Dependency>) returns (adjacency: map<Text, seq<Text>>, nodes: set<Text>)
    ensures Represents(ImportEdges(deps), adjacency, nodes)
  {
    adjacency, nodes := map[], {};
    for k := 0 to |deps|
      invariant forall u, v :: v in Neighbors(adjacency, u) <==> (u, v) in ImportEdges(deps[..k])
      invariant forall e :: e in ImportEdges(deps[..k]) ==> e.0 in nodes && e.1 in nodes
    {
      var d := deps[k];
      assert deps[..k + 1] == deps[..k] + [d];
      assert ImportEdges(deps[..k + 1]) == ImportEdges(deps[..k]) + {(d.parent, d.target)};
      nodes := nodes + {d.parent, d.target};
      adjacency := adjacency[d.parent := Neighbors(adjacency, d.parent) + [d.target]];
    }
    assert deps[..|deps|] == deps;
  }

  /** Grey nodes are exactly the active path, black ones are exactly the numbered ones. */
  ghost predicate Colored(nodes: set<Text>, color: map<Text, Color>, rank: map<Text, nat>, path: seq<Text>) {
    && color.Keys == nodes && NoDup(path)
    && (forall v :: v in path ==> v in nodes)
    && (forall v :: v in nodes ==> (color[v] == Gray <==> v in path) && (color[v] == Black <==> v in rank))
  }

  /** Black nodes are numbered against the edges; numbers count down from the node count. */
  ghost predicate Ranked(edges: set<(Text, Text)>, nodes: set<Text>, rank: map<Text, nat>) {
    && rank.Keys <= nodes
    && (forall v :: v in rank ==> rank[v] >= |nodes| - |rank|)
    && (forall e :: e in edges && e.0 in rank ==> e.1 in rank && rank[e.0] < rank[e.1])
  }

  /** Every neighbour behind the frame's index is black, except that the last may be `child`. */
  ghost predicate FrameOk(adjacency: map<Text, seq<Text>>, rank: map<Text, nat>, frame: Frame, child: Option<Text>) {
    var neighbors := Neighbors(adjacency, frame.node);
    && frame.index <= |neighbors|
    && forall j :: 0 <= j < frame.index ==> neighbors[j] in rank || (j == frame.index - 1 && Some(neighbors[j]) == child)
  }

  function Child(path: seq<Text>, i: nat): Option<Text> {
    if i + 1 < |path| then Some(path[i + 1]) else None
  }

  ghost predicate Frames(adjacency: map<Text, seq<Text>>, rank: map<Text, nat>, stack: seq<Frame>, path: seq<Text>) {
    && |path| == |stack|
    && forall i :: 0 <= i < |stack| ==> path[i] == stack[i].node && FrameOk(adjacency, rank, stack[i], Child(path, i))
  }

  ghost predicate SearchState(edges: set<(Text, Text)>, adjacency: map<Text, seq<Text>>, nodes: set<Text>,
                              color: map<Text, Color>, rank: map<Text, nat>, stack: seq<Frame>, path: seq<Text>)
  {
    && Colored(nodes, color, rank, path)
    && Ranked(edges, nodes, rank)
    && Frames(adjacency, rank, stack, path)
    && (path != [] ==> IsWalk(edges, path))
  }

  ghost function Whites(nodes: set<Text>, color: map<Text, Color>): set<Text>
    requires color.Keys == nodes
  {
    set v | v in nodes && color[v] == White
  }

  lemma FramesPush(adjacency: map<Text, seq<Text>>, rank: map<Text, nat>, below: seq<Frame>, node: Text, index: nat,
                   path: seq<Text>, next: Text)
    requires Frames(adjacency, rank, below + [Frame(node, index)], path)
    requires index < |Neighbors(adjacency, node)| && next == Neighbors(adjacency, node)[index]
    ensures Frames(adjacency, rank, below + [Frame(node, index + 1)] + [Frame(next, 0)], path + [next])
    ensures next in rank ==> Frames(adjacency, rank, below + [Frame(node, index + 1)], path)
  {
    var stack := below + [Frame(node, index)];
    var n := |below|;
    assert stack[n] == Frame(node, index) && FrameOk(adjacency, rank, stack[n], Child(path, n));
    forall i | 0 <= i < n
      ensures path[i] == below[i].node && FrameOk(adjacency, rank, below[i], Child(path, i))
      ensures Child(path + [next], i) == Child(path, i)
    {
      assert stack[i] == below[i];
    }
    var pushed := below + [Frame(node, index + 1)] + [Frame(next, 0)];
    forall i | 0 <= i < |pushed|
      ensures (path + [next])[i] == pushed[i].node && FrameOk(adjacency, rank, pushed[i], Child(path + [next], i))
    {
    }
  }

  lemma PushStep(edges: set<(Text, Text)>, adjacency: map<Text, seq<Text>>, nodes: set<Text>, color: map<Text, Color>,
                 rank: map<Text, nat>, below: seq<Frame>, node: Text, index: nat, path: seq<Text>, next: Text)
    requires SearchState(edges, adjacency, nodes, color, rank, below + [Frame(node, index)], path)
    requires index < |Neighbors(adjacency, node)| && next == Neighbors(adjacency, node)[index]
    requires next in nodes && color[next] == White && (node, next) in edges
    ensures SearchState(edges, adjacency, nodes, color[next := Gray], rank,
                        below + [Frame(node, index + 1)] + [Frame(next, 0)], path + [next])
    ensures Whites(nodes, color[next := Gray]) < Whites(nodes, color)
  {
    FramesPush(adjacency, rank, below, node, index, path, next);
    assert (below + [Frame(node, index)])[|below|] == Frame(node, index);
    assert next in Whites(nodes, color);
  }

  lemma TopFrame(edges: set<(Text, Text)>, adjacency: map<Text, seq<Text>>, nodes: set<Text>, color: map<Text, Color>,
                 rank: map<Text, nat>, below: seq<Frame>, node: Text, index: nat, path: seq<Text>)
    requires SearchState(edges, adjacency, nodes, color, rank, below + [Frame(node, index)], path)
    ensures |path| == |below| + 1 && path[|below|] == node && index <= |Neighbors(adjacency, node)|
  {
    assert (below + [Frame(node, index)])[|below|] == Frame(node, index);
  }

  lemma PopRank(edges: set<(Text, Text)>, adjacency: map<Text, seq<Text>>, nodes: set<Text>, rank: map<Text, nat>,
                node: Text, index: nat)
    requires Ranked(edges, nodes, rank) && node in nodes && node !in rank
    requires FrameOk(adjacency, rank, Frame(node, index), None) && index >= |Neighbors(adjacency, node)|
    requires Represents(edges, adjacency, nodes)
    ensures |rank| < |nodes| && Ranked(edges, nodes, rank[node := |nodes| - |rank| - 1])
  {
    SubsetSmaller(rank.Keys, nodes);
    var numbered := rank[node := |nodes| - |rank| - 1];
    assert numbered.Keys == rank.Keys + {node};
    forall e | e in edges && e.0 in numbered
      ensures e.1 in numbered && numbered[e.0] < numbered[e.1]
    {
      if e.0 == node {
        assert e == (node, e.1);
        var j :| 0 <= j < |Neighbors(adjacency, node)| && Neighbors(adjacency, node)[j] == e.1;
      }
    }
  }

  lemma FramesPop(adjacency: map<Text, seq<Text>>, rank: map<Text, nat>, below: seq<Frame>, node: Text, index: nat,
                  path: seq<Text>, number: nat)
    requires Frames(adjacency, rank, below + [Frame(node, index)], path)
    ensures path == path[..|below|] + [node] && FrameOk(adjacency, rank, Frame(node, index), None)
    ensures Frames(adjacency, rank[node := number], below, path[..|below|])
  {
    var stack := below + [Frame(node, index)];
    var n := |below|;
    assert stack[n] == Frame(node, index) && FrameOk(adjacency, rank, stack[n], Child(path, n));
    forall i | 0 <= i < n
      ensures path[i] == below[i].node && FrameOk(adjacency, rank[node := number], below[i], Child(path[..n], i))
    {
      assert stack[i] == below[i] && FrameOk(adjacency, rank, stack[i], Child(path, i));
    }
  }

  lemma PopColored(nodes: set<Text>, color: map<Text, Color>, rank: map<Text, nat>, shorter: seq<Text>, node: Text, number: nat)
    requires Colored(nodes, color, rank, shorter + [node])
    ensures Colored(nodes, color[node := Black], rank[node := number], shorter)
    ensures Whites(nodes, color[node := Black]) == Whites(nodes, color)
  {
    var path := shorter + [node];
    assert path[|shorter|] == node;
    assert forall i :: 0 <= i < |shorter| ==> path[i] == shorter[i];
    assert forall v :: v in path <==> v in shorter || v == node;
    assert node !in shorter;
  }

  lemma PopStep(edges: set<(Text, Text)>, adjacency: map<Text, seq<Text>>, nodes: set<Text>, color: map<Text, Color>,
                rank: map<Text, nat>, below: seq<Frame>, node: Text, index: nat, path: seq<Text>)
    requires SearchState(edges, adjacency, nodes, color, rank, below + [Frame(node, index)], path)
    requires index >= |Neighbors(adjacency, node)| && Represents(edges, adjacency, nodes)
    ensures node in nodes && |rank| < |nodes|
    ensures SearchState(edges, adjacency, nodes, color[node := Black], rank[node := |nodes| - |rank| - 1],
                        below, path[..|below|])
    ensures Whites(nodes, color[node := Black]) == Whites(nodes, color)
  {
    FramesPop(adjacency, rank, below, node, index, path, 0);
    assert node in path && color[node] == Gray;
    PopRank(edges, adjacency, nodes, rank, node, index);
    FramesPop(adjacency, rank, below, node, index, path, |nodes| - |rank| - 1);
    PopColored(nodes, color, rank, path[..|below|], node, |nodes| - |rank| - 1);
  }

  lemma SubsetSmaller<T>(a: set<T>, b: set<T>)
    requires a < b
    ensures |a| < |b|
  {
    var x :| x in b && x !in a;
    assert a <= b - {x};
    SubsetNotLarger(a, b - {x});
  }

  lemma {:induction false} SubsetNotLarger<T>(a: set<T>, b: set<T>)
    requires a <= b
    ensures |a| <= |b|
  {
    if a != {} {
      var x :| x in a;
      SubsetNotLarger(a - {x}, b - {x});
    }
  }

  lemma CycleStep(edges: set<(Text, Text)>, adjacency: map<Text, seq<Text>>, nodes: set<Text>, color: map<Text, Color>,
                  rank: map<Text, nat>, stack: seq<Frame>, path: seq<Text>, next: Text, at: nat)
    requires SearchState(edges, adjacency, nodes, color, rank, stack, path)
    requires at < |path| && path[at] == next && (path[|path| - 1], next) in edges
    ensures IsClosedWalk(edges, path[at..] + [next]) && NoDup((path[at..] + [next])[1..])
  {
    var c := path[at..] + [next];
    forall i | 0 <= i < |c| - 1
      ensures (c[i], c[i + 1]) in edges
    {
      if i < |c| - 2 {
        assert (path[at + i], path[at + i + 1]) in edges;
      }
    }
  }

  lemma StartStep(edges: set<(Text, Text)>, adjacency: map<Text, seq<Text>>, nodes: set<Text>, color: map<Text, Color>,
                  rank: map<Text, nat>, start: Text)
    requires SearchState(edges, adjacency, nodes, color, rank, [], []) && start in nodes && color[start] == White
    ensures SearchState(edges, adjacency, nodes, color[start := Gray], rank, [Frame(start, 0)], [start])
  {
  }

  lemma SkipStep(edges: set<(Text, Text)>, adjacency: map<Text, seq<Text>>, nodes: set<Text>, color: map<Text, Color>,
                 rank: map<Text, nat>, below: seq<Frame>, node: Text, index: nat, path: seq<Text>, next: Text)
    requires SearchState(edges, adjacency, nodes, color, rank, below + [Frame(node, index)], path)
    requires index < |Neighbors(adjacency, node)| && next == Neighbors(adjacency, node)[index] && next in rank
    ensures SearchState(edges, adjacency, nodes, color, rank, below + [Frame(node, index + 1)], path)
  {
    FramesPush(adjacency, rank, below, node, index, path, next);
  }

  /** Follows the next edge of the node on top: to a new node, to a finished one, or round a cycle. */
  method Follow(ghost edges: set<(Text, Text)>, adjacency: map<Text, seq<Text>>, ghost nodes: set<Text>, color0: map<Text, Color>,
                ghost rank: map<Text, nat>, below: seq<Frame>, node: Text, index: nat, path0: seq<Text>)
    returns (cycle: Option<seq<Text>>, color: map<Text, Color>, stack: seq<Frame>, path: seq<Text>)
    requires Represents(edges, adjacency, nodes) && index < |Neighbors(adjacency, node)|
    requires SearchState(edges, adjacency, nodes, color0, rank, below + [Frame(node, index)], path0)
    ensures cycle.Some? ==> IsClosedWalk(edges, cycle.value) && NoDup(cycle.value[1..])
    ensures cycle.None? ==> SearchState(edges, adjacency, nodes, color, rank, stack, path)
    ensures cycle.None? ==> stack != [] && path0 != [] && path[0] == path0[0]
    ensures cycle.None? ==>
              || Whites(nodes, color) < Whites(nodes, color0)
              || (color == color0 && stack == below + [Frame(node, index + 1)])
  {
    cycle, color, path := None, color0, path0;
    stack := below + [Frame(node, index + 1)];
    TopFrame(edges, adjacency, nodes, color, rank, below, node, index, path);
    NeighborIsNode(edges, adjacency, nodes, node, index);
    var next := Neighbors(adjacency, node)[index];
    match color[next] {
      case White =>
        PushStep(edges, adjacency, nodes, color, rank, below, node, index, path, next);
        stack := stack + [Frame(next, 0)];
        path := path + [next];
        color := color[next := Gray];
      case Gray =>
        var at := FindIndex(path, next);
        CycleStep(edges, adjacency, nodes, color, rank, below + [Frame(node, index)], path, next, at.value);
        cycle := Some(path[at.value..] + [next]);
      case Black =>
        SkipStep(edges, adjacency, nodes, color, rank, below, node, index, path, next);
    }
  }

  /** Explores everything reachable from a white start, unless a cycle turns up. */
  method Explore(ghost edges: set<(Text, Text)>, adjacency: map<Text, seq<Text>>, ghost nodes: set<Text>,
                 color0: map<Text, Color>, ghost rank0: map<Text, nat>, start: Text)
    returns (cycle: Option<seq<Text>>, color: map<Text, Color>, ghost rank: map<Text, nat>)
    requires Represents(edges, adjacency, nodes)
    requires SearchState(edges, adjacency, nodes, color0, rank0, [], [])
    requires start in nodes && color0[start] == White
    ensures cycle.Some? ==> IsClosedWalk(edges, cycle.value) && NoDup(cycle.value[1..])
    ensures cycle.None? ==> SearchState(edges, adjacency, nodes, color, rank, [], [])
    ensures cycle.None? ==> rank0.Keys <= rank.Keys && start in rank
  {
    cycle, color, rank := None, color0[start := Gray], rank0;
    var stack: seq<Frame> := [Frame(start, 0)];
    var path := [start];
    StartStep(edges, adjacency, nodes, color0, rank, start);
    while stack != []
      invariant cycle.None? && SearchState(edges, adjacency, nodes, color, rank, stack, path)
      invariant rank0.Keys <= rank.Keys && (stack == [] ==> start in rank)
      invariant stack != [] ==> path[0] == start
      decreases Whites(nodes, color), |stack|,
                if stack == [] then 0
                else |Neighbors(adjacency, stack[|stack| - 1].node)| - stack[|stack| - 1].index
    {
      var below := stack[..|stack| - 1];
      var Frame(node, index) := stack[|stack| - 1];
      SplitLast(stack);
      TopFrame(edges, adjacency, nodes, color, rank, below, node, index, path);
      var neighbors := Neighbors(adjacency, node);
      if index < |neighbors| {
        cycle, color, stack, path := Follow(edges, adjacency, nodes, color, rank, below, node, index, path);
        if cycle.Some? { return; }
      } else {
        PopStep(edges, adjacency, nodes, color, rank, below, node, index, path);
        color := color[node := Black];
        rank := rank[node := |nodes| - |rank| - 1];
        stack := below;
        path := path[..|below|];
      }
    }
  }

  /** `detect_import_cycle`: starts are tried in ascending order. */
  method DetectImportCycle(deps: seq<Dependency>) returns (cycle: Option<seq<Text>>)
    ensures cycle.Some? ==> IsClosedWalk(ImportEdges(deps), cycle.value) && NoDup(cycle.value[1..])
    ensures cycle.None? ==> exists rank :: IsRank(ImportEdges(deps), rank)
    ensures cycle.None? <==> Acyclic(ImportEdges(deps))
  {
    var adjacency, nodes := BuildAdjacency(deps);
    ghost var edges := ImportEdges(deps);
    var color := map v | v in nodes :: White;
    ghost var rank: map<Text, nat> := map[];
    var rest := nodes;
    TextOrder();
    while rest != {}
      invariant rest <= nodes && SearchState(edges, adjacency, nodes, color, rank, [], [])
      invariant forall v :: v in nodes && v !in rest ==> v in rank
      decreases rest
    {
      ghost var least := LeastExists(TEXT_LE, rest);
      var start :| start in rest && forall x :: x in rest ==> TEXT_LE(start, x);
      if color[start] == White {
        cycle, color, rank := Explore(edges, adjacency, nodes, color, rank, start);
        if cycle.Some? {
          return;
        }
      }
      rest := rest - {start};
    }
    assert IsRank(edges, rank);
    RankMeansAcyclic(edges, rank);
    cycle := None;
  }
}

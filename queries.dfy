/** The traversal queries of the DAG: downstream closure and root-to-leaf paths. */
module Queries {
  import opened Errors
  import opened Graphs
  import opened Sort

  /** filter(lambda x: x in keep, s) as a sequence: the elements of s that are in keep, in the
      order of s. */
  function Filter(s: seq<Node>, keep: set<Node>): (r: seq<Node>)
    ensures Elems(r) == Elems(s) * keep
    ensures Distinct(s) ==> Distinct(r)
  {
    if s == [] then []
    else
      var rest := Filter(s[1..], keep);
      assert Elems(s) == {s[0]} + Elems(s[1..]);
      assert Distinct(s) ==> s[0] !in Elems(s[1..]);
      if s[0] in keep then
        assert Elems([s[0]] + rest) == {s[0]} + Elems(rest);
        [s[0]] + rest
      else rest
  }

  /** The tail of an edge-ordered list is edge-ordered, and nothing in it points back to the
      head. */
  lemma EdgeOrderedTail(g: Graph, s: seq<Node>)
    requires EdgeOrdered(g, s) && s != []
    ensures EdgeOrdered(g, s[1..])
    ensures forall x :: x in Elems(s[1..]) ==> !Edge(g, x, s[0])
    ensures !Edge(g, s[0], s[0])
  {
    var t := s[1..];
    forall i, j | 0 <= i < |t| && 0 <= j < |t| && Edge(g, t[i], t[j])
      ensures i < j
    {
      assert s[i + 1] == t[i] && s[j + 1] == t[j];
    }
    forall x | x in Elems(t)
      ensures !Edge(g, x, s[0])
    {
      var k :| 0 <= k < |t| && t[k] == x;
      assert s[k + 1] == x;
    }
  }

  /** A head that nothing in an edge-ordered tail points back to, and that has no self-loop,
      extends it to an edge-ordered list. */
  lemma EdgeOrderedCons(g: Graph, x: Node, t: seq<Node>)
    requires EdgeOrdered(g, t) && !Edge(g, x, x)
    requires forall y :: y in Elems(t) ==> !Edge(g, y, x)
    ensures EdgeOrdered(g, [x] + t)
  {
    var f := [x] + t;
    forall i, j | 0 <= i < |f| && 0 <= j < |f| && Edge(g, f[i], f[j])
      ensures i < j
    {
      if i > 0 {
        assert f[i] == t[i - 1] && t[i - 1] in Elems(t);
        if j > 0 {
          assert f[j] == t[j - 1];
        }
      }
    }
  }

  /** Keeping a subsequence keeps every edge pointing forward. */
  lemma {:induction false} FilterEdgeOrdered(g: Graph, s: seq<Node>, keep: set<Node>)
    requires EdgeOrdered(g, s)
    ensures EdgeOrdered(g, Filter(s, keep))
  {
    if s != [] {
      EdgeOrderedTail(g, s);
      FilterEdgeOrdered(g, s[1..], keep);
      if s[0] in keep {
        EdgeOrderedCons(g, s[0], Filter(s[1..], keep));
      }
    }
  }

  /** The state of the worklist of all_downstreams after i nodes of `nodes` were expanded:
      `nodes` is n followed by the nodes seen so far, each once; everything seen is reachable
      from n; the expanded nodes have all their successors seen. */
  ghost predicate DownstreamInv(g: Graph, n: Node, nodes: seq<Node>, seen: set<Node>, i: nat) {
    && |nodes| >= 1 && nodes[0] == n && i <= |nodes|
    && Distinct(nodes[1..]) && Elems(nodes[1..]) == seen && seen <= g.Keys
    && (i > 0 ==> n in g)
    && (forall x :: x in seen ==> Reaches(g, n, x))
    && (forall j :: 0 <= j < i ==> nodes[j] in g && g[nodes[j]] <= seen)
  }

  /** Visiting the successor d of the node being expanded: mark it seen and queue it. */
  lemma DownstreamVisit(g: Graph, n: Node, nodes: seq<Node>, seen: set<Node>, i: nat, d: Node)
    requires Closed(g) && DownstreamInv(g, n, nodes, seen, i) && i < |nodes|
    requires nodes[i] in g && (i == 0 ==> n in g) && d in g[nodes[i]] && d !in seen
    ensures DownstreamInv(g, n, nodes + [d], seen + {d}, i)
  {
    var nodes' := nodes + [d];
    assert nodes'[1..] == nodes[1..] + [d];
    if i == 0 {
      EdgeReaches(g, n, d);
    } else {
      assert nodes[i] in Elems(nodes[1..]);
      ReachesThenEdge(g, n, nodes[i], d);
    }
    assert forall j :: 0 <= j < i ==> nodes'[j] == nodes[j];
  }

  lemma DownstreamBound(g: Graph, n: Node, nodes: seq<Node>, seen: set<Node>, i: nat)
    requires DownstreamInv(g, n, nodes, seen, i)
    ensures |nodes| <= |g.Keys| + 1
  {
    DistinctCard(nodes[1..]);
    SubsetCard(seen, g.Keys);
  }

  /** When every node of the worklist is expanded, the seen set is the whole closure. */
  lemma DownstreamComplete(g: Graph, n: Node, nodes: seq<Node>, seen: set<Node>)
    requires DownstreamInv(g, n, nodes, seen, |nodes|) && n in g
    ensures forall v :: v in seen <==> Reaches(g, n, v)
  {
    forall x | x in seen && x in g
      ensures g[x] <= seen
    {
      var k :| 0 <= k < |nodes[1..]| && nodes[1..][k] == x;
      assert nodes[k + 1] == x;
    }
    forall v | Reaches(g, n, v)
      ensures v in seen
    {
      var p :| |p| >= 2 && IsPath(g, p) && p[0] == n && p[|p| - 1] == v;
      ReachableWithin(g, n, seen, p);
    }
  }

  /** all_downstreams: the nodes reachable from n by one or more edges, found with a worklist,
      then listed in the order of a topological sort of the whole graph. */
  method AllDownstreams(g: Graph, n: Node) returns (r: Result<seq<Node>>)
    requires Closed(g)
    ensures r == Err(KeyError) <==> n !in g
    ensures r == Err(ValueError) <==> n in g && !Acyclic(g)
    ensures r.Ok? <==> n in g && Acyclic(g)
    ensures r.Ok? ==> Distinct(r.value) && EdgeOrdered(g, r.value)
    ensures r.Ok? ==> forall v :: v in r.value <==> Reaches(g, n, v)
  {
    var nodes := [n];
    var seen: set<Node> := {};
    var i := 0;
    while i < |nodes|
      invariant DownstreamInv(g, n, nodes, seen, i)
      decreases |g.Keys| + 1 - i
    {
      DownstreamBound(g, n, nodes, seen, i);
      var downstreams := Downstream(g, nodes[i]);
      if downstreams.Err? {
        return Err(KeyError);
      }
      var todo := downstreams.value;
      while todo != {}
        invariant DownstreamInv(g, n, nodes, seen, i) && i < |nodes| && nodes[i] in g
        invariant (i == 0 ==> n in g) && todo <= g[nodes[i]] && g[nodes[i]] - todo <= seen
        decreases todo
      {
        var d :| d in todo;
        if d !in seen {
          DownstreamVisit(g, n, nodes, seen, i, d);
          seen := seen + {d};
          nodes := nodes + [d];
        }
        todo := todo - {d};
      }
      i := i + 1;
    }
    DownstreamComplete(g, n, nodes, seen);
    var order := TopologicalSort(g);
    if order.Err? {
      return Err(ValueError);
    }
    FilterEdgeOrdered(g, order.value, seen);
    r := Ok(Filter(order.value, seen));
    assert forall v :: v in r.value <==> v in Elems(r.value);
  }

  // ----- all_paths -----

  /** One entry of the explicit stack of all_paths: a vertex and the path that led to it. */
  type Frame = (Node, seq<Node>)

  function Pow(b: nat, e: nat): nat {
    if e == 0 then 1 else b * Pow(b, e - 1)
  }

  /** A bound on the work left under a stacked path of length len in a graph of n nodes: a
      simple path has at most n nodes, and each of them at most n successors. */
  function Weight(n: nat, len: nat): nat {
    if len <= n then Pow(n + 1, n - len) else 1
  }

  function StackWeight(n: nat, stack: seq<Frame>): nat {
    if stack == [] then 0
    else StackWeight(n, stack[..|stack| - 1]) + Weight(n, |stack[|stack| - 1].1|)
  }

  /** k copies of w added up: the weight a loop adds after k pushes of one weight. */
  function Times(k: nat, w: nat): nat {
    if k == 0 then 0 else Times(k - 1, w) + w
  }

  lemma {:induction false} TimesIsProduct(k: nat, w: nat)
    ensures Times(k, w) == k * w
  {
    if k > 0 {
      TimesIsProduct(k - 1, w);
    }
  }

  lemma {:induction false} PowPositive(b: nat, e: nat)
    requires b >= 1
    ensures Pow(b, e) >= 1
  {
    if e > 0 {
      PowPositive(b, e - 1);
      assert b * Pow(b, e - 1) >= Pow(b, e - 1);
    }
  }

  /** Replacing a path of length len < n by at most n one-node-longer paths lowers the weight. */
  lemma WeightStep(n: nat, len: nat, c: nat)
    requires len < n && c <= n
    ensures c * Weight(n, len + 1) < Weight(n, len)
  {
    var w := Weight(n, len + 1);
    PowPositive(n + 1, n - len - 1);
    assert Weight(n, len) == (n + 1) * w;
    assert c * w <= n * w;
  }

  lemma StackPush(n: nat, stack: seq<Frame>, f: Frame)
    ensures StackWeight(n, stack + [f]) == StackWeight(n, stack) + Weight(n, |f.1|)
  {
    assert (stack + [f])[..|stack|] == stack;
  }

  lemma DifferenceCard<T>(a: set<T>, b: set<T>)
    requires a <= b
    ensures |b - a| == |b| - |a|
  {
    assert b == (b - a) + a;
    assert (b - a) * a == {};
  }

  /** A stacked frame: a simple path from the start node along edges, ending at its vertex. */
  ghost predicate FrameOk(g: Graph, first: Node, f: Frame) {
    IsPath(g, f.1) && Distinct(f.1) && f.1[0] == first && f.1[|f.1| - 1] == f.0
  }

  /** A recorded path: simple, along edges, from one of the start nodes to a leaf. */
  ghost predicate RecordedPathOk(g: Graph, starts: set<Node>, p: seq<Node>) {
    |p| >= 2 && IsPath(g, p) && Distinct(p) && p[0] in starts && p[|p| - 1] in AllLeaves(g)
  }

  ghost predicate StackOk(g: Graph, first: Node, stack: seq<Frame>) {
    forall k :: 0 <= k < |stack| ==> FrameOk(g, first, stack[k])
  }

  ghost predicate RecordedPathsOk(g: Graph, starts: set<Node>, paths: seq<seq<Node>>) {
    forall p :: p in paths ==> RecordedPathOk(g, starts, p)
  }

  /** Extending a stacked simple path by a successor it has not visited keeps it simple. */
  lemma ExtendFrame(g: Graph, first: Node, f: Frame, next: Node)
    requires Closed(g) && FrameOk(g, first, f) && next in g[f.0] && next !in Elems(f.1)
    ensures FrameOk(g, first, (next, f.1 + [next]))
  {
    assert Edge(g, f.0, next);
    assert IsPath(g, [f.0, next]);
    PathConcat(g, f.1, [f.0, next]);
    assert f.1 + [f.0, next][1..] == f.1 + [next];
  }

  /** Pushing a frame that is a simple path from the start adds its weight to the stack. */
  lemma PushFrame(g: Graph, first: Node, stack: seq<Frame>, f: Frame)
    requires StackOk(g, first, stack) && FrameOk(g, first, f)
    ensures StackOk(g, first, stack + [f])
    ensures StackWeight(|g.Keys|, stack + [f]) == StackWeight(|g.Keys|, stack) + Weight(|g.Keys|, |f.1|)
  {
    StackPush(|g.Keys|, stack, f);
    assert forall k :: 0 <= k < |stack| ==> (stack + [f])[k] == stack[k];
  }

  /** A frame from a start node whose vertex is a leaf, reached by at least one edge, is a
      path all_paths may record. */
  lemma RecordPath(g: Graph, starts: set<Node>, first: Node, paths: seq<seq<Node>>, f: Frame)
    requires first in starts && RecordedPathsOk(g, starts, paths)
    requires FrameOk(g, first, f) && |f.1| >= 2 && f.0 in AllLeaves(g)
    ensures RecordedPathsOk(g, starts, paths + [f.1]) && paths <= paths + [f.1]
  {
  }

  /** The successors a frame can still visit are nodes off its path: at most n - |path|. */
  lemma ChildrenBound(g: Graph, first: Node, f: Frame)
    requires Closed(g) && FrameOk(g, first, f)
    ensures |g[f.0] - Elems(f.1)| <= |g.Keys| - |f.1|
  {
    forall x | x in g[f.0] - Elems(f.1)
      ensures x in g.Keys - Elems(f.1)
    {
      assert Edge(g, f.0, x);
    }
    assert Elems(f.1) <= g.Keys;
    DistinctCard(f.1);
    DifferenceCard(Elems(f.1), g.Keys);
    SubsetCard(g[f.0] - Elems(f.1), g.Keys - Elems(f.1));
  }

  /** The body of the stack loop of all_paths for one popped frame: each successor of its vertex
      off its path either completes a recorded path (a leaf) or is pushed as a longer frame. The
      stack's weight drops below what it was with the popped frame still on it. */
  method ExpandFrame(g: Graph, ghost starts: set<Node>, leaves: set<Node>, first: Node, frame: Frame,
                     stack: seq<Frame>, paths: seq<seq<Node>>)
    returns (stack': seq<Frame>, paths': seq<seq<Node>>)
    requires Closed(g) && leaves == AllLeaves(g) && first in starts
    requires FrameOk(g, first, frame) && frame.0 in g
    requires StackOk(g, first, stack) && RecordedPathsOk(g, starts, paths)
    ensures StackOk(g, first, stack') && RecordedPathsOk(g, starts, paths')
    ensures paths <= paths'
    ensures StackWeight(|g.Keys|, stack') < StackWeight(|g.Keys|, stack) + Weight(|g.Keys|, |frame.1|)
  {
    var (vertex, path) := frame;
    ghost var n := |g.Keys|;
    ChildrenBound(g, first, frame);
    stack', paths' := stack, paths;
    var nexts := g[vertex] - Elems(path);
    ghost var c := |nexts|;
    ghost var w := Weight(n, |path| + 1);
    ghost var visited: nat := 0;
    PowPositive(n + 1, n - |path|);
    while nexts != {}
      invariant nexts <= g[vertex] - Elems(path)
      invariant StackOk(g, first, stack') && RecordedPathsOk(g, starts, paths')
      invariant paths <= paths'
      invariant visited + |nexts| == c
      invariant StackWeight(n, stack') <= StackWeight(n, stack) + Times(visited, w)
      decreases nexts
    {
      visited := visited + 1;
      var next :| next in nexts;
      ExtendFrame(g, first, frame, next);
      if next in leaves {
        RecordPath(g, starts, first, paths', (next, path + [next]));
        paths' := paths' + [path + [next]];
      } else {
        PushFrame(g, first, stack', (next, path + [next]));
        stack' := stack' + [(next, path + [next])];
      }
      nexts := nexts - {next};
    }
    if c > 0 {
      TimesIsProduct(c, w);
      WeightStep(n, |path|, c);
    }
  }

  /** all_paths: depth-first search with an explicit stack from each start node (the given one,
      or every independent node), recording each simple path that reaches a leaf. */
  method AllPaths(g: Graph, start: Option<Node>) returns (r: Result<seq<seq<Node>>>)
    requires Closed(g)
    ensures r.Err? <==> start.Some? && start.value !in g
    ensures r.Err? ==> r.error == KeyError
    ensures r.Ok? ==> forall p :: p in r.value ==>
              RecordedPathOk(g, if start.Some? then {start.value} else IndNodes(g), p)
  {
    var paths: seq<seq<Node>> := [];
    var startNodes: seq<Node>;
    if start.None? {
      startNodes := SetToSeq(IndNodes(g));
    } else {
      startNodes := [start.value];
    }
    ghost var starts := Elems(startNodes);
    assert starts == if start.Some? then {start.value} else IndNodes(g);
    var leaves := AllLeaves(g);
    for si := 0 to |startNodes|
      invariant RecordedPathsOk(g, starts, paths)
      invariant si > 0 && start.Some? ==> start.value in g
    {
      var first := startNodes[si];
      assert first in starts;
      var stack: seq<Frame> := [(first, [first])];
      while stack != []
        invariant first !in g ==> stack == [(first, [first])]
        invariant first in g ==> StackOk(g, first, stack)
        invariant RecordedPathsOk(g, starts, paths)
        decreases StackWeight(|g.Keys|, stack)
      {
        var frame := stack[|stack| - 1];
        stack := stack[..|stack| - 1];
        if frame.0 !in g {
          return Err(KeyError);
        }
        assert FrameOk(g, first, frame);
        stack, paths := ExpandFrame(g, starts, leaves, first, frame, stack, paths);
      }
    }
    return Ok(paths);
  }
}

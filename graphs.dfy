/** The adjacency map of the DAG as a value, what it means for it to be acyclic, and the
    read-only queries of the DAG class that are plain set expressions over the map. */
module Graphs {
  import opened Errors

  /** A node name. The source accepts any hashable value; names are strings in its uses. */
  type Node = string

  /** The adjacency map `graph`: each node to the set of its direct successors. */
  type Graph = map<Node, set<Node>>

  // ----- sequences -----

  /** No element occurs twice. */
  predicate Distinct<T(==)>(s: seq<T>) {
    forall i, j :: 0 <= i < j < |s| ==> s[i] != s[j]
  }

  /** The set of elements of a sequence. */
  function Elems<T(==)>(s: seq<T>): set<T> {
    set x | x in s
  }

  /** Growing a prefix by one element adds that element, which a sequence without repeats did
      not hold yet. */
  lemma PrefixStep<T>(s: seq<T>, i: nat)
    requires i < |s|
    ensures Elems(s[..i + 1]) == Elems(s[..i]) + {s[i]}
    ensures Distinct(s) ==> s[i] !in Elems(s[..i])
    ensures i + 1 == |s| ==> Elems(s[..i + 1]) == Elems(s)
  {
    assert s[..i + 1] == s[..i] + [s[i]];
    if i + 1 == |s| {
      assert s[..i + 1] == s;
    }
  }

  lemma {:induction false} DistinctCard<T>(s: seq<T>)
    requires Distinct(s)
    ensures |Elems(s)| == |s|
  {
    if s != [] {
      DistinctCard(s[1..]);
      assert Elems(s) == {s[0]} + Elems(s[1..]);
    }
  }

  lemma {:induction false} SubsetCard<T>(a: set<T>, b: set<T>)
    requires a <= b
    ensures |a| <= |b|
    decreases a
  {
    if a != {} {
      var x :| x in a;
      SubsetCard(a - {x}, b - {x});
    }
  }

  /** A sequence with more elements than the set that holds them repeats one. */
  lemma Pigeonhole<T>(s: seq<T>, r: set<T>)
    requires Elems(s) <= r && |s| > |r|
    ensures !Distinct(s)
  {
    if Distinct(s) {
      DistinctCard(s);
      SubsetCard(Elems(s), r);
    }
  }

  /** The position of an element in a sequence. */
  ghost function IndexOf<T>(s: seq<T>, x: T): (i: nat)
    requires x in s
    ensures i < |s| && s[i] == x
  {
    if s[0] == x then 0 else 1 + IndexOf(s[1..], x)
  }

  /** The last position of an element in a sequence. */
  ghost function LastIndex<T>(s: seq<T>, x: T): (i: nat)
    requires x in s
    ensures i < |s| && s[i] == x
    ensures forall j :: i < j < |s| ==> s[j] != x
  {
    if s[|s| - 1] == x then |s| - 1 else LastIndex(s[..|s| - 1], x)
  }

  // ----- paths, cycles and orders -----

  /** The edge a -> b: b is in the successor set of the node a. */
  ghost predicate Edge(g: Graph, a: Node, b: Node) {
    a in g && b in g[a]
  }

  /** Every successor of every node is itself a node of the map. */
  ghost predicate Closed(g: Graph) {
    forall a, b :: Edge(g, a, b) ==> b in g
  }

  /** A walk of nodes of g along edges of g. */
  ghost predicate IsPath(g: Graph, p: seq<Node>) {
    && |p| >= 1
    && (forall k :: 0 <= k < |p| ==> p[k] in g)
    && (forall k :: 0 <= k < |p| - 1 ==> Edge(g, p[k], p[k + 1]))
  }

  /** A walk of at least one edge that comes back to where it started. */
  ghost predicate IsCycle(g: Graph, p: seq<Node>) {
    |p| >= 2 && IsPath(g, p) && p[0] == p[|p| - 1]
  }

  ghost predicate Acyclic(g: Graph) {
    forall p :: !IsCycle(g, p)
  }

  /** b is reached from a by following one or more edges. */
  ghost predicate Reaches(g: Graph, a: Node, b: Node) {
    exists p :: |p| >= 2 && IsPath(g, p) && p[0] == a && p[|p| - 1] == b
  }

  /** Every edge between two elements of s points forward in s. */
  ghost predicate EdgeOrdered(g: Graph, s: seq<Node>) {
    forall i, j :: 0 <= i < |s| && 0 <= j < |s| && Edge(g, s[i], s[j]) ==> i < j
  }

  /** Every node exactly once, and every edge pointing forward. */
  ghost predicate IsTopologicalOrder(g: Graph, s: seq<Node>) {
    Distinct(s) && Elems(s) == g.Keys && EdgeOrdered(g, s)
  }

  /** Every node and edge of h is one of g. */
  ghost predicate SubGraph(h: Graph, g: Graph) {
    h.Keys <= g.Keys && forall n :: n in h ==> h[n] <= g[n]
  }

  lemma SubGraphAcyclic(h: Graph, g: Graph)
    requires SubGraph(h, g) && Acyclic(g)
    ensures Acyclic(h)
  {
    forall p | IsCycle(h, p)
      ensures false
    {
      assert IsCycle(g, p);
    }
  }

  lemma PathConcat(g: Graph, p: seq<Node>, q: seq<Node>)
    requires IsPath(g, p) && IsPath(g, q) && p[|p| - 1] == q[0]
    ensures IsPath(g, p + q[1..])
    ensures |p + q[1..]| == |p| + |q| - 1
    ensures (p + q[1..])[|p + q[1..]| - 1] == q[|q| - 1]
  {
    var r := p + q[1..];
    forall k | 0 <= k < |r| - 1
      ensures Edge(g, r[k], r[k + 1])
    {
      if k < |p| - 1 {
        assert r[k] == p[k] && r[k + 1] == p[k + 1];
      } else {
        assert r[k] == q[k - |p| + 1] && r[k + 1] == q[k - |p| + 2];
      }
    }
  }

  /** A topological order rules out every cycle: positions rise strictly along a path. */
  lemma {:induction false} PathClimbs(g: Graph, s: seq<Node>, p: seq<Node>)
    requires EdgeOrdered(g, s) && IsPath(g, p) && |p| >= 2
    requires forall k :: 0 <= k < |p| ==> p[k] in s
    ensures IndexOf(s, p[0]) < IndexOf(s, p[|p| - 1])
  {
    var n := |p|;
    var i, j := IndexOf(s, p[n - 2]), IndexOf(s, p[n - 1]);
    assert Edge(g, s[i], s[j]);
    if n > 2 {
      PathClimbs(g, s, p[..n - 1]);
    }
  }

  lemma TopologicalOrderAcyclic(g: Graph, s: seq<Node>)
    requires IsTopologicalOrder(g, s)
    ensures Acyclic(g)
  {
    forall p | IsCycle(g, p)
      ensures false
    {
      assert forall k :: 0 <= k < |p| ==> p[k] in Elems(s);
      PathClimbs(g, s, p);
    }
  }

  lemma SubPath(g: Graph, p: seq<Node>, i: nat, j: nat)
    requires IsPath(g, p) && i < j <= |p|
    ensures IsPath(g, p[i..j])
  {
    forall k | 0 <= k < j - i - 1
      ensures Edge(g, p[i..j][k], p[i..j][k + 1])
    {
      assert p[i..j][k] == p[i + k] && p[i..j][k + 1] == p[i + k + 1];
    }
  }

  /** A walk that visits some node twice contains a cycle. */
  lemma RepeatingPathHasCycle(g: Graph, s: seq<Node>)
    requires IsPath(g, s) && !Distinct(s)
    ensures !Acyclic(g)
  {
    var i, j :| 0 <= i < j < |s| && s[i] == s[j];
    SubPath(g, s, i, j + 1);
    assert IsCycle(g, s[i..j + 1]);
  }

  ghost predicate HasPredecessorIn(g: Graph, r: set<Node>, y: Node) {
    exists x :: x in r && Edge(g, x, y)
  }

  ghost predicate HasSuccessorIn(g: Graph, r: set<Node>, x: Node) {
    exists y :: y in r && Edge(g, x, y)
  }

  lemma Prepend(g: Graph, r: set<Node>, x: Node, s: seq<Node>) returns (t: seq<Node>)
    requires IsPath(g, s) && Edge(g, x, s[0]) && x in r && Elems(s) <= r
    ensures |t| == |s| + 1 && IsPath(g, t) && Elems(t) <= r
  {
    t := [x] + s;
    assert Elems(t) == {x} + Elems(s);
    forall k | 0 <= k < |t| - 1
      ensures Edge(g, t[k], t[k + 1])
    {
      if k > 0 {
        assert t[k] == s[k - 1] && t[k + 1] == s[k];
      }
    }
  }

  lemma Append(g: Graph, r: set<Node>, s: seq<Node>, y: Node) returns (t: seq<Node>)
    requires IsPath(g, s) && Edge(g, s[|s| - 1], y) && y in r && r <= g.Keys && Elems(s) <= r
    ensures |t| == |s| + 1 && IsPath(g, t) && Elems(t) <= r
  {
    t := s + [y];
    assert Elems(t) == Elems(s) + {y};
    forall k | 0 <= k < |t| - 1
      ensures Edge(g, t[k], t[k + 1])
    {
      if k < |s| - 1 {
        assert t[k] == s[k] && t[k + 1] == s[k + 1];
      }
    }
  }

  /** Walking backwards from the head of a path inside r, through predecessors in r, must
      repeat a node once the path is longer than r is large; that closes a cycle. */
  lemma {:induction false} WalkBackwards(g: Graph, r: set<Node>, s: seq<Node>)
    requires r <= g.Keys && IsPath(g, s) && Elems(s) <= r
    requires forall y :: y in r ==> HasPredecessorIn(g, r, y)
    ensures !Acyclic(g)
    decreases |r| + 1 - |s|
  {
    if |s| > |r| {
      Pigeonhole(s, r);
      RepeatingPathHasCycle(g, s);
    } else {
      var head := s[0];
      assert HasPredecessorIn(g, r, head);
      var x :| x in r && Edge(g, x, head);
      var t := Prepend(g, r, x, s);
      WalkBackwards(g, r, t);
    }
  }

  /** Walking forwards from the end of a path inside r, through successors in r, must repeat a
      node once the path is longer than r is large; that closes a cycle. */
  lemma {:induction false} WalkForwards(g: Graph, r: set<Node>, s: seq<Node>)
    requires r <= g.Keys && IsPath(g, s) && Elems(s) <= r
    requires forall x :: x in r ==> HasSuccessorIn(g, r, x)
    ensures !Acyclic(g)
    decreases |r| + 1 - |s|
  {
    if |s| > |r| {
      Pigeonhole(s, r);
      RepeatingPathHasCycle(g, s);
    } else {
      var last := s[|s| - 1];
      assert HasSuccessorIn(g, r, last);
      var y :| y in r && Edge(g, last, y);
      var t := Append(g, r, s, y);
      WalkForwards(g, r, t);
    }
  }

  /** If every node of a non-empty set has a predecessor inside the set, the graph has a
      cycle. */
  lemma CycleFromPredecessors(g: Graph, r: set<Node>)
    requires r != {} && r <= g.Keys
    requires forall y :: y in r ==> HasPredecessorIn(g, r, y)
    ensures !Acyclic(g)
  {
    var y :| y in r;
    WalkBackwards(g, r, [y]);
  }

  /** If every node of a non-empty set has a successor inside the set, the graph has a cycle. */
  lemma CycleFromSuccessors(g: Graph, r: set<Node>)
    requires r != {} && r <= g.Keys
    requires forall x :: x in r ==> HasSuccessorIn(g, r, x)
    ensures !Acyclic(g)
  {
    var x :| x in r;
    WalkForwards(g, r, [x]);
  }

  lemma EdgeReaches(g: Graph, a: Node, b: Node)
    requires Closed(g) && Edge(g, a, b)
    ensures Reaches(g, a, b)
  {
    assert IsPath(g, [a, b]);
  }

  lemma ReachesThenEdge(g: Graph, a: Node, b: Node, c: Node)
    requires Closed(g) && Reaches(g, a, b) && Edge(g, b, c)
    ensures Reaches(g, a, c)
  {
    var p :| |p| >= 2 && IsPath(g, p) && p[0] == a && p[|p| - 1] == b;
    PathConcat(g, p, [b, c]);
  }

  /** Whatever a path from n reaches stays inside any set that holds the successors of n and
      the successors of each of its own nodes. */
  lemma {:induction false} ReachableWithin(g: Graph, n: Node, s: set<Node>, p: seq<Node>)
    requires IsPath(g, p) && |p| >= 2 && p[0] == n
    requires g[n] <= s
    requires forall x :: x in s && x in g ==> g[x] <= s
    ensures p[|p| - 1] in s
  {
    var m := |p|;
    assert Edge(g, p[m - 2], p[m - 1]);
    if m > 2 {
      ReachableWithin(g, n, s, p[..m - 1]);
    }
  }

  // ----- the edited maps that the mutators of the DAG class produce -----

  /** The trial graph of add_edge: the map with the edge u -> v added. */
  function WithEdge(g: Graph, u: Node, v: Node): Graph
    requires u in g
  {
    g[u := g[u] + {v}]
  }

  /** The map with the edge u -> v taken out. */
  function WithoutEdge(g: Graph, u: Node, v: Node): Graph
    requires u in g
  {
    g[u := g[u] - {v}]
  }

  /** The map without the node n and without every edge into n. */
  function RemoveNode(g: Graph, n: Node): Graph {
    map x | x in g && x != n :: g[x] - {n}
  }

  /** Adding a new edge and deleting it again gives back the map, and so does the reverse. */
  lemma EdgeRoundTrip(g: Graph, u: Node, v: Node)
    requires u in g
    ensures v !in g[u] ==> WithoutEdge(WithEdge(g, u, v), u, v) == g
    ensures v in g[u] ==> WithEdge(WithoutEdge(g, u, v), u, v) == g
  {
    if v !in g[u] {
      assert g[u] + {v} - {v} == g[u];
    } else {
      assert g[u] - {v} + {v} == g[u];
    }
  }

  lemma WithEdgeEdges(g: Graph, u: Node, v: Node)
    requires u in g
    ensures WithEdge(g, u, v).Keys == g.Keys
    ensures forall a, b :: Edge(WithEdge(g, u, v), a, b) <==> Edge(g, a, b) || (a == u && b == v)
  {
  }

  lemma WithoutEdgeEdges(g: Graph, u: Node, v: Node)
    requires u in g
    ensures WithoutEdge(g, u, v).Keys == g.Keys
    ensures forall a, b :: Edge(WithoutEdge(g, u, v), a, b) <==> Edge(g, a, b) && !(a == u && b == v)
    ensures Closed(g) ==> Closed(WithoutEdge(g, u, v))
    ensures Acyclic(g) ==> Acyclic(WithoutEdge(g, u, v))
  {
    if Acyclic(g) {
      SubGraphAcyclic(WithoutEdge(g, u, v), g);
    }
  }

  lemma RemoveNodeEdges(g: Graph, n: Node)
    ensures RemoveNode(g, n).Keys == g.Keys - {n}
    ensures forall a, b :: Edge(RemoveNode(g, n), a, b) <==> Edge(g, a, b) && a != n && b != n
    ensures Closed(g) ==> Closed(RemoveNode(g, n))
    ensures Acyclic(g) ==> Acyclic(RemoveNode(g, n))
  {
    if Acyclic(g) {
      SubGraphAcyclic(RemoveNode(g, n), g);
    }
  }

  /** add_node on an existing node forgets its outgoing edges; nothing else changes. */
  lemma AddNodeEdges(g: Graph, n: Node)
    ensures g[n := {}].Keys == g.Keys + {n}
    ensures forall a, b :: Edge(g[n := {}], a, b) <==> Edge(g, a, b) && a != n
    ensures Closed(g) ==> Closed(g[n := {}])
    ensures Acyclic(g) ==> Acyclic(g[n := {}])
  {
    var h := g[n := {}];
    assert forall a, b :: Edge(h, a, b) <==> Edge(g, a, b) && a != n;
    if Acyclic(g) {
      forall p | IsCycle(h, p)
        ensures false
      {
        forall k | 0 <= k < |p| - 1
          ensures Edge(g, p[k], p[k + 1])
        {
          assert Edge(h, p[k], p[k + 1]);
        }
        assert Edge(h, p[0], p[1]);
        forall k | 0 <= k < |p|
          ensures p[k] in g
        {
          if k < |p| - 1 {
            assert Edge(h, p[k], p[k + 1]);
          } else {
            assert p[k] == p[0];
          }
        }
        assert IsCycle(g, p);
      }
    }
  }

  /** A path in the map extended by u -> v that goes from v back to u also exists without the
      new edge: cut it at the last visit of v. */
  lemma PathAvoidsNewEdge(g: Graph, u: Node, v: Node, q: seq<Node>)
    requires u in g && u != v
    requires IsPath(WithEdge(g, u, v), q) && q[0] == v && q[|q| - 1] == u
    ensures Reaches(g, v, u)
  {
    var h := WithEdge(g, u, v);
    var i := LastIndex(q, v);
    var p := q[i..];
    forall t | 0 <= t < |p| - 1
      ensures Edge(g, p[t], p[t + 1])
    {
      assert Edge(h, q[i + t], q[i + t + 1]);
      assert q[i + t + 1] != v;
    }
    assert IsPath(g, p);
  }

  /** A self-loop, or an edge back from where its target already leads, closes a cycle. */
  lemma BackEdgeMakesCycle(g: Graph, u: Node, v: Node)
    requires u in g && v in g && (u == v || Reaches(g, v, u))
    ensures !Acyclic(WithEdge(g, u, v))
  {
    var h := WithEdge(g, u, v);
    if u == v {
      assert IsCycle(h, [u, u]);
    } else {
      var p :| |p| >= 2 && IsPath(g, p) && p[0] == v && p[|p| - 1] == u;
      forall k | 0 <= k < |p| - 1
        ensures Edge(h, p[k], p[k + 1])
      {
        assert Edge(g, p[k], p[k + 1]);
      }
      assert IsPath(h, p);
      assert IsPath(h, [u, v]);
      PathConcat(h, p, [u, v]);
      assert p + [u, v][1..] == p + [v];
      assert IsCycle(h, p + [v]);
    }
  }

  /** Cutting a cycle open after its k-th edge gives a path from the end of that edge round to
      its start. */
  lemma RotateCycle(h: Graph, c: seq<Node>, k: nat) returns (r: seq<Node>)
    requires IsCycle(h, c) && k < |c| - 1
    ensures IsPath(h, r) && r[0] == c[k + 1] && r[|r| - 1] == c[k]
  {
    var after, before := c[k + 1..|c|], c[0..k + 1];
    SubPath(h, c, k + 1, |c|);
    SubPath(h, c, 0, k + 1);
    PathConcat(h, after, before);
    r := after + before[1..];
  }

  /** A cycle of the extended map that the old map lacks runs through u -> v, so rotating it to
      start after that edge gives a way from v back to u. */
  lemma NewCycleGivesBackPath(g: Graph, u: Node, v: Node, c: seq<Node>)
    requires Acyclic(g) && u in g && v in g && u != v
    requires IsCycle(WithEdge(g, u, v), c)
    ensures Reaches(g, v, u)
  {
    var h := WithEdge(g, u, v);
    if forall k :: 0 <= k < |c| - 1 ==> Edge(g, c[k], c[k + 1]) {
      assert IsCycle(g, c);
    } else {
      var k :| 0 <= k < |c| - 1 && !Edge(g, c[k], c[k + 1]);
      assert Edge(h, c[k], c[k + 1]);
      assert c[k] == u && c[k + 1] == v;
      var back := RotateCycle(h, c, k);
      PathAvoidsNewEdge(g, u, v, back);
    }
  }

  /** The edge that add_edge inserts closes a cycle exactly when it is a self-loop or its
      target already reaches its source. */
  lemma WithEdgeAcyclic(g: Graph, u: Node, v: Node)
    requires Acyclic(g) && u in g && v in g
    ensures Acyclic(WithEdge(g, u, v)) <==> !(u == v || Reaches(g, v, u))
  {
    if u == v || Reaches(g, v, u) {
      BackEdgeMakesCycle(g, u, v);
    } else if !Acyclic(WithEdge(g, u, v)) {
      var c :| IsCycle(WithEdge(g, u, v), c);
      NewCycleGivesBackPath(g, u, v, c);
    }
  }

  /** An edge that add_edge refuses closes a cycle in every graph that contains the trial
      graph. */
  lemma RefusedEdgeCycles(g: Graph, u: Node, v: Node, h: Graph)
    requires u in g && v in g && (u == v || Reaches(g, v, u))
    requires SubGraph(WithEdge(g, u, v), h)
    ensures !Acyclic(h)
  {
    BackEdgeMakesCycle(g, u, v);
    if Acyclic(h) {
      SubGraphAcyclic(WithEdge(g, u, v), h);
    }
  }

  /** Giving u some of the successors in b, one at a time, stays within giving it all of b. */
  lemma AddSuccessorWithin(g: Graph, u: Node, a: set<Node>, b: set<Node>, v: Node)
    requires u in g && a <= b && v in b
    ensures WithEdge(g[u := g[u] + a], u, v) == g[u := g[u] + (a + {v})]
    ensures SubGraph(g[u := g[u] + (a + {v})], g[u := g[u] + b])
  {
    assert g[u] + a + {v} == g[u] + (a + {v});
  }

  // ----- read-only queries -----

  /** predecessors and _dependencies: the nodes with an edge into n. */
  function Predecessors(g: Graph, n: Node): set<Node> {
    set p | p in g && n in g[p]
  }

  /** downstream: the successor set of n, or KeyError when n is not a node. */
  function Downstream(g: Graph, n: Node): Result<set<Node>> {
    if n in g then Ok(g[n]) else Err(KeyError)
  }

  /** ind_nodes: every node minus every node that is some node's successor. */
  function IndNodes(g: Graph): set<Node> {
    g.Keys - (set a, b | a in g && b in g[a] :: b)
  }

  /** all_leaves: the nodes whose successor set is empty. */
  function AllLeaves(g: Graph): set<Node> {
    set n | n in g && g[n] == {}
  }

  /** root: written exactly like all_leaves, so it too returns the nodes without successors. */
  function Root(g: Graph): set<Node> {
    set n | n in g && g[n] == {}
  }

  lemma DownstreamIsPredecessorsInverse(g: Graph, n: Node, m: Node)
    ensures Downstream(g, n).Ok? <==> n in g
    ensures n in g ==> (m in Downstream(g, n).value <==> n in Predecessors(g, m))
    ensures m in Predecessors(g, n) <==> Edge(g, m, n)
  {
  }

  lemma IndNodesHaveNoPredecessors(g: Graph, n: Node)
    ensures n in IndNodes(g) <==> n in g && Predecessors(g, n) == {}
  {
    var targets := set a, b | a in g && b in g[a] :: b;
    if n in g && Predecessors(g, n) != {} {
      var p :| p in Predecessors(g, n);
      assert n in targets;
    }
    if n in g && n in targets {
      var a, b :| a in g && b in g[a] && b == n;
      assert a in Predecessors(g, n);
    }
  }

  lemma LeavesHaveNoSuccessors(g: Graph, n: Node)
    ensures n in AllLeaves(g) <==> n in g && forall m :: !Edge(g, n, m)
    ensures Root(g) == AllLeaves(g)
  {
    if n in g && n !in AllLeaves(g) {
      var m :| m in g[n];
      assert Edge(g, n, m);
    }
  }

  /** A non-empty acyclic map has a node that nothing points to. */
  lemma IndNodesExist(g: Graph)
    requires Acyclic(g) && g.Keys != {}
    ensures IndNodes(g) != {}
  {
    if IndNodes(g) == {} {
      forall y | y in g.Keys
        ensures HasPredecessorIn(g, g.Keys, y)
      {
        assert y !in IndNodes(g);
        var x, z :| x in g && z in g[x] && z == y;
        assert Edge(g, x, y);
      }
      CycleFromPredecessors(g, g.Keys);
    }
  }

  /** A non-empty acyclic map whose successors are all nodes has a node without successors. */
  lemma LeavesExist(g: Graph)
    requires Closed(g) && Acyclic(g) && g.Keys != {}
    ensures AllLeaves(g) != {} && Root(g) != {}
  {
    if AllLeaves(g) == {} {
      forall x | x in g.Keys
        ensures HasSuccessorIn(g, g.Keys, x)
      {
        assert x !in AllLeaves(g);
        var y :| y in g[x];
        assert Edge(g, x, y);
      }
      CycleFromSuccessors(g, g.Keys);
    }
    assert Root(g) == AllLeaves(g);
  }
}

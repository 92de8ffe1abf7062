/** Kahn's topological sort and the validator that add_edge runs on its trial graph. */
module Sort {
  import opened Errors
  import opened Graphs

  /** list(s) for a set: its elements once each, in some order. */
  method SetToSeq(s: set<Node>) returns (r: seq<Node>)
    ensures Distinct(r) && Elems(r) == s
  {
    r := [];
    var rest := s;
    while rest != {}
      invariant Distinct(r)
      invariant Elems(r) + rest == s && Elems(r) !! rest
      decreases rest
    {
      var x :| x in rest;
      r := r + [x];
      rest := rest - {x};
    }
  }

  /** _dependencies: scan every node for an edge into target. */
  method Dependencies(g: Graph, target: Node) returns (r: set<Node>)
    ensures r == Predecessors(g, target)
  {
    r := {};
    var todo := g.Keys;
    while todo != {}
      invariant todo <= g.Keys
      invariant r == set p | p in g && p !in todo && target in g[p]
      decreases todo
    {
      var p :| p in todo;
      if target in g[p] {
        r := r + {p};
      }
      todo := todo - {p};
    }
  }

  /** Every predecessor of y in g is already in done. */
  ghost predicate Ready(g: Graph, done: set<Node>, y: Node) {
    forall p :: p in g && y in g[p] ==> p in done
  }

  lemma SubsetEqualCard<T>(a: set<T>, b: set<T>)
    requires a <= b && |a| == |b|
    ensures a == b
  {
    assert b == (b - a) + a;
    assert (b - a) * a == {};
    assert |b - a| == 0;
  }

  /** In the working copy, the nodes already output have lost all their edges and the current
      node n keeps only the edges still to visit; so no edge is left into m exactly when every
      predecessor of m in the original graph has been output. */
  lemma NoDependenciesIsReady(g: Graph, w: Graph, l: seq<Node>, n: Node, rest: set<Node>, m: Node)
    requires w.Keys == g.Keys && n in l && n in w && w[n] == rest && m !in rest
    requires forall x :: x in w && x !in l ==> w[x] == g[x]
    requires forall x :: x in w && x in l && x != n ==> w[x] == {}
    ensures Predecessors(w, m) == {} <==> Ready(g, Elems(l), m)
  {
    if Predecessors(w, m) != {} {
      var p :| p in Predecessors(w, m);
      assert p !in l;
    }
    if !Ready(g, Elems(l), m) {
      var p :| p in g && m in g[p] && p !in Elems(l);
      assert p in Predecessors(w, m);
    }
  }

  /** Output order respects every edge when each output node's predecessors were all output
      before it. */
  lemma ReadyPrefixesOrderEdges(g: Graph, l: seq<Node>)
    requires Distinct(l)
    requires forall j :: 0 <= j < |l| ==> Ready(g, Elems(l[..j]), l[j])
    ensures EdgeOrdered(g, l)
  {
    forall i, j | 0 <= i < |l| && 0 <= j < |l| && Edge(g, l[i], l[j])
      ensures i < j
    {
      assert Ready(g, Elems(l[..j]), l[j]);
      assert l[i] in l[..j];
      var k :| 0 <= k < j && l[..j][k] == l[i];
    }
  }

  /** Nodes that never became ready each keep a predecessor among themselves: a cycle. */
  lemma StuckNodesHaveCycle(g: Graph, l: seq<Node>)
    requires Distinct(l) && Elems(l) <= g.Keys && |l| < |g.Keys|
    requires forall y :: y in g ==> (y in l <==> Ready(g, Elems(l), y))
    ensures !Acyclic(g)
  {
    var r := g.Keys - Elems(l);
    DistinctCard(l);
    if r == {} {
      forall x | x in g.Keys
        ensures x in Elems(l)
      {
        assert x !in r;
      }
      SubsetCard(g.Keys, Elems(l));
    }
    forall y | y in r
      ensures HasPredecessorIn(g, r, y)
    {
      var p :| p in g && y in g[p] && p !in Elems(l);
      assert Edge(g, p, y);
    }
    CycleFromPredecessors(g, r);
  }

  /** The state of the outer loop of Kahn's algorithm: l is the output so far, q the queue and
      w the working copy. Output nodes have lost their edges, other nodes keep theirs; the output
      and the queue hold, once each, exactly the nodes whose predecessors are all output; and
      each output node came after all of its predecessors. */
  ghost predicate OuterInv(g: Graph, w: Graph, l: seq<Node>, q: seq<Node>) {
    && w.Keys == g.Keys
    && Distinct(l + q) && Elems(l + q) <= g.Keys
    && (forall x :: x in w && x !in l ==> w[x] == g[x])
    && (forall x :: x in w && x in l ==> w[x] == {})
    && (forall y :: y in g ==> (y in l || y in q <==> Ready(g, Elems(l), y)))
    && (forall j :: 0 <= j < |l| ==> Ready(g, Elems(l[..j]), l[j]))
    && |l| + |q| <= |g.Keys|
  }

  /** The state of the inner loop, while the edges of the just-output node n are removed:
      rest holds the successors of n still to visit, and a successor becomes eligible for the
      queue only once visited. */
  ghost predicate InnerInv(g: Graph, w: Graph, l: seq<Node>, q: seq<Node>, n: Node, rest: set<Node>) {
    && w.Keys == g.Keys
    && n in l && n in g && rest <= g[n] && w[n] == rest
    && Distinct(l + q) && Elems(l + q) <= g.Keys
    && (forall x :: x in w && x !in l ==> w[x] == g[x])
    && (forall x :: x in w && x in l && x != n ==> w[x] == {})
    && (forall y :: y in g ==> (y in l || y in q <==> Ready(g, Elems(l), y) && y !in rest))
    && (forall j :: 0 <= j < |l| ==> Ready(g, Elems(l[..j]), l[j]))
  }

  /** Moving the head of the queue to the end of the output keeps their concatenation. */
  lemma MoveHead(l: seq<Node>, q: seq<Node>)
    requires q != []
    ensures (l + [q[0]]) + q[1..] == l + q
    ensures Elems(l + [q[0]]) == Elems(l) + {q[0]}
  {
    assert q == [q[0]] + q[1..];
  }

  lemma KahnInit(g: Graph, q: seq<Node>)
    requires Distinct(q) && Elems(q) == IndNodes(g)
    ensures OuterInv(g, g, [], q)
  {
    forall y | y in g
      ensures y in q <==> Ready(g, {}, y)
    {
      IndNodesHaveNoPredecessors(g, y);
    }
    assert [] + q == q;
    DistinctCard(q);
    SubsetCard(Elems(q), g.Keys);
  }

  /** The queue head is a node, not yet output, whose predecessors are all output; so it has
      no edge to itself and occurs nowhere else in the queue. */
  lemma HeadIsReady(g: Graph, w: Graph, l: seq<Node>, q: seq<Node>)
    requires OuterInv(g, w, l, q) && q != []
    ensures q[0] in g && q[0] !in Elems(l) && q[0] !in Elems(q[1..])
    ensures Ready(g, Elems(l), q[0]) && q[0] !in g[q[0]]
  {
    var n := q[0];
    assert (l + q)[|l|] == n;
    forall i | 0 <= i < |l|
      ensures l[i] != n
    {
      assert (l + q)[i] == l[i];
    }
    forall i | 0 <= i < |q| - 1
      ensures q[1..][i] != n
    {
      assert (l + q)[|l| + i + 1] == q[1..][i];
    }
  }

  /** After outputting the head n, the output and the rest of the queue hold exactly the ready
      nodes, except the successors of n, which wait for their visit. */
  lemma DequeueKeepsReadySet(g: Graph, w: Graph, l: seq<Node>, q: seq<Node>)
    requires OuterInv(g, w, l, q) && q != []
    requires q[0] in g && q[0] !in Elems(l) && q[0] !in Elems(q[1..]) && q[0] !in g[q[0]]
    ensures forall y :: y in g ==>
              (y in l + [q[0]] || y in q[1..] <==> Ready(g, Elems(l + [q[0]]), y) && y !in w[q[0]])
  {
    var n := q[0];
    MoveHead(l, q);
    forall y | y in g
      ensures (y in l + [n] || y in q[1..] <==> Ready(g, Elems(l + [n]), y) && y !in w[n])
    {
      if y != n {
        assert y in q[1..] <==> y in q;
      }
    }
  }

  /** Outputting a ready node keeps every output node after all of its predecessors. */
  lemma DequeueKeepsOrder(g: Graph, l: seq<Node>, n: Node)
    requires forall j :: 0 <= j < |l| ==> Ready(g, Elems(l[..j]), l[j])
    requires Ready(g, Elems(l), n)
    ensures forall j :: 0 <= j < |l + [n]| ==> Ready(g, Elems((l + [n])[..j]), (l + [n])[j])
  {
    var l' := l + [n];
    forall j | 0 <= j < |l'|
      ensures Ready(g, Elems(l'[..j]), l'[j])
    {
      if j < |l| {
        assert l'[..j] == l[..j];
      } else {
        assert l'[..j] == l;
      }
    }
  }

  /** Dequeuing n and outputting it: n had no self-loop, and the successors of n are exactly the
      nodes whose readiness now waits on their visit. */
  lemma KahnDequeue(g: Graph, w: Graph, l: seq<Node>, q: seq<Node>)
    requires OuterInv(g, w, l, q) && q != []
    ensures InnerInv(g, w, l + [q[0]], q[1..], q[0], w[q[0]])
  {
    HeadIsReady(g, w, l, q);
    DequeueKeepsReadySet(g, w, l, q);
    DequeueKeepsOrder(g, l, q[0]);
    MoveHead(l, q);
  }

  /** Removing the edge n -> m and enqueuing m when nothing points to it any more. */
  lemma KahnVisit(g: Graph, w: Graph, l: seq<Node>, q: seq<Node>, n: Node, rest: set<Node>, m: Node)
    requires Closed(g) && InnerInv(g, w, l, q, n, rest) && m in rest
    ensures var w' := w[n := w[n] - {m}];
            var q' := if Predecessors(w', m) == {} then q + [m] else q;
            InnerInv(g, w', l, q', n, rest - {m})
  {
    var w' := w[n := w[n] - {m}];
    NoDependenciesIsReady(g, w', l, n, rest - {m}, m);
    assert Edge(g, n, m);
    if Predecessors(w', m) == {} {
      assert l + (q + [m]) == (l + q) + [m];
    }
  }

  lemma KahnNextRound(g: Graph, w: Graph, l: seq<Node>, q: seq<Node>, n: Node)
    requires InnerInv(g, w, l, q, n, {})
    ensures OuterInv(g, w, l, q)
  {
    DistinctCard(l + q);
    SubsetCard(Elems(l + q), g.Keys);
  }

  /** topological_sort: Kahn's algorithm on a working copy of the map. The queue starts with
      the independent nodes; each dequeued node is output, its edges are removed, and each of its
      successors left with no incoming edge is enqueued. Fewer outputs than nodes is ValueError. */
  method TopologicalSort(g: Graph) returns (r: Result<seq<Node>>)
    requires Closed(g)
    ensures r.Ok? ==> IsTopologicalOrder(g, r.value)
    ensures r.Err? ==> r.error == ValueError
    ensures r.Ok? <==> Acyclic(g)
  {
    var w := g;
    var l: seq<Node> := [];
    var q := SetToSeq(IndNodes(w));
    KahnInit(g, q);
    while |q| != 0
      invariant OuterInv(g, w, l, q)
      decreases |g.Keys| - |l|
    {
      KahnDequeue(g, w, l, q);
      var n := q[0];
      q := q[1..];
      l := l + [n];
      var rest := w[n];
      while rest != {}
        invariant InnerInv(g, w, l, q, n, rest)
        decreases rest
      {
        var m :| m in rest;
        KahnVisit(g, w, l, q, n, rest, m);
        w := w[n := w[n] - {m}];
        rest := rest - {m};
        var deps := Dependencies(w, m);
        if |deps| == 0 {
          q := q + [m];
        }
      }
      KahnNextRound(g, w, l, q, n);
    }
    assert l + q == l;
    if |l| != |w| {
      StuckNodesHaveCycle(g, l);
      return Err(ValueError);
    }
    DistinctCard(l);
    SubsetEqualCard(Elems(l), g.Keys);
    ReadyPrefixesOrderEdges(g, l);
    TopologicalOrderAcyclic(g, l);
    r := Ok(l);
  }

  /** validate: a graph is valid when it has an independent node and the sort succeeds. On the
      maps the DAG holds, that is exactly: non-empty and acyclic. */
  method Validate(g: Graph) returns (valid: bool, message: string)
    requires Closed(g)
    ensures valid <==> g.Keys != {} && Acyclic(g)
    ensures message == (if valid then "valid"
                        else if IndNodes(g) == {} then "no independent nodes detected"
                        else "failed topological sort")
  {
    if |IndNodes(g)| == 0 {
      if g.Keys != {} && Acyclic(g) {
        IndNodesExist(g);
      }
      return false, "no independent nodes detected";
    }
    var sorted := TopologicalSort(g);
    if sorted.Err? {
      return false, "failed topological sort";
    }
    return true, "valid";
  }
}

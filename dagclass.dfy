/** The DAG object: a map from each node to the set of nodes it has edges towards, kept free of
    cycles by the mutators. */
module DagClass {
  import opened Errors
  import opened Graphs
  import opened Sort

  /** Every node from_dict creates: each key of the dictionary and each node in its lists. */
  function NodeSet(d: map<Node, seq<Node>>): set<Node> {
    d.Keys + (set k, x | k in d && x in d[k] :: x)
  }

  /** The graph from_dict builds when no edge is refused: each key points to the nodes of its
      list, and a node that is only listed has no edges. */
  function Built(d: map<Node, seq<Node>>): Graph {
    map x | x in NodeSet(d) :: if x in d then Elems(d[x]) else {}
  }

  lemma BuiltEdges(d: map<Node, seq<Node>>)
    ensures Built(d).Keys == NodeSet(d)
    ensures forall a, b :: Edge(Built(d), a, b) <==> a in d && b in d[a]
    ensures Closed(Built(d))
  {
    forall a, b | a in d && b in d[a]
      ensures Edge(Built(d), a, b)
    {
      assert b in Elems(d[a]);
    }
  }

  /** Part way through the edge pass of from_dict: the keys in done have their edges, the other
      nodes none yet. */
  ghost predicate PartlyBuilt(d: map<Node, seq<Node>>, done: set<Node>, g: Graph) {
    done <= d.Keys && g.Keys == NodeSet(d) && forall x :: x in g ==> g[x] == if x in done then Elems(d[x]) else {}
  }

  /** Giving the next key its edges stays within the built graph. */
  lemma PartlyBuiltStep(d: map<Node, seq<Node>>, done: set<Node>, g: Graph, u: Node)
    requires PartlyBuilt(d, done, g) && u in d && u !in done
    ensures u in g && Elems(d[u]) <= g.Keys
    ensures PartlyBuilt(d, done + {u}, g[u := g[u] + Elems(d[u])])
  {
    forall x | x in Elems(d[u])
      ensures x in g
    {
      assert x in NodeSet(d);
    }
  }

  /** Part way through, the graph is contained in the built graph. */
  lemma PartlyBuiltWithin(d: map<Node, seq<Node>>, done: set<Node>, g: Graph)
    requires PartlyBuilt(d, done, g)
    ensures SubGraph(g, Built(d))
  {
  }

  lemma PartlyBuiltDone(d: map<Node, seq<Node>>, g: Graph)
    requires PartlyBuilt(d, d.Keys, g)
    ensures g == Built(d)
  {
  }

  class Dag {
    var graph: Graph

    /** The graph names only its own nodes as successors and has no cycle. */
    ghost predicate Valid()
      reads this
    {
      Closed(graph) && Acyclic(graph)
    }

    /** A new DAG has no nodes. */
    constructor ()
      ensures Valid() && graph == map[]
    {
      graph := map[];
    }

    /** add_node: the node is (re)set to have no outgoing edges; it never fails. */
    method AddNode(n: Node)
      requires Valid()
      modifies this
      ensures Valid()
      ensures graph == old(graph)[n := {}]
    {
      AddNodeEdges(graph, n);
      graph := graph[n := {}];
    }

    /** add_node_if_not_exists: add_node never raises, so this is add_node, including the
        reset of an existing node's edges. */
    method AddNodeIfNotExists(n: Node)
      requires Valid()
      modifies this
      ensures Valid()
      ensures graph == old(graph)[n := {}]
    {
      AddNode(n);
    }

    /** delete_node: KeyError for a missing node; otherwise the node goes, and a pass over the
        remaining nodes removes it from each successor set. */
    method DeleteNode(n: Node) returns (r: Outcome)
      requires Valid()
      modifies this
      ensures Valid()
      ensures r.Fail? <==> n !in old(graph)
      ensures r.Fail? ==> r.error == KeyError && graph == old(graph)
      ensures r.Pass? ==> graph == RemoveNode(old(graph), n)
    {
      if n !in graph {
        return Fail(KeyError);
      }
      ghost var g0 := graph;
      RemoveNodeEdges(g0, n);
      graph := graph - {n};
      var todo := graph.Keys;
      while todo != {}
        invariant todo <= graph.Keys && graph.Keys == g0.Keys - {n}
        invariant forall x :: x in graph ==> graph[x] == if x in todo then g0[x] else g0[x] - {n}
        decreases todo
      {
        var x :| x in todo;
        if n in graph[x] {
          graph := graph[x := graph[x] - {n}];
        }
        todo := todo - {x};
      }
      assert graph == RemoveNode(g0, n);
      return Pass;
    }

    /** delete_node_if_exists: delete_node with its KeyError swallowed. */
    method DeleteNodeIfExists(n: Node)
      requires Valid()
      modifies this
      ensures Valid()
      ensures graph == if n in old(graph) then RemoveNode(old(graph), n) else old(graph)
    {
      var outcome := DeleteNode(n);
    }

    /** add_edge: KeyError unless both nodes exist; otherwise the edge is tried on a copy, which
        is validated, and committed only if the copy is still a DAG. */
    method AddEdge(u: Node, v: Node) returns (r: Outcome)
      requires Valid()
      modifies this
      ensures Valid()
      ensures r == Fail(KeyError) <==> u !in old(graph) || v !in old(graph)
      ensures r == Fail(ValidationError) <==>
                u in old(graph) && v in old(graph) && (u == v || Reaches(old(graph), v, u))
      ensures r.Pass? <==>
                u in old(graph) && v in old(graph) && !(u == v || Reaches(old(graph), v, u))
      ensures r.Fail? ==> graph == old(graph)
      ensures r.Pass? ==> graph == WithEdge(old(graph), u, v)
    {
      if u !in graph || v !in graph {
        return Fail(KeyError);
      }
      var test := WithEdge(graph, u, v);
      WithEdgeEdges(graph, u, v);
      WithEdgeAcyclic(graph, u, v);
      var valid, _ := Validate(test);
      if valid {
        graph := test;
        return Pass;
      }
      return Fail(ValidationError);
    }

    /** delete_edge: KeyError unless the edge exists; otherwise it is removed. */
    method DeleteEdge(u: Node, v: Node) returns (r: Outcome)
      requires Valid()
      modifies this
      ensures Valid()
      ensures r.Fail? <==> !Edge(old(graph), u, v)
      ensures r.Fail? ==> r.error == KeyError && graph == old(graph)
      ensures r.Pass? ==> graph == WithoutEdge(old(graph), u, v)
    {
      if !(u in graph && v in graph[u]) {
        return Fail(KeyError);
      }
      WithoutEdgeEdges(graph, u, v);
      graph := WithoutEdge(graph, u, v);
      return Pass;
    }

    /** reset_graph: back to no nodes. */
    method ResetGraph()
      modifies this
      ensures Valid() && graph == map[]
    {
      graph := map[];
    }

    /** The first loop of from_dict for one list: add_node on each listed node in turn. */
    method AddNodes(ns: seq<Node>)
      requires Valid() && forall x :: x in graph ==> graph[x] == {}
      modifies this
      ensures Valid() && forall x :: x in graph ==> graph[x] == {}
      ensures graph.Keys == old(graph).Keys + Elems(ns)
    {
      for j := 0 to |ns|
        invariant Valid() && forall x :: x in graph ==> graph[x] == {}
        invariant graph.Keys == old(graph).Keys + Elems(ns[..j])
      {
        AddNode(ns[j]);
        PrefixStep(ns, j);
      }
      assert ns[..|ns|] == ns;
    }

    /** The second loop of from_dict for one key: add_edge from u to each listed node in turn,
        stopping at the first refusal. A refusal means the graph with all of those edges added
        has a cycle; until then the edges added so far are a part of it. */
    method AddEdges(u: Node, deps: seq<Node>) returns (r: Outcome)
      requires Valid() && u in graph && Elems(deps) <= graph.Keys
      modifies this
      ensures Valid() && graph.Keys == old(graph).Keys
      ensures r.Pass? ==> graph == old(graph)[u := old(graph)[u] + Elems(deps)]
      ensures r.Fail? ==> r.error == ValidationError
      ensures r.Fail? ==> SubGraph(graph, old(graph)[u := old(graph)[u] + Elems(deps)])
      ensures r.Fail? ==> !Acyclic(old(graph)[u := old(graph)[u] + Elems(deps)])
    {
      ghost var g0 := graph;
      assert g0[u] + Elems(deps[..0]) == g0[u];
      assert g0[u := g0[u]] == g0;
      for j := 0 to |deps|
        invariant Valid() && graph.Keys == old(graph).Keys
        invariant graph == g0[u := g0[u] + Elems(deps[..j])]
      {
        PrefixStep(deps, j);
        AddSuccessorWithin(g0, u, Elems(deps[..j]), Elems(deps), deps[j]);
        ghost var before := graph;
        r := AddEdge(u, deps[j]);
        if r.Fail? {
          RefusedEdgeCycles(before, u, deps[j], g0[u := g0[u] + Elems(deps)]);
          return r;
        }
      }
      assert deps[..|deps|] == deps;
      r := Pass;
    }

    /** The first pass of from_dict: add_node on each key and on each node of its list. */
    method CreateNodes(d: map<Node, seq<Node>>, keys: seq<Node>)
      requires Valid() && graph == map[] && Elems(keys) == d.Keys
      modifies this
      ensures Valid() && graph.Keys == NodeSet(d)
      ensures forall x :: x in graph ==> graph[x] == {}
    {
      for i := 0 to |keys|
        invariant Valid() && forall x :: x in graph ==> graph[x] == {}
        invariant graph.Keys == Elems(keys[..i]) + (set k, x | k in Elems(keys[..i]) && x in d[k] :: x)
      {
        AddNode(keys[i]);
        AddNodes(d[keys[i]]);
        PrefixStep(keys, i);
      }
      assert keys[..|keys|] == keys;
    }

    /** The second pass of from_dict: add_edge from each key to each node of its list, keys in
        the order of keys, stopping at the first refusal. */
    method CreateEdges(d: map<Node, seq<Node>>, keys: seq<Node>) returns (r: Outcome)
      requires Valid() && Distinct(keys) && Elems(keys) == d.Keys && PartlyBuilt(d, {}, graph)
      modifies this
      ensures Valid() && graph.Keys == NodeSet(d)
      ensures r.Pass? <==> Acyclic(Built(d))
      ensures r.Pass? ==> graph == Built(d)
      ensures r.Fail? ==> r.error == ValidationError && SubGraph(graph, Built(d))
    {
      r := Pass;
      ghost var done: set<Node> := {};
      assert Elems(keys[..0]) == {};
      for i := 0 to |keys|
        invariant Valid() && r == Pass && done == Elems(keys[..i]) && PartlyBuilt(d, done, graph)
      {
        PrefixStep(keys, i);
        r := AddKeyEdges(d, done, keys[i]);
        if r.Fail? {
          return r;
        }
        done := done + {keys[i]};
      }
      if keys == [] {
        assert d.Keys == {};
      }
      PartlyBuiltDone(d, graph);
    }

    /** One round of the edge pass: the edges from the key u. A refusal shows the built graph
        has a cycle. */
    method AddKeyEdges(d: map<Node, seq<Node>>, ghost done: set<Node>, u: Node) returns (r: Outcome)
      requires Valid() && PartlyBuilt(d, done, graph) && u in d && u !in done
      modifies this
      ensures Valid() && graph.Keys == NodeSet(d)
      ensures r.Pass? ==> PartlyBuilt(d, done + {u}, graph)
      ensures r.Fail? ==> r.error == ValidationError && SubGraph(graph, Built(d)) && !Acyclic(Built(d))
    {
      ghost var target := graph[u := graph[u] + Elems(d[u])];
      PartlyBuiltStep(d, done, graph, u);
      PartlyBuiltWithin(d, done + {u}, target);
      r := AddEdges(u, d[u]);
      if r.Fail? && Acyclic(Built(d)) {
        SubGraphAcyclic(target, Built(d));
      }
    }

    /** from_dict: reset, create every key and every listed node, then add each listed edge in
        turn. The first refused edge raises; the graph then holds the edges added before it. */
    method FromDict(d: map<Node, seq<Node>>) returns (r: Outcome)
      modifies this
      ensures Valid() && graph.Keys == NodeSet(d)
      ensures r.Pass? <==> Acyclic(Built(d))
      ensures r.Pass? ==> graph == Built(d)
      ensures r.Fail? ==> r.error == ValidationError && SubGraph(graph, Built(d))
    {
      ResetGraph();
      var keys := SetToSeq(d.Keys);
      CreateNodes(d, keys);
      r := CreateEdges(d, keys);
    }
  }
}

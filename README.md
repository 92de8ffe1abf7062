# dag — a verified model of the in-memory DAG

This project models the `DAG` class of the `dag` Python package (`__init__.py`). A DAG keeps
one adjacency map, `graph`, from each node to the set of nodes it has edges towards. Its
methods do four kinds of work:

- **Mutate** the map: `add_node`, `delete_node`, `add_edge`, `delete_edge`, the `*_if_*`
  wrappers, `reset_graph` and `from_dict`.
- **Order** the nodes: Kahn's `topological_sort`, with `_dependencies`.
- **Validate** a trial graph: `validate`, which `add_edge` runs before committing an edge.
- **Query** the graph: `predecessors`, `downstream`, `ind_nodes`, `root`, `all_leaves`,
  `all_downstreams` and `all_paths`.

The model is split into five modules, one per file:

- `errors.dfy` (`Errors`): the exceptions and the result shapes that carry them.
  - `KeyError`, `DAGValidationError` and `ValueError` become `DagError` values.
  - A call that raises returns `Fail`/`Err`; a call that returns normally returns `Pass`/`Ok`.
- `graphs.dfy` (`Graphs`): the map as a value `map<Node, set<Node>>`.
  - Paths, cycles, reachability and topological orders.
  - The maps the mutators produce (`WithEdge`, `WithoutEdge`, `RemoveNode`), with lemmas on
    their edges and their acyclicity.
  - The set-valued queries, with lemmas saying what each returns.
- `sort.dfy` (`Sort`): `_dependencies`, Kahn's algorithm as the two nested loops of the
  source, and `validate`.
  - The sort is proved to return a topological order exactly when the graph is acyclic, and
    `ValueError` otherwise.
- `queries.dfy` (`Queries`): `all_downstreams`, a worklist followed by a filter of the
  topological order, and `all_paths`, a depth-first search over an explicit stack.
- `dagclass.dfy` (`DagClass`): class `Dag`, whose field `graph` the mutators update in place.
  - Its invariant `Valid()` is kept by every mutator, and the constructor establishes it:
    - every successor is itself a node;
    - the graph has no cycle.
  - Any sequence of calls starting from a new DAG therefore keeps the graph a DAG.

The model follows the code where the code and its docstrings differ:

- `add_node` never raises. It sets the node's successor set to empty, which drops the
  outgoing edges of a node that already existed. So the `except KeyError` of
  `add_node_if_not_exists` can never fire, and that method behaves like `add_node`.
- `root` is written exactly like `all_leaves`. Both return the nodes with no successors
  (`Graphs.LeavesHaveNoSuccessors`).
- `validate` also reports "no independent nodes detected" for an empty graph
  (`Sort.Validate`).
- The errors are the built-in `KeyError` and `ValueError`, plus `DAGValidationError`, which
  carries no message.
- The class has no node renaming other than `rename_edges` (left out below).

`add_edge` copies the map, adds the edge to the copy, validates the copy and commits it only
when it is valid. `DagClass.Dag.AddEdge` proves what that amounts to: the edge u -> v is
refused exactly when u == v or v already reaches u (`Graphs.WithEdgeAcyclic`).

## Model

| member | source | states |
|---|---|---|
| Graphs.DownstreamIsPredecessorsInverse | __init__.py:84-97 | `Graphs.Downstream` and `Graphs.Predecessors` model downstream and predecessors. downstream(n) raises KeyError exactly when n is not a node. Otherwise m is downstream of n iff n is a predecessor of m. The predecessors of n are exactly the nodes with an edge into n. |
| Graphs.IndNodesHaveNoPredecessors | __init__.py:152-159 | `Graphs.IndNodes` models ind_nodes. A node is in ind_nodes iff it is a key of the map and no node has an edge into it. |
| Graphs.LeavesHaveNoSuccessors | __init__.py:117-127 | `Graphs.AllLeaves` and `Graphs.Root` model all_leaves and root. A node is in all_leaves iff it is a key with no outgoing edge. root returns the same set. |
| Graphs.IndNodesExist | __init__.py:188-189 | A non-empty acyclic graph has an independent node, so validate's first check rejects only empty or cyclic graphs. |
| Graphs.LeavesExist | __init__.py:123-127 | A non-empty acyclic graph whose successors are all nodes has at least one leaf (and root is non-empty). |
| Graphs.TopologicalOrderAcyclic | __init__.py:208-226 | A graph that has a topological order has no cycle. |
| Graphs.WithEdgeEdges | __init__.py:50-51 | The trial graph of add_edge has the same nodes, and its edges are the old ones plus u -> v. |
| Graphs.WithEdgeAcyclic | __init__.py:50-56 | For an acyclic graph and two of its nodes, adding u -> v keeps it acyclic iff u != v and v does not already reach u. |
| Graphs.WithoutEdgeEdges | __init__.py:59-65 | Removing u -> v keeps the nodes and every other edge, removes only that edge, and keeps the graph closed and acyclic. |
| Graphs.RefusedEdgeCycles | __init__.py:52-56 | An edge that add_edge refuses (a self-loop, or an edge whose target already reaches its source) leaves a cycle in every graph that contains the trial graph. |
| Graphs.EdgeRoundTrip | __init__.py:44-65 | Adding a new edge and then deleting it gives back the original map, and deleting an existing edge then adding it back does too. |
| Graphs.RemoveNodeEdges | __init__.py:26-36 | The map without n has the old nodes minus n. Its edges are the old edges not touching n. It stays closed and acyclic. |
| Graphs.AddNodeEdges | __init__.py:13-18 | After add_node the node set gains n. n has no outgoing edge; every other edge is kept. Closed and acyclic graphs stay so. |
| Sort.SetToSeq | __init__.py:159 | list() of a set holds each element of the set exactly once. |
| Sort.Dependencies | __init__.py:197-205 | _dependencies returns exactly the nodes with an edge into the target. |
| Sort.NoDependenciesIsReady | __init__.py:219-222 | In the working copy, no remaining edge into m holds exactly when every original predecessor of m is already output. |
| Sort.ReadyPrefixesOrderEdges | __init__.py:215-222 | An output in which each node comes after all its predecessors puts every edge forward. |
| Sort.StuckNodesHaveCycle | __init__.py:224-225 | If fewer nodes are output than the graph has, the nodes never output contain a cycle. |
| Sort.KahnInit | __init__.py:213-214 | The queue seeded with the independent nodes satisfies the outer-loop invariant. |
| Sort.HeadIsReady | __init__.py:216 | The node popped from the queue is a node that is not yet output, not elsewhere in the queue, and has all its predecessors output; so it has no self-loop. |
| Sort.DequeueKeepsReadySet | __init__.py:216-218 | After outputting the head, the output plus the queue are exactly the ready nodes except the head's successors, which wait for their visit. |
| Sort.DequeueKeepsOrder | __init__.py:217 | Appending a ready node keeps every output node after all of its predecessors. |
| Sort.KahnDequeue | __init__.py:216-218 | Popping the queue head and appending it to the output keeps the output a prefix of a topological order. |
| Sort.KahnVisit | __init__.py:219-222 | Removing the edge n -> m and enqueueing m when nothing points to it preserves the inner-loop invariant. |
| Sort.KahnNextRound | __init__.py:215-222 | Once every edge of the output node is removed, the outer-loop invariant holds again and the output plus queue are at most all nodes. |
| Sort.TopologicalSort | __init__.py:208-226 | On success the result lists every node exactly once with every edge pointing forward. It succeeds exactly when the graph is acyclic; otherwise it raises ValueError. |
| Sort.Validate | __init__.py:185-194 | valid iff the graph is non-empty and acyclic. The message is "valid", "no independent nodes detected" or "failed topological sort", according to which check failed. |
| Queries.Filter | __init__.py:115 | The filtered list holds exactly the elements of the list that are in the kept set, and a list without repeats stays without repeats. |
| Queries.FilterEdgeOrdered | __init__.py:115 | Filtering a topological order keeps every edge pointing forward. |
| Queries.DownstreamVisit | __init__.py:109-113 | Marking an unseen successor of the node being expanded as seen keeps every seen node reachable from the start. |
| Queries.DownstreamBound | __init__.py:108-114 | The worklist never holds more than the node count plus one entries, so the loop ends. |
| Queries.DownstreamComplete | __init__.py:108-114 | When the worklist is exhausted, the seen set is exactly the set of nodes reachable by one or more edges. |
| Queries.AllDownstreams | __init__.py:99-115 | Raises KeyError iff n is not a node, and ValueError iff n is a node and the graph has a cycle. It succeeds iff n is a node and the graph is acyclic, and then returns exactly the nodes reachable from n, once each, with every edge pointing forward. |
| Queries.ExtendFrame | __init__.py:178-182 | Extending a simple stacked path by a successor that is not on it gives a simple path ending at that successor. |
| Queries.ChildrenBound | __init__.py:178 | A vertex has at most (node count - path length) successors that are off its path. |
| Queries.WeightStep | __init__.py:176-182 | Replacing a popped path by at most n one-node-longer paths strictly lowers the stack's weight, so the search ends. |
| Queries.PushFrame | __init__.py:182 | Pushing a simple path from the start keeps every stacked frame such a path and adds exactly its weight to the stack. |
| Queries.RecordPath | __init__.py:179-180 | A path from a start node that reaches a leaf by at least one edge is one all_paths may record; earlier recorded paths are kept. |
| Queries.ExpandFrame | __init__.py:178-182 | Every path recorded or pushed is a simple path from the start node along edges. Recorded paths end at a leaf. The stack weight strictly drops. |
| Queries.AllPaths | __init__.py:162-183 | Raises KeyError iff a given start is not a node. Otherwise every returned path has at least one edge, follows edges, repeats no node, starts at a start node and ends at a leaf. |
| DagClass.BuiltEdges | __init__.py:129-144 | The graph from_dict aims for has as nodes every key and every listed node, an edge a -> b iff b is listed under a, and no dangling successor. |
| DagClass.PartlyBuiltStep | __init__.py:140-144 | Giving the next key its listed edges stays within the target graph and advances the edge pass. |
| DagClass.PartlyBuiltDone | __init__.py:140-144 | After every key has its edges, the graph is the target graph. |
| DagClass.Dag.constructor | __init__.py:9-11 | A new DAG is empty and valid. |
| DagClass.Dag.AddNode | __init__.py:13-18 | Never fails. The node now maps to the empty set and everything else is unchanged. Valid is kept. |
| DagClass.Dag.AddNodeIfNotExists | __init__.py:20-24 | Same new state as add_node, because the swallowed KeyError never occurs. |
| DagClass.Dag.DeleteNode | __init__.py:26-36 | Raises KeyError iff the node is absent, leaving the graph unchanged. Otherwise the graph becomes the map without the node and without every edge into it. Valid is kept. |
| DagClass.Dag.DeleteNodeIfExists | __init__.py:38-42 | Removes the node and its incoming edges when present; otherwise leaves the graph unchanged. |
| DagClass.Dag.AddEdge | __init__.py:44-56 | Raises KeyError iff an endpoint is missing. Raises DAGValidationError iff both exist and u == v or v reaches u. In both cases the graph is unchanged. Otherwise exactly the edge u -> v is added. Valid is kept. |
| DagClass.Dag.DeleteEdge | __init__.py:59-65 | Raises KeyError iff the edge is absent, leaving the graph unchanged. Otherwise exactly that edge is removed. Valid is kept. |
| DagClass.Dag.ResetGraph | __init__.py:147-149 | The graph becomes empty (and valid). |
| DagClass.Dag.AddNodes | __init__.py:137-138 | add_node on each listed node adds exactly those nodes, with no edges. |
| DagClass.Dag.CreateNodes | __init__.py:134-138 | After the node pass, the nodes are exactly the keys and the listed nodes, none with edges. |
| DagClass.Dag.AddEdges | __init__.py:143-144 | add_edge on each listed node either adds all of them, or stops at a refusal. A refusal means the graph with all of them added has a cycle. |
| DagClass.Dag.AddKeyEdges | __init__.py:140-144 | One key's round of the edge pass either advances it, or fails with DAGValidationError showing that the target graph has a cycle. |
| DagClass.Dag.CreateEdges | __init__.py:140-144 | The edge pass succeeds iff the target graph is acyclic. Then the graph is the target graph; otherwise DAGValidationError leaves part of it. |
| DagClass.Dag.FromDict | __init__.py:129-144 | from_dict succeeds iff the graph described by the dictionary is acyclic, and then builds exactly that graph. On failure it raises DAGValidationError, leaving all the nodes and a subset of the edges. Valid is kept in both cases. |

## Left out

- `rename_edges` (`__init__.py:68-81`): it adds and deletes keys of the dict while iterating over
  it. Python 3 raises `RuntimeError` there, or the result depends on iteration order, so there is
  no stable behaviour to model.
- The optional `graph` argument of every method: the mutators act on the object's own map.
  - The argument's falsy fallback `if not graph: graph = self.graph` is not modelled either; it
    also redirects an empty dict to `self.graph`.
  - The queries, the sort and the validator take the map as a parameter, which covers both the
    default and an explicit argument.
- Queries.AllPaths takes its leaves from the same map it searches. The source always takes them
  from `self.graph` (`__init__.py:172`), so the model covers the call on the object's own map.
- Queries.AllPaths: the contract is soundness only. It does not state that every simple path
  from a start node to a leaf is found, nor the order of the paths.
- Sort.TopologicalSort, `Sort.Validate`, `Queries.AllDownstreams` and `Queries.AllPaths`
  require every successor to be a node. A map with a dangling successor arises only through
  the `graph` argument or through `rename_edges`, and both are left out. `rename_edges` can
  leave one when it deletes a key and then stops with `RuntimeError`, with later successor
  sets still naming the deleted key (`__init__.py:72-81`). What the source does on such a map
  depends on the map:
  - `topological_sort` raises `KeyError` when it dequeues a dangling node (`__init__.py:218`).
    It raises `ValueError` when the queue empties too early (`__init__.py:224-225`), for
    example when `ind_nodes` is empty.
  - `validate` returns `(False, 'no independent nodes detected')` when `ind_nodes` is empty
    (`__init__.py:188-189`). Otherwise it reflects the sort, or lets its `KeyError` through.
  - `all_downstreams` raises `KeyError` from `downstream` when it reaches a dangling node
    (`__init__.py:95-96`, `109`).
  - `all_paths` raises `KeyError` from `graph[vertex]` (`__init__.py:178`).
- The order of lists built from Python dicts, which is the dict's insertion order. A Dafny `map`
  does not record insertion order.
  - `predecessors` (`__init__.py:88`), `root` (`:121`) and `all_leaves` (`:127`) are modelled
    as sets.
  - `from_dict`'s key order (`__init__.py:135`, `140`) is "some order", chosen
    nondeterministically.
- The order of lists built from Python sets, which depends on hashing.
  - `downstream` (`__init__.py:97`) and `ind_nodes` (`:159`) are modelled as sets.
  - The sort's initial queue and inner loop (`__init__.py:214`, `219`) and `all_paths`'
    successor loop (`:178`) take "some order", chosen nondeterministically.
- Sort.TopologicalSort: the order is proved to be some topological order, not the particular
  tie-break that hash order produces.
- DagClass.Dag.FromDict: the `isinstance(dep_nodes, list)` check (`__init__.py:141-142`) cannot
  fail for a `map<Node, seq<Node>>`, so its `TypeError` is not modelled.
- DagClass.Dag.FromDict: on failure the graph is only described as all the nodes plus a subset
  of the wanted edges, not as the exact edges added before the refusal.
- The messages of the exceptions are not modelled. A `DagError` records only the kind.
  - `KeyError` carries 'node %s does not exist' (`__init__.py:31`), 'one or more nodes do not
    exist in graph' (`:49`), 'this edge does not exist in graph' (`:64`) or 'node %s is not in
    graph' (`:96`).
  - `ValueError` carries 'graph is not acyclic' (`__init__.py:225`).
- DagClass.Dag.AddEdge: the validator's message is dropped, as in the source, which raises
  `DAGValidationError()` without it.
- `deepcopy` and `copy` are value copies of the map. Python's object identity and aliasing of the
  successor sets are not modelled.
- The lazy `filter` object that `all_downstreams` returns is modelled as the sequence it yields.
- Nodes are strings. The source accepts any hashable value.

/**
 * The pipeline's directed graph as the networkx DiGraph holds it: nodes in insertion order with
 * their stored attributes, and labelled edges in insertion order. As in a DiGraph, adding a node
 * that exists updates its attributes in place, and adding an edge between two nodes that are
 * already connected replaces its label in place; neither changes the position.
 */
module PipelineGraph {
  import opened Wrappers

  /**
   * A node and the attributes stored with it: the declared `inputs` and `outgoing_edges`.
   * The deployment handle stored beside them is identified by the node's name.
   */
  datatype Node = Node(name: string, inputs: seq<string>, outgoingEdges: int)

  /** A directed edge carrying the label `output_k` of the producer output it is wired to. */
  datatype Edge = Edge(src: string, dst: string, stream: string)

  datatype Graph = Graph(nodes: seq<Node>, edges: seq<Edge>)

  const Empty: Graph := Graph([], [])

  /** The position of the node called `name`, if there is one. */
  function FindNode(nodes: seq<Node>, name: string): (r: Option<nat>)
    ensures r.Some? ==> r.value < |nodes| && nodes[r.value].name == name
    ensures r.Some? ==> forall j :: 0 <= j < r.value ==> nodes[j].name != name
    ensures r.None? ==> forall j :: 0 <= j < |nodes| ==> nodes[j].name != name
    decreases |nodes|
  {
    if |nodes| == 0 then None
    else if nodes[|nodes| - 1].name == name && FindNode(nodes[..|nodes| - 1], name).None? then
      Some(|nodes| - 1)
    else FindNode(nodes[..|nodes| - 1], name)
  }

  predicate HasNode(g: Graph, name: string)
  {
    FindNode(g.nodes, name).Some?
  }

  /** The node's position in insertion order. */
  function Rank(g: Graph, name: string): nat
    requires HasNode(g, name)
  {
    FindNode(g.nodes, name).value
  }

  /** `Pipeline.root_node`: the first node added, or None for an empty graph. */
  function RootNode(g: Graph): (r: Option<string>)
    ensures r.Some? <==> |g.nodes| > 0
    ensures r.Some? ==> HasNode(g, r.value) && Rank(g, r.value) == 0
  {
    if |g.nodes| == 0 then None
    else
      assert FindNode(g.nodes, g.nodes[0].name) == Some(0) by {
        FindFirst(g.nodes, 0);
      }
      Some(g.nodes[0].name)
  }

  lemma {:induction false} FindFirst(nodes: seq<Node>, i: nat)
    requires i < |nodes|
    requires forall j :: 0 <= j < i ==> nodes[j].name != nodes[i].name
    ensures FindNode(nodes, nodes[i].name) == Some(i)
    decreases |nodes|
  {
    if i < |nodes| - 1 {
      FindFirst(nodes[..|nodes| - 1], i);
    }
  }

  /** The graph invariant: node names are unique, edges join existing nodes, one edge per node pair. */
  predicate Valid(g: Graph)
  {
    && (forall i, j :: 0 <= i < j < |g.nodes| ==> g.nodes[i].name != g.nodes[j].name)
    && (forall e :: e in g.edges ==> HasNode(g, e.src) && HasNode(g, e.dst))
    && UniquePairs(g.edges)
  }

  /** Every edge leads from an earlier node to a later one, so the graph has no cycle. */
  predicate Forward(g: Graph)
  {
    forall e :: e in g.edges ==> HasNode(g, e.src) && HasNode(g, e.dst) && Rank(g, e.src) < Rank(g, e.dst)
  }

  /** The position of the edge from `u` to `v`, if they are connected. */
  function FindEdge(edges: seq<Edge>, u: string, v: string): (r: Option<nat>)
    ensures r.Some? ==> r.value < |edges| && edges[r.value].src == u && edges[r.value].dst == v
    ensures r.None? ==> forall j :: 0 <= j < |edges| ==> edges[j].src != u || edges[j].dst != v
    decreases |edges|
  {
    if |edges| == 0 then None
    else if edges[|edges| - 1].src == u && edges[|edges| - 1].dst == v then Some(|edges| - 1)
    else FindEdge(edges[..|edges| - 1], u, v)
  }

  /** `graph.add_node(name, inputs=..., outgoing_edges=...)`. */
  function AddNode(g: Graph, n: Node): (r: Graph)
    ensures r.edges == g.edges
    ensures HasNode(g, n.name) ==> r.nodes == g.nodes[Rank(g, n.name) := n]
    ensures !HasNode(g, n.name) ==> r.nodes == g.nodes + [n]
  {
    match FindNode(g.nodes, n.name)
    case Some(i) => g.(nodes := g.nodes[i := n])
    case None => g.(nodes := g.nodes + [n])
  }

  /** `graph.add_edge(u, v, label=stream)`, for two nodes that are in the graph. */
  function AddEdge(g: Graph, u: string, v: string, stream: string): (r: Graph)
    ensures r.nodes == g.nodes
    ensures Edge(u, v, stream) in r.edges
    ensures |r.edges| == |g.edges| || r.edges == g.edges + [Edge(u, v, stream)]
    ensures forall j :: 0 <= j < |g.edges| ==> r.edges[j].src == g.edges[j].src && r.edges[j].dst == g.edges[j].dst
    ensures forall j :: 0 <= j < |g.edges| && (g.edges[j].src != u || g.edges[j].dst != v) ==>
              r.edges[j] == g.edges[j]
  {
    match FindEdge(g.edges, u, v)
    case Some(j) =>
      var es := g.edges[j := Edge(u, v, stream)];
      assert es[j] == Edge(u, v, stream);
      g.(edges := es)
    case None => g.(edges := g.edges + [Edge(u, v, stream)])
  }

  lemma AddNodeValid(g: Graph, n: Node)
    requires Valid(g)
    ensures Valid(AddNode(g, n)) && HasNode(AddNode(g, n), n.name)
    ensures forall x :: HasNode(g, x) ==> HasNode(AddNode(g, n), x) && Rank(AddNode(g, n), x) == Rank(g, x)
  {
    var r := AddNode(g, n);
    forall x | HasNode(g, x)
      ensures HasNode(r, x) && Rank(r, x) == Rank(g, x)
    {
      FindFirst(r.nodes, Rank(g, x));
    }
    if HasNode(g, n.name) {
      FindFirst(r.nodes, Rank(g, n.name));
    } else {
      FindFirst(r.nodes, |g.nodes|);
    }
  }

  lemma AddEdgeValid(g: Graph, u: string, v: string, stream: string)
    requires Valid(g) && HasNode(g, u) && HasNode(g, v)
    ensures Valid(AddEdge(g, u, v, stream))
  {
    var r := AddEdge(g, u, v, stream);
    forall e | e in r.edges ensures HasNode(r, e.src) && HasNode(r, e.dst) {
      if e != Edge(u, v, stream) {
        var k :| 0 <= k < |r.edges| && r.edges[k] == e;
        assert g.edges[k] == e;
      }
    }
  }

  /**
   * `get_next_nodes(node, stream)`: the targets of the edges from `src` labelled `stream`,
   * in edge insertion order.
   */
  function Successors(edges: seq<Edge>, src: string, stream: string): (r: seq<string>)
    ensures forall v :: v in r <==> Edge(src, v, stream) in edges
    decreases |edges|
  {
    if |edges| == 0 then []
    else
      var rest := Successors(edges[..|edges| - 1], src, stream);
      var e := edges[|edges| - 1];
      assert edges == edges[..|edges| - 1] + [e];
      if e.src == src && e.stream == stream then rest + [e.dst] else rest
  }

  /** `nx.neighbors(graph, src)`: the targets of all edges from `src`, in edge insertion order. */
  function Neighbors(edges: seq<Edge>, src: string): (r: seq<string>)
    ensures forall v :: v in r <==> exists j :: 0 <= j < |edges| && edges[j].src == src && edges[j].dst == v
    decreases |edges|
  {
    if |edges| == 0 then []
    else
      var rest := Neighbors(edges[..|edges| - 1], src);
      var e := edges[|edges| - 1];
      if e.src == src then rest + [e.dst] else rest
  }

  /** The edges are scanned in insertion order: the successors over two runs of edges are those of the first run, then those of the second. */
  lemma {:induction false} SuccessorsAppend(a: seq<Edge>, b: seq<Edge>, src: string, stream: string)
    ensures Successors(a + b, src, stream) == Successors(a, src, stream) + Successors(b, src, stream)
    decreases |b|
  {
    if |b| > 0 {
      var n := |b| - 1;
      assert (a + b)[..|a + b| - 1] == a + b[..n];
      SuccessorsAppend(a, b[..n], src, stream);
    } else {
      assert a + b == a;
    }
  }

  /** The same order for `nx.neighbors`. */
  lemma {:induction false} NeighborsAppend(a: seq<Edge>, b: seq<Edge>, src: string)
    ensures Neighbors(a + b, src) == Neighbors(a, src) + Neighbors(b, src)
    decreases |b|
  {
    if |b| > 0 {
      var n := |b| - 1;
      assert (a + b)[..|a + b| - 1] == a + b[..n];
      NeighborsAppend(a, b[..n], src);
    } else {
      assert a + b == a;
    }
  }

  /** `nx.neighbors(...)[0]` is the target of the earliest edge leaving `src`. */
  lemma {:induction false} NeighborsHead(edges: seq<Edge>, src: string) returns (j: nat)
    requires |Neighbors(edges, src)| > 0
    ensures j < |edges| && edges[j].src == src && edges[j].dst == Neighbors(edges, src)[0]
    ensures forall i :: 0 <= i < j ==> edges[i].src != src
    decreases |edges|
  {
    var n := |edges| - 1;
    var rest := Neighbors(edges[..n], src);
    if |rest| > 0 {
      j := NeighborsHead(edges[..n], src);
      assert Neighbors(edges, src)[0] == rest[0];
    } else {
      j := n;
      forall i | 0 <= i < n ensures edges[i].src != src {
        assert edges[..n][i] == edges[i];
        assert edges[i].dst !in rest;
      }
    }
  }

  /** A single edge contributes its target exactly when it leaves `src` on `stream`. */
  lemma SuccessorsOfEdge(e: Edge, src: string, stream: string)
    ensures Successors([e], src, stream) == if e.src == src && e.stream == stream then [e.dst] else []
  {
    assert [e][..0] == [];
  }

  /** A single edge contributes its target exactly when it leaves `src`. */
  lemma NeighborsOfEdge(e: Edge, src: string)
    ensures Neighbors([e], src) == if e.src == src then [e.dst] else []
  {
    assert [e][..0] == [];
  }

  /** No name is listed twice. */
  predicate Distinct(s: seq<string>)
  {
    forall i, j :: 0 <= i < j < |s| ==> s[i] != s[j]
  }

  /** At most one edge joins any two nodes. */
  predicate UniquePairs(edges: seq<Edge>)
  {
    forall i, j :: 0 <= i < j < |edges| ==> edges[i].src != edges[j].src || edges[i].dst != edges[j].dst
  }

  /** In a valid graph no node is listed twice among the successors on a stream. */
  lemma {:induction false} SuccessorsDistinct(edges: seq<Edge>, src: string, stream: string)
    requires UniquePairs(edges)
    ensures Distinct(Successors(edges, src, stream))
    decreases |edges|
  {
    if |edges| > 0 {
      var n := |edges| - 1;
      var e := edges[n];
      var rest := Successors(edges[..n], src, stream);
      SuccessorsDistinct(edges[..n], src, stream);
      if e.src == src && e.stream == stream {
        assert forall j :: 0 <= j < n ==> edges[..n][j].src != src || edges[..n][j].dst != e.dst;
        assert e.dst !in rest;
        var r := rest + [e.dst];
        assert Successors(edges, src, stream) == r;
        forall i, j | 0 <= i < j < |r| ensures r[i] != r[j] {
          if j == |rest| {
            assert r[i] == rest[i] && rest[i] in rest;
          }
        }
      } else {
        assert Successors(edges, src, stream) == rest;
      }
    }
  }

  /** In a valid graph no node is listed twice among the neighbors. */
  lemma {:induction false} NeighborsDistinct(edges: seq<Edge>, src: string)
    requires UniquePairs(edges)
    ensures Distinct(Neighbors(edges, src))
    decreases |edges|
  {
    if |edges| > 0 {
      var n := |edges| - 1;
      var e := edges[n];
      var rest := Neighbors(edges[..n], src);
      NeighborsDistinct(edges[..n], src);
      if e.src == src {
        assert forall j :: 0 <= j < n ==> edges[..n][j].src != src || edges[..n][j].dst != e.dst;
        assert e.dst !in rest;
        var r := rest + [e.dst];
        assert Neighbors(edges, src) == r;
        forall i, j | 0 <= i < j < |r| ensures r[i] != r[j] {
          if j == |rest| {
            assert r[i] == rest[i] && rest[i] in rest;
          }
        }
      } else {
        assert Neighbors(edges, src) == rest;
      }
    }
  }

  /** `set(graph.predecessors(dst))`. */
  function Predecessors(edges: seq<Edge>, dst: string): (r: set<string>)
    ensures forall u :: u in r <==> exists s :: Edge(u, dst, s) in edges
  {
    set e | e in edges && e.dst == dst :: e.src
  }
}

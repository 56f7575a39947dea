/**
 * The node-adding loop of `RayPipeline.load_from_config`: before the first declared node it adds
 * the root ("Query" or "File", one output, no inputs) named by that node's first input; then it
 * adds every declared node in order, with the output count of its component's class.
 */
module Loader {
  import opened Wrappers
  import opened PipelineGraph
  import opened GraphBuilder

  /** One entry of the pipeline definition's `nodes` list: its name and its `inputs`, when the key is present. */
  datatype NodeConfig = NodeConfig(name: string, inputs: Option<seq<string>>)

  /** Why loading stopped (the source raises KeyError, IndexError or the builder's error). */
  datatype LoadError =
    | MissingRootInput                  // the first node has no `inputs` key, or an empty list
    | InvalidRoot(root: string)         // the first node's first input is neither "Query" nor "File"
    | UndefinedComponent(name: string)  // the node has no component definition
    | UnknownComponentType(kind: string) // no component class is registered under the type name
    | Build(error: BuildError)

  predicate IsRootName(name: string)
  {
    name == "Query" || name == "File"
  }

  /** `node_config.get("inputs", [])`. */
  function InputsOf(nc: NodeConfig): seq<string>
  {
    if nc.inputs.Some? then nc.inputs.value else []
  }

  /**
   * One iteration of the loop. `kinds` maps a component name to its type name (the component
   * definitions); `registry` maps a type name to its class's `outgoing_edges`.
   */
  function LoadNode(g: Graph, nc: NodeConfig, kinds: map<string, string>, registry: map<string, int>): (r: Result<Graph, LoadError>)
    ensures r.Ok? ==> nc.name in kinds && kinds[nc.name] in registry
    ensures r.Ok? ==> Node(nc.name, InputsOf(nc), registry[kinds[nc.name]]) in r.value.nodes
    ensures r.Ok? && |g.nodes| > 0 ==> |r.value.nodes| > 0 && r.value.nodes[0].name == g.nodes[0].name
    ensures r.Ok? && |g.nodes| == 0 ==>
      && nc.inputs.Some? && |nc.inputs.value| > 0 && IsRootName(nc.inputs.value[0])
      && |r.value.nodes| > 0 && r.value.nodes[0].name == nc.inputs.value[0]
  {
    var withRoot :=
      if RootNode(g).Some? then Ok(g)
      else if nc.inputs.None? || |nc.inputs.value| == 0 then Err(MissingRootInput)
      else if IsRootName(nc.inputs.value[0]) then Ok(AddDeployment(g, nc.inputs.value[0], 1, []).0)
      else Err(InvalidRoot(nc.inputs.value[0]));
    match withRoot
    case Err(e) => Err(e)
    case Ok(g0) =>
      if nc.name !in kinds then Err(UndefinedComponent(nc.name))
      else if kinds[nc.name] !in registry then Err(UnknownComponentType(kinds[nc.name]))
      else
        var (g1, o) := AddDeployment(g0, nc.name, registry[kinds[nc.name]], InputsOf(nc));
        if o.Fail? then Err(Build(o.error)) else Ok(g1)
  }

  /** The rest of the loop, from graph `g` over the declarations `ncs`. */
  function LoadNodes(g: Graph, ncs: seq<NodeConfig>, kinds: map<string, string>, registry: map<string, int>): (r: Result<Graph, LoadError>)
    ensures r.Ok? ==> forall i :: 0 <= i < |ncs| ==> ncs[i].name in kinds && kinds[ncs[i].name] in registry
    ensures r.Ok? && |g.nodes| > 0 ==> |r.value.nodes| > 0 && r.value.nodes[0].name == g.nodes[0].name
    ensures r.Ok? && |g.nodes| == 0 && |ncs| > 0 ==>
      && ncs[0].inputs.Some? && |ncs[0].inputs.value| > 0 && IsRootName(ncs[0].inputs.value[0])
      && |r.value.nodes| > 0 && r.value.nodes[0].name == ncs[0].inputs.value[0]
    decreases |ncs|
  {
    if |ncs| == 0 then Ok(g)
    else
      match LoadNode(g, ncs[0], kinds, registry)
      case Err(e) => Err(e)
      case Ok(g1) =>
        assert forall i :: 1 <= i < |ncs| ==> ncs[i] == ncs[1..][i - 1];
        LoadNodes(g1, ncs[1..], kinds, registry)
  }

  /** The graph `load_from_config` builds for a pipeline definition, starting from an empty graph. */
  function Load(ncs: seq<NodeConfig>, kinds: map<string, string>, registry: map<string, int>): (r: Result<Graph, LoadError>)
    ensures |ncs| == 0 ==> r == Ok(Empty)
    ensures r.Ok? ==> forall i :: 0 <= i < |ncs| ==> ncs[i].name in kinds && kinds[ncs[i].name] in registry
    ensures r.Ok? && |ncs| > 0 ==>
      && ncs[0].inputs.Some? && |ncs[0].inputs.value| > 0 && IsRootName(ncs[0].inputs.value[0])
      && RootNode(r.value) == Some(ncs[0].inputs.value[0])
  {
    LoadNodes(Empty, ncs, kinds, registry)
  }

  /** A first input other than "Query" or "File" is refused before anything else is looked at. */
  lemma InvalidRootRejected(ncs: seq<NodeConfig>, kinds: map<string, string>, registry: map<string, int>)
    requires |ncs| > 0 && ncs[0].inputs.Some? && |ncs[0].inputs.value| > 0
    requires !IsRootName(ncs[0].inputs.value[0])
    ensures Load(ncs, kinds, registry) == Err(InvalidRoot(ncs[0].inputs.value[0]))
  {
  }

  /**
   * The root comes first: loading adds the root with one output and no inputs, then the first
   * declared node wired from it on "output_1", and continues with the rest of the declarations.
   */
  lemma RootThenFirstNode(ncs: seq<NodeConfig>, kinds: map<string, string>, registry: map<string, int>)
    requires |ncs| > 0 && ncs[0].inputs.Some? && |ncs[0].inputs.value| > 0
    requires IsRootName(ncs[0].inputs.value[0]) && ncs[0].name != ncs[0].inputs.value[0]
    requires ncs[0].name in kinds && kinds[ncs[0].name] in registry
    ensures var root := ncs[0].inputs.value[0];
      var first := Node(ncs[0].name, ncs[0].inputs.value, registry[kinds[ncs[0].name]]);
      Load(ncs, kinds, registry)
        == LoadNodes(Graph([Node(root, [], 1), first], [Edge(root, ncs[0].name, "output_1")]), ncs[1..], kinds, registry)
  {
    FirstDeclaration(ncs[0], kinds, registry);
  }

  /** The first iteration, from the empty graph: the root, then the declared node wired from it. */
  lemma FirstDeclaration(nc: NodeConfig, kinds: map<string, string>, registry: map<string, int>)
    requires nc.inputs.Some? && |nc.inputs.value| > 0
    requires IsRootName(nc.inputs.value[0]) && nc.name != nc.inputs.value[0]
    requires nc.name in kinds && kinds[nc.name] in registry
    ensures var root := nc.inputs.value[0];
      LoadNode(Empty, nc, kinds, registry)
        == Ok(Graph([Node(root, [], 1), Node(nc.name, nc.inputs.value, registry[kinds[nc.name]])],
                    [Edge(root, nc.name, "output_1")]))
  {
    var root := nc.inputs.value[0];
    RootDeployment(root);
    SecondDeployment(root, nc.name, registry[kinds[nc.name]], nc.inputs.value);
    assert RootNode(Empty).None?;
    assert InputsOf(nc) == nc.inputs.value;
  }

  /** The root enters the empty graph alone: one output, no inputs, no edge. */
  lemma RootDeployment(root: string)
    ensures AddDeployment(Empty, root, 1, []) == (Graph([Node(root, [], 1)], []), Pass)
  {
    assert AddNode(Empty, Node(root, [], 1)) == Graph([Node(root, [], 1)], []);
  }

  /** The node after the root gets the edge from the root and nothing else. */
  lemma SecondDeployment(root: string, name: string, arity: int, inputs: seq<string>)
    requires root != name
    ensures AddDeployment(Graph([Node(root, [], 1)], []), name, arity, inputs)
      == (Graph([Node(root, [], 1), Node(name, inputs, arity)], [Edge(root, name, "output_1")]), Pass)
  {
    var g0 := Graph([Node(root, [], 1)], []);
    assert !HasNode(g0, name);
    FirstNodeWiredFromRoot(g0, name, arity, inputs);
    assert g0.nodes + [Node(name, inputs, arity)] == [Node(root, [], 1), Node(name, inputs, arity)];
    assert g0.edges + [Edge(root, name, "output_1")] == [Edge(root, name, "output_1")];
  }

  /** The nodes of the graph after one builder call: the old ones and the new name. */
  lemma AddDeploymentNodes(g: Graph, name: string, outgoingEdges: int, inputs: seq<string>)
    requires Valid(g)
    ensures var g' := AddDeployment(g, name, outgoingEdges, inputs).0;
      && |g'.nodes| >= |g.nodes| && (|g.nodes| > 0 ==> g'.nodes[0].name == g.nodes[0].name)
      && forall x :: HasNode(g', x) <==> HasNode(g, x) || x == name
  {
    var n := Node(name, inputs, outgoingEdges);
    var g1 := AddNode(g, n);
    AddNodeValid(g, n);
    AddDeploymentValid(g, name, outgoingEdges, inputs);
    var g' := AddDeployment(g, name, outgoingEdges, inputs).0;
    assert g'.nodes == g1.nodes;
    forall x | HasNode(g', x) ensures HasNode(g, x) || x == name {
      var i := Rank(g', x);
      if HasNode(g, name) {
        if i != Rank(g, name) {
          FindFirst(g.nodes, i);
        }
      } else if i < |g.nodes| {
        FindFirst(g.nodes, i);
      }
    }
  }

  /** The nodes the declarations stand for, in declaration order: name, inputs and the class's output count. */
  function DeclaredNodes(ncs: seq<NodeConfig>, kinds: map<string, string>, registry: map<string, int>): (r: seq<Node>)
    requires forall i :: 0 <= i < |ncs| ==> ncs[i].name in kinds && kinds[ncs[i].name] in registry
    ensures |r| == |ncs|
    ensures forall i :: 0 <= i < |ncs| ==> r[i] == Node(ncs[i].name, InputsOf(ncs[i]), registry[kinds[ncs[i].name]])
  {
    seq(|ncs|, i requires 0 <= i < |ncs| => Node(ncs[i].name, InputsOf(ncs[i]), registry[kinds[ncs[i].name]]))
  }

  /** Once the root and the first node are in, an iteration on a new name appends exactly its node. */
  lemma {:induction false} LoadNodeAppends(g: Graph, nc: NodeConfig, kinds: map<string, string>, registry: map<string, int>)
    requires Valid(g) && |g.nodes| >= 2 && !HasNode(g, nc.name)
    ensures var r := LoadNode(g, nc, kinds, registry);
      r.Ok? ==>
        && r.value.nodes == g.nodes + [Node(nc.name, InputsOf(nc), registry[kinds[nc.name]])]
        && Valid(r.value)
        && forall x :: HasNode(r.value, x) <==> HasNode(g, x) || x == nc.name
  {
    var r := LoadNode(g, nc, kinds, registry);
    if r.Ok? {
      var arity := registry[kinds[nc.name]];
      var n := Node(nc.name, InputsOf(nc), arity);
      assert RootNode(g).Some?;
      assert r.value == AddDeployment(g, nc.name, arity, InputsOf(nc)).0;
      var g1 := AddNode(g, n);
      assert g1.nodes == g.nodes + [n];
      assert r.value == AddInputs(g1, g1.nodes, nc.name, InputsOf(nc)).0;
      AddDeploymentValid(g, nc.name, arity, InputsOf(nc));
      AddDeploymentNodes(g, nc.name, arity, InputsOf(nc));
    }
  }

  /**
   * The rest of the loop over declarations of new, distinct names appends their nodes to the
   * graph in declaration order.
   */
  lemma {:induction false} LoadNodesOrder(g: Graph, ncs: seq<NodeConfig>, kinds: map<string, string>, registry: map<string, int>)
    requires Valid(g) && |g.nodes| >= 2
    requires forall i, j :: 0 <= i < j < |ncs| ==> ncs[i].name != ncs[j].name
    requires forall i :: 0 <= i < |ncs| ==> !HasNode(g, ncs[i].name)
    ensures var r := LoadNodes(g, ncs, kinds, registry);
      r.Ok? ==> r.value.nodes == g.nodes + DeclaredNodes(ncs, kinds, registry)
    decreases |ncs|
  {
    var r := LoadNodes(g, ncs, kinds, registry);
    if |ncs| > 0 && r.Ok? {
      var step := LoadNode(g, ncs[0], kinds, registry);
      assert step.Ok?;
      LoadNodeAppends(g, ncs[0], kinds, registry);
      var g1 := step.value;
      var rest := ncs[1..];
      assert r == LoadNodes(g1, rest, kinds, registry);
      assert |g1.nodes| == |g.nodes| + 1;
      forall i | 0 <= i < |rest| ensures !HasNode(g1, rest[i].name) {
        assert rest[i] == ncs[i + 1];
      }
      forall i, j | 0 <= i < j < |rest| ensures rest[i].name != rest[j].name {
        assert rest[i] == ncs[i + 1] && rest[j] == ncs[j + 1];
      }
      LoadNodesOrder(g1, rest, kinds, registry);
      var d := DeclaredNodes(ncs, kinds, registry);
      assert d == [d[0]] + DeclaredNodes(rest, kinds, registry);
      assert r.value.nodes == (g.nodes + [d[0]]) + DeclaredNodes(rest, kinds, registry);
    }
  }

  /**
   * A definition that declares each name once and never the root's name loads into the root
   * (one output, no inputs) followed by every declared node in declaration order.
   */
  lemma {:induction false} LoadInOrder(ncs: seq<NodeConfig>, kinds: map<string, string>, registry: map<string, int>)
    requires NoRedeclaration(ncs)
    ensures var r := Load(ncs, kinds, registry);
      r.Ok? && |ncs| > 0 ==>
        r.value.nodes == [Node(ncs[0].inputs.value[0], [], 1)] + DeclaredNodes(ncs, kinds, registry)
  {
    var r := Load(ncs, kinds, registry);
    if r.Ok? && |ncs| > 0 {
      var root := ncs[0].inputs.value[0];
      var first := Node(ncs[0].name, ncs[0].inputs.value, registry[kinds[ncs[0].name]]);
      var g2 := Graph([Node(root, [], 1), first], [Edge(root, ncs[0].name, "output_1")]);
      var rest := DeclaredNodes(ncs[1..], kinds, registry);
      assert r == LoadNodes(g2, ncs[1..], kinds, registry) by {
        RootThenFirstNode(ncs, kinds, registry);
      }
      assert r.value.nodes == g2.nodes + rest by {
        RestFresh(ncs);
        AfterFirstInOrder(root, first, ncs[1..], kinds, registry);
      }
      assert DeclaredNodes(ncs, kinds, registry) == [first] + rest by {
        DeclaredNodesCons(ncs, kinds, registry);
      }
      ConsTwo(Node(root, [], 1), first, rest);
    }
  }

  /** Two nodes in front of a sequence, one at a time. */
  lemma ConsTwo(a: Node, b: Node, rest: seq<Node>)
    ensures [a, b] + rest == [a] + ([b] + rest)
  {
  }

  /** After the root and the first node, the other declarations follow in order. */
  lemma {:induction false} AfterFirstInOrder(root: string, first: Node, rest: seq<NodeConfig>, kinds: map<string, string>, registry: map<string, int>)
    requires IsRootName(root) && !IsRootName(first.name)
    requires forall i, j :: 0 <= i < j < |rest| ==> rest[i].name != rest[j].name
    requires forall i :: 0 <= i < |rest| ==> rest[i].name != first.name && !IsRootName(rest[i].name)
    ensures var g2 := Graph([Node(root, [], 1), first], [Edge(root, first.name, "output_1")]);
      var r := LoadNodes(g2, rest, kinds, registry);
      r.Ok? ==> r.value.nodes == g2.nodes + DeclaredNodes(rest, kinds, registry)
  {
    var g2 := Graph([Node(root, [], 1), first], [Edge(root, first.name, "output_1")]);
    RootAndFirstValid(root, first);
    LoadNodesOrder(g2, rest, kinds, registry);
  }

  /** The declarations after the first one are distinct, new, and none is the root. */
  lemma {:induction false} RestFresh(ncs: seq<NodeConfig>)
    requires NoRedeclaration(ncs) && |ncs| > 0
    ensures var rest := ncs[1..];
      && (forall i, j :: 0 <= i < j < |rest| ==> rest[i].name != rest[j].name)
      && (forall i :: 0 <= i < |rest| ==> rest[i].name != ncs[0].name && !IsRootName(rest[i].name))
  {
    var rest := ncs[1..];
    forall i | 0 <= i < |rest| ensures rest[i].name != ncs[0].name && !IsRootName(rest[i].name) {
      assert rest[i] == ncs[i + 1];
    }
    forall i, j | 0 <= i < j < |rest| ensures rest[i].name != rest[j].name {
      assert rest[i] == ncs[i + 1] && rest[j] == ncs[j + 1];
    }
  }

  /** The first declaration's node, then those of the rest. */
  lemma {:induction false} DeclaredNodesCons(ncs: seq<NodeConfig>, kinds: map<string, string>, registry: map<string, int>)
    requires |ncs| > 0 && ncs[0].inputs.Some?
    requires forall i :: 0 <= i < |ncs| ==> ncs[i].name in kinds && kinds[ncs[i].name] in registry
    ensures DeclaredNodes(ncs, kinds, registry)
      == [Node(ncs[0].name, ncs[0].inputs.value, registry[kinds[ncs[0].name]])] + DeclaredNodes(ncs[1..], kinds, registry)
  {
    var d := DeclaredNodes(ncs, kinds, registry);
    var rest := DeclaredNodes(ncs[1..], kinds, registry);
    assert InputsOf(ncs[0]) == ncs[0].inputs.value;
    assert forall i :: 0 <= i < |rest| ==> rest[i] == d[i + 1];
  }

  /** The graph after the first declaration: valid, and holding just the root and that node. */
  lemma {:induction false} RootAndFirstValid(root: string, first: Node)
    requires root != first.name
    ensures var g2 := Graph([Node(root, [], 1), first], [Edge(root, first.name, "output_1")]);
      Valid(g2) && forall x :: HasNode(g2, x) <==> x == root || x == first.name
  {
    var g2 := Graph([Node(root, [], 1), first], [Edge(root, first.name, "output_1")]);
    FindFirst(g2.nodes, 0);
    FindFirst(g2.nodes, 1);
    assert UniquePairs(g2.edges);
  }

  /** No name is declared twice, and none is the root's name. */
  predicate NoRedeclaration(ncs: seq<NodeConfig>)
  {
    && (forall i, j :: 0 <= i < j < |ncs| ==> ncs[i].name != ncs[j].name)
    && (forall i :: 0 <= i < |ncs| ==> !IsRootName(ncs[i].name))
  }

  /** No node names itself among its inputs. */
  predicate NoSelfReference(ncs: seq<NodeConfig>)
  {
    forall i, k :: 0 <= i < |ncs| && 0 <= k < |InputsOf(ncs[i])| ==> Producer(InputsOf(ncs[i])[k]) != ncs[i].name
  }

  /** One iteration on a new, non-root name that does not name itself keeps the graph acyclic. */
  lemma LoadNodeForward(g: Graph, nc: NodeConfig, kinds: map<string, string>, registry: map<string, int>)
    requires Valid(g) && Forward(g)
    requires !HasNode(g, nc.name) && !IsRootName(nc.name)
    requires forall k :: 0 <= k < |InputsOf(nc)| ==> Producer(InputsOf(nc)[k]) != nc.name
    ensures var r := LoadNode(g, nc, kinds, registry);
      r.Ok? ==> (Valid(r.value) && Forward(r.value)
        && forall x :: HasNode(r.value, x) ==> HasNode(g, x) || x == nc.name || IsRootName(x))
  {
    var r := LoadNode(g, nc, kinds, registry);
    if r.Ok? {
      var g0 := if RootNode(g).Some? then g else AddDeployment(g, nc.inputs.value[0], 1, []).0;
      if RootNode(g).None? {
        var root := nc.inputs.value[0];
        AddDeploymentNodes(g, root, 1, []);
        AsWrittenMatchesChecked(g, root, 1, []);
        CheckedKeepsForward(g, root, 1, []);
      }
      var arity := registry[kinds[nc.name]];
      AddDeploymentNodes(g0, nc.name, arity, InputsOf(nc));
      AsWrittenMatchesChecked(g0, nc.name, arity, InputsOf(nc));
      CheckedKeepsForward(g0, nc.name, arity, InputsOf(nc));
    }
  }

  /**
   * A definition that declares each name once and where no node names itself loads into an
   * acyclic graph: every edge leads from an earlier node to a later one.
   */
  lemma {:induction false} LoadForward(g: Graph, ncs: seq<NodeConfig>, kinds: map<string, string>, registry: map<string, int>)
    requires Valid(g) && Forward(g)
    requires NoRedeclaration(ncs) && NoSelfReference(ncs)
    requires forall i :: 0 <= i < |ncs| ==> !HasNode(g, ncs[i].name)
    ensures LoadNodes(g, ncs, kinds, registry).Ok? ==>
      Valid(LoadNodes(g, ncs, kinds, registry).value) && Forward(LoadNodes(g, ncs, kinds, registry).value)
    decreases |ncs|
  {
    if |ncs| > 0 {
      var nc := ncs[0];
      var r := LoadNode(g, nc, kinds, registry);
      assert forall k :: 0 <= k < |InputsOf(nc)| ==> Producer(InputsOf(nc)[k]) != nc.name;
      LoadNodeForward(g, nc, kinds, registry);
      if r.Ok? {
        var g1 := r.value;
        var rest := ncs[1..];
        assert NoRedeclaration(rest) by {
          forall i, j | 0 <= i < j < |rest| ensures rest[i].name != rest[j].name {
            assert rest[i] == ncs[i + 1] && rest[j] == ncs[j + 1];
          }
        }
        assert NoSelfReference(rest) by {
          forall i, k | 0 <= i < |rest| && 0 <= k < |InputsOf(rest[i])|
            ensures Producer(InputsOf(rest[i])[k]) != rest[i].name
          {
            assert rest[i] == ncs[i + 1];
          }
        }
        forall i | 0 <= i < |rest| ensures !HasNode(g1, rest[i].name) {
          assert rest[i] == ncs[i + 1];
        }
        LoadForward(g1, rest, kinds, registry);
      }
    }
  }
}

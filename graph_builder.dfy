/**
 * How `RayPipeline._add_ray_deployment_in_graph` grows the graph: it registers the node first,
 * wires the very first node after the root from the root, and otherwise turns each entry of the
 * node's `inputs` into one labelled edge, failing on the first entry it cannot resolve.
 */
module GraphBuilder {
  import opened Wrappers
  import opened PyText
  import opened PipelineGraph

  /** Why an input reference was refused (the source raises ValueError, KeyError or AssertionError). */
  datatype BuildError =
    | MalformedReference(input: string)        // `i.split(".")` does not give exactly two pieces
    | InvalidEdgeName(edge: string)            // the edge name does not contain "output_"
    | UnknownNode(name: string)                // the producer is not in the graph
    | InvalidEdgeIndex(edge: string)           // the text after the first "_" is not an integer
    | EdgeIndexTooLarge(producer: string, edge: string, arity: int)
    | AmbiguousEdge(producer: string, arity: int)
    | DuplicateNode(name: string)              // raised only by the corrected builder

  /** The label of a node's `k`-th output, `"output_k"`. */
  function OutputLabel(k: nat): string
  {
    "output_" + ToDecimal(k)
  }

  lemma {:induction false} ContainsChar(s: string, sub: string, c: char)
    requires Contains(s, sub) && c in sub
    ensures c in s
  {
    var i := ContainsWitness(s, sub);
    var m :| 0 <= m < |sub| && sub[m] == c;
    assert s[i + m] == s[i..i + |sub|][m];
  }

  /** A text holding the separator splits into at least two pieces. */
  lemma SeparatorSplits(s: string, sep: char)
    requires sep in s
    ensures |Split(s, sep)| >= 2
  {
    SinglePiece(s, sep);
  }

  lemma SinglePiece(s: string, sep: char)
    ensures |Split(s, sep)| == 1 ==> sep !in s
  {
    JoinSplit(s, sep);
    if |Split(s, sep)| == 1 {
      assert Join(Split(s, sep), sep) == Split(s, sep)[0];
    }
  }

  /**
   * Resolves one entry of a node's `inputs` against the nodes registered so far, giving the
   * producer and the label of the edge to add.
   */
  function ResolveInput(nodes: seq<Node>, input: string): (r: Result<(string, string), BuildError>)
    ensures r.Ok? ==> FindNode(nodes, r.value.0).Some?
  {
    if '.' in input then
      var parts := Split(input, '.');
      if |parts| != 2 then Err(MalformedReference(input))
      else
        var producer, edge := parts[0], parts[1];
        if !Contains(edge, "output_") then Err(InvalidEdgeName(edge))
        else
          match FindNode(nodes, producer)
          case None => Err(UnknownNode(producer))
          case Some(j) =>
            ContainsChar(edge, "output_", '_');
            SeparatorSplits(edge, '_');
            match ParseInt(Split(edge, '_')[1])
            case None => Err(InvalidEdgeIndex(edge))
            case Some(k) =>
              if k <= nodes[j].outgoingEdges then Ok((producer, edge))
              else Err(EdgeIndexTooLarge(producer, edge, nodes[j].outgoingEdges))
    else
      match FindNode(nodes, input)
      case None => Err(UnknownNode(input))
      case Some(j) =>
        if nodes[j].outgoingEdges == 1 then Ok((input, "output_1"))
        else Err(AmbiguousEdge(input, nodes[j].outgoingEdges))
  }

  /**
   * The loop over `inputs`: one edge into `name` per resolved entry, stopping at the first entry
   * that does not resolve against `scope`. The edges added before it stay in the graph.
   */
  function AddInputs(g: Graph, scope: seq<Node>, name: string, inputs: seq<string>): (r: (Graph, Outcome<BuildError>))
    ensures r.0.nodes == g.nodes
    decreases |inputs|
  {
    if |inputs| == 0 then (g, Pass)
    else
      match ResolveInput(scope, inputs[0])
      case Err(e) => (g, Fail(e))
      case Ok((producer, stream)) => AddInputs(AddEdge(g, producer, name, stream), scope, name, inputs[1..])
  }

  /**
   * `_add_ray_deployment_in_graph(handle, name, outgoing_edges, inputs)` as written: the node is
   * registered before its inputs are resolved, so the inputs are resolved against a graph that
   * already holds it. On failure the graph keeps what was added before the failing input.
   */
  function AddDeployment(g: Graph, name: string, outgoingEdges: int, inputs: seq<string>): (r: (Graph, Outcome<BuildError>))
    ensures Node(name, inputs, outgoingEdges) in r.0.nodes
    ensures |g.nodes| > 0 ==> |r.0.nodes| > 0 && r.0.nodes[0].name == g.nodes[0].name
  {
    var n := Node(name, inputs, outgoingEdges);
    var g1 := AddNode(g, n);
    assert n in g1.nodes by {
      if HasNode(g, name) {
        assert g1.nodes[Rank(g, name)] == n;
      } else {
        assert g1.nodes[|g.nodes|] == n;
      }
    }
    if |g1.nodes| == 2 then (AddEdge(g1, g1.nodes[0].name, name, "output_1"), Pass)
    else AddInputs(g1, g1.nodes, name, inputs)
  }

  /** The graph the builder leaves behind satisfies the graph invariant. */
  lemma AddDeploymentValid(g: Graph, name: string, outgoingEdges: int, inputs: seq<string>)
    requires Valid(g)
    ensures Valid(AddDeployment(g, name, outgoingEdges, inputs).0)
  {
    var g1 := AddNode(g, Node(name, inputs, outgoingEdges));
    AddNodeValid(g, Node(name, inputs, outgoingEdges));
    if |g1.nodes| == 2 {
      assert FindNode(g1.nodes, g1.nodes[0].name).Some? by { FindFirst(g1.nodes, 0); }
      AddEdgeValid(g1, g1.nodes[0].name, name, "output_1");
    } else {
      AddInputsValid(g1, g1.nodes, name, inputs);
    }
  }

  /** Some input among the first `n` fails to resolve, and `k` is the first one that does. */
  predicate FirstFailure(scope: seq<Node>, inputs: seq<string>, k: nat, e: BuildError)
  {
    k < |inputs| && ResolveInput(scope, inputs[k]) == Err(e)
    && forall j :: 0 <= j < k ==> ResolveInput(scope, inputs[j]).Ok?
  }

  /** The loop keeps the graph invariant. */
  lemma {:induction false} AddInputsValid(g: Graph, scope: seq<Node>, name: string, inputs: seq<string>)
    requires Valid(g) && HasNode(g, name)
    requires forall x :: FindNode(scope, x).Some? ==> HasNode(g, x)
    ensures Valid(AddInputs(g, scope, name, inputs).0)
    decreases |inputs|
  {
    if |inputs| > 0 {
      match ResolveInput(scope, inputs[0])
      case Err(_) =>
      case Ok((producer, stream)) =>
        AddEdgeValid(g, producer, name, stream);
        AddInputsValid(AddEdge(g, producer, name, stream), scope, name, inputs[1..]);
    }
  }

  /** The loop only touches edges into `name`: earlier edges keep their place, new ones go at the end. */
  lemma {:induction false} AddInputsFrame(g: Graph, scope: seq<Node>, name: string, inputs: seq<string>)
    ensures var g' := AddInputs(g, scope, name, inputs).0;
      && |g'.edges| >= |g.edges|
      && (forall j :: 0 <= j < |g.edges| ==> g'.edges[j].src == g.edges[j].src && g'.edges[j].dst == g.edges[j].dst)
      && (forall j :: 0 <= j < |g.edges| && g.edges[j].dst != name ==> g'.edges[j] == g.edges[j])
      && (forall j :: |g.edges| <= j < |g'.edges| ==> g'.edges[j].dst == name)
    decreases |inputs|
  {
    if |inputs| > 0 {
      match ResolveInput(scope, inputs[0])
      case Err(_) =>
      case Ok((producer, stream)) =>
        var g2 := AddEdge(g, producer, name, stream);
        AddInputsFrame(g2, scope, name, inputs[1..]);
        var g' := AddInputs(g2, scope, name, inputs[1..]).0;
        assert g' == AddInputs(g, scope, name, inputs).0;
        forall j | 0 <= j < |g.edges|
          ensures g'.edges[j].src == g.edges[j].src && g'.edges[j].dst == g.edges[j].dst
          ensures g.edges[j].dst != name ==> g'.edges[j] == g.edges[j]
        {
          assert g2.edges[j].src == g.edges[j].src && g2.edges[j].dst == g.edges[j].dst;
        }
        forall j | |g.edges| <= j < |g'.edges| ensures g'.edges[j].dst == name {
          if j < |g2.edges| {
            assert g2.edges[j] == Edge(producer, name, stream);
          }
        }
    }
  }

  /** Every edge the loop leaves is an old one or runs into `name` from a resolved input. */
  lemma {:induction false} AddInputsSources(g: Graph, scope: seq<Node>, name: string, inputs: seq<string>)
    ensures forall e :: e in AddInputs(g, scope, name, inputs).0.edges ==> (e in g.edges ||
      (e.dst == name && exists k :: 0 <= k < |inputs| && ResolveInput(scope, inputs[k]) == Ok((e.src, e.stream))))
    decreases |inputs|
  {
    if |inputs| > 0 {
      match ResolveInput(scope, inputs[0])
      case Err(_) =>
      case Ok((producer, stream)) =>
        var g2 := AddEdge(g, producer, name, stream);
        var rest := inputs[1..];
        AddInputsSources(g2, scope, name, rest);
        var g' := AddInputs(g2, scope, name, rest).0;
        forall e | e in g'.edges
          ensures e in g.edges ||
            (e.dst == name && exists k :: 0 <= k < |inputs| && ResolveInput(scope, inputs[k]) == Ok((e.src, e.stream)))
        {
          if e !in g.edges {
            if e in g2.edges {
              var j :| 0 <= j < |g2.edges| && g2.edges[j] == e;
              if j < |g.edges| {
                assert g.edges[j].src == producer && g.edges[j].dst == name;
              }
              assert e == Edge(producer, name, stream);
              assert ResolveInput(scope, inputs[0]) == Ok((e.src, e.stream));
            } else {
              var k :| 0 <= k < |rest| && ResolveInput(scope, rest[k]) == Ok((e.src, e.stream));
              assert inputs[k + 1] == rest[k];
            }
          }
        }
    }
  }

  /** When the loop succeeds, every input resolved and its producer is connected to `name`. */
  lemma {:induction false} AddInputsConnected(g: Graph, scope: seq<Node>, name: string, inputs: seq<string>)
    ensures var (g', o) := AddInputs(g, scope, name, inputs);
      o.Pass? ==> forall k :: 0 <= k < |inputs| ==>
        ResolveInput(scope, inputs[k]).Ok? && FindEdge(g'.edges, ResolveInput(scope, inputs[k]).value.0, name).Some?
    decreases |inputs|
  {
    if |inputs| > 0 {
      match ResolveInput(scope, inputs[0])
      case Err(_) =>
      case Ok((producer, stream)) =>
        var g2 := AddEdge(g, producer, name, stream);
        var rest := inputs[1..];
        var r := AddInputs(g2, scope, name, rest);
        assert AddInputs(g, scope, name, inputs) == r;
        AddInputsConnected(g2, scope, name, rest);
        EdgeKept(g2, scope, name, rest, producer);
        if r.1.Pass? {
          forall k | 0 <= k < |inputs|
            ensures ResolveInput(scope, inputs[k]).Ok? && FindEdge(r.0.edges, ResolveInput(scope, inputs[k]).value.0, name).Some?
          {
            if k > 0 {
              assert inputs[k] == rest[k - 1];
            }
          }
        }
    }
  }

  /** When the loop fails, its error is that of the first input that does not resolve. */
  lemma {:induction false} AddInputsFailure(g: Graph, scope: seq<Node>, name: string, inputs: seq<string>) returns (k: nat)
    ensures var o := AddInputs(g, scope, name, inputs).1;
      o.Fail? ==> FirstFailure(scope, inputs, k, o.error)
    decreases |inputs|
  {
    k := 0;
    if |inputs| > 0 {
      var resolved := ResolveInput(scope, inputs[0]);
      if resolved.Ok? {
        var g2 := AddEdge(g, resolved.value.0, name, resolved.value.1);
        assert AddInputs(g, scope, name, inputs) == AddInputs(g2, scope, name, inputs[1..]);
        var j := AddInputsFailure(g2, scope, name, inputs[1..]);
        var o := AddInputs(g2, scope, name, inputs[1..]).1;
        if o.Fail? {
          FirstFailureShift(scope, inputs, j, o.error);
          k := j + 1;
        }
      }
    }
  }

  /** A first failure in the inputs after a resolved one is the first failure of all the inputs, one place later. */
  lemma FirstFailureShift(scope: seq<Node>, inputs: seq<string>, j: nat, e: BuildError)
    requires |inputs| > 0 && ResolveInput(scope, inputs[0]).Ok?
    requires FirstFailure(scope, inputs[1..], j, e)
    ensures FirstFailure(scope, inputs, j + 1, e)
  {
    forall i | 0 <= i < j + 1
      ensures ResolveInput(scope, inputs[i]).Ok?
    {
      if i > 0 {
        assert inputs[i] == inputs[1..][i - 1];
      }
    }
  }

  /** An edge into `name` is never removed by the loop (at most its label changes). */
  lemma {:induction false} EdgeKept(g: Graph, scope: seq<Node>, name: string, inputs: seq<string>, u: string)
    requires FindEdge(g.edges, u, name).Some?
    ensures FindEdge(AddInputs(g, scope, name, inputs).0.edges, u, name).Some?
    decreases |inputs|
  {
    if |inputs| > 0 {
      match ResolveInput(scope, inputs[0])
      case Err(_) =>
      case Ok((producer, stream)) =>
        var g2 := AddEdge(g, producer, name, stream);
        var j := FindEdge(g.edges, u, name).value;
        if producer == u {
          assert Edge(u, name, stream) in g2.edges;
        } else {
          assert g2.edges[j] == g.edges[j];
        }
        EdgeKept(g2, scope, name, inputs[1..], u);
    }
  }

  /**
   * Adding a node to a graph that already has its root and first node changes nothing else: the
   * node is appended, the existing edges stay as they were and in front, and every new edge runs
   * into the node from a producer named by one of its inputs. On success every input is
   * connected; on failure the error is that of the first input that does not resolve.
   */
  lemma AddDeploymentEffect(g: Graph, name: string, outgoingEdges: int, inputs: seq<string>)
    requires Valid(g) && !HasNode(g, name) && |g.nodes| != 1
    ensures var (g', o) := AddDeployment(g, name, outgoingEdges, inputs);
      && g'.nodes == g.nodes + [Node(name, inputs, outgoingEdges)]
      && |g'.edges| >= |g.edges| && g'.edges[..|g.edges|] == g.edges
      && (forall e :: e in g'.edges[|g.edges|..] ==>
            e.dst == name && exists k :: 0 <= k < |inputs| && ResolveInput(g'.nodes, inputs[k]) == Ok((e.src, e.stream)))
      && (o.Pass? ==> forall k :: 0 <= k < |inputs| ==>
            ResolveInput(g'.nodes, inputs[k]).Ok? && FindEdge(g'.edges, ResolveInput(g'.nodes, inputs[k]).value.0, name).Some?)
      && (o.Fail? ==> exists k :: FirstFailure(g'.nodes, inputs, k, o.error))
  {
    var n := Node(name, inputs, outgoingEdges);
    var g1 := AddNode(g, n);
    AddNodeValid(g, n);
    assert g1 == Graph(g.nodes + [n], g.edges);
    assert AddDeployment(g, name, outgoingEdges, inputs) == AddInputs(g1, g1.nodes, name, inputs);
    forall j | 0 <= j < |g.edges| ensures g.edges[j].dst != name {
      assert g.edges[j] in g.edges;
      assert HasNode(g, g.edges[j].dst);
    }
    AddInputsAppends(g1, g1.nodes, name, inputs);
    AddInputsConnected(g1, g1.nodes, name, inputs);
    var firstFailing := AddInputsFailure(g1, g1.nodes, name, inputs);
  }

  /** On a node with no incoming edge yet, the loop only appends edges into it, one per resolved input. */
  lemma AddInputsAppends(g: Graph, scope: seq<Node>, name: string, inputs: seq<string>)
    requires forall j :: 0 <= j < |g.edges| ==> g.edges[j].dst != name
    ensures var g' := AddInputs(g, scope, name, inputs).0;
      && |g'.edges| >= |g.edges| && g'.edges[..|g.edges|] == g.edges
      && (forall e :: e in g'.edges[|g.edges|..] ==>
            e.dst == name && exists k :: 0 <= k < |inputs| && ResolveInput(scope, inputs[k]) == Ok((e.src, e.stream)))
  {
    AddInputsFrame(g, scope, name, inputs);
    AddInputsSources(g, scope, name, inputs);
    var g' := AddInputs(g, scope, name, inputs).0;
    forall e | e in g'.edges[|g.edges|..]
      ensures e.dst == name && exists k :: 0 <= k < |inputs| && ResolveInput(scope, inputs[k]) == Ok((e.src, e.stream))
    {
      var j :| |g.edges| <= j < |g'.edges| && g'.edges[j] == e;
    }
  }

  /** The very first node after the root gets exactly the edge root -> node on "output_1"; its inputs are ignored. */
  lemma FirstNodeWiredFromRoot(g: Graph, name: string, outgoingEdges: int, inputs: seq<string>)
    requires Valid(g) && |g.nodes| == 1 && !HasNode(g, name)
    ensures AddDeployment(g, name, outgoingEdges, inputs)
      == (Graph(g.nodes + [Node(name, inputs, outgoingEdges)], g.edges + [Edge(g.nodes[0].name, name, "output_1")]), Pass)
  {
    var g1 := AddNode(g, Node(name, inputs, outgoingEdges));
    assert g1.nodes[0] == g.nodes[0];
    forall e | e in g.edges ensures e.dst != name {
      assert HasNode(g, e.dst);
    }
    forall j | 0 <= j < |g.edges| ensures g.edges[j].dst != name {
      assert g.edges[j] in g.edges;
    }
  }

  /** A qualified reference `P.output_k` is accepted exactly when `k` is at most P's output count. */
  lemma QualifiedReference(nodes: seq<Node>, producer: string, k: nat)
    requires '.' !in producer && FindNode(nodes, producer).Some?
    ensures var arity := nodes[FindNode(nodes, producer).value].outgoingEdges;
      ResolveInput(nodes, producer + "." + OutputLabel(k))
        == if k <= arity then Ok((producer, OutputLabel(k)))
           else Err(EdgeIndexTooLarge(producer, OutputLabel(k), arity))
  {
    var lbl := OutputLabel(k);
    OutputLabelParts(k);
    QualifiedSplit(producer, lbl);
    ParseIntDecimal(k);
  }

  /** `output_k` has no dot, contains "output_", and splits on '_' into "output" and the decimal text of k. */
  lemma OutputLabelParts(k: nat)
    ensures '.' !in OutputLabel(k) && Contains(OutputLabel(k), "output_")
    ensures Split(OutputLabel(k), '_') == ["output", ToDecimal(k)]
  {
    var lbl := OutputLabel(k);
    var digits := ToDecimal(k);
    assert forall m :: 0 <= m < |digits| ==> digits[m] != '.' && digits[m] != '_';
    assert '.' !in lbl by {
      assert forall c :: c in lbl ==> c in "output_" || c in digits;
    }
    assert "output_" <= lbl;
    assert Join(["output", digits], '_') == lbl;
    SplitJoin(["output", digits], '_');
  }

  /** `producer + "." + edge` with no dot in either part has a dot and splits back into the two parts. */
  lemma QualifiedSplit(producer: string, edge: string)
    requires '.' !in producer && '.' !in edge
    ensures '.' in producer + "." + edge
    ensures Split(producer + "." + edge, '.') == [producer, edge]
  {
    var input := producer + "." + edge;
    assert Join([producer, edge], '.') == input;
    SplitJoin([producer, edge], '.');
    assert input[|producer|] == '.';
  }

  /**
   * The converse: an accepted qualified reference is `producer + "." + edge` for a producer in the
   * graph, an edge name containing "output_", and an index no larger than the producer's output count;
   * the edge is labelled with that edge name.
   */
  lemma QualifiedAccepted(nodes: seq<Node>, input: string)
    requires '.' in input && ResolveInput(nodes, input).Ok?
    ensures var (producer, edge) := ResolveInput(nodes, input).value;
      && input == producer + "." + edge && '.' !in producer && '.' !in edge
      && Contains(edge, "output_")
      && |Split(edge, '_')| >= 2 && ParseInt(Split(edge, '_')[1]).Some?
      && ParseInt(Split(edge, '_')[1]).value <= nodes[FindNode(nodes, producer).value].outgoingEdges
  {
    var parts := Split(input, '.');
    SplitInTwo(input, '.');
    ContainsChar(parts[1], "output_", '_');
    SeparatorSplits(parts[1], '_');
  }

  /** An unqualified reference `P` is accepted exactly when P has one output; the edge is labelled "output_1". */
  lemma UnqualifiedReference(nodes: seq<Node>, producer: string)
    requires '.' !in producer
    ensures ResolveInput(nodes, producer).Ok? <==>
      FindNode(nodes, producer).Some? && nodes[FindNode(nodes, producer).value].outgoingEdges == 1
    ensures ResolveInput(nodes, producer).Ok? ==> ResolveInput(nodes, producer).value == (producer, "output_1")
    ensures FindNode(nodes, producer).Some? && nodes[FindNode(nodes, producer).value].outgoingEdges != 1 ==>
      ResolveInput(nodes, producer) == Err(AmbiguousEdge(producer, nodes[FindNode(nodes, producer).value].outgoingEdges))
  {
  }

  /** The name a reference points at: the text before the dot of a qualified reference, or the whole reference. */
  function Producer(input: string): string
  {
    if '.' in input then Split(input, '.')[0] else input
  }

  /**
   * As written, a node may name itself among its inputs: the node is registered before its inputs
   * are resolved, so the reference resolves, and the edge it adds closes a cycle.
   */
  lemma SelfReferenceAccepted(g: Graph, name: string)
    requires Valid(g) && |g.nodes| >= 2 && !HasNode(g, name) && '.' !in name
    ensures AddDeployment(g, name, 1, [name])
      == (Graph(g.nodes + [Node(name, [name], 1)], g.edges + [Edge(name, name, "output_1")]), Pass)
    ensures !Forward(AddDeployment(g, name, 1, [name]).0)
  {
    var n := Node(name, [name], 1);
    var g1 := AddNode(g, n);
    AddNodeValid(g, n);
    FindFirst(g1.nodes, |g.nodes|);
    assert ResolveInput(g1.nodes, name) == Ok((name, "output_1"));
    forall j | 0 <= j < |g1.edges| ensures g1.edges[j].dst != name {
      assert g.edges[j] in g.edges;
    }
    var g2 := AddEdge(g1, name, name, "output_1");
    assert AddInputs(g1, g1.nodes, name, [name]) == AddInputs(g2, g1.nodes, name, []);
    assert Edge(name, name, "output_1") in g2.edges;
  }

  /**
   * The builder as evidently intended: a name already in the graph is refused, and inputs are
   * resolved against the nodes declared before this one, so a reference can only point backwards.
   */
  function AddDeploymentChecked(g: Graph, name: string, outgoingEdges: int, inputs: seq<string>): (r: (Graph, Outcome<BuildError>))
    ensures HasNode(g, name) ==> r.0 == g && r.1 == Fail(DuplicateNode(name))
    ensures !HasNode(g, name) ==> r.0.nodes == g.nodes + [Node(name, inputs, outgoingEdges)]
  {
    if HasNode(g, name) then (g, Fail(DuplicateNode(name)))
    else
      var g1 := AddNode(g, Node(name, inputs, outgoingEdges));
      if |g1.nodes| == 2 then (AddEdge(g1, g1.nodes[0].name, name, "output_1"), Pass)
      else AddInputs(g1, g.nodes, name, inputs)
  }

  /** The corrected builder keeps every edge pointing from an earlier node to a later one: no cycle can form. */
  lemma CheckedKeepsForward(g: Graph, name: string, outgoingEdges: int, inputs: seq<string>)
    requires Valid(g) && Forward(g)
    ensures Valid(AddDeploymentChecked(g, name, outgoingEdges, inputs).0)
    ensures Forward(AddDeploymentChecked(g, name, outgoingEdges, inputs).0)
  {
    if !HasNode(g, name) {
      var n := Node(name, inputs, outgoingEdges);
      var g1 := AddNode(g, n);
      AddNodeValid(g, n);
      FindFirst(g1.nodes, |g.nodes|);
      assert Rank(g1, name) == |g.nodes|;
      var g' := AddDeploymentChecked(g, name, outgoingEdges, inputs).0;
      if |g1.nodes| == 2 {
        var root := g1.nodes[0].name;
        FindFirst(g1.nodes, 0);
        AddEdgeValid(g1, root, name, "output_1");
        assert g'.edges == g.edges + [Edge(root, name, "output_1")];
      } else {
        AddInputsValid(g1, g.nodes, name, inputs);
        AddInputsSources(g1, g.nodes, name, inputs);
        forall e | e in g'.edges ensures HasNode(g', e.src) && HasNode(g', e.dst) && Rank(g', e.src) < Rank(g', e.dst) {
          if e !in g.edges {
            var k :| 0 <= k < |inputs| && ResolveInput(g.nodes, inputs[k]) == Ok((e.src, e.stream));
          }
        }
      }
    }
  }

  lemma FindNodeExtended(nodes: seq<Node>, n: Node, x: string)
    requires x != n.name
    ensures FindNode(nodes + [n], x) == FindNode(nodes, x)
  {
    assert (nodes + [n])[..|nodes|] == nodes;
  }

  lemma ResolveAgainstExtended(nodes: seq<Node>, n: Node, input: string)
    requires Producer(input) != n.name
    ensures ResolveInput(nodes + [n], input) == ResolveInput(nodes, input)
  {
    FindNodeExtended(nodes, n, Producer(input));
    if '.' in input && |Split(input, '.')| == 2 {
      var j := FindNode(nodes, Producer(input));
      if j.Some? {
        assert (nodes + [n])[j.value] == nodes[j.value];
      }
    } else if '.' !in input {
      var j := FindNode(nodes, input);
      if j.Some? {
        assert (nodes + [n])[j.value] == nodes[j.value];
      }
    }
  }

  lemma {:induction false} AddInputsSameResolution(g: Graph, s1: seq<Node>, s2: seq<Node>, name: string, inputs: seq<string>)
    requires forall k :: 0 <= k < |inputs| ==> ResolveInput(s1, inputs[k]) == ResolveInput(s2, inputs[k])
    ensures AddInputs(g, s1, name, inputs) == AddInputs(g, s2, name, inputs)
    decreases |inputs|
  {
    if |inputs| > 0 {
      match ResolveInput(s1, inputs[0])
      case Err(_) =>
      case Ok((producer, stream)) =>
        AddInputsSameResolution(AddEdge(g, producer, name, stream), s1, s2, name, inputs[1..]);
    }
  }

  /**
   * The two builders agree on every declaration that introduces a new name and does not refer to
   * itself: only self-references and re-declarations behave differently.
   */
  lemma AsWrittenMatchesChecked(g: Graph, name: string, outgoingEdges: int, inputs: seq<string>)
    requires !HasNode(g, name)
    requires forall k :: 0 <= k < |inputs| ==> Producer(inputs[k]) != name
    ensures AddDeployment(g, name, outgoingEdges, inputs) == AddDeploymentChecked(g, name, outgoingEdges, inputs)
  {
    var n := Node(name, inputs, outgoingEdges);
    var g1 := AddNode(g, n);
    forall k | 0 <= k < |inputs| ensures ResolveInput(g1.nodes, inputs[k]) == ResolveInput(g.nodes, inputs[k]) {
      ResolveAgainstExtended(g.nodes, n, inputs[k]);
    }
    AddInputsSameResolution(g1, g1.nodes, g.nodes, name, inputs);
  }
}

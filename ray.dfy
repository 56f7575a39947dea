/**
 * The classes of haystack/pipelines/ray.py: `RayPipeline`, whose graph the builder, the loader
 * and `run` work on step by step, and `_RayDeploymentWrapper`, which builds the component of one
 * deployment and overwrites the references in the configuration it is given as it goes. Each
 * method is proved to do exactly what the function of the same name in the specification
 * modules computes.
 */
module Ray {
  import opened Wrappers
  import opened PipelineGraph
  import GraphBuilder
  import Loader
  import Traversal
  import ComponentLoading

  class RayPipeline {
    /** The networkx DiGraph of deployments. */
    var graph: Graph

    /** A pipeline starts with an empty graph (connecting to Ray is not modelled). */
    constructor ()
      ensures graph == Empty
    {
      graph := Empty;
    }

    /**
     * `_add_ray_deployment_in_graph`: register the node, connect the first node after the root
     * to the root, and otherwise add one edge per input, stopping at the first input that does
     * not resolve.
     */
    method AddRayDeploymentInGraph(name: string, outgoingEdges: int, inputs: seq<string>) returns (outcome: Outcome<GraphBuilder.BuildError>)
      modifies this
      ensures (graph, outcome) == GraphBuilder.AddDeployment(old(graph), name, outgoingEdges, inputs)
      ensures Valid(old(graph)) ==> Valid(graph)
    {
      ghost var g0 := graph;
      graph := PipelineGraph.AddNode(graph, Node(name, inputs, outgoingEdges));
      if |graph.nodes| == 2 {
        graph := AddEdge(graph, graph.nodes[0].name, name, "output_1");
        outcome := Pass;
      } else {
        var scope := graph.nodes;
        ghost var g1 := graph;
        var k := 0;
        outcome := Pass;
        while k < |inputs|
          invariant 0 <= k <= |inputs|
          invariant GraphBuilder.AddInputs(graph, scope, name, inputs[k..]) == GraphBuilder.AddInputs(g1, scope, name, inputs)
        {
          assert inputs[k..][0] == inputs[k] && inputs[k..][1..] == inputs[k + 1..];
          var resolved := GraphBuilder.ResolveInput(scope, inputs[k]);
          if resolved.Err? {
            outcome := Fail(resolved.error);
            break;
          }
          var (producer, stream) := resolved.value;
          graph := AddEdge(graph, producer, name, stream);
          k := k + 1;
        }
      }
      if Valid(g0) {
        GraphBuilder.AddDeploymentValid(g0, name, outgoingEdges, inputs);
      }
    }

    /** `add_node` is not supported: it always raises, and the graph is left as it was. */
    method AddNode(component: nat, name: string, inputs: seq<string>) returns (r: Outcome<string>)
      ensures r == Fail("The current implementation of RayPipeline only supports loading Pipelines from a YAML file.")
    {
      r := Fail("The current implementation of RayPipeline only supports loading Pipelines from a YAML file.");
    }

    /**
     * `load_from_config`: walk the node declarations in order, adding the root deployment before
     * the first of them, and a deployment per declaration.
     */
    static method LoadFromConfig(ncs: seq<Loader.NodeConfig>, kinds: map<string, string>, registry: map<string, int>)
      returns (r: Result<RayPipeline, Loader.LoadError>)
      ensures r.Ok? <==> Loader.Load(ncs, kinds, registry).Ok?
      ensures r.Ok? ==> fresh(r.value) && r.value.graph == Loader.Load(ncs, kinds, registry).value
      ensures r.Err? ==> r.error == Loader.Load(ncs, kinds, registry).error
    {
      var pipeline := new RayPipeline();
      var i := 0;
      while i < |ncs|
        invariant 0 <= i <= |ncs|
        invariant fresh(pipeline)
        invariant Loader.LoadNodes(pipeline.graph, ncs[i..], kinds, registry) == Loader.Load(ncs, kinds, registry)
      {
        assert ncs[i..][0] == ncs[i] && ncs[i..][1..] == ncs[i + 1..];
        var nc := ncs[i];
        ghost var step := Loader.LoadNode(pipeline.graph, nc, kinds, registry);
        assert Loader.Load(ncs, kinds, registry)
          == if step.Err? then Err(step.error) else Loader.LoadNodes(step.value, ncs[i + 1..], kinds, registry);
        if RootNode(pipeline.graph).None? {
          if nc.inputs.None? || |nc.inputs.value| == 0 {
            assert step == Err(Loader.MissingRootInput);
            return Err(Loader.MissingRootInput);
          }
          var root := nc.inputs.value[0];
          if !Loader.IsRootName(root) {
            assert step == Err(Loader.InvalidRoot(root));
            return Err(Loader.InvalidRoot(root));
          }
          var rootOutcome := pipeline.AddRayDeploymentInGraph(root, 1, []);
        }
        if nc.name !in kinds {
          assert step == Err(Loader.UndefinedComponent(nc.name));
          return Err(Loader.UndefinedComponent(nc.name));
        }
        var kind := kinds[nc.name];
        if kind !in registry {
          assert step == Err(Loader.UnknownComponentType(kind));
          return Err(Loader.UnknownComponentType(kind));
        }
        var outcome := pipeline.AddRayDeploymentInGraph(nc.name, registry[kind], Loader.InputsOf(nc));
        if outcome.Fail? {
          assert step == Err(Loader.Build(outcome.error));
          return Err(Loader.Build(outcome.error));
        }
        assert step == Ok(pipeline.graph);
        i := i + 1;
      }
      return Ok(pipeline);
    }

    /**
     * `run`: invoke the root with the request's context and follow the chosen streams until a
     * node has no successor on its stream. Also gives, as a ghost, the nodes invoked in order.
     */
    method Run(req: Traversal.Request, invoke: (string, Traversal.Context) -> Traversal.Invocation,
               runBranch: (string, Traversal.Context) -> Traversal.BranchCall)
      returns (r: Result<Traversal.Context, Traversal.RunError>, ghost trace: seq<string>)
      requires Forward(graph)
      ensures (r, trace) == Traversal.Run(graph, req, invoke, runBranch)
    {
      var root := RootNode(graph);
      if root.None? || root.value == "" {
        return Err(Traversal.NoRootNode), [];
      }
      var current := root.value;
      var input := Traversal.InitialContext(current, req);
      var output: Traversal.Context := map[];
      var hasNext := true;
      trace := [];
      assert Traversal.Run(graph, req, invoke, runBranch) == Traversal.Traverse(graph, current, input, invoke, runBranch);
      assert [] + Traversal.Traverse(graph, current, input, invoke, runBranch).1 == Traversal.Traverse(graph, current, input, invoke, runBranch).1;
      while hasNext
        invariant HasNode(graph, current)
        invariant hasNext ==> (Traversal.Run(graph, req, invoke, runBranch) ==
          (Traversal.Traverse(graph, current, input, invoke, runBranch).0,
           trace + Traversal.Traverse(graph, current, input, invoke, runBranch).1))
        invariant !hasNext ==> Traversal.Run(graph, req, invoke, runBranch) == (Ok(output), trace)
        decreases hasNext, |graph.nodes| - Rank(graph, current)
      {
        var step, called := VisitNode(current, input, invoke, runBranch);
        match step
        case Failed(e) =>
          return Err(e), trace + called;
        case Finished(out) =>
          output := out;
          trace := trace + called;
          hasNext := false;
        case MoveTo(next, ctx) =>
          ghost var tail := Traversal.Traverse(graph, next, ctx, invoke, runBranch).1;
          assert (trace + called) + tail == trace + (called + tail);
          trace := trace + called;
          current := next;
          input := ctx;
      }
      r := Ok(output);
    }

    /**
     * One turn of the `while has_next_node` loop at `current`: invoke the node, then stop, move to
     * the single successor, or fan out to the branches and move to their join node.
     */
    method VisitNode(current: string, input: Traversal.Context, invoke: (string, Traversal.Context) -> Traversal.Invocation,
                     runBranch: (string, Traversal.Context) -> Traversal.BranchCall)
      returns (step: Traversal.StepResult, ghost called: seq<string>)
      requires Forward(graph)
      ensures (step, called) == Traversal.Step(graph, current, input, invoke, runBranch)
    {
      var invocation := invoke(current, input);
      if invocation.Raised? {
        return Traversal.Failed(Traversal.NodeFailed(current, invocation.message)), [current];
      }
      var output := invocation.output;
      var next := Successors(graph.edges, current, invocation.stream);
      if |next| > 1 {
        var after := Neighbors(graph.edges, next[0]);
        if |after| == 0 {
          return Traversal.Failed(Traversal.NoJoinNode(next[0])), [current];
        }
        var join := after[0];
        if Predecessors(graph.edges, join) != Traversal.AsSet(next) {
          return Traversal.Failed(Traversal.UnsupportedTopology(join)), [current];
        }
        var branches, branchesCalled := RunBranches(next, output, runBranch);
        if branches.Err? {
          return Traversal.Failed(branches.error), [current] + branchesCalled;
        }
        return Traversal.MoveTo(join, map["inputs" := Traversal.List(branches.value)]), [current] + next;
      } else if |next| == 1 {
        return Traversal.MoveTo(next[0], output), [current];
      } else {
        return Traversal.Finished(output), [current];
      }
    }
  }

  /**
   * The loop `for n_id in next_nodes` of a fan-out: call `run` on each branch with the same
   * context and collect the results in order; the first exception ends the run.
   */
  method RunBranches(branches: seq<string>, input: Traversal.Context, runBranch: (string, Traversal.Context) -> Traversal.BranchCall)
    returns (r: Result<seq<Traversal.Val>, Traversal.RunError>, ghost called: seq<string>)
    ensures (r, called) == Traversal.RunBranches(branches, input, runBranch)
  {
    var results: seq<Traversal.Val> := [];
    var k := 0;
    while k < |branches|
      invariant 0 <= k <= |branches|
      invariant Traversal.RunBranches(branches[..k], input, runBranch) == (Ok(results), branches[..k])
    {
      assert branches[..k + 1][..k] == branches[..k];
      var call := runBranch(branches[k], input);
      if call.BranchRaised? {
        RunBranchesStops(branches, k + 1, input, runBranch);
        return Err(Traversal.NodeFailed(branches[k], call.message)), branches[..k + 1];
      }
      results := results + [call.result];
      k := k + 1;
    }
    assert branches[..k] == branches;
    return Ok(results), branches;
  }

  /** Once a branch raises, calling the branches after it changes nothing: the first exception is the result. */
  lemma {:induction false} RunBranchesStops(branches: seq<string>, n: nat, input: Traversal.Context,
                                            runBranch: (string, Traversal.Context) -> Traversal.BranchCall)
    requires 0 < n <= |branches|
    requires Traversal.RunBranches(branches[..n], input, runBranch).0.Err?
    ensures Traversal.RunBranches(branches, input, runBranch) == Traversal.RunBranches(branches[..n], input, runBranch)
    decreases |branches| - n
  {
    if n < |branches| {
      assert branches[..n + 1][..n] == branches[..n];
      RunBranchesStops(branches, n + 1, input, runBranch);
    } else {
      assert branches[..n] == branches;
    }
  }

  /** The `components` section of the configuration dictionary a deployment is given, with the number of objects constructed from it. */
  class PipelineConfig {
    var components: seq<ComponentLoading.ComponentConfig>
    var constructed: nat

    constructor (components: seq<ComponentLoading.ComponentConfig>)
      ensures this.components == components && constructed == 0
    {
      this.components := components;
      constructed := 0;
    }

    function State(): ComponentLoading.Store
      reads this
    {
      ComponentLoading.Store(components, constructed)
    }
  }

  class RayDeploymentWrapper {
    /** The component this deployment runs. */
    var node: ComponentLoading.Deployed

    constructor Wrap(node: ComponentLoading.Deployed)
      ensures this.node == node
    {
      this.node := node;
    }

    /**
     * `__init__`: a `Query` or `File` deployment wraps the root stand-in; any other loads its
     * component from the configuration, which fails when loading fails.
     */
    static method Init(pipelineConfig: PipelineConfig, componentName: string, depth: nat, registry: set<string>)
      returns (r: Result<RayDeploymentWrapper, ComponentLoading.ComponentError>)
      modifies pipelineConfig
      ensures var (st, expected) := ComponentLoading.InitWrapper(old(pipelineConfig.State()), componentName, depth, registry);
        && pipelineConfig.State() == st
        && r.Ok? == expected.Ok?
        && (r.Ok? ==> fresh(r.value) && r.value.node == expected.value)
        && (r.Err? ==> r.error == expected.error)
    {
      if componentName == "Query" || componentName == "File" {
        var wrapper := new RayDeploymentWrapper.Wrap(ComponentLoading.RootStandIn);
        return Ok(wrapper);
      }
      var loaded := LoadFromPipelineConfig(pipelineConfig, componentName, depth, registry);
      if loaded.Err? {
        return Err(loaded.error);
      }
      var wrapper := new RayDeploymentWrapper.Wrap(ComponentLoading.Component(loaded.value));
      return Ok(wrapper);
    }

    /**
     * `load_from_pipeline_config`, with at most `depth` nested calls before the recursion limit:
     * find the declaration, replace each parameter that names a declared component, in the
     * configuration itself, by a loaded instance of it, then construct the component.
     */
    static method LoadFromPipelineConfig(pipelineConfig: PipelineConfig, componentName: string, depth: nat, registry: set<string>)
      returns (r: Result<ComponentLoading.Instance, ComponentLoading.ComponentError>)
      modifies pipelineConfig
      ensures (pipelineConfig.State(), r) == ComponentLoading.LoadComponent(old(pipelineConfig.State()), componentName, depth, registry)
      decreases depth, 0
    {
      if depth == 0 {
        return Err(ComponentLoading.RecursionLimit);
      }
      var found := ComponentLoading.FindConfig(pipelineConfig.components, componentName);
      if found.None? {
        return Err(ComponentLoading.MissingDeclaration(componentName));
      }
      var i := found.value;
      if pipelineConfig.components[i].params.None? {
        return Err(ComponentLoading.MissingParams(componentName));
      }
      ghost var st0 := pipelineConfig.State();
      var outcome := ResolveReferences(pipelineConfig, i, depth - 1, registry);
      ComponentLoading.LoadAfterLoop(st0, componentName, depth, registry, pipelineConfig.State(), outcome);
      if outcome.Fail? {
        return Err(outcome.error);
      }
      var c := pipelineConfig.components[i];
      if c.kind !in registry {
        return Err(ComponentLoading.UnknownComponentType(c.kind));
      }
      r := Ok(ComponentLoading.Instance(pipelineConfig.constructed, componentName, c.kind, c.params.value));
      pipelineConfig.constructed := pipelineConfig.constructed + 1;
    }

    /**
     * The loop `for key, value in component_params.items()` of the `i`-th declaration: a value
     * that names a declared component is overwritten, in the configuration, by an instance of it
     * loaded with `depth` nested calls left.
     */
    static method ResolveReferences(pipelineConfig: PipelineConfig, i: nat, depth: nat, registry: set<string>)
      returns (outcome: Outcome<ComponentLoading.ComponentError>)
      requires i < |pipelineConfig.components| && pipelineConfig.components[i].params.Some?
      modifies pipelineConfig
      ensures (pipelineConfig.State(), outcome) == ComponentLoading.ResolveParams(old(pipelineConfig.State()), i, 0, depth, registry)
      decreases depth, 1
    {
      var names := ComponentLoading.Names(pipelineConfig.components);
      ghost var st0 := pipelineConfig.State();
      var k := 0;
      while k < |pipelineConfig.components[i].params.value|
        invariant i < |pipelineConfig.components| && pipelineConfig.components[i].params.Some?
        invariant k <= |pipelineConfig.components[i].params.value|
        invariant names == ComponentLoading.Names(pipelineConfig.components)
        invariant ComponentLoading.ResolveParams(pipelineConfig.State(), i, k, depth, registry)
          == ComponentLoading.ResolveParams(st0, i, 0, depth, registry)
        decreases |pipelineConfig.components[i].params.value| - k
      {
        ghost var st := pipelineConfig.State();
        var param := pipelineConfig.components[i].params.value[k];
        if param.value.Text? && param.value.s in names {
          var loaded := LoadFromPipelineConfig(pipelineConfig, param.value.s, depth, registry);
          if loaded.Err? {
            return Fail(loaded.error);
          }
          ghost var st1 := pipelineConfig.State();
          ComponentLoading.ResolveReferenceStep(st, i, k, depth, registry, st1, loaded.value);
          var c := pipelineConfig.components[i];
          var ps := c.params.value;
          pipelineConfig.components := pipelineConfig.components[i := c.(params := Some(ps[k := ComponentLoading.Param(ps[k].key, ComponentLoading.Built(loaded.value))]))];
          assert pipelineConfig.State() == ComponentLoading.SetParam(st1, i, k, ComponentLoading.Built(loaded.value));
        } else {
          assert !ComponentLoading.IsReference(ComponentLoading.Names(st.configs), st.configs[i].params.value[k].value);
        }
        k := k + 1;
      }
      outcome := Pass;
    }
  }
}

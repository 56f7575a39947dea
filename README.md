# RayPipeline graph core, modelled in Dafny

A Haystack `RayPipeline` runs each component of a question-answering pipeline as a Ray Serve
deployment and keeps a networkx directed graph of these deployments. This project models the
logic of haystack/pipelines/ray.py that works on that graph and on the configuration:

- `_add_ray_deployment_in_graph`: how a node and the edges named by its `inputs` enter the graph.
  A reference is either `P` (P must have exactly one output) or `P.output_k` (k may be at most P's
  output count).
- `load_from_config`: the loop over the node declarations. It adds the `Query` or `File` root
  first, then one deployment per declaration.
- `run`: the traversal. It starts at the root with a context holding the supplied request fields,
  invokes the current node, and follows the edges labelled with the stream the node returns. With
  one successor it moves on. With several it fans out: each branch is called in edge order, and the
  results go as `{"inputs": [...]}` to the join node, which must have exactly those branches as
  predecessors.
- `add_node`: always refused.
- `_RayDeploymentWrapper.__init__` and `load_from_pipeline_config`: a deployment builds its
  component from the configuration. A parameter whose value is the name of any declared
  component (its own name included, which recurses until the depth limit) is replaced by a freshly loaded instance of it. This happens recursively and in place,
  in the configuration dictionary itself.

Layout, one module per file:

- `wrappers.dfy`: `Option`, `Result` and `Outcome`.
- `pytext.dfy` (`PyText`): the Python string operations the builder relies on. These are
  `str.split`, `in` on strings, and `int()` on a string.
- `pipeline_graph.dfy` (`PipelineGraph`): the networkx `DiGraph` as used here. It covers insertion
  order, attribute update in place, one edge per node pair, labelled successors, neighbours and
  predecessors.
- `graph_builder.dfy` (`GraphBuilder`), `loader.dfy` (`Loader`), `traversal.dfy` (`Traversal`) and
  `component_loading.dfy` (`ComponentLoading`) hold the specification functions and the lemmas
  about them.
- `ray.dfy` (`Ray`) holds the classes `RayPipeline`, `PipelineConfig` and `RayDeploymentWrapper`.
  Their methods do the work step by step, with the loops of the source. Each one is proved to
  compute exactly what the matching specification function computes.

Behaviour that the model makes explicit:

- A node is registered before its inputs are resolved. A failing input therefore leaves the node
  in the graph, together with the edges of the inputs before it.
- The first node after the root is wired from the root automatically, whatever its `inputs` say.
  A later node is wired from the root only when its `inputs` name it.
- A branch of a fan-out is called with `.run(**input_dict)` directly on the deployment handle
  stored in the graph, while the other nodes are called through `.remote(...)` and `ray.get`. The
  model keeps the two calls apart: `invoke` is the `.remote` call and `runBranch` is the direct
  `.run` call.
- A node with a single successor passes its output on unchanged. It is not wrapped in
  `{"inputs": [...]}`; that wrapping happens only at a fan-out join (ray.py:243-244).
- Loading a component twice from the same configuration builds the top component twice. The
  second build, however, reuses the instances that the first build wrote into the configuration
  for its references (`ComponentLoading.ReloadSharesDependencies`).

## Model

| member | source | states |
|---|---|---|
| `PyText.Split` | haystack/pipelines/ray.py:277 | `str.split` gives at least one piece, and no piece holds the separator |
| `PyText.JoinSplit` | haystack/pipelines/ray.py:277 | joining the pieces of a split with the separator gives back the text |
| `PyText.SplitJoin` | haystack/pipelines/ray.py:277 | splitting a join of separator-free pieces gives back exactly those pieces |
| `PyText.Contains` | haystack/pipelines/ray.py:278 | a string contains only substrings no longer than itself, and always the empty string |
| `PyText.ContainsAt` | haystack/pipelines/ray.py:278 | a substring found at some position makes the `in` test true |
| `PyText.ContainsWitness` | haystack/pipelines/ray.py:278 | the `in` test on strings holds only when the substring occurs at some position |
| `PyText.ParseIntAccepts` | haystack/pipelines/ray.py:280 | `int()` accepts exactly a stripped text of digits, or of a sign followed by digits; only a minus sign gives a negative value |
| `PyText.ParseIntDecimal` | haystack/pipelines/ray.py:280 | `int()` of the decimal text of n is n (the index of `output_n`) |
| `PyText.ParseIntOfDigits` | haystack/pipelines/ray.py:280 | `int()` of a digit string is its decimal value |
| `PyText.DigitsValueOfDecimal` | haystack/pipelines/ray.py:280 | the value of the decimal text of n is n |
| `PipelineGraph.RootNode` | haystack/pipelines/ray.py:89 | `root_node` is None exactly when the graph has no node; otherwise it is the first node added |
| `PipelineGraph.FindNode` | haystack/pipelines/ray.py:279 | looking a name up in the graph finds its first occurrence, or reports that no node has it |
| `PipelineGraph.AddNode` | haystack/pipelines/ray.py:269 | `add_node` appends a new name; for an existing name it replaces the attributes in place and keeps the position; the edges stay |
| `PipelineGraph.AddEdge` | haystack/pipelines/ray.py:292 | `add_edge` leaves the nodes alone; afterwards the edge is present; it is appended unless the node pair already had an edge, whose label is then replaced in place; other edges are untouched |
| `PipelineGraph.AddNodeValid` | haystack/pipelines/ray.py:269 | adding a node keeps names distinct and edge ends present, and keeps the position of every node already there |
| `PipelineGraph.AddEdgeValid` | haystack/pipelines/ray.py:292 | adding an edge between present nodes keeps the graph invariant (one edge per node pair) |
| `PipelineGraph.FindEdge` | haystack/pipelines/ray.py:292 | the lookup `add_edge` does finds an edge between the two nodes, or reports that they are not connected |
| `PipelineGraph.Successors` | haystack/pipelines/ray.py:229 | `get_next_nodes` yields exactly the targets of the current node's edges labelled with the returned stream |
| `PipelineGraph.SuccessorsAppend` | haystack/pipelines/ray.py:229 | the successors are listed in edge insertion order: those of earlier edges come first |
| `PipelineGraph.SuccessorsOfEdge` | haystack/pipelines/ray.py:229 | one edge contributes its target exactly when it leaves the node on the stream |
| `PipelineGraph.SuccessorsDistinct` | haystack/pipelines/ray.py:229 | in a graph with one edge per node pair, no successor is listed twice |
| `PipelineGraph.Neighbors` | haystack/pipelines/ray.py:232 | `nx.neighbors` yields exactly the targets of the node's edges, whatever their label |
| `PipelineGraph.NeighborsAppend` | haystack/pipelines/ray.py:232 | the neighbours are listed in edge insertion order: those of earlier edges come first |
| `PipelineGraph.NeighborsOfEdge` | haystack/pipelines/ray.py:232 | one edge contributes its target exactly when it leaves the node |
| `PipelineGraph.NeighborsHead` | haystack/pipelines/ray.py:232 | the join node, `[0]` of the neighbours, is the target of the earliest edge leaving the first branch |
| `PipelineGraph.NeighborsDistinct` | haystack/pipelines/ray.py:232 | in a graph with one edge per node pair, no neighbour is listed twice |
| `PipelineGraph.Predecessors` | haystack/pipelines/ray.py:233 | the predecessors of a node are exactly the sources of edges into it |
| `GraphBuilder.ResolveInput` | haystack/pipelines/ray.py:275-291 | an input that resolves names a producer present in the graph |
| `GraphBuilder.QualifiedReference` | haystack/pipelines/ray.py:276-283 | `P.output_k` on a present P is accepted, labelled `output_k`, exactly when k is at most P's output count; otherwise it fails with that count |
| `GraphBuilder.QualifiedAccepted` | haystack/pipelines/ray.py:276-283 | conversely, an accepted dotted input is producer, dot, edge name; the edge name contains `output_`; its integer index is at most the producer's output count |
| `GraphBuilder.UnqualifiedReference` | haystack/pipelines/ray.py:284-291 | a plain name is accepted exactly when that node exists and has one output; the edge is `output_1`; a node with another count is refused as ambiguous |
| `GraphBuilder.AddInputs` | haystack/pipelines/ray.py:275-292 | the input loop adds edges only and never changes the nodes |
| `GraphBuilder.AddDeployment` | haystack/pipelines/ray.py:269-292 | the node with its inputs and output count is in the graph afterwards, whether or not its inputs resolve, and the root stays first |
| `GraphBuilder.AddDeploymentValid` | haystack/pipelines/ray.py:269-292 | the builder keeps the graph invariant |
| `GraphBuilder.AddInputsValid` | haystack/pipelines/ray.py:275-292 | every edge the input loop adds runs between present nodes and keeps one edge per pair |
| `GraphBuilder.AddInputsFrame` | haystack/pipelines/ray.py:275-292 | the input loop keeps every existing edge at its position with its ends, changes none that does not end at the node, and appends only edges that end at the node |
| `GraphBuilder.AddInputsSources` | haystack/pipelines/ray.py:275-292 | every appended edge comes from the producer and label of one of the inputs |
| `GraphBuilder.AddInputsConnected` | haystack/pipelines/ray.py:275-292 | when the loop finishes, every input's producer is connected to the node |
| `GraphBuilder.AddInputsFailure` | haystack/pipelines/ray.py:275-292 | when the loop fails, the error is that of the first input that does not resolve |
| `GraphBuilder.EdgeKept` | haystack/pipelines/ray.py:275-292 | an edge into the node, once added, stays in the graph through the rest of the loop |
| `GraphBuilder.AddInputsAppends` | haystack/pipelines/ray.py:275-292 | on a node with no incoming edge, the input loop keeps the old edges in front and appends only edges into the node, each from a resolved input |
| `GraphBuilder.AddDeploymentEffect` | haystack/pipelines/ray.py:269-292 | for a new name after the first node: the node is appended, the old edges stay in front, and each new edge comes from a resolved input; on success every input is connected; on failure the error is the first failing input's |
| `GraphBuilder.FirstNodeWiredFromRoot` | haystack/pipelines/ray.py:271-273 | the first node after the root gets exactly the edge from the root on `output_1`, and its inputs are ignored |
| `GraphBuilder.SelfReferenceAccepted` | haystack/pipelines/ray.py:269-292 | as written, a node listing itself as input is accepted, with the edge from the node to itself, and the graph has a cycle |
| `GraphBuilder.AddDeploymentChecked` | haystack/pipelines/ray.py:269-292 | the corrected builder refuses a name already in the graph and leaves the graph untouched; a new name is appended after the existing nodes |
| `GraphBuilder.CheckedKeepsForward` | haystack/pipelines/ray.py:269-292 | the corrected builder keeps every edge running from an earlier node to a later one, so no cycle forms |
| `GraphBuilder.AsWrittenMatchesChecked` | haystack/pipelines/ray.py:269-292 | the builder as written and the corrected one agree on every new name that does not refer to itself |
| `Loader.LoadNode` | haystack/pipelines/ray.py:89-107 | one iteration succeeds only for a node with a definition and a registered type, and then the node is in the graph with its inputs and its class's output count; on an empty graph the root, named by the first input, `Query` or `File`, comes first; otherwise the first node stays first |
| `Loader.LoadNodes` | haystack/pipelines/ray.py:88-107 | the rest of the loop succeeds only when every remaining declaration has a definition and a registered type, and keeps the root first; the declared nodes follow in declaration order (`Loader.LoadNodesOrder`) |
| `Loader.Load` | haystack/pipelines/ray.py:88-108 | no declarations give the empty pipeline; a loaded pipeline's root is the first declaration's first input, `Query` or `File`, and every declaration had a definition and a registered type; the nodes are the root and then every declaration in order (`Loader.LoadInOrder`) |
| `Loader.LoadNodeAppends` | haystack/pipelines/ray.py:97-107 | once the root and the first node are in, an iteration on a new name appends exactly that node, keeps the graph valid and adds no other name |
| `Loader.LoadNodesOrder` | haystack/pipelines/ray.py:88-107 | the rest of the loop over new, distinct names keeps the existing nodes in front and appends one node per declaration, in declaration order, with its inputs and output count |
| `Loader.LoadInOrder` | haystack/pipelines/ray.py:88-107 | a definition that declares each name once, and never `Query` or `File`, loads into the root (one output, no inputs) followed by every declared node in declaration order |
| `Loader.RootAndFirstValid` | haystack/pipelines/ray.py:88-107 | the graph after the first declaration is valid and holds just the root and that node |
| `Loader.InvalidRootRejected` | haystack/pipelines/ray.py:89-95 | a first input other than `Query` or `File` fails loading with that name |
| `Loader.RootThenFirstNode` | haystack/pipelines/ray.py:88-107 | loading first adds the root (one output, no inputs), then the first declared node wired from it, then goes on with the other declarations |
| `Loader.AddDeploymentNodes` | haystack/pipelines/ray.py:102-107 | after one builder call the graph holds exactly the old nodes and the new name, with the root still first |
| `Loader.LoadNodeForward` | haystack/pipelines/ray.py:88-107 | one iteration on a new, non-root name that does not name itself keeps the graph valid and acyclic, and adds only that name and the root |
| `Loader.LoadForward` | haystack/pipelines/ray.py:88-107 | a definition that declares each name once and where no node names itself loads into a valid, acyclic graph |
| `Traversal.InitialContext` | haystack/pipelines/ray.py:212-222 | the root's context always holds `root_node` and `params`; each other argument is present exactly when it was supplied non-empty, with its value |
| `Traversal.RunBranches` | haystack/pipelines/ray.py:237-240 | the branches called are a prefix of the list, in order; on success all of them were called |
| `Traversal.RunBranchesReturned` | haystack/pipelines/ray.py:237-240 | on success every branch was called with the same context and the results are theirs, one per branch, in order |
| `Traversal.RunBranchesRaised` | haystack/pipelines/ray.py:237-240 | on failure the first branch that raises decides the error (`NodeFailed` with its message), the branches before it returned, and none after it was called |
| `Traversal.Step` | haystack/pipelines/ray.py:227-246 | one turn invokes the current node first, and moving on always goes to a later node of the graph |
| `Traversal.Traverse` | haystack/pipelines/ray.py:226-248 | the loop invokes the node it starts from first, and never reports a missing root |
| `Traversal.Run` | haystack/pipelines/ray.py:195-248 | the run fails with PipelineError, invoking nothing, exactly when the pipeline has no root; otherwise the root is invoked first |
| `Traversal.RunWithoutRoot` | haystack/pipelines/ray.py:206-208 | running a pipeline without nodes fails with PipelineError before any node is invoked |
| `Traversal.StepFanOut` | haystack/pipelines/ray.py:231-242 | a fan-out fails exactly when the join node's predecessors are not the branches; otherwise, when all branches return, the join node gets `{"inputs": [...]}` with their results in edge order |
| `Traversal.StepRaised` | haystack/pipelines/ray.py:227 | a node whose deployment call raises ends the run with that exception, and nothing else is invoked |
| `Traversal.StepNoJoin` | haystack/pipelines/ray.py:231-232 | a fan-out whose first branch has no successor fails there, with nothing else invoked |
| `Traversal.StepLast` | haystack/pipelines/ray.py:245-246 | a stream with no successor ends the loop with the node's output |
| `Traversal.StepSingleSuccessor` | haystack/pipelines/ray.py:243-244 | a single successor receives the node's output unchanged |
| `Traversal.TraverseEndsAtLastNode` | haystack/pipelines/ray.py:226-248 | a successful run returns the output of the last node it invoked; the traversal reached that node with the context it was invoked with, that turn finished the loop, and the stream it returned has no successor |
| `Ray.RayPipeline.constructor` | haystack/pipelines/ray.py:60-68 | a new pipeline starts with an empty graph |
| `Ray.RayPipeline.AddRayDeploymentInGraph` | haystack/pipelines/ray.py:255-292 | the in-place builder leaves the graph and outcome that `GraphBuilder.AddDeployment` computes, and keeps the graph invariant |
| `Ray.RayPipeline.AddNode` | haystack/pipelines/ray.py:250-253 | `add_node` always fails with its NotImplementedError message and changes nothing |
| `Ray.RayPipeline.LoadFromConfig` | haystack/pipelines/ray.py:88-108 | the loop succeeds exactly when `Loader.Load` does; it returns a new pipeline holding that graph, or that error |
| `Ray.RayPipeline.Run` | haystack/pipelines/ray.py:195-248 | the traversal loop returns the result of `Traversal.Run` and invokes the nodes it lists, in order |
| `Ray.RayPipeline.VisitNode` | haystack/pipelines/ray.py:227-246 | one turn of the loop ends as `Traversal.Step` says: stop, move on, fan out and join, or fail |
| `Ray.RunBranches` | haystack/pipelines/ray.py:238-240 | the branch loop returns what `Traversal.RunBranches` specifies |
| `Ray.RunBranchesStops` | haystack/pipelines/ray.py:238-240 | once a branch raises, the later branches change nothing |
| `ComponentLoading.FindConfig` | haystack/pipelines/ray.py:336 | `next(...)` finds a declaration with the name and none before it has that name, or no declaration has it |
| `ComponentLoading.LoadComponent` | haystack/pipelines/ray.py:334-346 | loading only overwrites references in the configuration. A built instance has the declared name and a registered type. Its parameters are those the declaration now holds, none of them a reference any more. Its id is fresh |
| `ComponentLoading.ResolveParams` | haystack/pipelines/ray.py:339-341 | the parameter loop only overwrites references, and when it completes none of the parameters it visited is a reference |
| `ComponentLoading.LoadSubstitutesReferences` | haystack/pipelines/ray.py:337-345 | the constructor gets every declared parameter in order, under its key. Each reference is replaced by an instance built from the named component's own declaration: it has that name and that declaration's registered type, and it holds that declaration's parameters in order and under their keys, with each of their references replaced by an instance and every other value as declared. Every other value is as declared |
| `ComponentLoading.InstanceOfEarlier` | haystack/pipelines/ray.py:339-341 | an instance built from a declaration as a later load left it is also built from that declaration as it stood before, since loading only overwrites references |
| `ComponentLoading.LoadRejects` | haystack/pipelines/ray.py:336-337 | an exhausted stack, an undeclared name and a declaration without `params` fail, and the configuration is untouched |
| `ComponentLoading.UnregisteredTypeRejected` | haystack/pipelines/ray.py:343-345 | a declaration whose type has no registered class is never built |
| `ComponentLoading.SelfReferenceHitsLimit` | haystack/pipelines/ray.py:339-341 | a component whose first parameter names the component itself is never built: each load starts another, until the recursion limit |
| `ComponentLoading.ResolvedParamsUntouched` | haystack/pipelines/ray.py:339-341 | the loop over parameters with no reference left changes nothing |
| `ComponentLoading.ReloadSharesDependencies` | haystack/pipelines/ray.py:339-345 | loading the same component again constructs one new object, and it gets the instances the first load wrote into the configuration |
| `ComponentLoading.InitWrapper` | haystack/pipelines/ray.py:315-318 | `Query` and `File` get the root stand-in and leave the configuration alone; any other name is loaded, and fails as that load fails |
| `Ray.RayDeploymentWrapper.Init` | haystack/pipelines/ray.py:308-318 | the wrapper's construction leaves the configuration and the wrapped node that `ComponentLoading.InitWrapper` computes, or fails with its error |
| `Ray.RayDeploymentWrapper.LoadFromPipelineConfig` | haystack/pipelines/ray.py:326-346 | the recursive in-place loader leaves the configuration and result that `ComponentLoading.LoadComponent` computes |
| `Ray.RayDeploymentWrapper.ResolveReferences` | haystack/pipelines/ray.py:339-341 | the parameter loop overwrites each reference in the configuration, as `ComponentLoading.ResolveParams` computes |

## Left out

- Ray itself: `ray.init`, `serve.start`, `_create_ray_deployment`, deploying, replicas, handles and
  `ray.get`. A deployment handle is modelled by the name of its node.
- `validate_config`, `get_pipeline_definition`, `get_component_definitions`, YAML reading and
  `load_from_yaml`, which are not part of this model. Their result comes in as the node
  declarations, a map from component name to type name, and the registry of component classes.
- Ray.RayPipeline.Run: components are given as two functions, `invoke` (the deployment call, giving
  an output and a stream, or an exception) and `runBranch` (the direct `run` call on a fan-out
  branch). What components compute is not modelled.
- Ray.RayPipeline.Run: requires an acyclic graph (every edge runs from an earlier node to a later
  one). On a cyclic graph the source can loop forever, and Dafny functions must terminate.
  `Loader.LoadForward` and `GraphBuilder.CheckedKeepsForward` give the graphs that meet this
  requirement.
- Traversal.InitialContext: a `MultiLabel` counts as always truthy. Python truthiness of other
  objects is not modelled.
- GraphBuilder.ResolveInput: for a dotted input the source reads `.outgoing_edges` off the
  producer's deployment handle (ray.py:279). What a handle returns for that attribute is not
  modelled; the model uses the `outgoing_edges` stored with the producer's node instead.
- PyText.ParseInt: only ASCII digits, ASCII whitespace and a sign are modelled. Python's `int()`
  also accepts underscores between digits and other Unicode digits and spaces. A malformed index
  such as `output_x` is an error, like Python's ValueError.
- `Pipeline.get_next_nodes` and `root_node` come from the base `Pipeline` class, which is not part
  of this model. They are modelled as the successors on exactly the stream's label, in edge order,
  and as the first node added.
- ComponentLoading.LoadComponent: `depth` stands in for Python's recursion limit. The real limit
  also counts the frames of the caller and is not a fixed number.
- ComponentLoading.LoadComponent: a constructor that raises, and `BaseComponent.get_subclass`
  and `_create_instance` beyond the registry lookup, are not modelled. An instance records its
  name, type and parameters.
- `_RayDeploymentWrapper.__call__` and the components' `_dispatch_run` are not modelled.
- The `type` key of a component declaration is assumed present; only a missing `params` key is
  modelled as an error.

## Findings

| source | as written | input that shows it | evidently intended | confidence | as-written member | corrected member |
|---|---|---|---|---|---|---|
| haystack/pipelines/ray.py:269-292 | The node is registered before its inputs are resolved, and an existing name is not refused. A node may list itself as an input, or re-declare an earlier name, and the edge this adds closes a cycle. `run` can then revisit nodes without end. | After `Query` and `A` (one output each), declare node `B`, also with one output, and `inputs: [B]`. It is accepted, with the edge `B -> B` on `output_1`. | A declaration should be refused when its name is already taken. Inputs should be resolved only against the nodes declared before it, so that the graph stays acyclic. | medium, not executed | `GraphBuilder.SelfReferenceAccepted` | `GraphBuilder.AddDeploymentChecked` |

/**
 * What `RayPipeline.run` does with a built graph: start at the root with a context holding only
 * the supplied fields, invoke the current node, and follow the edges labelled with the stream it
 * names: stop when there is none, move on when there is one, and fan out to several branches that
 * must all feed one join node, which then receives their results in order.
 */
module Traversal {
  import opened Wrappers
  import opened PipelineGraph

  /** The values a request context can hold. Python objects the engine never looks into are `Object`s. */
  datatype Val =
    | Null
    | Text(s: string)
    | Texts(items: seq<string>)
    | Object(id: nat)
    | Objects(ids: seq<nat>)
    | Dict(entries: map<string, Val>)
    | List(elements: seq<Val>)

  /** The keyword arguments passed to a node. */
  type Context = map<string, Val>

  /** The arguments of `run`: None is an argument left at its default. `labels` is a MultiLabel object. */
  datatype Request = Request(
    query: Option<string>,
    filePaths: Option<seq<string>>,
    labels: Option<nat>,
    documents: Option<seq<nat>>,
    meta: Option<map<string, Val>>,
    params: Option<map<string, Val>>)

  /** The result of invoking a node through its deployment: an output and the stream it chose, or an exception. */
  datatype Invocation = Returned(output: Context, stream: string) | Raised(message: string)

  /** The result of calling `run` on a branch node directly: whatever it returns, or an exception. */
  datatype BranchCall = BranchReturned(result: Val) | BranchRaised(message: string)

  datatype RunError =
    | NoRootNode                          // PipelineError: the pipeline has no nodes
    | NodeFailed(node: string, message: string)  // a node's exception, passed on unchanged
    | NoJoinNode(branch: string)          // the first branch of a fan-out has no successor
    | UnsupportedTopology(join: string)   // the join node's predecessors are not exactly the branches

  /** Python's truth value of an optional argument: present and not empty (a MultiLabel is always true). */
  predicate Supplied<T>(x: Option<seq<T>>)
  {
    x.Some? && |x.value| > 0
  }

  /**
   * The context the root node is invoked with: the root's name and `params` always, and each of
   * the other arguments only when it was supplied and is not empty.
   */
  function InitialContext(root: string, req: Request): (ctx: Context)
    ensures ctx.Keys <= {"root_node", "params", "query", "file_paths", "labels", "documents", "meta"}
    ensures "root_node" in ctx && ctx["root_node"] == Text(root)
    ensures "params" in ctx && ctx["params"] == if req.params.Some? then Dict(req.params.value) else Null
    ensures "query" in ctx <==> Supplied(req.query)
    ensures "query" in ctx ==> ctx["query"] == Text(req.query.value)
    ensures "file_paths" in ctx <==> Supplied(req.filePaths)
    ensures "file_paths" in ctx ==> ctx["file_paths"] == Texts(req.filePaths.value)
    ensures "labels" in ctx <==> req.labels.Some?
    ensures "labels" in ctx ==> ctx["labels"] == Object(req.labels.value)
    ensures "documents" in ctx <==> Supplied(req.documents)
    ensures "documents" in ctx ==> ctx["documents"] == Objects(req.documents.value)
    ensures "meta" in ctx <==> req.meta.Some? && |req.meta.value| > 0
    ensures "meta" in ctx ==> ctx["meta"] == Dict(req.meta.value)
  {
    var base := map["root_node" := Text(root), "params" := if req.params.Some? then Dict(req.params.value) else Null];
    var withQuery := if Supplied(req.query) then base["query" := Text(req.query.value)] else base;
    var withFiles := if Supplied(req.filePaths) then withQuery["file_paths" := Texts(req.filePaths.value)] else withQuery;
    var withLabels := if req.labels.Some? then withFiles["labels" := Object(req.labels.value)] else withFiles;
    var withDocs := if Supplied(req.documents) then withLabels["documents" := Objects(req.documents.value)] else withLabels;
    if req.meta.Some? && |req.meta.value| > 0 then withDocs["meta" := Dict(req.meta.value)] else withDocs
  }

  /**
   * Calling `run` on each branch in order with the same context, collecting the results; the first
   * exception stops the loop. Also gives the branches that were called.
   */
  function RunBranches(branches: seq<string>, input: Context, runBranch: (string, Context) -> BranchCall): (r: (Result<seq<Val>, RunError>, seq<string>))
    ensures |r.1| <= |branches| && r.1 == branches[..|r.1|]
    ensures r.0.Ok? ==> r.1 == branches
    ensures r.0.Err? ==> r.0.error.NodeFailed?
    decreases |branches|
  {
    if |branches| == 0 then (Ok([]), [])
    else
      var n := |branches| - 1;
      var (prefix, called) := RunBranches(branches[..n], input, runBranch);
      assert branches[..n][..|called|] == branches[..|called|];
      assert branches[..n] + [branches[n]] == branches;
      match prefix
      case Err(e) => (Err(e), called)
      case Ok(results) =>
        match runBranch(branches[n], input)
        case BranchRaised(m) => (Err(NodeFailed(branches[n], m)), called + [branches[n]])
        case BranchReturned(v) => (Ok(results + [v]), called + [branches[n]])
  }

  /** When every branch returns, they were all called in order and the results are theirs, in that order. */
  lemma {:induction false} RunBranchesReturned(branches: seq<string>, input: Context, runBranch: (string, Context) -> BranchCall)
    ensures var r := RunBranches(branches, input, runBranch);
      r.0.Ok? ==> (r.1 == branches && |r.0.value| == |branches|
        && forall k :: 0 <= k < |branches| ==> runBranch(branches[k], input) == BranchReturned(r.0.value[k]))
    decreases |branches|
  {
    if |branches| > 0 {
      var n := |branches| - 1;
      RunBranchesReturned(branches[..n], input, runBranch);
      var r := RunBranches(branches, input, runBranch);
      if r.0.Ok? {
        var (prefix, called) := RunBranches(branches[..n], input, runBranch);
        assert prefix.Ok?;
        forall k | 0 <= k < |branches|
          ensures runBranch(branches[k], input) == BranchReturned(r.0.value[k])
        {
          if k < n {
            assert branches[..n][k] == branches[k];
          }
        }
      }
    }
  }

  /**
   * When a branch raises, it is the first that does: the branches before it returned, it decides
   * the error, and no branch after it is called.
   */
  lemma {:induction false} RunBranchesRaised(branches: seq<string>, input: Context, runBranch: (string, Context) -> BranchCall)
    returns (k: nat)
    ensures var r := RunBranches(branches, input, runBranch);
      r.0.Err? ==> (k < |branches| && r.1 == branches[..k + 1]
        && runBranch(branches[k], input).BranchRaised?
        && r.0.error == NodeFailed(branches[k], runBranch(branches[k], input).message)
        && forall j :: 0 <= j < k ==> runBranch(branches[j], input).BranchReturned?)
    decreases |branches|
  {
    k := 0;
    if |branches| > 0 {
      var n := |branches| - 1;
      var (prefix, called) := RunBranches(branches[..n], input, runBranch);
      if prefix.Err? {
        k := RunBranchesRaised(branches[..n], input, runBranch);
        RaisedInPrefix(branches, n, k, input, runBranch);
      } else {
        RunBranchesReturned(branches[..n], input, runBranch);
        k := n;
        RaisedAtLast(branches, branches[..n], input, runBranch);
      }
    }
  }

  lemma RaisedInPrefix(branches: seq<string>, n: nat, k: nat, input: Context, runBranch: (string, Context) -> BranchCall)
    requires n == |branches| - 1
    requires var r := RunBranches(branches[..n], input, runBranch);
      r.0.Err? && k < n && r.1 == branches[..n][..k + 1]
      && runBranch(branches[..n][k], input).BranchRaised?
      && r.0.error == NodeFailed(branches[..n][k], runBranch(branches[..n][k], input).message)
      && forall j :: 0 <= j < k ==> runBranch(branches[..n][j], input).BranchReturned?
    ensures var r := RunBranches(branches, input, runBranch);
      r.0.Err? && k < |branches| && r.1 == branches[..k + 1]
      && runBranch(branches[k], input).BranchRaised?
      && r.0.error == NodeFailed(branches[k], runBranch(branches[k], input).message)
      && forall j :: 0 <= j < k ==> runBranch(branches[j], input).BranchReturned?
  {
    assert branches[..n][k] == branches[k];
    assert branches[..n][..k + 1] == branches[..k + 1];
    forall j | 0 <= j < k
      ensures runBranch(branches[j], input).BranchReturned?
    {
      assert branches[..n][j] == branches[j];
    }
  }

  lemma RaisedAtLast(branches: seq<string>, init: seq<string>, input: Context, runBranch: (string, Context) -> BranchCall)
    requires |branches| > 0 && init == branches[..|branches| - 1]
    requires RunBranches(init, input, runBranch).0.Ok?
    requires forall k :: 0 <= k < |init| ==> runBranch(init[k], input).BranchReturned?
    ensures var n := |branches| - 1;
      var r := RunBranches(branches, input, runBranch);
      r.0.Err? ==> (r.1 == branches[..n + 1]
        && runBranch(branches[n], input).BranchRaised?
        && r.0.error == NodeFailed(branches[n], runBranch(branches[n], input).message)
        && forall j :: 0 <= j < n ==> runBranch(branches[j], input).BranchReturned?)
  {
    var n := |branches| - 1;
    assert branches[..n + 1] == branches;
    PrefixReturned(branches, init, input, runBranch);
  }

  lemma PrefixReturned(branches: seq<string>, init: seq<string>, input: Context, runBranch: (string, Context) -> BranchCall)
    requires |branches| > 0 && init == branches[..|branches| - 1]
    requires forall k :: 0 <= k < |init| ==> runBranch(init[k], input).BranchReturned?
    ensures forall j :: 0 <= j < |branches| - 1 ==> runBranch(branches[j], input).BranchReturned?
  {
    forall j | 0 <= j < |branches| - 1
      ensures runBranch(branches[j], input).BranchReturned?
    {
      assert init[j] == branches[j];
    }
  }

  /** Where one turn of the loop leaves the traversal. */
  datatype StepResult = Finished(output: Context) | MoveTo(node: string, input: Context) | Failed(error: RunError)

  function AsSet(s: seq<string>): set<string>
  {
    set v | v in s
  }

  /** One turn of the `while has_next_node` loop at `current`, with the nodes it invoked in order. */
  function Step(g: Graph, current: string, input: Context,
                invoke: (string, Context) -> Invocation, runBranch: (string, Context) -> BranchCall): (r: (StepResult, seq<string>))
    requires Forward(g)
    ensures |r.1| > 0 && r.1[0] == current
    ensures r.0.MoveTo? ==> HasNode(g, current) && HasNode(g, r.0.node) && Rank(g, current) < Rank(g, r.0.node)
  {
    match invoke(current, input)
    case Raised(m) => (Failed(NodeFailed(current, m)), [current])
    case Returned(output, stream) =>
      var next := Successors(g.edges, current, stream);
      if |next| > 1 then
        var after := Neighbors(g.edges, next[0]);
        if |after| == 0 then (Failed(NoJoinNode(next[0])), [current])
        else
          var join := after[0];
          assert Edge(current, next[0], stream) in g.edges;
          assert HasNode(g, join) && Rank(g, next[0]) < Rank(g, join) by {
            assert join in after;
            var j :| 0 <= j < |g.edges| && g.edges[j].src == next[0] && g.edges[j].dst == join;
            assert g.edges[j] in g.edges;
          }
          if Predecessors(g.edges, join) != AsSet(next) then (Failed(UnsupportedTopology(join)), [current])
          else
            var (results, called) := RunBranches(next, output, runBranch);
            match results
            case Err(e) => (Failed(e), [current] + called)
            case Ok(outs) => (MoveTo(join, map["inputs" := List(outs)]), [current] + called)
      else if |next| == 1 then
        assert Edge(current, next[0], stream) in g.edges;
        (MoveTo(next[0], output), [current])
      else (Finished(output), [current])
  }

  /** The loop from `current` on, with every node it invoked, in order. */
  function Traverse(g: Graph, current: string, input: Context,
                    invoke: (string, Context) -> Invocation, runBranch: (string, Context) -> BranchCall): (r: (Result<Context, RunError>, seq<string>))
    requires Forward(g) && HasNode(g, current)
    ensures |r.1| > 0 && r.1[0] == current
    ensures r.0 != Err(NoRootNode)
    decreases |g.nodes| - Rank(g, current)
  {
    match Step(g, current, input, invoke, runBranch)
    case (Finished(output), called) => (Ok(output), called)
    case (Failed(e), called) => (Err(e), called)
    case (MoveTo(next, ctx), called) =>
      var (r, rest) := Traverse(g, next, ctx, invoke, runBranch);
      (r, called + rest)
  }

  /**
   * `run(query, file_paths, labels, documents, meta, params)` on an acyclic graph: the result
   * (the last node's output, or the error) and the nodes invoked.
   */
  function Run(g: Graph, req: Request,
               invoke: (string, Context) -> Invocation, runBranch: (string, Context) -> BranchCall): (r: (Result<Context, RunError>, seq<string>))
    requires Forward(g)
    ensures r.0 == Err(NoRootNode) <==> |g.nodes| == 0 || g.nodes[0].name == ""
    ensures r.0 == Err(NoRootNode) ==> r.1 == []
    ensures r.0 != Err(NoRootNode) ==> |r.1| > 0 && r.1[0] == g.nodes[0].name
  {
    match RootNode(g)
    case None => (Err(NoRootNode), [])
    case Some(root) =>
      if root == "" then (Err(NoRootNode), [])
      else Traverse(g, root, InitialContext(root, req), invoke, runBranch)
  }

  /** A pipeline without nodes fails with PipelineError before any node is invoked. */
  lemma RunWithoutRoot(g: Graph, req: Request,
                       invoke: (string, Context) -> Invocation, runBranch: (string, Context) -> BranchCall)
    requires Forward(g) && |g.nodes| == 0
    ensures Run(g, req, invoke, runBranch) == (Err(NoRootNode), [])
  {
  }

  /**
   * A fan-out whose first branch leads to `join`: it fails unless the join node's predecessors
   * are exactly the branches; otherwise, when every branch returns, the branches are invoked in
   * edge order, the join node receives exactly `{"inputs": [result_1, ..., result_n]}` in that
   * order, and the traversal continues there.
   */
  lemma StepFanOut(g: Graph, current: string, input: Context,
                   invoke: (string, Context) -> Invocation, runBranch: (string, Context) -> BranchCall)
    requires Forward(g) && invoke(current, input).Returned?
    requires var next := Successors(g.edges, current, invoke(current, input).stream);
      |next| > 1 && |Neighbors(g.edges, next[0])| > 0
    ensures var out := invoke(current, input).output;
      var next := Successors(g.edges, current, invoke(current, input).stream);
      var join := Neighbors(g.edges, next[0])[0];
      var step := Step(g, current, input, invoke, runBranch);
      && (Predecessors(g.edges, join) != AsSet(next) <==> step.0 == Failed(UnsupportedTopology(join)))
      && (Predecessors(g.edges, join) == AsSet(next) && (forall k :: 0 <= k < |next| ==> runBranch(next[k], out).BranchReturned?) ==>
            step == (MoveTo(join, map["inputs" := List(seq(|next|, k requires 0 <= k < |next| => runBranch(next[k], out).result))]),
                     [current] + next))
  {
    var out := invoke(current, input).output;
    var next := Successors(g.edges, current, invoke(current, input).stream);
    var join := Neighbors(g.edges, next[0])[0];
    var (results, called) := RunBranches(next, out, runBranch);
    RunBranchesReturned(next, out, runBranch);
    var raised := RunBranchesRaised(next, out, runBranch);
    if Predecessors(g.edges, join) == AsSet(next) && forall k :: 0 <= k < |next| ==> runBranch(next[k], out).BranchReturned? {
      var outs := seq(|next|, k requires 0 <= k < |next| => runBranch(next[k], out).result);
      assert results.value == outs;
      assert Step(g, current, input, invoke, runBranch) == (MoveTo(join, map["inputs" := List(results.value)]), [current] + called);
    }
  }

  /** A stream with exactly one successor moves there with the node's output unchanged. */
  lemma StepSingleSuccessor(g: Graph, current: string, input: Context,
                            invoke: (string, Context) -> Invocation, runBranch: (string, Context) -> BranchCall)
    requires Forward(g) && invoke(current, input).Returned?
    requires |Successors(g.edges, current, invoke(current, input).stream)| == 1
    ensures Step(g, current, input, invoke, runBranch)
      == (MoveTo(Successors(g.edges, current, invoke(current, input).stream)[0], invoke(current, input).output), [current])
  {
  }

  /** A node whose deployment call raises ends the run with its exception, and nothing else is invoked. */
  lemma StepRaised(g: Graph, current: string, input: Context,
                   invoke: (string, Context) -> Invocation, runBranch: (string, Context) -> BranchCall)
    requires Forward(g) && invoke(current, input).Raised?
    ensures Step(g, current, input, invoke, runBranch)
      == (Failed(NodeFailed(current, invoke(current, input).message)), [current])
  {
  }

  /** A fan-out whose first branch has no successor has no join node: `[0]` of an empty list fails. */
  lemma StepNoJoin(g: Graph, current: string, input: Context,
                   invoke: (string, Context) -> Invocation, runBranch: (string, Context) -> BranchCall)
    requires Forward(g) && invoke(current, input).Returned?
    requires var next := Successors(g.edges, current, invoke(current, input).stream);
      |next| > 1 && |Neighbors(g.edges, next[0])| == 0
    ensures Step(g, current, input, invoke, runBranch)
      == (Failed(NoJoinNode(Successors(g.edges, current, invoke(current, input).stream)[0])), [current])
  {
  }

  /** A stream with no successor ends the loop with the node's output. */
  lemma StepLast(g: Graph, current: string, input: Context,
                 invoke: (string, Context) -> Invocation, runBranch: (string, Context) -> BranchCall)
    requires Forward(g) && invoke(current, input).Returned?
    requires |Successors(g.edges, current, invoke(current, input).stream)| == 0
    ensures Step(g, current, input, invoke, runBranch) == (Finished(invoke(current, input).output), [current])
  {
  }

  /** Some turn of the traversal from `current` with `input` invokes `node` with `ctx`. */
  predicate Reaches(g: Graph, current: string, input: Context, node: string, ctx: Context,
                    invoke: (string, Context) -> Invocation, runBranch: (string, Context) -> BranchCall)
    requires Forward(g) && HasNode(g, current)
    decreases |g.nodes| - Rank(g, current)
  {
    || (current == node && input == ctx)
    || (var step := Step(g, current, input, invoke, runBranch).0;
        step.MoveTo? && Reaches(g, step.node, step.input, node, ctx, invoke, runBranch))
  }

  /**
   * A successful run ends at the node it invoked last, whose chosen stream has no successor, and
   * returns exactly that node's output; `ctx` is the context the traversal invoked that node with,
   * and that turn is the one that finished the loop.
   */
  lemma {:induction false} TraverseEndsAtLastNode(g: Graph, current: string, input: Context,
                                                invoke: (string, Context) -> Invocation, runBranch: (string, Context) -> BranchCall)
    returns (ctx: Context)
    requires Forward(g) && HasNode(g, current)
    ensures var (r, called) := Traverse(g, current, input, invoke, runBranch);
      r.Ok? ==> (|called| > 0 && invoke(called[|called| - 1], ctx).Returned?
        && invoke(called[|called| - 1], ctx).output == r.value
        && Successors(g.edges, called[|called| - 1], invoke(called[|called| - 1], ctx).stream) == []
        && Reaches(g, current, input, called[|called| - 1], ctx, invoke, runBranch)
        && Step(g, called[|called| - 1], ctx, invoke, runBranch).0 == Finished(r.value))
    decreases |g.nodes| - Rank(g, current)
  {
    match Step(g, current, input, invoke, runBranch)
    case (Finished(output), called) =>
      assert invoke(current, input).Returned?;
      assert called == [current];
      ctx := input;
    case (Failed(e), called) =>
      ctx := input;
    case (MoveTo(next, nextInput), called) =>
      ctx := TraverseEndsAtLastNode(g, next, nextInput, invoke, runBranch);
      var (r, rest) := Traverse(g, next, nextInput, invoke, runBranch);
      if r.Ok? {
        assert (called + rest)[|called + rest| - 1] == rest[|rest| - 1];
      }
  }
}

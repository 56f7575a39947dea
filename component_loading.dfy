/**
 * `_RayDeploymentWrapper.load_from_pipeline_config`: build a component from the `components`
 * section of the pipeline configuration, first replacing, one parameter at a time and in the
 * configuration itself, every parameter whose value is the name of a declared component with a
 * freshly built instance of that component.
 */
module ComponentLoading {
  import opened Wrappers
  import Loader

  /** A parameter value: a string, any other configuration value, or a component instance put there by loading. */
  datatype Value = Text(s: string) | Literal(repr: string) | Built(instance: Instance)

  /** A component instance; `id` tells apart the objects that were constructed. */
  datatype Instance = Instance(id: nat, name: string, kind: string, params: seq<Param>)

  datatype Param = Param(key: string, value: Value)

  /** One entry of `components`: its `name`, `type`, and `params` when the key is present. */
  datatype ComponentConfig = ComponentConfig(name: string, kind: string, params: Option<seq<Param>>)

  /** The `components` section as loading leaves it, and the number of instances constructed so far. */
  datatype Store = Store(configs: seq<ComponentConfig>, nextId: nat)

  datatype ComponentError =
    | MissingDeclaration(name: string)     // no component has that name: StopIteration
    | MissingParams(name: string)          // the component has no `params`: KeyError
    | UnknownComponentType(kind: string)   // no component class is registered under the type
    | RecursionLimit                       // RecursionError: the references do not bottom out

  /** `[comp["name"] for comp in components]`. */
  function Names(configs: seq<ComponentConfig>): (names: seq<string>)
    ensures |names| == |configs| && forall i :: 0 <= i < |configs| ==> names[i] == configs[i].name
  {
    seq(|configs|, i requires 0 <= i < |configs| => configs[i].name)
  }

  /** The first component called `name`, as `next(...)` finds it. */
  function FindConfig(configs: seq<ComponentConfig>, name: string): (r: Option<nat>)
    ensures r.Some? ==> r.value < |configs| && configs[r.value].name == name
    ensures r.Some? ==> forall j :: 0 <= j < r.value ==> configs[j].name != name
    ensures r.None? ==> name !in Names(configs)
    decreases |configs|
  {
    if |configs| == 0 then None
    else if configs[0].name == name then Some(0)
    else
      match FindConfig(configs[1..], name)
      case None => None
      case Some(i) => Some(i + 1)
  }

  /** The value names a declared component and so is to be replaced by an instance of it. */
  predicate IsReference(names: seq<string>, v: Value)
  {
    v.Text? && v.s in names
  }

  /**
   * `inst` is an instance of the component declared as `name` in `configs`: it has that name and
   * the declared type, the type is registered, and it was built from the declared parameters, in
   * order and under their keys, with each reference replaced by an instance and every other value
   * as declared.
   */
  predicate InstanceOf(configs: seq<ComponentConfig>, registry: set<string>, name: string, inst: Instance)
  {
    && inst.name == name
    && FindConfig(configs, name).Some?
    && var c := configs[FindConfig(configs, name).value];
    && inst.kind == c.kind
    && inst.kind in registry
    && c.params.Some?
    && |inst.params| == |c.params.value|
    && forall k :: 0 <= k < |inst.params| ==>
         && inst.params[k].key == c.params.value[k].key
         && if IsReference(Names(configs), c.params.value[k].value) then inst.params[k].value.Built?
            else inst.params[k].value == c.params.value[k].value
  }

  /** What loading may do to a parameter value: leave it, or replace a reference by an instance of the named component. */
  predicate Refines(configs: seq<ComponentConfig>, registry: set<string>, before: Value, after: Value)
  {
    after == before
    || (IsReference(Names(configs), before) && after.Built? && InstanceOf(configs, registry, before.s, after.instance))
  }

  /** Loading only ever overwrites parameter values that are references; the rest of the configuration stays. */
  predicate Evolves(a: Store, b: Store, registry: set<string>)
  {
    && |a.configs| == |b.configs|
    && a.nextId <= b.nextId
    && forall i :: 0 <= i < |a.configs| ==>
         && a.configs[i].name == b.configs[i].name
         && a.configs[i].kind == b.configs[i].kind
         && a.configs[i].params.Some? == b.configs[i].params.Some?
         && (a.configs[i].params.Some? ==>
               && |a.configs[i].params.value| == |b.configs[i].params.value|
               && forall k :: 0 <= k < |a.configs[i].params.value| ==>
                    && a.configs[i].params.value[k].key == b.configs[i].params.value[k].key
                    && Refines(a.configs, registry, a.configs[i].params.value[k].value, b.configs[i].params.value[k].value))
  }

  lemma EvolvesNames(a: Store, b: Store, registry: set<string>)
    requires Evolves(a, b, registry)
    ensures Names(a.configs) == Names(b.configs)
  {
  }

  /** An instance of a component as a later configuration declares it is one as the earlier configuration declares it. */
  lemma InstanceOfEarlier(a: Store, b: Store, registry: set<string>, name: string, inst: Instance)
    requires Evolves(a, b, registry)
    requires InstanceOf(b.configs, registry, name, inst)
    ensures InstanceOf(a.configs, registry, name, inst)
  {
    EvolvesNames(a, b, registry);
    FindConfigSameNames(a.configs, b.configs, name);
    var j := FindConfig(a.configs, name).value;
    var pa, pb := a.configs[j].params.value, b.configs[j].params.value;
    forall k | 0 <= k < |inst.params|
      ensures if IsReference(Names(a.configs), pa[k].value) then inst.params[k].value.Built?
              else inst.params[k].value == pa[k].value
    {
      assert Refines(a.configs, registry, pa[k].value, pb[k].value);
    }
  }

  lemma EvolvesTransitive(a: Store, b: Store, c: Store, registry: set<string>)
    requires Evolves(a, b, registry) && Evolves(b, c, registry)
    ensures Evolves(a, c, registry)
  {
    EvolvesNames(a, b, registry);
    forall i, k | 0 <= i < |a.configs| && a.configs[i].params.Some? && 0 <= k < |a.configs[i].params.value|
      ensures Refines(a.configs, registry, a.configs[i].params.value[k].value, c.configs[i].params.value[k].value)
    {
      var x, y, z := a.configs[i].params.value[k].value, b.configs[i].params.value[k].value, c.configs[i].params.value[k].value;
      assert Refines(b.configs, registry, y, z);
      if y == x && z != y {
        InstanceOfEarlier(a, b, registry, x.s, z.instance);
      }
    }
  }

  /** `component_params[key] = value` for the `k`-th parameter of the `i`-th component. */
  function SetParam(st: Store, i: nat, k: nat, v: Value): Store
    requires i < |st.configs| && st.configs[i].params.Some? && k < |st.configs[i].params.value|
  {
    var ps := st.configs[i].params.value;
    st.(configs := st.configs[i := st.configs[i].(params := Some(ps[k := Param(ps[k].key, v)]))])
  }

  /** Overwriting a reference of the original configuration with an instance of the named component keeps `Evolves`. */
  lemma SetParamEvolves(st0: Store, st: Store, i: nat, k: nat, v: Value, registry: set<string>)
    requires Evolves(st0, st, registry)
    requires i < |st.configs| && st.configs[i].params.Some? && k < |st.configs[i].params.value|
    requires Refines(st0.configs, registry, st0.configs[i].params.value[k].value, v)
    ensures Evolves(st0, SetParam(st, i, k, v), registry)
  {
    var st2 := SetParam(st, i, k, v);
    forall j | 0 <= j < |st.configs|
      ensures st.configs[j].name == st2.configs[j].name
    {
    }
  }

  /** One turn of the parameter loop that meets a reference and loads it: the loop goes on from the overwritten configuration. */
  lemma ResolveReferenceStep(st: Store, i: nat, k: nat, depth: nat, registry: set<string>, st1: Store, inst: Instance)
    requires i < |st.configs| && st.configs[i].params.Some? && k < |st.configs[i].params.value|
    requires IsReference(Names(st.configs), st.configs[i].params.value[k].value)
    requires LoadComponent(st, st.configs[i].params.value[k].value.s, depth, registry) == (st1, Ok(inst))
    ensures i < |st1.configs| && st1.configs[i].params.Some? && k < |st1.configs[i].params.value|
    ensures |st1.configs| == |st.configs| && |st1.configs[i].params.value| == |st.configs[i].params.value|
    ensures Names(SetParam(st1, i, k, Built(inst)).configs) == Names(st.configs)
    ensures ResolveParams(st, i, k, depth, registry) == ResolveParams(SetParam(st1, i, k, Built(inst)), i, k + 1, depth, registry)
  {
    EvolvesNames(st, st1, registry);
    SetParamNames(st1, i, k, Built(inst));
  }

  lemma SetParamNames(st: Store, i: nat, k: nat, v: Value)
    requires i < |st.configs| && st.configs[i].params.Some? && k < |st.configs[i].params.value|
    ensures Names(SetParam(st, i, k, v).configs) == Names(st.configs)
  {
    var st2 := SetParam(st, i, k, v);
    forall j | 0 <= j < |st.configs|
      ensures st.configs[j].name == st2.configs[j].name
    {
    }
  }

  /** How a load ends once the parameter loop has run, from the state the loop left. */
  lemma LoadAfterLoop(st0: Store, name: string, depth: nat, registry: set<string>, st: Store, o: Outcome<ComponentError>)
    requires depth > 0 && FindConfig(st0.configs, name).Some?
    requires st0.configs[FindConfig(st0.configs, name).value].params.Some?
    requires ResolveParams(st0, FindConfig(st0.configs, name).value, 0, depth - 1, registry) == (st, o)
    ensures o.Fail? ==> LoadComponent(st0, name, depth, registry) == (st, Err(o.error))
    ensures o.Pass? ==>
      var c := st.configs[FindConfig(st0.configs, name).value];
      LoadComponent(st0, name, depth, registry) ==
        if c.kind !in registry then (st, Err(UnknownComponentType(c.kind)))
        else (st.(nextId := st.nextId + 1), Ok(Instance(st.nextId, name, c.kind, c.params.value)))
  {
  }

  /** A parameter as loading leaves it: a reference becomes an instance of the named component, anything else stays. */
  predicate Substituted(configs: seq<ComponentConfig>, registry: set<string>, before: Param, after: Param)
  {
    after.key == before.key
    && if IsReference(Names(configs), before.value) then
         after.value.Built? && InstanceOf(configs, registry, before.value.s, after.value.instance)
       else after.value == before.value
  }

  /**
   * Loads the component called `name` with at most `depth` nested calls left before Python's
   * recursion limit. `registry` holds the type names that have a component class.
   */
  function LoadComponent(st: Store, name: string, depth: nat, registry: set<string>): (r: (Store, Result<Instance, ComponentError>))
    ensures Evolves(st, r.0, registry)
    ensures r.1.Ok? ==> FindConfig(st.configs, name).Some?
    ensures r.1.Ok? ==>
      var i := FindConfig(st.configs, name).value;
      var inst := r.1.value;
      && st.configs[i].params.Some?
      && inst.name == name && inst.kind == st.configs[i].kind && inst.kind in registry
      && r.0.configs[i].params == Some(inst.params)
      && (forall k :: 0 <= k < |inst.params| ==> !IsReference(Names(st.configs), inst.params[k].value))
      && st.nextId <= inst.id && r.0.nextId == inst.id + 1
    decreases depth, 0, 0
  {
    if depth == 0 then (st, Err(RecursionLimit))
    else
      match FindConfig(st.configs, name)
      case None => (st, Err(MissingDeclaration(name)))
      case Some(i) =>
        if st.configs[i].params.None? then (st, Err(MissingParams(name)))
        else
          var (st1, o) := ResolveParams(st, i, 0, depth - 1, registry);
          match o
          case Fail(e) => (st1, Err(e))
          case Pass =>
            EvolvesNames(st, st1, registry);
            var c := st1.configs[i];
            if c.kind !in registry then (st1, Err(UnknownComponentType(c.kind)))
            else
              var inst := Instance(st1.nextId, name, c.kind, c.params.value);
              var st2 := st1.(nextId := st1.nextId + 1);
              EvolvesTransitive(st, st1, st2, registry);
              (st2, Ok(inst))
  }

  /**
   * The loop `for key, value in component_params.items()` of the `i`-th component from its
   * `k`-th parameter on: each value that names a declared component is replaced in place by a
   * loaded instance of it. The value is read when the loop reaches it.
   */
  function ResolveParams(st: Store, i: nat, k: nat, depth: nat, registry: set<string>): (r: (Store, Outcome<ComponentError>))
    requires i < |st.configs| && st.configs[i].params.Some? && k <= |st.configs[i].params.value|
    ensures Evolves(st, r.0, registry)
    ensures r.1.Pass? ==> forall j :: k <= j < |r.0.configs[i].params.value| ==>
      !IsReference(Names(st.configs), r.0.configs[i].params.value[j].value)
    decreases depth, 1, |st.configs[i].params.value| - k
  {
    var ps := st.configs[i].params.value;
    if k == |ps| then (st, Pass)
    else if IsReference(Names(st.configs), ps[k].value) then
      var (st1, loaded) := LoadComponent(st, ps[k].value.s, depth, registry);
      match loaded
      case Err(e) => (st1, Fail(e))
      case Ok(inst) =>
        EvolvesNames(st, st1, registry);
        assert InstanceOf(st.configs, registry, ps[k].value.s, inst);
        var st2 := SetParam(st1, i, k, Built(inst));
        SetParamEvolves(st, st1, i, k, Built(inst), registry);
        var (st3, o) := ResolveParams(st2, i, k + 1, depth, registry);
        EvolvesTransitive(st, st2, st3, registry);
        (st3, o)
    else
      var (st1, o) := ResolveParams(st, i, k + 1, depth, registry);
      (st1, o)
  }

  /**
   * A successful load hands the constructor every parameter of the declaration, in order and
   * under its key, with each reference to a declared component replaced by an instance of that
   * component and every other value as it was declared; the declaration now holds the same.
   */
  lemma LoadSubstitutesReferences(st: Store, name: string, depth: nat, registry: set<string>)
    requires LoadComponent(st, name, depth, registry).1.Ok?
    ensures FindConfig(st.configs, name).Some?
    ensures
      var i := FindConfig(st.configs, name).value;
      var inst := LoadComponent(st, name, depth, registry).1.value;
      && st.configs[i].params.Some?
      && |inst.params| == |st.configs[i].params.value|
      && forall k :: 0 <= k < |inst.params| ==>
           Substituted(st.configs, registry, st.configs[i].params.value[k], inst.params[k])
  {
    var r := LoadComponent(st, name, depth, registry);
    var i := FindConfig(st.configs, name).value;
    assert r.0.configs[i].params == Some(r.1.value.params);
  }

  /** The three ways a load fails before any parameter is looked at. */
  lemma LoadRejects(st: Store, name: string, depth: nat, registry: set<string>)
    ensures depth == 0 ==> LoadComponent(st, name, depth, registry) == (st, Err(RecursionLimit))
    ensures depth > 0 && name !in Names(st.configs) ==>
      LoadComponent(st, name, depth, registry) == (st, Err(MissingDeclaration(name)))
    ensures depth > 0 && FindConfig(st.configs, name).Some? && st.configs[FindConfig(st.configs, name).value].params.None? ==>
      LoadComponent(st, name, depth, registry) == (st, Err(MissingParams(name)))
  {
    if depth > 0 && name !in Names(st.configs) {
      assert FindConfig(st.configs, name).None?;
    }
  }

  /** A component that is not registered is never constructed: loading it fails with its type named. */
  lemma UnregisteredTypeRejected(st: Store, name: string, depth: nat, registry: set<string>)
    requires FindConfig(st.configs, name).Some?
    requires st.configs[FindConfig(st.configs, name).value].kind !in registry
    ensures LoadComponent(st, name, depth, registry).1.Err?
  {
  }

  /**
   * A component whose first parameter names the component itself is never built, however deep
   * the stack: every load of it starts by loading it again, until the recursion limit is hit.
   */
  lemma {:induction false} SelfReferenceHitsLimit(st: Store, name: string, depth: nat, registry: set<string>)
    requires FindConfig(st.configs, name).Some?
    requires
      var c := st.configs[FindConfig(st.configs, name).value];
      c.params.Some? && |c.params.value| > 0 && c.params.value[0].value == Text(name)
    ensures LoadComponent(st, name, depth, registry).1 == Err(RecursionLimit)
  {
    if depth > 0 {
      var lower: nat := depth - 1;
      SelfReferenceHitsLimit(st, name, lower, registry);
      SelfReferenceStep(st, FindConfig(st.configs, name).value, name, lower, registry);
    }
  }

  /** One more level of the self-reference: a load that fails one level down fails here too. */
  lemma SelfReferenceStep(st: Store, i: nat, name: string, depth: nat, registry: set<string>)
    requires FindConfig(st.configs, name) == Some(i)
    requires st.configs[i].params.Some? && |st.configs[i].params.value| > 0
    requires st.configs[i].params.value[0].value == Text(name)
    requires LoadComponent(st, name, depth, registry).1 == Err(RecursionLimit)
    ensures LoadComponent(st, name, depth + 1, registry).1 == Err(RecursionLimit)
  {
    FirstReferenceFails(st, i, name, depth, registry);
    ParamFailureFailsLoad(st, name, i, depth + 1, registry, RecursionLimit);
  }

  /** A failing load of the first parameter's reference fails the whole parameter loop with it. */
  lemma FirstReferenceFails(st: Store, i: nat, ref: string, depth: nat, registry: set<string>)
    requires i < |st.configs| && st.configs[i].params.Some? && |st.configs[i].params.value| > 0
    requires st.configs[i].params.value[0].value == Text(ref) && st.configs[i].name == ref
    requires LoadComponent(st, ref, depth, registry).1.Err?
    ensures ResolveParams(st, i, 0, depth, registry).1 == Fail(LoadComponent(st, ref, depth, registry).1.error)
  {
    assert IsReference(Names(st.configs), Text(ref)) by {
      assert Names(st.configs)[i] == ref;
    }
  }

  /** A failing parameter loop fails the load with the same error. */
  lemma ParamFailureFailsLoad(st: Store, name: string, i: nat, depth: nat, registry: set<string>, e: ComponentError)
    requires depth > 0 && FindConfig(st.configs, name) == Some(i)
    requires st.configs[i].params.Some?
    requires ResolveParams(st, i, 0, depth - 1, registry).1 == Fail(e)
    ensures LoadComponent(st, name, depth, registry).1 == Err(e)
  {
  }

  /** No parameter of the `i`-th declaration is a reference any more. */
  predicate FullyResolved(st: Store, i: nat)
    requires i < |st.configs| && st.configs[i].params.Some?
  {
    forall k :: 0 <= k < |st.configs[i].params.value| ==> !IsReference(Names(st.configs), st.configs[i].params.value[k].value)
  }

  lemma {:induction false} ResolvedParamsUntouched(st: Store, i: nat, k: nat, depth: nat, registry: set<string>)
    requires i < |st.configs| && st.configs[i].params.Some? && k <= |st.configs[i].params.value|
    requires FullyResolved(st, i)
    ensures ResolveParams(st, i, k, depth, registry) == (st, Pass)
    decreases |st.configs[i].params.value| - k
  {
    if k < |st.configs[i].params.value| {
      ResolvedParamsUntouched(st, i, k + 1, depth, registry);
    }
  }

  /**
   * Loading a component again, once a first load has overwritten its references in the
   * configuration, builds only one new object: the new instance gets the very instances the first
   * load created for its references, rather than fresh ones.
   */
  lemma ReloadSharesDependencies(st: Store, name: string, depth: nat, registry: set<string>)
    requires LoadComponent(st, name, depth, registry).1.Ok?
    ensures
      var (st1, first) := LoadComponent(st, name, depth, registry);
      var (st2, second) := LoadComponent(st1, name, depth, registry);
      && st2 == st1.(nextId := st1.nextId + 1)
      && second == Ok(first.value.(id := st1.nextId))
  {
    var (st1, first) := LoadComponent(st, name, depth, registry);
    var i := FindConfig(st.configs, name).value;
    EvolvesNames(st, st1, registry);
    assert FindConfig(st1.configs, name) == Some(i) by {
      FindConfigSameNames(st.configs, st1.configs, name);
    }
    assert FullyResolved(st1, i);
    ResolvedParamsUntouched(st1, i, 0, depth - 1, registry);
  }

  lemma {:induction false} FindConfigSameNames(a: seq<ComponentConfig>, b: seq<ComponentConfig>, name: string)
    requires Names(a) == Names(b)
    ensures FindConfig(a, name) == FindConfig(b, name)
    decreases |a|
  {
    if |a| > 0 {
      assert Names(a[1..]) == Names(b[1..]) by {
        assert |Names(a[1..])| == |Names(b[1..])|;
        forall j | 0 <= j < |a| - 1
          ensures Names(a[1..])[j] == Names(b[1..])[j]
        {
          assert Names(a)[j + 1] == Names(b)[j + 1];
        }
      }
      assert a[0].name == Names(a)[0] == Names(b)[0] == b[0].name;
      FindConfigSameNames(a[1..], b[1..], name);
    }
  }

  /** What a deployment wraps: the stand-in for the `Query` or `File` root, or a loaded component. */
  datatype Deployed = RootStandIn | Component(instance: Instance)

  /** `_RayDeploymentWrapper.__init__`: the roots get a stand-in, anything else is loaded from the configuration. */
  function InitWrapper(st: Store, name: string, depth: nat, registry: set<string>): (r: (Store, Result<Deployed, ComponentError>))
    ensures Loader.IsRootName(name) ==> r == (st, Ok(RootStandIn))
    ensures !Loader.IsRootName(name) ==>
      var (st1, loaded) := LoadComponent(st, name, depth, registry);
      && r.0 == st1
      && (loaded.Ok? <==> r.1.Ok?)
      && (loaded.Ok? ==> r.1.value == Component(loaded.value))
      && (loaded.Err? ==> r.1.error == loaded.error)
  {
    if Loader.IsRootName(name) then (st, Ok(RootStandIn))
    else
      var (st1, loaded) := LoadComponent(st, name, depth, registry);
      match loaded
      case Ok(inst) => (st1, Ok(Component(inst)))
      case Err(e) => (st1, Err(e))
  }
}

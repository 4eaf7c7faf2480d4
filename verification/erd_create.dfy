/**
 * `create` in `erdantic/erd.py`: collect the root classes, search from each of them into the
 * caller-owned seen sets, and build the diagram from what was seen.
 */
module ErdCreate {

  import opened Wrappers
  import opened Base
  import opened Erd
  import opened ErdProperties
  import Sorting

  /** The classes one argument of `create` contributes: itself, or what `find_models` finds. */
  predicate Contributes(registry: Registry, arg: RootArg, t: TypeRef)
  {
    match arg
    case TypeArg(cls) => t == cls
    case ModuleArg(name, members) => t in FindModels(registry, name, members)
    case OtherArg(_) => false
  }

  /**
   * The first loop of `create`: classes are kept, modules are replaced by `find_models`, and the
   * first argument that is neither fails with `NotATypeError`. Otherwise every class given and
   * every model found in a module given is a root, and nothing else is.
   */
  function CollectRoots(registry: Registry, modelsOrModules: seq<RootArg>): (r: Result<seq<TypeRef>, Error>)
    ensures r.Err? <==> exists k :: 0 <= k < |modelsOrModules| && modelsOrModules[k].OtherArg?
    ensures r.Err? ==> exists k :: 0 <= k < |modelsOrModules| && modelsOrModules[k].OtherArg?
                                   && r.error == NotATypeError(modelsOrModules[k].repr)
                                   && forall j :: 0 <= j < k ==> !modelsOrModules[j].OtherArg?
    ensures r.Ok? ==> forall k, t :: 0 <= k < |modelsOrModules| && Contributes(registry, modelsOrModules[k], t)
                                     ==> t in r.value
    ensures r.Ok? ==> forall t :: t in r.value ==>
                        exists k :: 0 <= k < |modelsOrModules| && Contributes(registry, modelsOrModules[k], t)
  {
    if modelsOrModules == [] then Ok([])
    else
      var rest := CollectRoots(registry, modelsOrModules[1..]);
      assert forall k :: 0 < k < |modelsOrModules| ==> modelsOrModules[k] == modelsOrModules[1..][k - 1];
      match modelsOrModules[0]
      case OtherArg(repr) => Err(NotATypeError(repr))
      case TypeArg(cls) =>
        if rest.Err? then rest else Ok([cls] + rest.value)
      case ModuleArg(name, members) =>
        if rest.Err? then rest else Ok(FindModels(registry, name, members) + rest.value)
  }

  /**
   * The roots of two runs of arguments are the first run's followed by the second's, so the roots
   * keep the order of the arguments that contribute them.
   */
  lemma {:induction false} CollectRootsAppend(registry: Registry, a: seq<RootArg>, b: seq<RootArg>)
    ensures CollectRoots(registry, a).Err? ==> CollectRoots(registry, a + b) == CollectRoots(registry, a)
    ensures CollectRoots(registry, a).Ok? ==>
              CollectRoots(registry, a + b) == WithPrefix(CollectRoots(registry, a).value, CollectRoots(registry, b))
    decreases |a|
  {
    if a == [] {
      assert [] + b == b;
      WithPrefixEmpty(CollectRoots(registry, b));
    } else {
      assert (a + b)[0] == a[0] && (a + b)[1..] == a[1..] + b;
      CollectRootsAppend(registry, a[1..], b);
      var rest := CollectRoots(registry, a[1..]);
      match a[0]
      case OtherArg(_) =>
      case TypeArg(cls) =>
        if rest.Ok? {
          WithPrefixShift([cls], rest.value, CollectRoots(registry, b));
        }
      case ModuleArg(name, members) =>
        if rest.Ok? {
          WithPrefixShift(FindModels(registry, name, members), rest.value, CollectRoots(registry, b));
        }
    }
  }

  /** The roots collected so far, in front of those still to come. */
  function WithPrefix(prefix: seq<TypeRef>, rest: Result<seq<TypeRef>, Error>): Result<seq<TypeRef>, Error>
  {
    if rest.Err? then rest else Ok(prefix + rest.value)
  }

  lemma WithPrefixEmpty(rest: Result<seq<TypeRef>, Error>)
    ensures WithPrefix([], rest) == rest
  {
    if rest.Ok? {
      assert [] + rest.value == rest.value;
    }
  }

  lemma WithPrefixShift(prefix: seq<TypeRef>, more: seq<TypeRef>, rest: Result<seq<TypeRef>, Error>)
    ensures WithPrefix(prefix, WithPrefix(more, rest)) == WithPrefix(prefix + more, rest)
  {
    if rest.Ok? {
      assert prefix + (more + rest.value) == (prefix + more) + rest.value;
    }
  }

  /**
   * The second loop of `create`, from the `k`-th root on: adapt the root (fatal when no adapter
   * accepts it) and search from it at depth 0.
   */
  function SearchRoots(registry: Registry, args: ArgsOracle, roots: seq<TypeRef>, k: nat,
                       models: set<Model>, edges: set<Edge>, depthLimit: int): SearchOutcome
    requires k <= |roots|
    decreases |roots| - k
  {
    if k == |roots| then SearchOutcome(models, edges, None)
    else
      match AdaptModel(registry, roots[k])
      case Err(e) => SearchOutcome(models, edges, Some(e))
      case Ok(model) =>
        var o := Search(registry, args, model, models, edges, 0, depthLimit);
        if o.error.Some? then o
        else SearchRoots(registry, args, roots, k + 1, o.models, o.edges, depthLimit)
  }

  /** `m` lies within `depth_limit` edges of the model of one of the roots. */
  ghost predicate ReachedFromRoot(registry: Registry, roots: seq<TypeRef>, edges: set<Edge>,
                                  m: Model, depthLimit: int)
  {
    exists i :: 0 <= i < |roots| && AdaptModel(registry, roots[i]).Ok?
                && Within(edges, AdaptModel(registry, roots[i]).value, m, Budget(0, depthLimit))
  }

  /** `error` is the `UnknownModelTypeError` of a root that no adapter accepts. */
  ghost predicate RootUnknown(registry: Registry, roots: seq<TypeRef>, error: Error)
  {
    exists i :: 0 <= i < |roots| && AdaptModel(registry, roots[i]).Err? && error == UnknownModelTypeError(roots[i])
  }

  /**
   * The second loop of `create` only grows the seen sets; every new edge joins seen models and
   * is justified by a field's candidate; every new model is within `depth_limit` edges of a
   * root's model; an error is a justified forward reference or an unknown root; and when it
   * completes every root from `k` on has been adapted and its model seen.
   */
  lemma {:induction false} RootsGrow(registry: Registry, args: ArgsOracle, roots: seq<TypeRef>, k: nat,
                                     models: set<Model>, edges: set<Edge>, depthLimit: int)
    requires k <= |roots|
    ensures var o := SearchRoots(registry, args, roots, k, models, edges, depthLimit);
            && models <= o.models && edges <= o.edges
            && (forall e :: e in o.edges && e !in edges ==>
                  e.source in o.models && e.target in o.models && EdgeJustified(registry, args, e))
            && (forall m {:trigger ReachedFromRoot(registry, roots, o.edges, m, depthLimit)} ::
                  m in o.models && m !in models ==> ReachedFromRoot(registry, roots, o.edges, m, depthLimit))
            && (o.error.Some? ==>
                  ErrorJustified(args, o.models, o.error.value) || RootUnknown(registry, roots, o.error.value))
            && (o.error.None? ==>
                  forall i :: k <= i < |roots| ==>
                    AdaptModel(registry, roots[i]).Ok? && AdaptModel(registry, roots[i]).value in o.models)
    decreases |roots| - k
  {
    if k < |roots| {
      match AdaptModel(registry, roots[k])
      case Err(e) =>
      case Ok(model) =>
        var o1 := Search(registry, args, model, models, edges, 0, depthLimit);
        SearchGrows(registry, args, model, models, edges, 0, depthLimit);
        if o1.error.None? {
          RootsGrow(registry, args, roots, k + 1, o1.models, o1.edges, depthLimit);
          var o := SearchRoots(registry, args, roots, k + 1, o1.models, o1.edges, depthLimit);
          forall m | m in o.models && m !in models
            ensures ReachedFromRoot(registry, roots, o.edges, m, depthLimit)
          {
            if m in o1.models {
              WithinMono(o1.edges, o.edges, model, m, Budget(0, depthLimit), Budget(0, depthLimit));
            }
          }
        }
    }
  }

  /** The models of the roots that some adapter accepts. */
  ghost function AdaptedRoots(registry: Registry, roots: seq<TypeRef>): set<Model>
  {
    set t | t in roots && AdaptModel(registry, t).Ok? :: AdaptModel(registry, t).value
  }

  /**
   * With `depth_limit <= 0` no field is looked at: the second loop of `create` adds no edge, and
   * every model it adds is the model of a root.
   */
  lemma {:induction false} RootsAtDepthLimit(registry: Registry, args: ArgsOracle, roots: seq<TypeRef>, k: nat,
                                             models: set<Model>, edges: set<Edge>, depthLimit: int)
    requires k <= |roots| && depthLimit <= 0
    ensures var o := SearchRoots(registry, args, roots, k, models, edges, depthLimit);
            o.edges == edges && o.models <= models + AdaptedRoots(registry, roots)
    decreases |roots| - k
  {
    if k < |roots| {
      match AdaptModel(registry, roots[k])
      case Err(e) =>
      case Ok(model) =>
        var o1 := Search(registry, args, model, models, edges, 0, depthLimit);
        SearchGrows(registry, args, model, models, edges, 0, depthLimit);
        assert model in AdaptedRoots(registry, roots) by {
          assert roots[k] in roots;
        }
        if o1.error.None? {
          RootsAtDepthLimit(registry, args, roots, k + 1, o1.models, o1.edges, depthLimit);
        }
    }
  }

  /** `list(s)`: the elements of a set, each once, in an order the caller cannot rely on. */
  method ListOf<T(==)>(s: set<T>) returns (xs: seq<T>)
    ensures multiset(xs) == multiset(s)
  {
    xs := [];
    var rest := s;
    while rest != {}
      invariant rest <= s
      invariant multiset(xs) + multiset(rest) == multiset(s)
      decreases rest
    {
      var x :| x in rest;
      xs := xs + [x];
      rest := rest - {x};
    }
  }

  /** Each model and each edge appears once, as listing a set gives them. */
  ghost predicate NoRepeats(d: Diagram)
  {
    && (forall i, j :: 0 <= i < j < |d.models| ==> d.models[i] != d.models[j])
    && (forall i, j :: 0 <= i < j < |d.edges| ==> d.edges[i] != d.edges[j])
  }

  /** Every edge joins two of the diagram's models and is justified by a field's candidate. */
  ghost predicate EdgesSound(registry: Registry, args: ArgsOracle, d: Diagram)
  {
    forall e :: e in d.edges ==> e.source in d.models && e.target in d.models && EdgeJustified(registry, args, e)
  }

  /** Every model is within `depth_limit` edges of a root's model, and every root's model is there. */
  ghost predicate RootsCovered(registry: Registry, roots: seq<TypeRef>, depthLimit: int, d: Diagram)
  {
    && (forall m {:trigger ReachedFromRoot(registry, roots, Sorting.Elems(d.edges), m, depthLimit)} ::
          m in d.models ==> ReachedFromRoot(registry, roots, Sorting.Elems(d.edges), m, depthLimit))
    && (forall t :: t in roots ==> AdaptModel(registry, t).Ok? && AdaptModel(registry, t).value in d.models)
  }

  /** Models and edges are in `__lt__` order whenever keys identify the models involved. */
  ghost predicate SortedWhenKeyed(d: Diagram)
  {
    && (KeysIdentify(Sorting.Elems(d.models)) ==> Sorting.Sorted(d.models, ModelLess))
    && (KeysIdentify(Endpoints(Sorting.Elems(d.edges))) ==> Sorting.Sorted(d.edges, EdgeLess))
  }

  /** With `depth_limit <= 0` there are no edges, and only the roots' models. */
  ghost predicate RootsOnlyAtLimit(registry: Registry, roots: seq<TypeRef>, depthLimit: int, d: Diagram)
  {
    depthLimit <= 0 ==>
      && d.edges == []
      && forall m :: m in d.models ==> m in AdaptedRoots(registry, roots)
  }

  /**
   * What a diagram built by `create` from `roots` holds: each seen model and edge once, every
   * edge between two of its models and justified, every model within `depth_limit` edges of a
   * root's model and every root's model present, sorted models and edges when keys identify
   * models, the name of one of its models, the horizontal orientation, and with
   * `depth_limit <= 0` only the roots' models and no edges.
   */
  ghost predicate DiagramSound(registry: Registry, args: ArgsOracle, roots: seq<TypeRef>, depthLimit: int, d: Diagram)
  {
    && NoRepeats(d)
    && EdgesSound(registry, args, d)
    && RootsCovered(registry, roots, depthLimit, d)
    && SortedWhenKeyed(d)
    && (exists m :: m in d.models && d.name == m.name)
    && d.orientation == "LR"
    && RootsOnlyAtLimit(registry, roots, depthLimit, d)
  }

  /**
   * `create(*models_or_modules, depth_limit, orientation)`. The diagram is built from
   * `list(seen_models)`, so its name is that of whichever seen model comes first there, and
   * `orientation` is not passed on: the diagram is always horizontal.
   */
  method Create(registry: Registry, args: ArgsOracle, modelsOrModules: seq<RootArg>,
                depthLimit: int := 1, orientation: Orientation := Horizontal) returns (r: Result<Diagram, Error>)
    ensures CollectRoots(registry, modelsOrModules).Err? ==>
              r == Err(CollectRoots(registry, modelsOrModules).error)
    ensures CollectRoots(registry, modelsOrModules).Ok? ==>
              var roots := CollectRoots(registry, modelsOrModules).value;
              var o := SearchRoots(registry, args, roots, 0, {}, {}, depthLimit);
              && (o.error.Some? ==>
                    && r == Err(o.error.value)
                    && (ErrorJustified(args, o.models, o.error.value) || RootUnknown(registry, roots, o.error.value)))
              && (o.error.None? ==>
                    && (r.Ok? <==> roots != [])
                    && (r.Err? ==> r.error == NoModelsError)
                    && (r.Ok? ==> multiset(r.value.models) == multiset(o.models)
                                  && multiset(r.value.edges) == multiset(o.edges))
                    && exists ms: seq<Model>, es: seq<Edge> ::
                         multiset(ms) == multiset(o.models) && multiset(es) == multiset(o.edges)
                         && r == NewDiagram(ms, es, Horizontal))
    ensures r.Ok? ==> CollectRoots(registry, modelsOrModules).Ok?
                      && DiagramSound(registry, args, CollectRoots(registry, modelsOrModules).value, depthLimit, r.value)
  {
    var models: seq<TypeRef> := [];
    assert modelsOrModules[0..] == modelsOrModules;
    WithPrefixEmpty(CollectRoots(registry, modelsOrModules));
    for k := 0 to |modelsOrModules|
      invariant CollectRoots(registry, modelsOrModules)
                == WithPrefix(models, CollectRoots(registry, modelsOrModules[k..]))
    {
      assert modelsOrModules[k..][0] == modelsOrModules[k];
      assert modelsOrModules[k..][1..] == modelsOrModules[k + 1..];
      match modelsOrModules[k]
      case TypeArg(cls) =>
        assert CollectRoots(registry, modelsOrModules[k..])
               == WithPrefix([cls], CollectRoots(registry, modelsOrModules[k + 1..]));
        WithPrefixShift(models, [cls], CollectRoots(registry, modelsOrModules[k + 1..]));
        models := models + [cls];
      case ModuleArg(name, members) =>
        var found := FindModels(registry, name, members);
        assert CollectRoots(registry, modelsOrModules[k..])
               == WithPrefix(found, CollectRoots(registry, modelsOrModules[k + 1..]));
        WithPrefixShift(models, found, CollectRoots(registry, modelsOrModules[k + 1..]));
        models := models + found;
      case OtherArg(repr) =>
        return Err(NotATypeError(repr));
    }
    assert modelsOrModules[|modelsOrModules|..] == [];
    assert models + [] == models;
    assert CollectRoots(registry, modelsOrModules) == Ok(models);

    RootsGrow(registry, args, models, 0, {}, {}, depthLimit);
    var seen := new SeenSets();
    for k := 0 to |models|
      invariant SearchRoots(registry, args, models, k, seen.models, seen.edges, depthLimit)
                == SearchRoots(registry, args, models, 0, {}, {}, depthLimit)
    {
      var adapted := AdaptModel(registry, models[k]);
      if adapted.Err? {
        return Err(adapted.error);
      }
      var error := SearchCompositionGraph(registry, args, adapted.value, seen, 0, depthLimit);
      if error.Some? {
        return Err(error.value);
      }
    }
    var modelList := ListOf(seen.models);
    var edgeList := ListOf(seen.edges);
    r := NewDiagram(modelList, edgeList, Horizontal);
    DiagramFromSeen(registry, args, models, depthLimit, modelList, edgeList);
  }

  /** The diagram `create` builds from any listing of the seen sets of a search that completed. */
  lemma DiagramFromSeen(registry: Registry, args: ArgsOracle, roots: seq<TypeRef>, depthLimit: int,
                        modelList: seq<Model>, edgeList: seq<Edge>)
    requires SearchRoots(registry, args, roots, 0, {}, {}, depthLimit).error.None?
    requires multiset(modelList) == multiset(SearchRoots(registry, args, roots, 0, {}, {}, depthLimit).models)
    requires multiset(edgeList) == multiset(SearchRoots(registry, args, roots, 0, {}, {}, depthLimit).edges)
    ensures var r := NewDiagram(modelList, edgeList, Horizontal);
            && (r.Ok? <==> roots != [])
            && (r.Ok? ==> DiagramSound(registry, args, roots, depthLimit, r.value))
  {
    var o := SearchRoots(registry, args, roots, 0, {}, {}, depthLimit);
    RootsGrow(registry, args, roots, 0, {}, {}, depthLimit);
    SeenListed(o.models, modelList);
    SeenListed(o.edges, edgeList);
    if roots != [] {
      assert AdaptModel(registry, roots[0]).value in modelList;
    }
    var r := NewDiagram(modelList, edgeList, Horizontal);
    if r.Ok? {
      var d := r.value;
      SeenListed(o.models, d.models);
      SeenListed(o.edges, d.edges);
      assert modelList[0] in d.models;
      ListedEdgesSound(registry, args, o.models, o.edges, d);
      ListedRootsCovered(registry, roots, depthLimit, o.models, o.edges, d);
      ListedSorted(o.models, o.edges, modelList, edgeList, d);
      if depthLimit <= 0 {
        RootsAtDepthLimit(registry, args, roots, 0, {}, {}, depthLimit);
        ListedAtLimit(registry, roots, depthLimit, o.models, o.edges, d);
      }
    }
  }

  lemma ListedEdgesSound(registry: Registry, args: ArgsOracle, models: set<Model>, edges: set<Edge>, d: Diagram)
    requires forall e :: e in edges ==> e.source in models && e.target in models && EdgeJustified(registry, args, e)
    requires forall x :: x in d.models <==> x in models
    requires forall x :: x in d.edges <==> x in edges
    ensures EdgesSound(registry, args, d)
  {
  }

  lemma ListedRootsCovered(registry: Registry, roots: seq<TypeRef>, depthLimit: int,
                           models: set<Model>, edges: set<Edge>, d: Diagram)
    requires forall m {:trigger ReachedFromRoot(registry, roots, edges, m, depthLimit)} ::
               m in models ==> ReachedFromRoot(registry, roots, edges, m, depthLimit)
    requires forall i :: 0 <= i < |roots| ==>
               AdaptModel(registry, roots[i]).Ok? && AdaptModel(registry, roots[i]).value in models
    requires forall x :: x in d.models <==> x in models
    requires Sorting.Elems(d.edges) == edges
    ensures RootsCovered(registry, roots, depthLimit, d)
  {
    forall t | t in roots
      ensures AdaptModel(registry, t).Ok? && AdaptModel(registry, t).value in d.models
    {
      var i :| 0 <= i < |roots| && roots[i] == t;
    }
  }

  lemma ListedSorted(models: set<Model>, edges: set<Edge>, modelList: seq<Model>, edgeList: seq<Edge>, d: Diagram)
    requires Sorting.Elems(modelList) == models && Sorting.Elems(d.models) == models
    requires Sorting.Elems(edgeList) == edges && Sorting.Elems(d.edges) == edges
    requires Sorting.StrictTotalOn(ModelLess, Sorting.Elems(modelList)) ==> Sorting.Sorted(d.models, ModelLess)
    requires Sorting.StrictTotalOn(EdgeLess, Sorting.Elems(edgeList)) ==> Sorting.Sorted(d.edges, EdgeLess)
    ensures SortedWhenKeyed(d)
  {
    if KeysIdentify(models) {
      ModelLessTotal(models);
    }
    if KeysIdentify(Endpoints(edges)) {
      EdgeLessTotal(edges);
    }
  }

  lemma ListedAtLimit(registry: Registry, roots: seq<TypeRef>, depthLimit: int,
                      models: set<Model>, edges: set<Edge>, d: Diagram)
    requires depthLimit <= 0 ==> edges == {} && models <= AdaptedRoots(registry, roots)
    requires forall x :: x in d.models <==> x in models
    requires forall x :: x in d.edges <==> x in edges
    ensures RootsOnlyAtLimit(registry, roots, depthLimit, d)
  {
    assert |d.edges| == 0 || d.edges[0] in edges;
  }

  /** A list of a set's elements, each once: membership agrees and no element repeats. */
  lemma SeenListed<T>(s: set<T>, xs: seq<T>)
    requires multiset(xs) == multiset(s)
    ensures forall x :: x in xs <==> x in s
    ensures Sorting.Elems(xs) == s
    ensures forall i, j :: 0 <= i < j < |xs| ==> xs[i] != xs[j]
  {
    forall x
      ensures x in xs <==> x in s
    {
      assert x in xs <==> x in multiset(xs);
    }
    forall i, j | 0 <= i < j < |xs|
      ensures xs[i] != xs[j]
    {
      Repeated(xs, i, j);
    }
  }

  /** An element at two positions is counted twice. */
  lemma Repeated<T>(xs: seq<T>, i: nat, j: nat)
    requires i < j < |xs|
    ensures xs[i] == xs[j] ==> multiset(xs)[xs[i]] >= 2
  {
    assert xs == xs[..j] + xs[j..];
    assert xs[i] in multiset(xs[..j]) by {
      assert xs[..j][i] == xs[i];
    }
    assert xs[j] in multiset(xs[j..]) by {
      assert xs[j..][0] == xs[j];
    }
  }
}

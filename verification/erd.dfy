/**
 * `erdantic/erd.py`: edges, the diagram, dispatch to a model adapter, `find_models` and the
 * composition-graph search. `create`, which ties them together, is in `ErdCreate`.
 */
module Erd {

  import opened Wrappers
  import opened PyStr
  import opened Base
  import Sorting

  /** `erdantic.enums.Orientation`; `str(o)` is its Graphviz rank direction. */
  datatype Orientation = Vertical | Horizontal {
    function Value(): string
    {
      match this
      case Vertical => "TB"
      case Horizontal => "LR"
    }
  }

  /** The exceptions raised by the modelled code. */
  datatype Error =
    | UnknownModelTypeError(obj: TypeRef)
    | UnknownFieldError(source: Model, field: Field)
    | StringForwardRefError(model: Model, field: Field, forwardRef: string)
    | UnevaluatedForwardRefError(model: Model, field: Field, forwardRef: string)
    | NotATypeError(obj: string)
      // the IndexError of `models[0]` on an empty model list
    | NoModelsError

  // ---------------------------------------------------------------------------------------------
  // Edge

  datatype EdgeTriple = EdgeTriple(source: Model, sourceField: Field, target: Model)

  /** An edge whose source field is one of its source's fields, as `Edge.__init__` checks. */
  type Edge = e: EdgeTriple | e.sourceField in e.source.fields
    witness EdgeTriple(Model("", "", [Field("", "", None, false, false)]),
                       Field("", "", None, false, false), Model("", "", []))

  /** `Edge(source, source_field, target)`: fails unless the field belongs to the source. */
  function NewEdge(source: Model, sourceField: Field, target: Model): (r: Result<Edge, Error>)
    ensures r.Ok? <==> sourceField in source.fields
    ensures r.Ok? ==> r.value.source == source && r.value.sourceField == sourceField
                      && r.value.target == target
    ensures r.Err? ==> r.error == UnknownFieldError(source, sourceField)
  {
    if sourceField !in set f | f in source.fields then Err(UnknownFieldError(source, sourceField))
    else Ok(EdgeTriple(source, sourceField, target))
  }

  /**
   * `Edge.dot_arrowhead`: crow's foot for a many-valued field, a bar otherwise, then a circle
   * ("zero allowed") for a nullable or many-valued field and a bar ("mandatory") otherwise.
   */
  function DotArrowhead(e: Edge): (r: string)
    ensures e.sourceField.isMany ==> r == "crowodot"
    ensures !e.sourceField.isMany && e.sourceField.isNullable ==> r == "noneteeodot"
    ensures !e.sourceField.isMany && !e.sourceField.isNullable ==> r == "noneteetee"
  {
    var cardinality := if e.sourceField.isMany then "crow" else "nonetee";
    var modality := if e.sourceField.isNullable || e.sourceField.isMany then "odot" else "tee";
    cardinality + modality
  }

  /** `fields.index(field)`: the first position of `field`. */
  function IndexOfField(fields: seq<Field>, field: Field): (i: nat)
    requires field in fields
    ensures i < |fields| && fields[i] == field
    ensures forall k :: 0 <= k < i ==> fields[k] != field
  {
    if fields[0] == field then 0 else 1 + IndexOfField(fields[1..], field)
  }

  function FieldIndex(e: Edge): nat
  {
    IndexOfField(e.source.fields, e.sourceField)
  }

  /**
   * `Edge.__lt__`: the tuples (source, position of the source field, target) compared as Python
   * compares tuples, where models are equal when their keys are and ordered by key.
   */
  predicate EdgeLess(a: Edge, b: Edge)
  {
    if a.source.key != b.source.key then StringLess(a.source.key, b.source.key)
    else if FieldIndex(a) != FieldIndex(b) then FieldIndex(a) < FieldIndex(b)
    else StringLess(a.target.key, b.target.key)
  }

  /** The models an edge set connects. */
  ghost function Endpoints(edges: set<Edge>): set<Model>
  {
    (set e | e in edges :: e.source) + (set e | e in edges :: e.target)
  }

  // ---------------------------------------------------------------------------------------------
  // EntityRelationshipDiagram

  datatype Diagram = Diagram(models: seq<Model>, edges: seq<Edge>, name: string, orientation: string)

  /**
   * `EntityRelationshipDiagram(models, edges, orientation)`: the sorted models and edges, the name
   * of the first model as given (not as sorted), and `str(orientation)`. An empty model list
   * fails at `models[0]`.
   */
  function NewDiagram(models: seq<Model>, edges: seq<Edge>, orientation: Orientation): (r: Result<Diagram, Error>)
    ensures r.Err? <==> models == []
    ensures r.Err? ==> r.error == NoModelsError
    ensures r.Ok? ==> multiset(r.value.models) == multiset(models)
                      && multiset(r.value.edges) == multiset(edges)
    ensures r.Ok? ==> r.value.name == models[0].name && r.value.orientation == orientation.Value()
    ensures r.Ok? && Sorting.StrictTotalOn(ModelLess, Sorting.Elems(models)) ==>
              Sorting.Sorted(r.value.models, ModelLess)
    ensures r.Ok? && Sorting.StrictTotalOn(EdgeLess, Sorting.Elems(edges)) ==>
              Sorting.Sorted(r.value.edges, EdgeLess)
  {
    var sortedModels := Sorting.Sort(models, ModelLess);
    var sortedEdges := Sorting.Sort(edges, EdgeLess);
    Sorting.SortSortedIfTotal(models, ModelLess);
    Sorting.SortSortedIfTotal(edges, EdgeLess);
    if models == [] then Err(NoModelsError)
    else Ok(Diagram(sortedModels, sortedEdges, models[0].name, orientation.Value()))
  }

  /** `EntityRelationshipDiagram.__eq__`: the hashes of the model and edge tuples agree. */
  predicate DiagramEquals(a: Diagram, b: Diagram)
  {
    a.models == b.models && a.edges == b.edges
  }

  // ---------------------------------------------------------------------------------------------
  // adapt_model and find_models

  /**
   * `adapt_model(obj)`: the adapter of the first registry entry whose `is_model_type` accepts
   * `obj`, applied to `obj`; `UnknownModelTypeError` when no entry does.
   */
  function AdaptModel(registry: Registry, obj: TypeRef): (r: Result<Model, Error>)
    ensures r.Ok? <==> exists i :: 0 <= i < |registry| && registry[i].isModelType(obj)
    ensures r.Ok? ==> exists i :: 0 <= i < |registry| && registry[i].isModelType(obj)
                                  && r.value == registry[i].wrap(obj)
                                  && forall k :: 0 <= k < i ==> !registry[k].isModelType(obj)
    ensures r.Err? ==> r.error == UnknownModelTypeError(obj)
  {
    if registry == [] then Err(UnknownModelTypeError(obj))
    else if registry[0].isModelType(obj) then Ok(registry[0].wrap(obj))
    else
      var r := AdaptModel(registry[1..], obj);
      assert forall i :: 0 < i < |registry| ==> registry[i] == registry[1..][i - 1];
      r
  }

  /** A class returned by `inspect.getmembers(module, inspect.isclass)`, with its `__module__`. */
  datatype Member = Member(cls: TypeRef, definedIn: string)

  /** One of the positional arguments of `create`. */
  datatype RootArg =
    | TypeArg(cls: TypeRef)
    | ModuleArg(name: string, members: seq<Member>)
    | OtherArg(repr: string)

  /** `obj` once for every registry entry that accepts it. */
  function Accepting(registry: Registry, obj: TypeRef): (r: seq<TypeRef>)
    ensures forall x :: x in r ==> x == obj
    ensures |r| > 0 <==> exists i :: 0 <= i < |registry| && registry[i].isModelType(obj)
  {
    if registry == [] then []
    else
      var rest := Accepting(registry[1..], obj);
      assert forall i :: 0 < i < |registry| ==> registry[i] == registry[1..][i - 1];
      (if registry[0].isModelType(obj) then [obj] else []) + rest
  }

  /** The positions in the registry of the entries that accept `obj`. */
  ghost function AcceptedAt(registry: Registry, obj: TypeRef): set<nat>
  {
    set i: nat | i < |registry| && registry[i].isModelType(obj)
  }

  lemma {:induction false} AcceptingSnoc(registry: Registry, a: Adapter, obj: TypeRef)
    ensures Accepting(registry + [a], obj)
            == Accepting(registry, obj) + (if a.isModelType(obj) then [obj] else [])
    decreases |registry|
  {
    if registry == [] {
      assert ([] + [a])[1..] == [];
    } else {
      var longer := registry + [a];
      var head := if registry[0].isModelType(obj) then [obj] else [];
      var tail := if a.isModelType(obj) then [obj] else [];
      assert longer[0] == registry[0] && longer[1..] == registry[1..] + [a];
      assert Accepting(longer, obj) == head + Accepting(registry[1..] + [a], obj);
      AcceptingSnoc(registry[1..], a, obj);
      assert Accepting(registry, obj) == head + Accepting(registry[1..], obj);
      assert head + (Accepting(registry[1..], obj) + tail) == (head + Accepting(registry[1..], obj)) + tail;
    }
  }

  lemma AcceptedAtSnoc(registry: Registry, a: Adapter, obj: TypeRef)
    ensures AcceptedAt(registry + [a], obj)
            == AcceptedAt(registry, obj) + (if a.isModelType(obj) then {|registry|} else {})
  {
    var longer := registry + [a];
    assert forall i :: 0 <= i < |registry| ==> longer[i] == registry[i];
  }

  /** `obj` is yielded exactly as many times as there are registry entries that accept it. */
  lemma {:induction false} AcceptingOncePerAdapter(registry: Registry, obj: TypeRef)
    ensures |Accepting(registry, obj)| == |AcceptedAt(registry, obj)|
    decreases |registry|
  {
    if registry != [] {
      var n := |registry| - 1;
      var init, last := registry[..n], registry[n];
      assert registry == init + [last];
      AcceptingSnoc(init, last, obj);
      AcceptedAtSnoc(init, last, obj);
      AcceptingOncePerAdapter(init, obj);
      assert n !in AcceptedAt(init, obj);
    }
  }

  /**
   * `find_models(module)`: the classes defined in the module itself that some adapter accepts,
   * and no others. The contract states membership only; how often each is yielded is stated per
   * member by `AcceptingOncePerAdapter`.
   */
  function FindModels(registry: Registry, moduleName: string, members: seq<Member>): (r: seq<TypeRef>)
    ensures forall t :: t in r ==>
      (exists m :: m in members && m.definedIn == moduleName && m.cls == t)
      && exists i :: 0 <= i < |registry| && registry[i].isModelType(t)
    ensures forall m :: (m in members && m.definedIn == moduleName
      && exists i :: 0 <= i < |registry| && registry[i].isModelType(m.cls)) ==> m.cls in r
  {
    if members == [] then []
    else
      var here := if members[0].definedIn == moduleName then Accepting(registry, members[0].cls) else [];
      var rest := FindModels(registry, moduleName, members[1..]);
      assert forall m :: m in members[1..] ==> m in members;
      assert forall m :: m in members ==> m == members[0] || m in members[1..];
      assert |here| > 0 ==> here[0] in here && here[0] in here + rest;
      here + rest
  }

  // ---------------------------------------------------------------------------------------------
  // search_composition_graph, as a function of the seen sets it starts from

  /** The two seen sets after a search, and the exception the search raised, if any. */
  datatype SearchOutcome = SearchOutcome(models: set<Model>, edges: set<Edge>, error: Option<Error>)

  /** How many more levels a search at `depth` may still expand. */
  function Budget(depth: int, depthLimit: int): nat
  {
    if depth < depthLimit then depthLimit - depth else 0
  }

  /**
   * `search_composition_graph(model, seen_models, seen_edges, depth, depth_limit)`. A model
   * already seen is left alone; an unseen model is recorded first and its fields expanded only
   * when `depth < depth_limit`.
   */
  function Search(registry: Registry, args: ArgsOracle, model: Model, models: set<Model>,
                  edges: set<Edge>, depth: int, depthLimit: int): SearchOutcome
    decreases Budget(depth, depthLimit), 2, 0
  {
    if model in models then SearchOutcome(models, edges, None)
    else if depth < depthLimit then
      SearchFields(registry, args, model, 0, models + {model}, edges, depth, depthLimit)
    else SearchOutcome(models + {model}, edges, None)
  }

  /**
   * The loop over `model.fields[i..]`; a forward reference in a field's type aborts with the
   * model and the field attached.
   */
  function SearchFields(registry: Registry, args: ArgsOracle, model: Model, i: nat,
                        models: set<Model>, edges: set<Edge>, depth: int, depthLimit: int): SearchOutcome
    requires i <= |model.fields| && depth < depthLimit
    decreases Budget(depth, depthLimit), 1, |model.fields| - i
  {
    if i == |model.fields| then SearchOutcome(models, edges, None)
    else
      var field := model.fields[i];
      match args(field)
      case UnevaluatedForwardRef(ref) =>
        SearchOutcome(models, edges, Some(UnevaluatedForwardRefError(model, field, ref)))
      case StringForwardRef(ref) =>
        SearchOutcome(models, edges, Some(StringForwardRefError(model, field, ref)))
      case Args(candidates) =>
        var o := SearchCandidates(registry, args, model, field, candidates, 0, models, edges, depth, depthLimit);
        if o.error.Some? then o
        else SearchFields(registry, args, model, i + 1, o.models, o.edges, depth, depthLimit)
  }

  /**
   * The loop over the candidate types `candidates[j..]` of `field`: a candidate no adapter
   * accepts is skipped; otherwise the edge is recorded and the target searched one level deeper.
   * An `UnknownModelTypeError` out of that search would be swallowed as well.
   */
  function SearchCandidates(registry: Registry, args: ArgsOracle, model: Model, field: Field,
                            candidates: seq<TypeRef>, j: nat, models: set<Model>, edges: set<Edge>,
                            depth: int, depthLimit: int): SearchOutcome
    requires field in model.fields
    requires j <= |candidates| && depth < depthLimit
    decreases Budget(depth, depthLimit), 0, |candidates| - j
  {
    if j == |candidates| then SearchOutcome(models, edges, None)
    else
      match AdaptModel(registry, candidates[j])
      case Err(_) =>
        SearchCandidates(registry, args, model, field, candidates, j + 1, models, edges, depth, depthLimit)
      case Ok(target) =>
        var edge: Edge := EdgeTriple(model, field, target);
        var o := Search(registry, args, target, models, edges + {edge}, depth + 1, depthLimit);
        if o.error.Some? && !o.error.value.UnknownModelTypeError? then o
        else SearchCandidates(registry, args, model, field, candidates, j + 1, o.models, o.edges, depth, depthLimit)
  }

  // ---------------------------------------------------------------------------------------------
  // search_composition_graph, on the caller's sets

  /** `seen_models` and `seen_edges`, the two sets `create` owns and every search adds to. */
  class SeenSets {
    var models: set<Model>
    var edges: set<Edge>

    constructor ()
      ensures models == {} && edges == {}
    {
      models := {};
      edges := {};
    }
  }

  /**
   * `search_composition_graph`: adds what it finds to `seen`, and returns the exception it
   * raised, if any, leaving in `seen` what was added before it was raised.
   */
  method SearchCompositionGraph(registry: Registry, args: ArgsOracle, model: Model, seen: SeenSets,
                                depth: int := 0, depthLimit: int := 1) returns (error: Option<Error>)
    modifies seen
    ensures SearchOutcome(seen.models, seen.edges, error)
            == Search(registry, args, model, old(seen.models), old(seen.edges), depth, depthLimit)
    decreases Budget(depth, depthLimit)
  {
    if model in seen.models {
      return None;
    }
    seen.models := seen.models + {model};
    if depth < depthLimit {
      var i := 0;
      while i < |model.fields|
        invariant 0 <= i <= |model.fields|
        invariant SearchFields(registry, args, model, i, seen.models, seen.edges, depth, depthLimit)
                  == Search(registry, args, model, old(seen.models), old(seen.edges), depth, depthLimit)
      {
        var field := model.fields[i];
        match args(field)
        case UnevaluatedForwardRef(ref) =>
          return Some(UnevaluatedForwardRefError(model, field, ref));
        case StringForwardRef(ref) =>
          return Some(StringForwardRefError(model, field, ref));
        case Args(candidates) =>
          ghost var startModels, startEdges := seen.models, seen.edges;
          var j := 0;
          while j < |candidates|
            invariant 0 <= j <= |candidates|
            invariant SearchCandidates(registry, args, model, field, candidates, j, seen.models, seen.edges, depth, depthLimit)
                      == SearchCandidates(registry, args, model, field, candidates, 0, startModels, startEdges, depth, depthLimit)
          {
            ghost var models, edges := seen.models, seen.edges;
            var adapted := AdaptModel(registry, candidates[j]);
            if adapted.Ok? {
              var edge: Edge := EdgeTriple(model, field, adapted.value);
              seen.edges := seen.edges + {edge};
              var inner := SearchCompositionGraph(registry, args, adapted.value, seen, depth + 1, depthLimit);
              assert SearchCandidates(registry, args, model, field, candidates, j, models, edges, depth, depthLimit)
                     == if inner.Some? && !inner.value.UnknownModelTypeError? then SearchOutcome(seen.models, seen.edges, inner)
                        else SearchCandidates(registry, args, model, field, candidates, j + 1, seen.models, seen.edges, depth, depthLimit);
              if inner.Some? && !inner.value.UnknownModelTypeError? {
                return inner;
              }
            } else {
              assert SearchCandidates(registry, args, model, field, candidates, j, models, edges, depth, depthLimit)
                     == SearchCandidates(registry, args, model, field, candidates, j + 1, models, edges, depth, depthLimit);
            }
            j := j + 1;
          }
          assert SearchFields(registry, args, model, i, startModels, startEdges, depth, depthLimit)
                 == var o := SearchCandidates(registry, args, model, field, candidates, 0, startModels, startEdges, depth, depthLimit);
                    if o.error.Some? then o
                    else SearchFields(registry, args, model, i + 1, o.models, o.edges, depth, depthLimit);
        i := i + 1;
      }
    }
    return None;
  }
}

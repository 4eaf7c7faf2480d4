/**
 * What `search_composition_graph` promises about the seen sets it grows, and why the diagram's
 * order does not depend on the order in which the seen sets are listed.
 */
module ErdProperties {

  import opened Wrappers
  import opened PyStr
  import opened Base
  import opened Erd
  import Sorting

  // ---------------------------------------------------------------------------------------------
  // What a search may add

  /** Every recorded edge joins two recorded models. */
  ghost predicate EdgesClosed(models: set<Model>, edges: set<Edge>)
  {
    forall e :: e in edges ==> e.source in models && e.target in models
  }

  /** `e` was recorded because one of its field's candidate types adapts to its target. */
  ghost predicate EdgeJustified(registry: Registry, args: ArgsOracle, e: Edge)
  {
    && args(e.sourceField).Args?
    && exists c :: c in args(e.sourceField).candidates && AdaptModel(registry, c) == Ok(e.target)
  }

  /**
   * The only exceptions a search lets out: a forward reference in the declared type of a field
   * of a recorded model, reported with that model, that field and that reference.
   */
  ghost predicate ErrorJustified(args: ArgsOracle, models: set<Model>, error: Error)
  {
    match error
    case StringForwardRefError(m, f, ref) =>
      m in models && f in m.fields && args(f) == StringForwardRef(ref)
    case UnevaluatedForwardRefError(m, f, ref) =>
      m in models && f in m.fields && args(f) == UnevaluatedForwardRef(ref)
    case _ => false
  }

  /** `m` is reached from `from` along at most `n` edges of `edges`. */
  ghost predicate Within(edges: set<Edge>, from: Model, m: Model, n: nat)
    decreases n
  {
    m == from || (n > 0 && exists e :: e in edges && e.source == from && Within(edges, e.target, m, n - 1))
  }

  /** A model reached within `n` hops is still reached with more edges and any `n' >= n` hops. */
  lemma {:induction false} WithinMono(edges: set<Edge>, more: set<Edge>, from: Model, m: Model, n: nat, n': nat)
    requires edges <= more && n <= n' && Within(edges, from, m, n)
    ensures Within(more, from, m, n')
    decreases n
  {
    if m != from {
      var e :| e in edges && e.source == from && Within(edges, e.target, m, n - 1);
      WithinMono(edges, more, e.target, m, n - 1, n' - 1);
    }
  }

  /**
   * The outcome `o` of a search of `model` that started from the seen sets `models` and `edges`
   * only grows them; `model` is recorded; every new edge joins recorded models and is justified
   * by a field's candidate; every new model lies within `hops` edges of `model`; and the only
   * error is a justified forward reference.
   */
  ghost predicate Grows(registry: Registry, args: ArgsOracle, model: Model, models: set<Model>,
                        edges: set<Edge>, o: SearchOutcome, hops: nat)
  {
    && models <= o.models && edges <= o.edges
    && model in o.models
    && (forall e :: e in o.edges && e !in edges ==>
          e.source in o.models && e.target in o.models && EdgeJustified(registry, args, e))
    && (forall m :: m in o.models && m !in models ==> Within(o.edges, model, m, hops))
    && (o.error.Some? ==> ErrorJustified(args, o.models, o.error.value))
  }

  /**
   * A search that meets its guarantees with budget `hops1`, followed by one from the seen sets it
   * left that meets them with a budget `hops2` at least as large, together meet them with `hops2`.
   */
  lemma GrowsTrans(registry: Registry, args: ArgsOracle, model: Model, models: set<Model>,
                   edges: set<Edge>, o1: SearchOutcome, o2: SearchOutcome, hops1: nat, hops2: nat)
    requires hops1 <= hops2
    requires Grows(registry, args, model, models, edges, o1, hops1)
    requires Grows(registry, args, model, o1.models, o1.edges, o2, hops2)
    ensures Grows(registry, args, model, models, edges, o2, hops2)
  {
    forall m | m in o2.models && m !in models
      ensures Within(o2.edges, model, m, hops2)
    {
      if m in o1.models {
        WithinMono(o1.edges, o2.edges, model, m, hops1, hops2);
      }
    }
  }

  /**
   * `search_composition_graph` only grows the seen sets, records the model it is given, adds
   * only justified edges between recorded models and only models within `depth_limit - depth`
   * edges of its model, and raises only a justified forward-reference error. A model already
   * seen changes nothing; at or past the depth limit only the model itself is added.
   */
  lemma {:induction false} SearchGrows(registry: Registry, args: ArgsOracle, model: Model,
                                       models: set<Model>, edges: set<Edge>, depth: int, depthLimit: int)
    ensures var o := Search(registry, args, model, models, edges, depth, depthLimit);
            && Grows(registry, args, model, models, edges, o, Budget(depth, depthLimit))
            && (model in models ==> o == SearchOutcome(models, edges, None))
            && (depth >= depthLimit ==> o.models <= models + {model} && o.edges == edges)
    decreases Budget(depth, depthLimit), 2, 0
  {
    if model !in models && depth < depthLimit {
      FieldsGrow(registry, args, model, 0, models + {model}, edges, depth, depthLimit);
    }
  }

  lemma {:induction false} FieldsGrow(registry: Registry, args: ArgsOracle, model: Model, i: nat,
                                      models: set<Model>, edges: set<Edge>, depth: int, depthLimit: int)
    requires i <= |model.fields| && depth < depthLimit && model in models
    ensures Grows(registry, args, model, models, edges,
                  SearchFields(registry, args, model, i, models, edges, depth, depthLimit),
                  Budget(depth, depthLimit))
    decreases Budget(depth, depthLimit), 1, |model.fields| - i
  {
    if i < |model.fields| {
      var field := model.fields[i];
      if args(field).Args? {
        var candidates := args(field).candidates;
        CandidatesGrow(registry, args, model, field, candidates, 0, models, edges, depth, depthLimit);
        var o := SearchCandidates(registry, args, model, field, candidates, 0, models, edges, depth, depthLimit);
        if o.error.None? {
          FieldsGrow(registry, args, model, i + 1, o.models, o.edges, depth, depthLimit);
          GrowsTrans(registry, args, model, models, edges, o,
                     SearchFields(registry, args, model, i + 1, o.models, o.edges, depth, depthLimit),
                     Budget(depth, depthLimit), Budget(depth, depthLimit));
        }
      }
    }
  }

  lemma {:induction false} CandidatesGrow(registry: Registry, args: ArgsOracle, model: Model, field: Field,
                                          candidates: seq<TypeRef>, j: nat, models: set<Model>,
                                          edges: set<Edge>, depth: int, depthLimit: int)
    requires field in model.fields && args(field) == Args(candidates)
    requires j <= |candidates| && depth < depthLimit && model in models
    ensures Grows(registry, args, model, models, edges,
                  SearchCandidates(registry, args, model, field, candidates, j, models, edges, depth, depthLimit),
                  Budget(depth, depthLimit))
    decreases Budget(depth, depthLimit), 0, |candidates| - j
  {
    if j < |candidates| {
      var hops := Budget(depth, depthLimit);
      match AdaptModel(registry, candidates[j])
      case Err(_) =>
        CandidatesGrow(registry, args, model, field, candidates, j + 1, models, edges, depth, depthLimit);
      case Ok(target) =>
        var edge: Edge := EdgeTriple(model, field, target);
        var o := Search(registry, args, target, models, edges + {edge}, depth + 1, depthLimit);
        SearchGrows(registry, args, target, models, edges + {edge}, depth + 1, depthLimit);
        assert EdgeJustified(registry, args, edge) by {
          assert candidates[j] in args(field).candidates;
        }
        forall m | m in o.models && m !in models
          ensures Within(o.edges, model, m, hops)
        {
          assert Within(o.edges, target, m, hops - 1);
          assert edge in o.edges && edge.source == model;
        }
        assert Grows(registry, args, model, models, edges, o, hops);
        if !(o.error.Some? && !o.error.value.UnknownModelTypeError?) {
          CandidatesGrow(registry, args, model, field, candidates, j + 1, o.models, o.edges, depth, depthLimit);
          GrowsTrans(registry, args, model, models, edges, o,
                     SearchCandidates(registry, args, model, field, candidates, j + 1, o.models, o.edges, depth, depthLimit),
                     hops, hops);
        }
    }
  }

  /** A search keeps the seen sets closed: every seen edge joins two seen models. */
  lemma SearchKeepsClosed(registry: Registry, args: ArgsOracle, model: Model,
                          models: set<Model>, edges: set<Edge>, depth: int, depthLimit: int)
    requires EdgesClosed(models, edges)
    ensures var o := Search(registry, args, model, models, edges, depth, depthLimit);
            EdgesClosed(o.models, o.edges)
  {
    SearchGrows(registry, args, model, models, edges, depth, depthLimit);
  }

  /**
   * A search never lets an `UnknownModelTypeError` or an `UnknownFieldError` out: candidates
   * that are not model types are skipped, and every edge is built from one of the model's own
   * fields.
   */
  lemma SearchErrorIsForwardRef(registry: Registry, args: ArgsOracle, model: Model,
                                models: set<Model>, edges: set<Edge>, depth: int, depthLimit: int)
    ensures var o := Search(registry, args, model, models, edges, depth, depthLimit);
            o.error.Some? ==> o.error.value.StringForwardRefError? || o.error.value.UnevaluatedForwardRefError?
  {
    SearchGrows(registry, args, model, models, edges, depth, depthLimit);
  }

  // ---------------------------------------------------------------------------------------------
  // What a search that completes has visited

  /**
   * When the loop over `candidates[j..]` completes without an error, each candidate an adapter
   * accepts has its edge recorded and its model seen.
   */
  lemma {:induction false} CandidatesComplete(registry: Registry, args: ArgsOracle, model: Model, field: Field,
                                              candidates: seq<TypeRef>, j: nat, models: set<Model>,
                                              edges: set<Edge>, depth: int, depthLimit: int)
    requires field in model.fields && args(field) == Args(candidates)
    requires j <= |candidates| && depth < depthLimit && model in models
    ensures var o := SearchCandidates(registry, args, model, field, candidates, j, models, edges, depth, depthLimit);
            o.error.None? ==>
              forall k :: j <= k < |candidates| && AdaptModel(registry, candidates[k]).Ok? ==>
                EdgeTriple(model, field, AdaptModel(registry, candidates[k]).value) in o.edges
                && AdaptModel(registry, candidates[k]).value in o.models
    decreases |candidates| - j
  {
    if j < |candidates| {
      var o := SearchCandidates(registry, args, model, field, candidates, j, models, edges, depth, depthLimit);
      match AdaptModel(registry, candidates[j])
      case Err(_) =>
        CandidatesComplete(registry, args, model, field, candidates, j + 1, models, edges, depth, depthLimit);
      case Ok(target) =>
        var edge: Edge := EdgeTriple(model, field, target);
        var o1 := Search(registry, args, target, models, edges + {edge}, depth + 1, depthLimit);
        SearchGrows(registry, args, target, models, edges + {edge}, depth + 1, depthLimit);
        if !(o1.error.Some? && !o1.error.value.UnknownModelTypeError?) {
          CandidatesComplete(registry, args, model, field, candidates, j + 1, o1.models, o1.edges, depth, depthLimit);
          CandidatesGrow(registry, args, model, field, candidates, j + 1, o1.models, o1.edges, depth, depthLimit);
          assert o == SearchCandidates(registry, args, model, field, candidates, j + 1, o1.models, o1.edges, depth, depthLimit);
        }
    }
  }

  /**
   * When the loop over `model.fields[i..]` completes without an error, each of those fields has
   * evaluated candidates, and each candidate an adapter accepts has its edge and model recorded.
   */
  lemma {:induction false} FieldsComplete(registry: Registry, args: ArgsOracle, model: Model, i: nat,
                                          models: set<Model>, edges: set<Edge>, depth: int, depthLimit: int)
    requires i <= |model.fields| && depth < depthLimit && model in models
    ensures var o := SearchFields(registry, args, model, i, models, edges, depth, depthLimit);
            o.error.None? ==>
              forall k :: i <= k < |model.fields| ==>
                && args(model.fields[k]).Args?
                && forall c :: c in args(model.fields[k]).candidates && AdaptModel(registry, c).Ok? ==>
                     EdgeTriple(model, model.fields[k], AdaptModel(registry, c).value) in o.edges
                     && AdaptModel(registry, c).value in o.models
    decreases |model.fields| - i
  {
    if i < |model.fields| {
      var field := model.fields[i];
      var o := SearchFields(registry, args, model, i, models, edges, depth, depthLimit);
      if args(field).Args? {
        var candidates := args(field).candidates;
        var o1 := SearchCandidates(registry, args, model, field, candidates, 0, models, edges, depth, depthLimit);
        if o1.error.None? {
          CandidatesComplete(registry, args, model, field, candidates, 0, models, edges, depth, depthLimit);
          CandidatesGrow(registry, args, model, field, candidates, 0, models, edges, depth, depthLimit);
          FieldsComplete(registry, args, model, i + 1, o1.models, o1.edges, depth, depthLimit);
          FieldsGrow(registry, args, model, i + 1, o1.models, o1.edges, depth, depthLimit);
          forall c | c in candidates && AdaptModel(registry, c).Ok? && o.error.None?
            ensures EdgeTriple(model, field, AdaptModel(registry, c).value) in o.edges
                    && AdaptModel(registry, c).value in o.models
          {
            var n :| 0 <= n < |candidates| && candidates[n] == c;
          }
        }
      }
    }
  }

  /**
   * A search from an unseen model below the depth limit that completes has recorded, for every
   * field of the model and every candidate type of it that an adapter accepts, the edge to the
   * adapted model and that model.
   */
  lemma SearchComplete(registry: Registry, args: ArgsOracle, model: Model,
                       models: set<Model>, edges: set<Edge>, depth: int, depthLimit: int)
    requires model !in models && depth < depthLimit
    ensures var o := Search(registry, args, model, models, edges, depth, depthLimit);
            o.error.None? ==>
              forall f :: f in model.fields ==>
                && args(f).Args?
                && forall c :: c in args(f).candidates && AdaptModel(registry, c).Ok? ==>
                     EdgeTriple(model, f, AdaptModel(registry, c).value) in o.edges
                     && AdaptModel(registry, c).value in o.models
  {
    FieldsComplete(registry, args, model, 0, models + {model}, edges, depth, depthLimit);
    var o := Search(registry, args, model, models, edges, depth, depthLimit);
    forall f | f in model.fields && o.error.None?
      ensures && args(f).Args?
              && forall c :: c in args(f).candidates && AdaptModel(registry, c).Ok? ==>
                   EdgeTriple(model, f, AdaptModel(registry, c).value) in o.edges
                   && AdaptModel(registry, c).value in o.models
    {
      var k :| 0 <= k < |model.fields| && model.fields[k] == f;
    }
  }

  // ---------------------------------------------------------------------------------------------
  // Orders

  /** Ordering models by key is a strict total order on models that no two share a key. */
  lemma ModelLessTotal(models: set<Model>)
    requires KeysIdentify(models)
    ensures Sorting.StrictTotalOn(ModelLess, models)
  {
    forall a | a in models
      ensures !ModelLess(a, a)
    {
      StringLessIrreflexive(a.key);
    }
    forall a, b, c | a in models && b in models && c in models && ModelLess(a, b) && ModelLess(b, c)
      ensures ModelLess(a, c)
    {
      StringLessTransitive(a.key, b.key, c.key);
    }
    forall a, b | a in models && b in models && a != b
      ensures ModelLess(a, b) || ModelLess(b, a)
    {
      StringLessTotal(a.key, b.key);
    }
  }

  lemma EdgeLessIrreflexive(a: Edge)
    ensures !EdgeLess(a, a)
  {
    StringLessIrreflexive(a.target.key);
  }

  lemma EdgeLessTransitive(a: Edge, b: Edge, c: Edge)
    requires EdgeLess(a, b) && EdgeLess(b, c)
    ensures EdgeLess(a, c)
  {
    var ka, kb, kc := a.source.key, b.source.key, c.source.key;
    if ka != kb && kb != kc {
      StringLessTransitive(ka, kb, kc);
      if ka == kc {
        StringLessIrreflexive(ka);
      }
    } else if ka == kb && kb == kc && FieldIndex(a) == FieldIndex(b) && FieldIndex(b) == FieldIndex(c) {
      StringLessTransitive(a.target.key, b.target.key, c.target.key);
    }
  }

  /**
   * `Edge.__lt__` is a strict total order on edges whose endpoints no two share a key: two edges
   * that agree on the source's key, the field's position and the target's key are one edge.
   */
  lemma EdgeLessTotal(edges: set<Edge>)
    requires KeysIdentify(Endpoints(edges))
    ensures Sorting.StrictTotalOn(EdgeLess, edges)
  {
    forall a | a in edges
      ensures !EdgeLess(a, a)
    {
      EdgeLessIrreflexive(a);
    }
    forall a, b, c | a in edges && b in edges && c in edges && EdgeLess(a, b) && EdgeLess(b, c)
      ensures EdgeLess(a, c)
    {
      EdgeLessTransitive(a, b, c);
    }
    forall a, b | a in edges && b in edges && a != b
      ensures EdgeLess(a, b) || EdgeLess(b, a)
    {
      if a.source.key != b.source.key {
        StringLessTotal(a.source.key, b.source.key);
      } else {
        assert a.source == b.source;
        if FieldIndex(a) == FieldIndex(b) {
          assert a.sourceField == b.sourceField;
          assert a.target in Endpoints(edges) && b.target in Endpoints(edges);
          assert a.target.key != b.target.key;
          StringLessTotal(a.target.key, b.target.key);
        }
      }
    }
  }

  /**
   * Diagrams built from two orderings of the same models and edges are equal, whatever the
   * orientation, as long as no two of the models, or of the edges' endpoints, share a key.
   */
  lemma DiagramPermutationEqual(models: seq<Model>, models': seq<Model>, edges: seq<Edge>, edges': seq<Edge>,
                                orientation: Orientation, orientation': Orientation)
    requires models != [] && multiset(models) == multiset(models') && multiset(edges) == multiset(edges')
    requires KeysIdentify(Sorting.Elems(models)) && KeysIdentify(Endpoints(Sorting.Elems(edges)))
    ensures NewDiagram(models, edges, orientation).Ok? && NewDiagram(models', edges', orientation').Ok?
    ensures DiagramEquals(NewDiagram(models, edges, orientation).value, NewDiagram(models', edges', orientation').value)
  {
    assert models' != [] by {
      assert models[0] in multiset(models');
    }
    ModelLessTotal(Sorting.Elems(models));
    EdgeLessTotal(Sorting.Elems(edges));
    Sorting.SortPermutationInvariant(models, models', ModelLess);
    Sorting.SortPermutationInvariant(edges, edges', EdgeLess);
  }
}

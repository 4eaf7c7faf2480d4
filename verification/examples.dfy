/**
 * Small concrete scenarios: three models `B -> A -> C` under one adapter that accepts their
 * qualified names, with each field's candidate type being its declared type.
 */
module Scenarios {

  import opened Wrappers
  import opened Base
  import opened Erd
  import opened ErdCreate
  import Pydantic

  const FieldC := Field("c", "demo.C", None, false, true)
  const FieldA := Field("a", "demo.A", None, true, false)
  const ModelC := Model("demo.C", "C", [])
  const ModelA := Model("demo.A", "A", [FieldC])
  const ModelB := Model("demo.B", "B", [FieldA])

  function Wrap(t: TypeRef): Model
  {
    if t == "demo.A" then ModelA else if t == "demo.B" then ModelB else ModelC
  }

  predicate IsDemoModel(t: TypeRef)
  {
    t == "demo.A" || t == "demo.B" || t == "demo.C"
  }

  const Demo := Adapter("demo", IsDemoModel, Wrap)
  const Registry1: Registry := [Demo]

  function CandidateOf(f: Field): ArgsResult
  {
    Args([f.typeName])
  }

  const EdgeBA: Edge := EdgeTriple(ModelB, FieldA, ModelA)
  const EdgeAC: Edge := EdgeTriple(ModelA, FieldC, ModelC)

  /** From `B` at depth 0 with limit 1: `B -> A` is recorded, and `A` is seen but not expanded. */
  lemma SearchFromB()
    ensures Search(Registry1, CandidateOf, ModelB, {}, {}, 0, 1) == SearchOutcome({ModelB, ModelA}, {EdgeBA}, None)
  {
    assert AdaptModel(Registry1, "demo.A") == Ok(ModelA);
    var atA := Search(Registry1, CandidateOf, ModelA, {ModelB}, {EdgeBA}, 1, 1);
    assert atA == SearchOutcome({ModelB, ModelA}, {EdgeBA}, None);
    assert SearchCandidates(Registry1, CandidateOf, ModelB, FieldA, ["demo.A"], 1, atA.models, atA.edges, 0, 1)
           == atA;
    assert SearchCandidates(Registry1, CandidateOf, ModelB, FieldA, ["demo.A"], 0, {ModelB}, {}, 0, 1) == atA;
    assert SearchFields(Registry1, CandidateOf, ModelB, 1, atA.models, atA.edges, 0, 1) == atA;
    assert Search(Registry1, CandidateOf, ModelB, {}, {}, 0, 1) == atA;
  }

  /**
   * With `depth_limit = 1` the roots' order decides what is found: from `B` first, `A` is seen
   * at depth 1 and not expanded, and being seen it is then skipped as a root, so `C` is never
   * reached; from `A` first, `C` is.
   */
  lemma RootOrderDecidesReach()
    ensures SearchRoots(Registry1, CandidateOf, ["demo.B", "demo.A"], 0, {}, {}, 1)
            == SearchOutcome({ModelB, ModelA}, {EdgeBA}, None)
    ensures SearchRoots(Registry1, CandidateOf, ["demo.A", "demo.B"], 0, {}, {}, 1)
            == SearchOutcome({ModelA, ModelC, ModelB}, {EdgeAC, EdgeBA}, None)
  {
    assert AdaptModel(Registry1, "demo.A") == Ok(ModelA);
    assert AdaptModel(Registry1, "demo.B") == Ok(ModelB);
    assert AdaptModel(Registry1, "demo.C") == Ok(ModelC);

    // B first: B at depth 0 adds B -> A, then A at depth 1 is only recorded.
    SearchFromB();
    var atA := SearchOutcome({ModelB, ModelA}, {EdgeBA}, None);
    assert Search(Registry1, CandidateOf, ModelA, atA.models, atA.edges, 0, 1) == atA;
    assert SearchRoots(Registry1, CandidateOf, ["demo.B", "demo.A"], 2, atA.models, atA.edges, 1) == atA;
    assert SearchRoots(Registry1, CandidateOf, ["demo.B", "demo.A"], 1, atA.models, atA.edges, 1) == atA;

    // A first: A at depth 0 adds A -> C and C; then B adds B -> A.
    var afterA := SearchOutcome({ModelA, ModelC}, {EdgeAC}, None);
    assert Search(Registry1, CandidateOf, ModelC, {ModelA}, {EdgeAC}, 1, 1) == afterA;
    assert SearchCandidates(Registry1, CandidateOf, ModelA, FieldC, ["demo.C"], 1, afterA.models, afterA.edges, 0, 1)
           == afterA;
    assert SearchCandidates(Registry1, CandidateOf, ModelA, FieldC, ["demo.C"], 0, {ModelA}, {}, 0, 1) == afterA;
    assert SearchFields(Registry1, CandidateOf, ModelA, 1, afterA.models, afterA.edges, 0, 1) == afterA;
    assert Search(Registry1, CandidateOf, ModelA, {}, {}, 0, 1) == afterA;

    var final := SearchOutcome({ModelA, ModelC, ModelB}, {EdgeAC, EdgeBA}, None);
    assert Search(Registry1, CandidateOf, ModelA, afterA.models + {ModelB}, afterA.edges + {EdgeBA}, 1, 1)
           == final;
    assert SearchCandidates(Registry1, CandidateOf, ModelB, FieldA, ["demo.A"], 1, final.models, final.edges, 0, 1)
           == final;
    assert SearchCandidates(Registry1, CandidateOf, ModelB, FieldA, ["demo.A"], 0, afterA.models + {ModelB},
                            afterA.edges, 0, 1) == final;
    assert SearchFields(Registry1, CandidateOf, ModelB, 1, final.models, final.edges, 0, 1) == final;
    assert Search(Registry1, CandidateOf, ModelB, afterA.models, afterA.edges, 0, 1) == final;
    assert SearchRoots(Registry1, CandidateOf, ["demo.A", "demo.B"], 2, final.models, final.edges, 1) == final;
    assert SearchRoots(Registry1, CandidateOf, ["demo.A", "demo.B"], 1, afterA.models, afterA.edges, 1) == final;
  }

  /** A class that two adapters accept is found twice in its module. */
  lemma FindModelsPerAdapter()
    ensures FindModels([Demo, Adapter("other", IsDemoModel, Wrap)], "demo",
                       [Member("demo.A", "demo"), Member("other.X", "other")])
            == ["demo.A", "demo.A"]
  {
    var registry := [Demo, Adapter("other", IsDemoModel, Wrap)];
    var members := [Member("demo.A", "demo"), Member("other.X", "other")];
    assert members[1..][1..] == [];
    assert FindModels(registry, "demo", members[1..]) == [];
    assert Accepting(registry[1..][1..], "demo.A") == [];
    assert Accepting(registry[1..], "demo.A") == ["demo.A"];
    assert Accepting(registry, "demo.A") == ["demo.A", "demo.A"];
  }

  lemma CollectB()
    ensures CollectRoots(Registry1, [TypeArg("demo.B")]) == Ok(["demo.B"])
    ensures SearchRoots(Registry1, CandidateOf, ["demo.B"], 0, {}, {}, 1)
            == SearchOutcome({ModelB, ModelA}, {EdgeBA}, None)
  {
    SearchFromB();
    var atA := SearchOutcome({ModelB, ModelA}, {EdgeBA}, None);
    assert AdaptModel(Registry1, "demo.B") == Ok(ModelB);
    assert SearchRoots(Registry1, CandidateOf, ["demo.B"], 1, atA.models, atA.edges, 1) == atA;
    assert [TypeArg("demo.B")][1..] == [];
    assert CollectRoots(Registry1, []) == Ok([]);
    assert ["demo.B"] + [] == ["demo.B"];
  }

  /** A listing of a one-element multiset is that element alone. */
  lemma ListedSingleton<T>(xs: seq<T>, x: T)
    requires multiset(xs) == multiset({x})
    ensures xs == [x]
  {
    assert multiset({x}) == multiset{x};
    assert |xs| == |multiset(xs)| == 1;
    assert xs[0] in multiset(xs);
  }

  /** What the diagram of `B` holds, given what `create` guarantees about it. */
  lemma DiagramOfB(d: Diagram)
    requires multiset(d.models) == multiset({ModelB, ModelA}) && multiset(d.edges) == multiset({EdgeBA})
    requires exists m :: m in d.models && d.name == m.name
    ensures d.name == "A" || d.name == "B"
    ensures d.edges == [EdgeBA]
  {
    ListedSingleton(d.edges, EdgeBA);
    var m :| m in d.models && d.name == m.name;
    assert m in multiset(d.models);
  }

  /** `create(B, depth_limit=1, orientation=TB)` gives a horizontal diagram of `A` and `B`. */
  method CreateIgnoresOrientation() returns (r: Result<Diagram, Error>)
    ensures r.Ok? && r.value.orientation == "LR"
    ensures multiset(r.value.models) == multiset({ModelA, ModelB}) && r.value.edges == [EdgeBA]
    ensures r.value.name == "A" || r.value.name == "B"
  {
    CollectB();
    r := Create(Registry1, CandidateOf, [TypeArg("demo.B")], 1, Vertical);
    assert r.Ok?;
    DiagramOfB(r.value);
  }

  /**
   * A fresh model with one described field, rendered twice: the first table's header spans two
   * columns, the second's three, over the same three-cell field row.
   */
  method RenderTwice(escape: string -> string) returns (first: string, second: string)
    ensures var note := Field("note", "str", Some("A note."), false, false);
            var rows := Pydantic.FieldRows([note], true, escape);
            && first == Pydantic.ModelTable(Pydantic.HeaderRows("Memo", None, 2, escape), rows)
            && second == Pydantic.ModelTable(Pydantic.HeaderRows("Memo", None, 3, escape), rows)
  {
    var note := Field("note", "str", Some("A note."), false, false);
    assert Pydantic.Truthy([note][0].description);
    var memo := new Pydantic.PydanticModel("Memo", None, [note]);
    first := Pydantic.BuildModelTable(memo, escape);
    second := Pydantic.BuildModelTable(memo, escape);
  }
}

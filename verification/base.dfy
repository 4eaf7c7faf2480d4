/**
 * The capability contracts the diagram code is written against. `erdantic/base.py` and
 * `erdantic/typing.py` are not part of this model; what the modelled code uses of them is
 * stated here:
 *  - a Model exposes a key (the fully qualified name of the class it wraps), a display name and
 *    its ordered field list; Models compare, hash and order by key;
 *  - a Field exposes its name, the rendered name of its declared type, an optional description
 *    and the two predicates is_many and is_nullable;
 *  - the adapter registry is an ordered collection of adapters, each a predicate `is_model_type`
 *    together with the adapter constructor;
 *  - `get_recursive_args` is an oracle from a field to its candidate types, or to one of the two
 *    forward-reference failures.
 */
module Base {

  import opened Wrappers
  import opened PyStr

  /** A Python object passed where a model class is expected, named by its qualified name. */
  type TypeRef = string

  datatype Field = Field(
    name: string,
    typeName: string,
    description: Option<string>,
    isMany: bool,
    isNullable: bool)

  datatype Model = Model(key: string, name: string, fields: seq<Field>)

  /** One entry of `model_adapter_registry`: its identifier, `is_model_type`, and the constructor. */
  datatype Adapter = Adapter(id: string, isModelType: TypeRef -> bool, wrap: TypeRef -> Model)

  type Registry = seq<Adapter>

  /**
   * What `get_recursive_args(field.type_obj)` gives: the leaf types of the declared type, or the
   * private `_StringForwardRefError` / `_UnevaluatedForwardRefError` carrying the reference.
   */
  datatype ArgsResult =
    | Args(candidates: seq<TypeRef>)
    | StringForwardRef(ref: string)
    | UnevaluatedForwardRef(ref: string)

  type ArgsOracle = Field -> ArgsResult

  /** `Model.__lt__`: models are ordered by key. */
  predicate ModelLess(a: Model, b: Model)
  {
    StringLess(a.key, b.key)
  }

  /**
   * Models compare equal by key in `base.py`; here they are values, and the two notions agree on
   * a collection in which no two different models share a key.
   */
  ghost predicate KeysIdentify(models: set<Model>)
  {
    forall a, b :: a in models && b in models && a.key == b.key ==> a == b
  }
}

# erdantic, modelled in Dafny

erdantic draws entity relationship diagrams of data model classes. This project models its
core, in two parts.

**Building the diagram** (`erdantic/erd.py`):
- `create` collects root classes, expanding each module into the model classes defined in it.
- It adapts every root through the adapter registry (`adapt_model`).
- From each root it searches the composition graph (`search_composition_graph`). The search adds every model reached within `depth_limit` hops to the caller's `seen_models` set, and every field-to-model relationship to `seen_edges`.
- From those two sets it builds an `EntityRelationshipDiagram` whose models and edges are sorted.

**Drawing a model** (`erdantic/pydantic.py`): each Pydantic model becomes an HTML-like table.
- A header row gives the model's name; an optional row gives its description.
- There is one row per field, in alternating colours.
- Long descriptions are word-wrapped.
- Literal string unions are shown as `str`.

Files:
- `wrappers.dfy`: `Option` and `Result`.
- `pystr.dfy`: the Python string built-ins the code relies on, with their Python meaning:
  - `split(" ")`, which keeps empty pieces;
  - `sep.join`, and `re.sub` of a run of one character;
  - `in` / `index`, `str(int)`, and `<` on strings.
- `base.dfy`: the interface the core is written against (`Model`, `Field`, the adapter registry, the `get_recursive_args` oracle). `erdantic/base.py` and `erdantic/typing.py` are not part of this model.
- `sorting.dfy`: Python's `sorted` over a `__lt__`, and the uniqueness of a sorted permutation.
- `erd.dfy`:
  - `Edge` is a subset type: a triple whose field belongs to its source.
  - `dot_arrowhead`, the edge order, the diagram and `adapt_model`.
  - `find_models` over an explicit member list.
  - The search, as functions, and as the method `SearchCompositionGraph` that updates a `SeenSets` object in place.
- `erd_properties.dfy`: what the search preserves and guarantees; the edge and model orders; diagram equality.
- `erd_create.dfy`: the `Create` method, and what the diagram it returns satisfies.
- `pydantic.dfy`:
  - `get_type_name` with an explicit recogniser for its regular expression;
  - `split_description_lines` as a loop method proved equal to a recursive definition;
  - the row and table rendering over a structured `Cell`;
  - the `PydanticModel` class with its field cache, and `build_model_table`.
- `examples.dfy`: concrete scenarios.

The model follows the code as written, including three behaviours a caller may not expect:
- The diagram is always horizontal. `create` documents `orientation` as the direction the graph should be drawn in (`erdantic/erd.py:186`), but does not pass it on (`erdantic/erd.py:213`).
- The diagram's name is not necessarily the first root's. It is the name of the first model in `list(seen_models)`, and that order is not fixed (`erdantic/erd.py:98`, `213`).
- A model first reached at the depth limit is recorded but never expanded. If it is met again closer to a root, even as a root itself, it is not expanded either, because the seen check comes first (`erdantic/erd.py:274-277`; `Scenarios.RootOrderDecidesReach`).

Models, fields and edges are Dafny values compared structurally:
- Edges: `__hash__`/`__eq__` on the triple (`erdantic/erd.py:61-65`) become datatype equality, so adding an edge twice to `seen_edges` leaves the set unchanged.
- Models: `base.py` compares them by key. The two notions agree on any collection where no two models share a key (`Base.KeysIdentify`). Only the ordering and determinism lemmas need that assumption.

`html.escape` is a parameter `escape: string -> string`. `inspect.getdoc` of a model is the constant `modelDescription`.

## Model

| member | source | states |
|---|---|---|
| Erd.NewEdge | erdantic/erd.py:37-44 | An edge is built exactly when the field belongs to the source; it stores the three values unchanged; otherwise the result is `UnknownFieldError(source, field)` |
| Erd.DotArrowhead | erdantic/erd.py:55-59 | A many field gives `crowodot`; a single nullable field gives `noneteeodot`; a single mandatory field gives `noneteetee` |
| Erd.IndexOfField | erdantic/erd.py:73-78 | The index used by the edge order is the first position of the field in its source's field list |
| ErdProperties.EdgeLessIrreflexive | erdantic/erd.py:73-78 | No edge is before itself in the (source, field index, target) order |
| ErdProperties.EdgeLessTransitive | erdantic/erd.py:73-78 | The edge order is transitive |
| ErdProperties.EdgeLessTotal | erdantic/erd.py:73-78 | Two different edges are always ordered one way or the other, when keys identify the models they join |
| ErdProperties.ModelLessTotal | erdantic/erd.py:96 | Ordering models by key is a strict total order on models whose keys identify them |
| Erd.NewDiagram | erdantic/erd.py:95-99 | No models gives `NoModelsError`, where Python fails indexing `models[0]`. Otherwise models and edges are permutations of the inputs, sorted whenever the order is total on them; the name is the first input model's; the orientation is the given one's value |
| ErdProperties.DiagramPermutationEqual | erdantic/erd.py:95-97 | Diagrams built from permutations of the same models and edges are equal under `__eq__`, whatever their orientation |
| Sorting.SortedUnique | erdantic/erd.py:96-97 | Two sorted permutations of the same elements are the same sequence when the order is total, so `sorted` does not depend on its input order |
| Sorting.SortPermutationInvariant | erdantic/erd.py:96-97 | Sorting two permutations of the same elements gives the same sequence |
| Sorting.SortSortedIfTotal | erdantic/erd.py:96-97 | When the order is total on the elements, the model of `sorted` returns a sorted sequence; `Sort` keeps the multiset of its input |
| Erd.AdaptModel | erdantic/erd.py:237-253 | It succeeds exactly when some registry entry accepts the object, and then wraps it with the first such entry; otherwise the result is `UnknownModelTypeError(obj)` |
| Erd.Accepting | erdantic/erd.py:232-234 | Every element yielded is the class itself, and something is yielded exactly when some registry entry accepts it |
| Erd.AcceptingOncePerAdapter | erdantic/erd.py:232-234 | The class is yielded exactly as many times as there are registry entries that accept it |
| Erd.FindModels | erdantic/erd.py:216-234 | Everything yielded is a class defined in the module itself that some adapter accepts; every such class is yielded |
| Erd.SearchCompositionGraph | erdantic/erd.py:256-300 | The new seen sets, and the error raised, are exactly those of the recursive `Erd.Search` applied to the old sets |
| ErdProperties.SearchGrows | erdantic/erd.py:256-300 | The search only adds to the seen sets. Every new edge joins seen models and is justified: some candidate of its field adapts to its target. Every new model is within the remaining depth budget of the searched model, and any error is a justified forward-reference failure. An already-seen model changes nothing; at or past the limit only the model itself is added, with no edges |
| ErdProperties.FieldsGrow | erdantic/erd.py:278-300 | The same guarantees for the loop over the remaining fields of a model |
| ErdProperties.CandidatesGrow | erdantic/erd.py:280-292 | The same guarantees for the loop over the remaining candidate types of a field; unknown candidates are skipped |
| ErdProperties.SearchKeepsClosed | erdantic/erd.py:278-290 | If every seen edge joins seen models before a search, the same holds after it |
| ErdProperties.SearchErrorIsForwardRef | erdantic/erd.py:289-300 | A search can only fail with `StringForwardRefError` or `UnevaluatedForwardRefError`; `UnknownModelTypeError` never escapes it |
| ErdProperties.SearchComplete | erdantic/erd.py:274-290 | A search of an unseen model below the limit that raises nothing has resolved every field's candidates. Every candidate that adapts has its edge recorded and its target seen |
| ErdProperties.WithinMono | erdantic/erd.py:283 | A model reachable within n hops is still reachable once more edges are recorded, within any number of hops at least n |
| ErdProperties.GrowsTrans | erdantic/erd.py:278-290 | A search within budget h1 followed by one within a budget h2 at least h1 together satisfy the guarantees of one search within h2 |
| ErdCreate.CollectRoots | erdantic/erd.py:193-200 | Collecting roots fails exactly when some argument is neither a class nor a module, with the `NotATypeError` of the first such argument. Otherwise every class given and every model `find_models` finds in a module given is a root, and every root is one of these |
| ErdCreate.CollectRootsAppend | erdantic/erd.py:193-200 | The roots of two runs of arguments are the first run's roots followed by the second's, and an error in the first run is the error of both, so roots keep the order of the arguments |
| ErdCreate.RootsGrow | erdantic/erd.py:205-212 | The loop over the roots only adds to the seen sets. Every new edge joins seen models and is justified, and every new model is within `depth_limit` hops of a root's model. An error is a justified forward-reference failure or the `UnknownModelTypeError` of a root. If the loop completes, every remaining root has been adapted and its model seen |
| ErdCreate.RootsAtDepthLimit | erdantic/erd.py:205-212 | With `depth_limit <= 0` the roots add no edges and no models other than the roots' own |
| ErdCreate.ListOf | erdantic/erd.py:213 | `list(s)` holds each element of the set exactly once, in some order |
| ErdCreate.Create | erdantic/erd.py:175-213 | An argument that is neither a class nor a module gives `NotATypeError`; a search error is returned as is and is justified or belongs to a root. Otherwise the result is the diagram of some listing of the seen sets, built horizontal whatever `orientation` says, with `NoModelsError` exactly when there are no roots. Every diagram returned is sound: no repeats, justified edges between its models, every model within `depth_limit` hops of a root, every root present, sorted when keys identify, named after one of its models, and only the roots' models with no edges when `depth_limit <= 0` |
| ErdCreate.DiagramFromSeen | erdantic/erd.py:213 | Any listing of the seen sets of a completed search yields a sound diagram |
| Pydantic.QuotedOptionsIff | erdantic/pydantic.py:35 | The recogniser accepts exactly the strings matched by one or more repetitions of `".+",?` |
| Pydantic.TextOptionIff | erdantic/pydantic.py:35-41 | The recogniser decides `TEXT_OPTION_PATTERN.search`. That includes `^` and `$` anchoring, `$` before a final newline, and `.` excluding newlines |
| Pydantic.GetTypeName | erdantic/pydantic.py:38-44 | A type name matching the pattern is shown as `str`; any other is shown unchanged |
| Pydantic.Normalize | erdantic/pydantic.py:54-55 | After the two substitutions there is no newline and no two adjacent spaces |
| PyStr.CollapseRunsWords | erdantic/pydantic.py:54-55 | Collapsing each run of a character into one space keeps the space-separated words of the string in which that character is read as a space |
| Pydantic.NormalizeWords | erdantic/pydantic.py:54-55 | The normalised message has the words of the original message, with newlines read as spaces |
| Pydantic.SplitDescriptionLines | erdantic/pydantic.py:47-73 | The loop computes the recursive wrap definition: the message unchanged below the limit, otherwise the wrapped lines joined with `"\n<br></br>"` |
| Pydantic.SplitDescriptionSpec | erdantic/pydantic.py:47-73 | A message shorter than the limit is returned unchanged. A longer one is returned as its wrapped lines joined with `"\n<br></br>"`. Joined back with spaces, the lines hold exactly the message's words in order, none dropped or split. Every line is non-empty, has no newline, and fits the limit unless it is a single word |
| Pydantic.DescriptionWords | erdantic/pydantic.py:57-71 | The words of the wrapped lines, in order, are the words of the normalised message |
| Pydantic.DescriptionLinesOk | erdantic/pydantic.py:58-71 | Every wrapped line is non-empty, newline-free, and within the limit unless it is a single word |
| Pydantic.WrapStepWords | erdantic/pydantic.py:59-66 | One turn of the wrap loop keeps every word seen so far and adds the piece's |
| Pydantic.WordsOfJoin | erdantic/pydantic.py:73 | The words of lines joined with spaces are the words of the lines, in order |
| Pydantic.FirstParagraph | erdantic/pydantic.py:82-83 | The result is a prefix that ends where a `"\n\n"` starts and before which the text holds no `"\n\n"`, so the cut is at the first one; with none, it is the whole text |
| Pydantic.DescriptionRow | erdantic/pydantic.py:80-86 | There is no row exactly when the description is missing or empty. Otherwise the row is one non-empty cell over `column_count` columns, holding the escaped first paragraph wrapped at 100 |
| Pydantic.GetHeaderRows | erdantic/pydantic.py:89-97 | The header always starts with the name row, and is longer exactly when the description is neither missing nor empty |
| Pydantic.RowColor | erdantic/pydantic.py:102-104 | Indices 0, 2, … get `#FFFFFF`; indices 1, 3, … get `#e3e3e3` |
| Pydantic.FieldRowCells | erdantic/pydantic.py:100-119 | `render_description` defaults to whether the description is not None. A described row has three cells: the bold name, the raw type name, and the escaped description wrapped at 40, with an empty text standing for a missing description. Otherwise the row has two cells, the name and `get_type_name`. All cells are in the row's colour, with the west port first and the east port last |
| Pydantic.FieldRowsAppend | erdantic/pydantic.py:122-128 | Field rows come in field order: one more field adds its row, numbered next, at the end |
| Pydantic.PydanticModel.constructor | erdantic/pydantic.py:192-199 | A new model starts with an empty field cache |
| Pydantic.PydanticModel.Fields | erdantic/pydantic.py:205-209 | The first access fills an empty cache with the declared fields, and every access returns the cache |
| Pydantic.PydanticModel.HasFieldDescriptions | erdantic/pydantic.py:211-216 | True exactly when some cached field has a description that is neither missing nor empty. It inspects only the cache and never fills it |
| Pydantic.BuildModelTable | erdantic/pydantic.py:131-135 | The cache is filled. The header's column count is taken from the cache as it was before the call; the field rows are rendered with descriptions decided on the filled cache |
| Pydantic.ColumnCountMatchesRows | erdantic/pydantic.py:131-135 | The header spans as many columns as each field row has cells exactly when the cache was already filled, or no field has a description |
| Pydantic.FirstRenderColumnMismatch | erdantic/pydantic.py:131-135 | A fresh model with one described field gets a header over two columns and a field row of three cells |
| Pydantic.BuildModelTableFieldsFirst | erdantic/pydantic.py:131-135 | With the fields read first, the header spans exactly as many columns as every field row has cells |
| Scenarios.RootOrderDecidesReach | erdantic/erd.py:274-277 | With `depth_limit = 1` and `B -> A -> C`, the roots `[B, A]` never reach `C`, while the roots `[A, B]` do |
| Scenarios.FindModelsPerAdapter | erdantic/erd.py:230-234 | A class accepted by two adapters is found twice |
| Scenarios.CreateIgnoresOrientation | erdantic/erd.py:175-213 | `create(B, depth_limit=1, orientation=TB)` gives a horizontal diagram of `A` and `B` with the edge `B.a -> A` |
| Scenarios.RenderTwice | erdantic/pydantic.py:131-135 | Two renders of a fresh model with a described field differ only in the header's column count, 2 then 3 |

## Left out

- Rendering through Graphviz, because `pygraphviz` is a foreign library. This covers `EntityRelationshipDiagram.graph`, `draw`, `to_dot` and the notebook `_repr_*` methods, and the module-level `draw` and `to_dot`.
- `erdantic/cli.py`: argument parsing, dynamic imports, file output.
- `erdantic/base.py` and `erdantic/typing.py` are not part of this model. `Model`, `Field`, the adapter registry and `get_recursive_args` are stated as the interface in `base.dfy`. `get_recursive_args` is an oracle from a field to its candidate types or to a forward-reference failure, which it returns as a whole.
- Class identity of models and fields: they are compared as values. Python hashes fields by object identity and compares models by key. Hash collisions are not modelled.
- `get_recursive_args` is keyed on the `Field` value (name, rendered type name, description, flags), not on `field.type_obj`: two fields that render alike but name different classes get the same candidates. No proved property depends on telling them apart.
- Default arguments: `create` (`depth_limit=1`, `orientation=HORIZONTAL`), `search_composition_graph` (`depth=0`, `depth_limit=1`) and `split_description_lines` (`character_limit=40`) carry them as Dafny default parameters. So do `get_model_name_row` and `get_description_row` (`column_count=2`), `get_header_rows` (`description=None`, `column_count=2`) and `get_field_row` (`render_description=None`). The escaping function those members take last has no default, so it is passed by name when the defaults are used.
- `find_models` takes the module's members as a list of (class, defining module) pairs. Reflection over a live module is not modelled. The list is assumed to be in the order `inspect.getmembers` returns, which sorts members by name; that order fixes the order of a module's roots and so, with a depth limit, what is reached.
- `html.escape` is an abstract parameter, and `inspect.getdoc` an abstract string, because both are library code.
- Regular expressions in general. Only `TEXT_OPTION_PATTERN` is decided, with its own reference definition.
- `PydanticModel.dot_label` and the `USE_LEGACY` switch, the `docstring` property, the `is_model_type` / `isinstance` checks, and the internals of `PydanticField`. These are Pydantic library behaviour: its field shape, `allow_none`, `outer_type_` and `field_info`. Fields carry their name, rendered type name, description, `is_many` and `is_nullable` as plain values.
- `Erd.Diagram`: modelled as a datatype and not an object, because nothing updates a diagram after `__init__`. `__hash__` is modelled only through the equality it defines (`Erd.DiagramEquals`).
- `Pydantic.ModelNameRow`, `Pydantic.FieldRow` and `Pydantic.FieldRows`: rendered from structured cells. No lemma states the byte-for-byte agreement of the rendering with the format templates, because the long string-literal equalities are beyond what the verifier proves within its limits. The rendering code is written to follow the templates cell by cell.
- `PyStr.IntToString`: `str(int)` is written out in decimal but carries no contract of its own.

## Findings

| source | as written | input that shows it | evidently intended | confidence | as-written member | corrected member |
|---|---|---|---|---|---|---|
| erdantic/pydantic.py:131-135 | The column count is read from `has_field_descriptions` before `model.fields` has filled the cache. On a model whose fields were never read, it is 2 even when a field has a description, while the rows, rendered after the cache is filled, have three cells. Whether `create` leads to it, through models first reached at `depth_limit` whose fields are never read (`erdantic/erd.py:274-277`), is not modelled: `Erd.Model` carries its fields as a value, not as a `PydanticModel` with a cache | A fresh model `Memo` with one field `note` described as `"A note."`: header `colspan="2"`, field row of three cells; rendering it again gives `colspan="3"` | The header spans as many columns as the field rows have cells | medium, not executed | Pydantic.FirstRenderColumnMismatch | Pydantic.BuildModelTableFieldsFirst |

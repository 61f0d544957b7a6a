# hat-json core, modelled in Dafny

This project models the data core of the Python package `hat.json`:

- JSON data and its primitives `equals`, `clone` and `flatten` (module `Data`, with Python's
  insertion-ordered `dict` as the association list of module `Dict`).
- Path-based access: `get`, `set_` and `remove` (module `Path`). Each is an imperative method
  whose loops are the Python loops. `Get`, `Set` and `Remove` flatten the path, and
  `GetAlong`, `SetAlong` and `RemoveAlong` walk it. `SetAlong` and `RemoveAlong` collect the
  parents on the way down. The loops that rebuild the result from those parents are the
  methods `Rewrap` and `Unwind`. Each method is proved equal to a specification function
  (`Lookup`, `Stored`, `Removed`), and the laws of `get`, `set_` and `remove` are proved about
  those functions.
- The observable `Storage` class, whose `set` and `remove` replace the data and notify every
  registered listener.
- The schema-repository functions of `hat.json.schema` (module `Schema`):
  - `create_schema_repository` for schema arguments, with the six supported meta-schema ids
    (`Schema.MetaSchemaIds`) and the default one (`Schema.DefaultMetaSchemaId`);
  - `merge_schema_repositories`.
- The `SchemaRepository` class of `hat.json.repository` (module `Repository`): a two-level
  table from URI scheme to netloc + path to schema. The model covers:
  - construction from schemas and from other repositories;
  - `get_uri_schemes`, `get_schema_ids` and `get_schema`;
  - `to_json` and `from_json`.

Python exceptions become `Result` errors. Each error says which exception the code raises:

- `Path.PathError.InvalidPath` stands for the `ValueError('invalid path')`.
- `Data.EqualsError.KeyError` stands for a `b[key]` on a missing key.
- `Schema.SchemaError` and `Repository.RepoError` stand for the exceptions of the two repositories.

`urllib.parse.urldefrag` and `urlparse` are not modelled; they are parameters:

- `defrag`: the defragmented URL;
- `split`: the scheme, and the netloc followed by the path.

Python coerces non-string arguments to these functions, and the model keeps that coercion (`Schema.UrlArgOf`):

- a falsy non-string becomes the empty bytes value, which is no known meta-schema id;
- any other non-string raises.

## Model

| member | source | states |
|---|---|---|
| Data.Clone | src_py/hat/json/data.py:61-82 | the deep copy is, as a value, the data it copies |
| Data.CloneEquals | src_py/hat/json/data.py:61-82 | `equals(clone(x), x)` is True for all well-formed data |
| Data.Equals | src_py/hat/json/data.py:17-58 | `equals` as written, with KeyError as an error value; its meaning is given by EqualsMeansJsonEquals, EqualsObjects and EqualsMissingKey |
| Data.EqualsItems | src_py/hat/json/data.py:48-51 | the short-circuit `all` over zipped items; its meaning is given by EqualsItemsTrue |
| Data.EqualsFields | src_py/hat/json/data.py:53-56 | the short-circuit `all` over `a`'s keys that indexes `b[key]`; its meaning is given by EqualsFieldsTrue and FieldsMissingKey |
| Data.BoolIsNotNumber | src_py/hat/json/data.py:37-43 | a bool never equals a number, in either argument order |
| Data.NullEqualsOnlyNull | src_py/hat/json/data.py:34-35 | `equals(None, v)` and `equals(v, None)` are True exactly when v is None |
| Data.EqualsItemsTrue | src_py/hat/json/data.py:48-51 | the `all(...)` over zipped items is True iff every pair is equal |
| Data.EqualsArrays | src_py/hat/json/data.py:48-51 | two arrays are equal iff they have the same length and are equal item by item |
| Data.EqualsFieldsTrue | src_py/hat/json/data.py:53-56 | the `all(...)` over `a`'s keys is True iff every key is in `b` with an equal value |
| Data.EqualsObjects | src_py/hat/json/data.py:53-56 | two objects are equal iff they have equally many keys and every key of `a` sits in `b` with an equal value |
| Data.EqualsMissingKey | src_py/hat/json/data.py:53-56 | same-size objects raise KeyError for the first key of `a` missing from `b` when every earlier key compared equal |
| Data.FieldsMissingKey | src_py/hat/json/data.py:56 | the key loop raises KeyError at the first missing key reached |
| Data.EqualsMeansJsonEquals | src_py/hat/json/data.py:17-58 | `equals` returns True exactly when the exception-free structural comparison holds |
| Data.SameReflexive | src_py/hat/json/data.py:17-58 | structural comparison (JSON or Python semantics) is reflexive on well-formed data |
| Data.SameSymmetric | src_py/hat/json/data.py:17-58 | structural comparison (JSON or Python semantics) is symmetric on well-formed data |
| Data.EqualsReflexive | src_py/hat/json/data.py:17-58 | `equals(v, v)` is True for well-formed data |
| Data.EqualsSymmetricWhenTrue | src_py/hat/json/data.py:17-58 | when `equals(a, b)` is True so is `equals(b, a)` |
| Data.JsonEqualsSymmetric | src_py/hat/json/data.py:17-58 | the corrected comparison is symmetric |
| Data.EqualsIsNotSymmetric | src_py/hat/json/data.py:53-56 | two same-size objects on which `equals` raises KeyError one way and returns False the other |
| Data.FlattenNoArrays | src_py/hat/json/data.py:85-104 | `flatten` yields no arrays, and yields a non-array as itself |
| Data.FlattenItemsNoArrays | src_py/hat/json/data.py:99-101 | flattening the items of an array yields no arrays |
| Data.FlattenItemsConcat | src_py/hat/json/data.py:99-101 | flattening concatenated items concatenates the flattenings |
| Data.FlattenArrayConcat | src_py/hat/json/data.py:99-101 | flattening an array of `xs + ys` is flattening `xs` then `ys` |
| Data.FlattenLeaves | src_py/hat/json/data.py:99-104 | items that are not arrays flatten to themselves |
| Data.FlattenIdempotent | src_py/hat/json/data.py:85-104 | flattening a flattening changes nothing |
| Data.FlattenExample | src_py/hat/json/data.py:94-96 | the docstring example `[1, [], [2], {'a': [3]}]` flattens to `[1, 2, {'a': [3]}]` |
| Data.Flatten | src_py/hat/json/data.py:85-104 | `flatten` as written; its laws are FlattenNoArrays, FlattenItemsConcat and FlattenIdempotent |
| Data.FlattenItems | src_py/hat/json/data.py:99-101 | the items case of `flatten`; its laws are FlattenItemsNoArrays, FlattenItemsConcat and FlattenLeaves |
| Path.ToSegment | src_py/hat/json/path.py:34-48 | the check of one path element: a string is a key, an integer an index; its meaning is given by FromSegment, SegmentsValid and SegmentsInvalid |
| Path.FromSegment | src_py/hat/json/path.py:34-48 | every segment is read back from its path element |
| Path.Position | src_py/hat/json/path.py:42-43 | an in-range Python index, negative ones counted from the end, addresses an element |
| Path.Locate | src_py/hat/json/path.py:33-50 | a located path resolves in the data, one segment per element |
| Path.Lookup | src_py/hat/json/path.py:33-50 | the specification of `get`: the invalid-path error, the default at a miss, or the node reached; GetAlong is proved equal to it |
| Path.Get | src_py/hat/json/path.py:15-50 | `get` is the lookup along the flattened path |
| Path.GetAlong | src_py/hat/json/path.py:33-50 | the descent loop returns the lookup: the element reached, the default at the first miss, or the invalid-path error |
| Path.LocateStops | src_py/hat/json/path.py:34-48 | the walk stops with the error at an invalid element, and with the default at a key or index that is absent |
| Path.LocateAdvances | src_py/hat/json/path.py:34-45 | at a present key or index the walk moves on to the child |
| Path.LocateFound | src_py/hat/json/path.py:33-50 | a path is found with given segments iff every element is that segment and they resolve in the data |
| Path.DescendSnoc | src_py/hat/json/path.py:37-43 | descending one more segment takes the child of the node reached |
| Path.DescendAppend | src_py/hat/json/path.py:33-50 | descending along `ss + ts` is descending along `ss`, then along `ts` |
| Path.LocateAppend | src_py/hat/json/path.py:33-50 | a path that fails or misses decides any extension of it; a found one continues from the node reached |
| Path.LookupAppend | src_py/hat/json/path.py:33-50 | `get` along `p + q` is the error, the default, or `get` along `q` from where `p` leads |
| Path.Segments | src_py/hat/json/path.py:74-89 | the segments are read element by element, and any invalid element is the error |
| Path.SegmentsValid | src_py/hat/json/path.py:74-89 | a path of valid elements yields exactly their segments |
| Path.SegmentsInvalid | src_py/hat/json/path.py:86-87 | one invalid element anywhere makes `set_` raise before anything is rebuilt |
| Path.Pad | src_py/hat/json/path.py:99-113 | the padded parent has the old items with `None`s appended (index past the end) or prepended (negative index before the start), and the index is then in range |
| Path.PutAtPlaces | src_py/hat/json/path.py:94-113 | the rebuilt parent holds the value at the key or index and keeps every other key or item; an existing key keeps its place in the key order and a new one is appended; a non-object or non-array parent is replaced by a fresh one |
| Path.PutAt | src_py/hat/json/path.py:94-113 | one step of the rebuild of `set_`; its meaning is given by PutAtPlaces |
| Path.Assign | src_py/hat/json/path.py:91-120 | `set_` along valid segments; its meaning is given by AssignResolves and RewrappedIsAssign |
| Path.Stored | src_py/hat/json/path.py:53-120 | the specification of `set_`; SetAlong is proved equal to it, and StoredFails, StoredThenLookup, AssignAt and AssignKeepsOffPath are its laws |
| Path.Set | src_py/hat/json/path.py:53-120 | `set_` is the store along the flattened path |
| Path.SetAlong | src_py/hat/json/path.py:72-120 | the two loops of `set_` compute the store: the invalid-path error, or the rebuilt data |
| Path.StoredAlong | src_py/hat/json/path.py:72-89 | the parents collected on the way down rebuild the stored value |
| Path.Rewrap | src_py/hat/json/path.py:91-120 | the rebuilding loop wraps the value in its parents from the innermost out |
| Path.ChainedSnoc | src_py/hat/json/path.py:74-89 | each step down extends the chain of (parent, segment) pairs |
| Path.RewrappedIsAssign | src_py/hat/json/path.py:91-120 | rebuilding from the parents is assigning the value along their segments |
| Path.StoredFails | src_py/hat/json/path.py:74-89 | `set_` raises exactly when some path element is invalid |
| Path.AssignResolves | src_py/hat/json/path.py:91-120 | after an assignment the path resolves and leads to the value assigned |
| Path.AssignAt | src_py/hat/json/path.py:91-120 | below any prefix of the path, `set_` leaves the prefix resolving, and the node there is the assignment of the rest of the path into the original node |
| Path.AssignKeepsOffPath | src_py/hat/json/path.py:91-120 | at every level `set_` changes only the member on the path: the node there is the original node with that member set, so every other key or item is kept |
| Path.SetKeepsSiblingsExample | test_pytest/test_path.py:105-108 | `set_({'a': [1, 2], 'b': 3}, ['a', 1], 4)` is `{'a': [1, 4], 'b': 3}` |
| Path.StoredThenLookup | src_py/hat/json/path.py:53-120 | `get` along a path just set returns the value set |
| Path.SetCreatesExample | test_pytest/test_path.py:94-139 | `set_(None, ['a', 1], 'x')` is `{'a': [None, 'x']}`, and a bool path raises |
| Path.SetPadsExample | test_pytest/test_path.py:110-118 | index 4 pads `[1, 2, 3]` at the end, and index -5 pads it at the start |
| Path.GetNestedExample | src_py/hat/json/path.py:23-25 | the docstring lookup of `['a', 2, 0]` in `{'a': [1, 2, [3, 4]]}` gives 3 |
| Path.GetIndexExamples | test_pytest/test_path.py:14-47 | negative indices count from the end, a missing one gives the default, and a string is not indexed |
| Path.DeleteAt | src_py/hat/json/path.py:179-180 | deleting a present key or index leaves an object or an array |
| Path.DeleteAtDrops | src_py/hat/json/path.py:170-180 | deleting drops exactly that key or that item; the other items, and the other entries of an object in their key order, are kept |
| Path.ReplaceAt | src_py/hat/json/path.py:182-183 | replacing at a present key or index leaves an object or an array |
| Path.ReplaceAtPlaces | src_py/hat/json/path.py:170-183 | replacing puts the value at that key or index and keeps everything else, an object's key order included |
| Path.Excise | src_py/hat/json/path.py:165-187 | removing along a non-empty resolving path leaves an object or an array |
| Path.Removed | src_py/hat/json/path.py:123-187 | the specification of `remove`; RemoveAlong is proved equal to it, and RemovedDeletes, ExciseAt and ExciseKeepsOffPath are its laws |
| Path.Remove | src_py/hat/json/path.py:123-187 | `remove` is the removal along the flattened path |
| Path.RemoveAlong | src_py/hat/json/path.py:141-187 | the loops of `remove` compute the removal: the data unchanged at a miss, `None` for the empty path, or the rebuilt data |
| Path.Unwind | src_py/hat/json/path.py:165-187 | the rebuilding loop deletes at the innermost parent and replaces at every outer one |
| Path.Trail | src_py/hat/json/path.py:144-163 | the parents along a path are one per segment |
| Path.TrailSnoc | src_py/hat/json/path.py:144-163 | one more segment adds the node reached and that segment to the parents |
| Path.ResolvesSnoc | src_py/hat/json/path.py:147-158 | a path with one more segment resolves iff the path resolves and the node reached has that key or index |
| Path.TrailUnwinds | src_py/hat/json/path.py:165-187 | unwinding the parents of a resolving path is the removal along it |
| Path.TrailFacts | src_py/hat/json/path.py:144-163 | the parents along a resolving path form a chain whose segments are the path's |
| Path.PushPresent | src_py/hat/json/path.py:144-163 | each step down over a present key or index keeps the chain and its segments |
| Path.UnwoundIsExcise | src_py/hat/json/path.py:165-187 | unwinding from any depth is the removal along the remaining segments |
| Path.ExciseDeletes | src_py/hat/json/path.py:165-187 | after removal along `init + [s]`, `init` still resolves and the node there is the old one with `s` deleted |
| Path.ExciseAt | src_py/hat/json/path.py:165-187 | above the deleted member, any prefix of a resolving path still resolves, and the node there is the removal of the rest of the path from the original node |
| Path.ExciseKeepsOffPath | src_py/hat/json/path.py:165-187 | at every level above the deleted member `remove` changes only the member on the path: the node there is the original node with that member replaced, so every other key or item is kept |
| Path.RemovedDeletes | src_py/hat/json/path.py:123-187 | after `remove` of a found path, `get` of its parent path gives the old parent with the last segment deleted |
| Path.RemoveNestedExample | test_pytest/test_path.py:163-165 | `remove([1, {'a': [2, 3]}], [1, 'a', 0])` is `[1, {'a': [3]}]` |
| Path.RemoveSimpleExamples | test_pytest/test_path.py:143-177 | removing a key drops it, an index out of range changes nothing, and the empty path gives `None` |
| Path.Storage.constructor | src_py/hat/json/path.py:198-200 | a new storage holds the data given, with no listeners and nothing delivered |
| Path.Storage.RegisterChangeCb | src_py/hat/json/path.py:207-211 | registration returns a fresh handle, appended to the listeners, which stay distinct and in registration order; the data is unchanged |
| Path.Storage.Get | src_py/hat/json/path.py:213-215 | `get` on the storage is the lookup in its data |
| Path.Storage.Set | src_py/hat/json/path.py:217-220 | on success the data becomes the store's result and every listener gets it; on an invalid path nothing changes |
| Path.Storage.Remove | src_py/hat/json/path.py:222-225 | on success the data becomes the removal's result and every listener gets it; on an invalid path nothing changes |
| Schema.UrlArgOf | src_py/hat/json/schema.py:73 | how urllib takes an argument (text, empty bytes, or unusable); its meaning is given by WithMetaSchema and Repository.Sanitized |
| Schema.WithMetaSchema | src_py/hat/json/schema.py:72-80 | a present `$schema` must defragment to a supported id and the schema is then unchanged; an absent one is added as the default, with every other key kept |
| Schema.RawSchemaId | src_py/hat/json/schema.py:82-86 | the id taken is `$id` or `id`, with `$id` first when it is truthy; it is truthy (so the schema passes the invalid-id check) exactly when one of the two is |
| Schema.Prepare | src_py/hat/json/schema.py:72-92 | the entry `create_schema_repository` makes of one schema given as a dict; its meaning is given by Schema.PreparedEntry and Schema.CreatedTable |
| Schema.PreparedEntry | src_py/hat/json/schema.py:72-92 | a prepared entry is keyed by the defragmented id of the schema it stores, that schema names the default or a supported meta-schema, it agrees with the argument on every other key, and a schema that already names its meta-schema is stored as given |
| Schema.CreateSchemaRepository | src_py/hat/json/schema.py:33-94 | the loop over the arguments computes the specified repository or its first error |
| Schema.Entries | src_py/hat/json/schema.py:71-92 | the prepared entries, one per argument, in order; its meaning is given by EntriesCons and CreatedTable |
| Schema.EntriesCons | src_py/hat/json/schema.py:71-92 | the entries of a non-empty argument list are the first argument's followed by the rest's |
| Schema.AddAllEntries | src_py/hat/json/schema.py:54-94 | adding to a repository succeeds iff every argument prepares and no id repeats, and then appends the entries |
| Schema.CreatedTable | src_py/hat/json/schema.py:33-94 | creation succeeds iff every argument prepares and the ids are distinct, and yields the entries in argument order |
| Schema.DuplicateRejected | src_py/hat/json/schema.py:89-90 | two schemas with the same id raise the duplicate-id error for it |
| Schema.CreatedEmpty | src_py/hat/json/schema.py:52-94 | no arguments give the empty repository |
| Schema.AddAll | src_py/hat/json/schema.py:54-94 | the loop of `create_schema_repository` from a table built so far; its meaning is given by AddAllEntries |
| Schema.Created | src_py/hat/json/schema.py:33-94 | the specification of `create_schema_repository`; its meaning is given by CreatedTable |
| Schema.MergeEntries | src_py/hat/json/schema.py:108-113 | merging one repository keeps the keys of both and keeps keys distinct |
| Schema.MergeAll | src_py/hat/json/schema.py:105-115 | a successful merge holds exactly the ids of the repositories merged |
| Schema.Merged | src_py/hat/json/schema.py:97-115 | the specification of `merge_schema_repositories`; its laws are MergeAll, MergeIsUpdate, MergeSucceeds and MergeSelf |
| Schema.MergeSchemaRepositories | src_py/hat/json/schema.py:97-115 | the nested loops compute the specified merge or its conflict error |
| Schema.MergeIsUpdate | src_py/hat/json/schema.py:107-113 | a successful merge is `dict.update` with each repository in turn |
| Schema.ConflictRejected | src_py/hat/json/schema.py:109-111 | an id stored with a different schema raises the conflict error |
| Schema.MergeSucceeds | src_py/hat/json/schema.py:107-113 | merging a repository succeeds iff every id it holds is absent from the result, stored as `None`, or stored with a schema equal under Python's `==` |
| Schema.MergeOverwritesEqual | src_py/hat/json/schema.py:109-113 | a stored schema equal under `==` (`True` against `1`) is overwritten without a conflict |
| Schema.MergeOverwritesNull | src_py/hat/json/schema.py:109-113 | a stored `None` is overwritten without a conflict |
| Schema.MergeHeld | src_py/hat/json/schema.py:109-113 | merging entries already held changes nothing |
| Schema.MergeSelf | src_py/hat/json/schema.py:97-115 | merging a repository alone, or with itself, gives it back |
| Schema.MergeIntoEmpty | src_py/hat/json/schema.py:105-113 | merging into the empty result gives the repository back |
| Schema.MergeAppends | src_py/hat/json/schema.py:107-113 | merging new ids appends them in order |
| Repository.Sanitized | src_py/hat/json/repository.py:144-148 | a `$schema` naming a supported meta-schema leaves the schema unchanged; one naming another, or a falsy non-string (which urllib turns into empty bytes), is dropped from a copy; a truthy non-string raises; every other key is kept |
| Repository.SchemaLoaded | src_py/hat/json/repository.py:143-156 | the specification of `_load_schema`; its laws are LoadedSchemaIsStored and DuplicateSchemaRejected |
| Repository.SchemaRepository.LoadSchema | src_py/hat/json/repository.py:143-156 | `_load_schema` files the sanitized schema under its id; on any error the table is unchanged |
| Repository.LoadedSchemaIsStored | src_py/hat/json/repository.py:150-156 | a loaded schema sits under its scheme and netloc + path, which were free, and every other entry is unchanged |
| Repository.DuplicateSchemaRejected | src_py/hat/json/repository.py:154-155 | loading the same schema again raises the duplicate error for its scheme and path |
| Repository.SchemaTwiceRejected | test_pytest/test_repository.py:20-25 | `SchemaRepository(schema, schema)` raises for every schema |
| Repository.SchemaRepository.LoadRepository | src_py/hat/json/repository.py:158-163 | `_load_repository` takes each of the other's scheme tables, or updates ours with it |
| Repository.Absorb | src_py/hat/json/repository.py:159-163 | one scheme of `_load_repository`: a new scheme's table is taken, a known one is updated |
| Repository.RepositoryLoaded | src_py/hat/json/repository.py:158-163 | the specification of `_load_repository`; its laws are RepositoryLoadedGet, RepositoryAppends and RepositoryAbsorbsHeld |
| Repository.RepositoryLoadedGet | src_py/hat/json/repository.py:158-163 | after loading, a scheme's table is ours, the other's, or ours updated by the other's |
| Repository.RepositoryAppends | src_py/hat/json/repository.py:159-161 | loading only new schemes appends their tables in order |
| Repository.RepositoryAbsorbsHeld | src_py/hat/json/repository.py:162-163 | updating tables with the entries they already hold changes nothing |
| Repository.RepositoryTwice | test_pytest/test_repository.py:20-23 | `SchemaRepository(r, r)` holds exactly what `r` holds |
| Repository.BuiltFromTables | src_py/hat/json/repository.py:45-49 | two repository arguments load one after the other |
| Repository.Built | src_py/hat/json/repository.py:40-51 | the specification of the constructor: each argument loaded in turn, stopping at the first error |
| Repository.SchemaRepository.LoadArg | src_py/hat/json/repository.py:45-51 | a repository argument is loaded with `_load_repository` and anything else with `_load_schema`; on an error the table is unchanged |
| Repository.New | src_py/hat/json/repository.py:40-51 | the constructor loop yields a fresh repository holding the specified table, or the first error |
| Repository.SchemaRepository.constructor | src_py/hat/json/repository.py:43-44 | a new repository is empty |
| Repository.SchemaRepository.GetUriSchemes | src_py/hat/json/repository.py:53-55 | the schemes are the table's keys, in insertion order |
| Repository.ForScheme | src_py/hat/json/repository.py:70-75 | skipping an absent or empty scheme drops no id |
| Repository.IdsOf | src_py/hat/json/repository.py:57-75 | the specification of `get_schema_ids`; its meaning is given by IdsOfMembers and SchemeIdsMembers |
| Repository.SchemaRepository.GetSchemaIds | src_py/hat/json/repository.py:57-75 | the nested loops yield the ids of the listed schemes, or of all schemes when none are listed |
| Repository.SchemaRepository.AppendIds | src_py/hat/json/repository.py:74-75 | the inner loop appends `scheme://path` for each path, in order |
| Repository.IdsOfPrefix | src_py/hat/json/repository.py:69-75 | one more scheme appends its ids |
| Repository.SchemeIdsPrefix | src_py/hat/json/repository.py:74-75 | one more path appends its id |
| Repository.IdsOfMembers | src_py/hat/json/repository.py:57-75 | an id is yielded iff it belongs to one of the listed schemes |
| Repository.SchemeIdsMembers | src_py/hat/json/repository.py:74-75 | a scheme's ids are exactly `scheme://p` for its stored paths `p` |
| Repository.SchemaRepository.GetSchema | src_py/hat/json/repository.py:77-81 | `get_schema` succeeds iff the parsed scheme and path are stored, returns what is stored there, and otherwise raises KeyError naming the missing scheme, or the missing netloc + path under a stored scheme |
| Repository.TableToJson | src_py/hat/json/repository.py:105-113 | the export is an object with one member per scheme |
| Repository.TableOf | src_py/hat/json/repository.py:115-132 | data read as a table when it is an object of objects; its meaning is given by TableJsonRoundTrip and JsonTableRoundTrip |
| Repository.SchemaRepository.ToJson | src_py/hat/json/repository.py:105-113 | the export reads back as the repository's table |
| Repository.TableJsonRoundTrip | src_py/hat/json/repository.py:105-113 | exporting a table and reading it back gives the table |
| Repository.JsonTableRoundTrip | src_py/hat/json/repository.py:115-132 | data read as a table exports back to the same data |
| Repository.FromJson | src_py/hat/json/repository.py:115-132 | `from_json` makes a fresh repository holding the data as its table, whose export is that data |
| Repository.EmptyExportsNothing | test_pytest/test_repository.py:9-11 | an empty repository exports the empty object |

## Left out

- File and directory arguments are left out: `_load_path`, the path branch of `create_schema_repository`, and the path case of `from_json`. The model reads no files.
- The decoders and encoders, `patch`, `convert`, validators and `SchemaRepository.validate` are not part of this model.
- Floating-point numbers are left out, so numbers are integers. Python's `equals(0, 0.0)` therefore has no counterpart.
- Values outside JSON are left out, and with them the `TypeError('invalid json type')` of `equals`.
- `urldefrag` and `urlparse` are parameters. The model does not derive what they return.
- Exception messages are left out. Each error kind keeps the key or id the message names.
- `flatten` and `get_schema_ids` are generators in Python; here they return sequences. Laziness is not modelled.
- Path.Storage: a listener is its handle, and a notification is an entry of the ghost log `delivered`.
  - The code the listener runs is left out.
  - Exceptions that a listener raises are left out.
  - Unregistering a handle is left out.
- Repository.SchemaRepository.LoadRepository: it does not model aliasing. Python stores the other repository's inner dict itself, so a later load into either repository shows in both. The model copies values.
- Repository.SchemaRepository.LoadSchema: a falsy non-string `id` is reported as `NotAUrl`. In Python, `urlparse` turns it into bytes, and the schema is stored under byte-string keys.
- Repository.FromJson: it rejects data that is not an object of objects (`NotATable`). Python installs any data, and `to_json` returns it as given; the model refuses non-tables.
- Data.Clone: object identity and shared sub-objects are not modelled. Values are immutable, so the fresh containers that `clone` builds (the copy `is not` the original, nor are its arrays and objects) cannot be told apart from the original; the contract says only that the copy is the same value. The same holds for `set_` and `remove`, which create new data in Python: the model returns values and does not capture that the result is a new container rather than the argument.
- Repository.New: the constructor arguments are tagged schemas or repositories (`Arg`). Python tells them apart with `isinstance`.

## Findings

| source | as written | input that shows it | evidently intended | confidence | as-written member | corrected member |
|---|---|---|---|---|---|---|
| src_py/hat/json/data.py:53-56 | for two objects of equal size, `equals` indexes `b[key]` for each key of `a`; a key missing from `b` raises KeyError, so the result depends on argument order | `equals({'y': 1, 'x': 1}, {'x': 2, 'z': 1})` raises KeyError('y'), while `equals({'x': 2, 'z': 1}, {'y': 1, 'x': 1})` returns False | a key missing from `b` compares False, and the comparison is symmetric | not executed | Data.EqualsIsNotSymmetric | Data.JsonEqualsSymmetric |

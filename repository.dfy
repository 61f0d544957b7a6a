/**
 * `hat.json.repository.SchemaRepository`: a two-level table from URI scheme to
 * (netloc + path) to schema, filled from schemas and from other repositories, enumerated
 * by id and exported as JSON data.
 *
 * `urllib.parse.urlparse` and `urldefrag` are the parameters `split` (the scheme and the
 * netloc followed by the path) and `defrag`; what they return is not derived here.
 */
module Repository {
  import opened Wrappers
  import opened Dict
  import opened Data
  import Schema
  import Seqs

  /** What the repository reads from `urlparse(id)`: the scheme, and netloc + path. */
  datatype Url = Url(scheme: string, path: string)

  /** scheme -> (netloc + path) -> schema, each level in insertion order. */
  type Table = Dict<Dict<Value>>

  /** The exceptions the repository raises. */
  datatype RepoError =
    | NotADict                                        // a schema argument that is not a dict
    | MissingId                                       // `schema['id']` on a schema without `id`
    | NotAUrl                                         // urllib handed a non-string value
    | DuplicateSchemaId(scheme: string, path: string) // that (scheme, netloc + path) is taken
    | UnknownId(key: string)                          // `get_schema` of an id that is not stored
    | NotATable                                       // `from_json` of data that is not a table

  // ---------------------------------------------------------------------------------
  // _load_schema and _load_repository on table values
  // ---------------------------------------------------------------------------------

  /** The `$schema` step of `_load_schema`: a copy without `$schema` when it names no known meta-schema. */
  function Sanitized(defrag: string -> string, schema: Dict<Value>): (r: Result<Dict<Value>, RepoError>)
    ensures r.Ok? ==> forall k :: k != "$schema" ==> Get(r.value, k) == Get(schema, k)
    ensures "$schema" !in Keys(schema) ==> r == Ok(schema)
    ensures Distinct(schema) && "$schema" in Keys(schema) && Get(schema, "$schema").value.String? ==>
      r.Ok? && ("$schema" in Keys(r.value) <==> defrag(Get(schema, "$schema").value.s) in Schema.MetaSchemaIds)
    ensures Distinct(schema) && r.Ok? ==> Distinct(r.value)
    ensures "$schema" in Keys(schema) && (var m := Get(schema, "$schema").value; m.String? && defrag(m.s) in Schema.MetaSchemaIds) ==>
      r == Ok(schema)
    ensures "$schema" in Keys(schema) && !Get(schema, "$schema").value.String? ==>
      (r.Ok? <==> !Schema.Truthy(Get(schema, "$schema").value))
    ensures Distinct(schema) && "$schema" in Keys(schema) && !Get(schema, "$schema").value.String? && r.Ok? ==>
      "$schema" !in Keys(r.value)
    ensures r.Err? ==> r.error == NotAUrl
  {
    if "$schema" !in Keys(schema) then Ok(schema)
    else match Schema.UrlArgOf(Get(schema, "$schema").value)
      case Text(s) => if defrag(s) in Schema.MetaSchemaIds then Ok(schema) else Ok(Delete(schema, "$schema"))
      case EmptyBytes => Ok(Delete(schema, "$schema"))
      case Unusable => Err(NotAUrl)
  }

  /** Where `_load_schema` files a sanitized schema: the parsed `id`. */
  function Location(split: string -> Url, schema: Dict<Value>): Result<Url, RepoError>
  {
    match Get(schema, "id")
    case None => Err(MissingId)
    case Some(id) => if id.String? then Ok(split(id.s)) else Err(NotAUrl)
  }

  /** `self._data.get(scheme)` as a table, empty where the scheme is absent. */
  function SchemeTable(t: Table, scheme: string): Dict<Value>
  {
    match Get(t, scheme)
    case Some(tbl) => tbl
    case None => []
  }

  /** `_load_schema(schema)` on the table `t`. */
  function SchemaLoaded(split: string -> Url, defrag: string -> string, t: Table, schema: Value): Result<Table, RepoError>
  {
    if !schema.Object? then Err(NotADict)
    else
      var s :- Sanitized(defrag, schema.fields);
      var url :- Location(split, s);
      var tbl := SchemeTable(t, url.scheme);
      if url.path in Keys(tbl) then Err(DuplicateSchemaId(url.scheme, url.path))
      else Ok(Put(t, url.scheme, Put(tbl, url.path, Object(s))))
  }

  /** One entry of `_load_repository`: a new scheme's table is taken whole, a known one is updated. */
  function Absorb(t: Table, scheme: string, tbl: Dict<Value>): Table
  {
    match Get(t, scheme)
    case None => Put(t, scheme, tbl)
    case Some(mine) => Put(t, scheme, Update(mine, tbl))
  }

  /** `_load_repository` of a repository holding `o`, on the table `t`. */
  function RepositoryLoaded(t: Table, o: Table): Table
    decreases |o|
  {
    if o == [] then t else RepositoryLoaded(Absorb(t, o[0].0, o[0].1), o[1..])
  }

  /** The ids `get_schema_ids` yields for one scheme. */
  function SchemeIds(scheme: string, paths: seq<string>): seq<string>
  {
    seq(|paths|, j requires 0 <= j < |paths| => scheme + "://" + paths[j])
  }

  /** `get_schema_ids(schemes)`: every stored id of every listed scheme, in order; absent or empty schemes yield nothing. */
  function IdsOf(t: Table, schemes: seq<string>): seq<string>
    decreases |schemes|
  {
    if schemes == [] then []
    else
      var n := |schemes| - 1;
      IdsOf(t, schemes[..n]) + ForScheme(t, schemes[n])
  }

  /** The ids of one scheme; skipping an absent or empty table drops nothing. */
  function ForScheme(t: Table, scheme: string): (r: seq<string>)
    ensures r == SchemeIds(scheme, Keys(SchemeTable(t, scheme)))
  {
    var tbl := SchemeTable(t, scheme);
    if tbl == [] then [] else SchemeIds(scheme, Keys(tbl))
  }

  /** The exported form of a table: an object of objects. */
  function TableToJson(t: Table): (v: Value)
    ensures v.Object? && |v.fields| == |t|
  {
    Object(seq(|t|, j requires 0 <= j < |t| => (t[j].0, Object(t[j].1))))
  }

  /** Data that is an object of objects, read back as a table. */
  function TableOf(v: Value): Option<Table>
  {
    if v.Object? && forall j :: 0 <= j < |v.fields| ==> v.fields[j].1.Object? then
      Some(seq(|v.fields|, j requires 0 <= j < |v.fields| => (v.fields[j].0, v.fields[j].1.fields)))
    else None
  }

  /** The argument kinds of the constructor: a schema, or another repository. */
  datatype Arg = SchemaArg(schema: Value) | RepoArg(repo: SchemaRepository)

  /** An argument as a value: the schema, or the other repository's table at the time of the call. */
  datatype Source = SchemaSource(schema: Value) | TableSource(table: Table)

  /** One argument as a value, read in the current heap. */
  function SourceOf(arg: Arg): Source
    reads if arg.RepoArg? then {arg.repo} else {}
  {
    match arg
    case SchemaArg(s) => SchemaSource(s)
    case RepoArg(o) => TableSource(o.data)
  }

  /** Every argument as a value. */
  function Sources(args: seq<Arg>): seq<Source>
    reads set j | 0 <= j < |args| && args[j].RepoArg? :: args[j].repo
  {
    seq(|args|, j reads set j | 0 <= j < |args| && args[j].RepoArg? :: args[j].repo requires 0 <= j < |args| =>
      SourceOf(args[j]))
  }

  /** One constructor argument loaded into the table `t`. */
  function Loaded(split: string -> Url, defrag: string -> string, t: Table, src: Source): Result<Table, RepoError>
  {
    match src
    case SchemaSource(s) => SchemaLoaded(split, defrag, t, s)
    case TableSource(o) => Ok(RepositoryLoaded(t, o))
  }

  /** `SchemaRepository(*args)` from the table `t`: load each argument in turn, raising on the first failure. */
  function Built(split: string -> Url, defrag: string -> string, t: Table, srcs: seq<Source>, i: nat): Result<Table, RepoError>
    requires i <= |srcs|
    decreases |srcs| - i
  {
    if i == |srcs| then Ok(t)
    else
      var t' :- Loaded(split, defrag, t, srcs[i]);
      Built(split, defrag, t', srcs, i + 1)
  }

  // ---------------------------------------------------------------------------------
  // The repository
  // ---------------------------------------------------------------------------------

  class SchemaRepository {
    const split: string -> Url
    const defrag: string -> string
    var data: Table

    /** `SchemaRepository()`: the empty table. */
    constructor(split: string -> Url, defrag: string -> string)
      ensures this.split == split && this.defrag == defrag && data == []
    {
      this.split := split;
      this.defrag := defrag;
      data := [];
    }

    /** `_load_schema`: file the sanitized schema under its parsed id; on failure nothing changes. */
    method LoadSchema(schema: Value) returns (r: Result<(), RepoError>)
      modifies this
      ensures var l := SchemaLoaded(split, defrag, old(data), schema);
        if l.Ok? then r.Ok? && data == l.value else r == Err(l.error) && data == old(data)
    {
      if !schema.Object? {
        return Err(NotADict);
      }
      var s := Sanitized(defrag, schema.fields);
      if s.Err? {
        return Err(s.error);
      }
      var url := Location(split, s.value);
      if url.Err? {
        return Err(url.error);
      }
      var scheme, path := url.value.scheme, url.value.path;
      if scheme !in Keys(data) {
        data := Put(data, scheme, []);
      }
      var tbl := Get(data, scheme).value;
      if path in Keys(tbl) {
        return Err(DuplicateSchemaId(scheme, path));
      }
      data := Put(data, scheme, Put(tbl, path, Object(s.value)));
      r := Ok(());
      PutTwice(old(data), scheme, [], Put(tbl, path, Object(s.value)));
    }

    /** `_load_repository`: take over the other repository's tables, scheme by scheme. */
    method LoadRepository(other: SchemaRepository)
      modifies this
      ensures data == RepositoryLoaded(old(data), old(other.data))
    {
      var entries := other.data;
      ghost var start := data;
      var i := 0;
      while i < |entries|
        invariant 0 <= i <= |entries|
        invariant RepositoryLoaded(start, entries) == RepositoryLoaded(data, entries[i..])
      {
        assert entries[i..][0] == entries[i] && entries[i..][1..] == entries[i + 1..];
        var (k, v) := entries[i];
        if k !in Keys(data) {
          data := Put(data, k, v);
        } else {
          data := Put(data, k, Update(Get(data, k).value, v));
        }
        i := i + 1;
      }
      assert entries[i..] == [];
    }

    /** One constructor argument: another repository is loaded with `_load_repository`, anything else with `_load_schema`. */
    method LoadArg(arg: Arg) returns (r: Result<(), RepoError>)
      requires arg.RepoArg? ==> arg.repo != this
      modifies this
      ensures var l := Loaded(split, defrag, old(data), old(SourceOf(arg)));
        if l.Ok? then r.Ok? && data == l.value else r == Err(l.error) && data == old(data)
    {
      if arg.SchemaArg? {
        r := LoadSchema(arg.schema);
      } else {
        LoadRepository(arg.repo);
        r := Ok(());
      }
    }

    /** `get_uri_schemes`: the schemes, in the order they were added. */
    function GetUriSchemes(): (r: seq<string>)
      reads this
      ensures |r| == |data| && forall j :: 0 <= j < |data| ==> r[j] == data[j].0
    {
      Keys(data)
    }

    /** `get_schema_ids`: the ids of the listed schemes, or of every scheme when none are listed. */
    method GetSchemaIds(uriSchemes: Option<seq<string>>) returns (ids: seq<string>)
      ensures ids == IdsOf(data, if uriSchemes.Some? then uriSchemes.value else Keys(data))
    {
      var schemes := if uriSchemes.Some? then uriSchemes.value else Keys(data);
      ids := [];
      var i := 0;
      while i < |schemes|
        invariant 0 <= i <= |schemes|
        invariant ids == IdsOf(data, schemes[..i])
      {
        IdsOfPrefix(data, schemes, i);
        var tbl := SchemeTable(data, schemes[i]);
        if tbl != [] {
          ids := AppendIds(ids, schemes[i], Keys(tbl));
        }
        i := i + 1;
      }
      Seqs.Whole(schemes);
    }

    /** The inner loop of `get_schema_ids`: one id per stored path of a scheme, appended in order. */
    static method AppendIds(ids: seq<string>, scheme: string, paths: seq<string>) returns (r: seq<string>)
      ensures r == ids + SchemeIds(scheme, paths)
    {
      r := ids;
      var j := 0;
      while j < |paths|
        invariant 0 <= j <= |paths|
        invariant r == ids + SchemeIds(scheme, paths[..j])
      {
        var id := scheme + "://" + paths[j];
        SchemeIdsPrefix(scheme, paths, j);
        Seqs.Assoc(ids, SchemeIds(scheme, paths[..j]), [id]);
        r := r + [id];
        j := j + 1;
      }
      Seqs.Whole(paths);
    }

    /** `get_schema`: the schema stored under the parsed id; KeyError where the scheme or the path is absent. */
    function GetSchema(schemaId: string): (r: Result<Value, RepoError>)
      reads this
      ensures var u := split(schemaId);
        r.Ok? <==> u.scheme in Keys(data) && u.path in Keys(Get(data, u.scheme).value)
      ensures var u := split(schemaId);
        r.Ok? ==> Get(Get(data, u.scheme).value, u.path) == Some(r.value)
      ensures var u := split(schemaId);
        u.scheme !in Keys(data) ==> r == Err(UnknownId(u.scheme))
      ensures var u := split(schemaId);
        u.scheme in Keys(data) && u.path !in Keys(Get(data, u.scheme).value) ==> r == Err(UnknownId(u.path))
    {
      var u := split(schemaId);
      match Get(data, u.scheme)
      case None => Err(UnknownId(u.scheme))
      case Some(tbl) =>
        match Get(tbl, u.path)
        case None => Err(UnknownId(u.path))
        case Some(s) => Ok(s)
    }

    /** `to_json`: the table as data, which reads back as the same table. */
    function ToJson(): (v: Value)
      reads this
      ensures TableOf(v) == Some(data)
    {
      TableJsonRoundTrip(data);
      TableToJson(data)
    }
  }

  /** `SchemaRepository(*args)`: a fresh repository that loads each argument in turn. */
  method New(split: string -> Url, defrag: string -> string, args: seq<Arg>) returns (r: Result<SchemaRepository, RepoError>)
    ensures var b := Built(split, defrag, [], Sources(args), 0);
      if b.Ok? then r.Ok? && fresh(r.value) && r.value.data == b.value && r.value.split == split && r.value.defrag == defrag
      else r == Err(b.error)
  {
    ghost var srcs := Sources(args);
    var repo := new SchemaRepository(split, defrag);
    var i := 0;
    while i < |args|
      invariant 0 <= i <= |args|
      invariant fresh(repo) && repo.split == split && repo.defrag == defrag
      invariant Sources(args) == srcs
      invariant Built(split, defrag, [], srcs, 0) == Built(split, defrag, repo.data, srcs, i)
      decreases |args| - i
    {
      var loaded := repo.LoadArg(args[i]);
      if loaded.Err? {
        return Err(loaded.error);
      }
      i := i + 1;
    }
    r := Ok(repo);
  }

  /** `from_json` of data: a fresh repository holding it as its table, so that `to_json` returns it. */
  method FromJson(split: string -> Url, defrag: string -> string, d: Value) returns (r: Result<SchemaRepository, RepoError>)
    ensures TableOf(d).None? ==> r == Err(NotATable)
    ensures TableOf(d).Some? ==> r.Ok? && fresh(r.value) && r.value.data == TableOf(d).value
    ensures r.Ok? ==> TableToJson(r.value.data) == d
  {
    var t := TableOf(d);
    if t.None? {
      return Err(NotATable);
    }
    var repo := new SchemaRepository(split, defrag);
    repo.data := t.value;
    JsonTableRoundTrip(d);
    r := Ok(repo);
  }

  // ---------------------------------------------------------------------------------
  // Laws
  // ---------------------------------------------------------------------------------

  /** Putting twice under a key puts the second value. */
  lemma {:induction false} PutTwice<V>(d: Dict<V>, k: string, v: V, w: V)
    ensures Put(Put(d, k, v), k, w) == Put(d, k, w)
    decreases |d|
  {
    if d != [] && d[0].0 != k {
      var p := Put(d, k, v);
      assert p[0] == d[0] && p[1..] == Put(d[1..], k, v);
      PutTwice(d[1..], k, v, w);
    }
  }

  lemma IdsOfPrefix(t: Table, schemes: seq<string>, i: nat)
    requires i < |schemes|
    ensures IdsOf(t, schemes[..i + 1]) == IdsOf(t, schemes[..i]) + ForScheme(t, schemes[i])
  {
    assert schemes[..i + 1][..i] == schemes[..i];
  }

  lemma SchemeIdsPrefix(scheme: string, paths: seq<string>, j: nat)
    requires j < |paths|
    ensures SchemeIds(scheme, paths[..j + 1]) == SchemeIds(scheme, paths[..j]) + [scheme + "://" + paths[j]]
  {
    var a, b := SchemeIds(scheme, paths[..j + 1]), SchemeIds(scheme, paths[..j]) + [scheme + "://" + paths[j]];
    assert |a| == |b|;
    forall k | 0 <= k < |a| ensures a[k] == b[k] {
      if k < j {
        assert paths[..j + 1][k] == paths[..j][k];
      }
    }
  }

  /** Exported tables read back as themselves. */
  lemma TableJsonRoundTrip(t: Table)
    ensures TableOf(TableToJson(t)) == Some(t)
  {
    var fs := TableToJson(t).fields;
    assert forall j :: 0 <= j < |fs| ==> fs[j] == (t[j].0, Object(t[j].1));
    assert TableOf(TableToJson(t)).value == t;
  }

  /** Data that reads as a table is exported back as the same data. */
  lemma JsonTableRoundTrip(d: Value)
    requires TableOf(d).Some?
    ensures TableToJson(TableOf(d).value) == d
  {
    var t := TableOf(d).value;
    assert forall j :: 0 <= j < |t| ==> t[j] == (d.fields[j].0, d.fields[j].1.fields);
    assert TableToJson(t).fields == d.fields;
  }

  /**
   * A loaded schema is filed under the scheme and netloc + path of its `id`, sanitized;
   * every other (scheme, path) entry is as it was.
   */
  lemma LoadedSchemaIsStored(split: string -> Url, defrag: string -> string, t: Table, schema: Value)
    requires SchemaLoaded(split, defrag, t, schema).Ok?
    ensures schema.Object? && Sanitized(defrag, schema.fields).Ok?
    ensures var s := Sanitized(defrag, schema.fields).value;
      Location(split, s).Ok? && (
      var u, t' := Location(split, s).value, SchemaLoaded(split, defrag, t, schema).value;
      u.path !in Keys(SchemeTable(t, u.scheme)) &&
      Get(SchemeTable(t', u.scheme), u.path) == Some(Object(s)) &&
      (forall p :: p != u.path ==> Get(SchemeTable(t', u.scheme), p) == Get(SchemeTable(t, u.scheme), p)) &&
      (forall k :: k != u.scheme ==> Get(t', k) == Get(t, k)))
  {
  }

  /** Loading a schema a second time raises "duplicate schema id" for the same scheme and netloc + path. */
  lemma DuplicateSchemaRejected(split: string -> Url, defrag: string -> string, t: Table, schema: Value)
    requires SchemaLoaded(split, defrag, t, schema).Ok?
    ensures var t' := SchemaLoaded(split, defrag, t, schema).value;
      var u := Location(split, Sanitized(defrag, schema.fields).value).value;
      SchemaLoaded(split, defrag, t', schema) == Err(DuplicateSchemaId(u.scheme, u.path))
  {
    LoadedSchemaIsStored(split, defrag, t, schema);
  }

  /** After `_load_repository`, a scheme's table is the other repository's when new, and the update of ours by it otherwise. */
  lemma {:induction false} RepositoryLoadedGet(t: Table, o: Table, k: string)
    requires Distinct(o)
    ensures Get(RepositoryLoaded(t, o), k) ==
      (if k !in Keys(o) then Get(t, k)
       else if k in Keys(t) then Some(Update(Get(t, k).value, Get(o, k).value))
       else Get(o, k))
    decreases |o|
  {
    if o != [] {
      var (k0, v0) := o[0];
      RepositoryLoadedGet(Absorb(t, k0, v0), o[1..], k);
      assert Keys(o) == [k0] + Keys(o[1..]);
    }
  }

  /** Loading a table whose schemes are all new appends its tables. */
  lemma {:induction false} RepositoryAppends(t: Table, o: Table)
    requires Distinct(t + o)
    ensures RepositoryLoaded(t, o) == t + o
    decreases |o|
  {
    if o == [] {
      assert t + o == t;
    } else {
      DistinctConcat(t, o);
      assert o[0].0 in Keys(o);
      PutShape(t, o[0].0, o[0].1);
      Seqs.SnocRest(t, o);
      RepositoryAppends(t + [o[0]], o[1..]);
    }
  }

  /** Loading a table into itself keeps it: each scheme's table absorbs its own entries. */
  lemma {:induction false} RepositoryAbsorbsHeld(t: Table, o: Table)
    requires forall j :: 0 <= j < |o| ==> Get(t, o[j].0) == Some(o[j].1) && Distinct(o[j].1)
    ensures RepositoryLoaded(t, o) == t
    decreases |o|
  {
    if o != [] {
      var (k, v) := o[0];
      UpdateSelf(v);
      PutSame(t, k, v);
      assert forall j :: 0 <= j < |o| - 1 ==> o[1..][j] == o[j + 1];
      RepositoryAbsorbsHeld(t, o[1..]);
    }
  }

  /** Every level of the table has distinct keys. */
  ghost predicate DistinctLevels(t: Table)
  {
    Distinct(t) && forall j :: 0 <= j < |t| ==> Distinct(t[j].1)
  }

  /** `SchemaRepository(schema, schema)` raises, whatever the schema. */
  lemma SchemaTwiceRejected(split: string -> Url, defrag: string -> string, t: Table, schema: Value)
    ensures Built(split, defrag, t, [SchemaSource(schema), SchemaSource(schema)], 0).Err?
  {
    if SchemaLoaded(split, defrag, t, schema).Ok? {
      DuplicateSchemaRejected(split, defrag, t, schema);
    }
  }

  /** `SchemaRepository(r, r)` holds what `r` holds. */
  lemma RepositoryTwice(split: string -> Url, defrag: string -> string, t: Table)
    requires DistinctLevels(t)
    ensures Built(split, defrag, [], [TableSource(t), TableSource(t)], 0) == Ok(t)
  {
    assert [] + t == t;
    RepositoryAppends([], t);
    forall j | 0 <= j < |t| ensures Get(t, t[j].0) == Some(t[j].1) {
      GetDistinct(t, j);
    }
    RepositoryAbsorbsHeld(t, t);
    BuiltFromTables(split, defrag, [], t, t);
  }

  /** Two repository arguments load one after the other. */
  lemma BuiltFromTables(split: string -> Url, defrag: string -> string, t: Table, a: Table, b: Table)
    ensures Built(split, defrag, t, [TableSource(a), TableSource(b)], 0) == Ok(RepositoryLoaded(RepositoryLoaded(t, a), b))
  {
    var srcs, t' := [TableSource(a), TableSource(b)], RepositoryLoaded(t, a);
    assert Built(split, defrag, RepositoryLoaded(t', b), srcs, 2) == Ok(RepositoryLoaded(t', b));
    assert Built(split, defrag, t', srcs, 1) == Ok(RepositoryLoaded(t', b));
  }

  /** `id` is listed for one of `schemes`. */
  ghost predicate Listed(t: Table, schemes: seq<string>, id: string)
  {
    exists i :: 0 <= i < |schemes| && id in ForScheme(t, schemes[i])
  }
  lemma ListedSnoc(t: Table, init: seq<string>, s: string, id: string)
    ensures Listed(t, init + [s], id) <==> Listed(t, init, id) || id in ForScheme(t, s)
  {
    var schemes := init + [s];
    if Listed(t, schemes, id) {
      var i :| 0 <= i < |schemes| && id in ForScheme(t, schemes[i]);
      if i < |init| { assert init[i] == schemes[i]; }
    }
    if Listed(t, init, id) {
      var i :| 0 <= i < |init| && id in ForScheme(t, init[i]);
      assert init[i] == schemes[i];
    }
    if id in ForScheme(t, s) {
      assert schemes[|init|] == s;
    }
  }
  /** `get_schema_ids` yields exactly the ids listed for its schemes. */
  lemma {:induction false} IdsOfMembers(t: Table, schemes: seq<string>, id: string)
    ensures id in IdsOf(t, schemes) <==> Listed(t, schemes, id)
    decreases |schemes|
  {
    if schemes != [] {
      var n := |schemes| - 1;
      IdsOfMembers(t, schemes[..n], id);
      ListedSnoc(t, schemes[..n], schemes[n], id);
      Seqs.SplitLast(schemes);
    }
  }

  /** An id of a scheme's listing is `scheme://path` for a path stored under it. */
  lemma SchemeIdsMembers(scheme: string, paths: seq<string>, id: string)
    ensures id in SchemeIds(scheme, paths) <==> exists p :: p in paths && id == scheme + "://" + p
  {
    var ids := SchemeIds(scheme, paths);
    if id in ids {
      var j :| 0 <= j < |ids| && ids[j] == id;
      assert ids[j] == scheme + "://" + paths[j] && paths[j] in paths;
    }
    if exists p :: p in paths && id == scheme + "://" + p {
      var p :| p in paths && id == scheme + "://" + p;
      var j :| 0 <= j < |paths| && paths[j] == p;
      assert ids[j] == id;
    }
  }

  /** The empty repository exports the empty object. */
  lemma EmptyExportsNothing()
    ensures TableToJson([]) == Object([])
  {
  }
}

/**
 * The schema-table helpers of `hat.json.schema`: `create_schema_repository` over schema
 * dicts, which derives each schema's meta-schema and id and rejects duplicate ids, and
 * `merge_schema_repositories`, which unions tables and rejects conflicting entries.
 *
 * A table maps sanitized schema ids to schemas, in insertion order. `urllib.parse.urldefrag`
 * is a parameter `defrag` (the URL without its fragment); what it returns is not derived here.
 */
module Schema {
  import opened Wrappers
  import opened Dict
  import opened Data
  import Seqs

  /** The meta-schema ids a schema may name in `$schema`, fragment stripped. */
  const MetaSchemaIds: set<string> := {
    "http://json-schema.org/draft-03/schema",
    "http://json-schema.org/draft-04/schema",
    "http://json-schema.org/draft-06/schema",
    "http://json-schema.org/draft-07/schema",
    "https://json-schema.org/draft/2019-09/schema",
    "https://json-schema.org/draft/2020-12/schema"
  }

  /** The meta-schema given to a schema without `$schema`: draft 2020-12. */
  const DefaultMetaSchemaId: string := "https://json-schema.org/draft/2020-12/schema"

  /** The exceptions the table helpers raise. */
  datatype SchemaError =
    | InvalidArgumentType              // an argument that is not a dict
    | UnsupportedMetaSchema(id: string) // `$schema` names no known meta-schema
    | InvalidSchemaId                  // neither `$id` nor `id` is set
    | DuplicateSchemaId(id: string)    // two schemas with the same sanitized id
    | Conflict(id: string)             // two tables map an id to different schemas
    | NotAUrl                          // urllib was handed a non-empty value that is not a string

  /** Python's truth value of JSON data: null, false, zero and empty values are false. */
  predicate Truthy(v: Value)
  {
    match v
    case Null => false
    case Bool(b) => b
    case Number(n) => n != 0
    case String(s) => s != ""
    case Array(xs) => xs != []
    case Object(fs) => fs != []
  }

  /**
   * How urllib takes an argument: a string as text; any other false value as the empty bytes
   * string, which equals no text; any other true value raises.
   */
  datatype UrlArg = Text(text: string) | EmptyBytes | Unusable

  function UrlArgOf(v: Value): UrlArg
  {
    if v.String? then Text(v.s) else if !Truthy(v) then EmptyBytes else Unusable
  }

  /** `d.get(k)`: the value at `k`, or null where `k` is absent. */
  function GetOr(d: Dict<Value>, k: string): Value
  {
    match Get(d, k)
    case Some(v) => v
    case None => Null
  }

  // ---------------------------------------------------------------------------------
  // create_schema_repository
  // ---------------------------------------------------------------------------------

  /**
   * The meta-schema step: a schema naming a known meta-schema is kept as it is; one naming
   * another raises; one naming none gets `$schema` set to the default, ahead of its other keys.
   */
  function WithMetaSchema(defrag: string -> string, schema: Dict<Value>): (r: Result<Dict<Value>, SchemaError>)
    ensures "$schema" in Keys(schema) ==>
      (r.Ok? <==> (var m := Get(schema, "$schema").value; m.String? && defrag(m.s) in MetaSchemaIds))
    ensures "$schema" in Keys(schema) && r.Ok? ==> r.value == schema
    ensures "$schema" !in Keys(schema) ==> r.Ok? && Get(r.value, "$schema") == Some(String(DefaultMetaSchemaId))
    ensures "$schema" !in Keys(schema) ==> forall k :: k != "$schema" ==> Get(r.value, k) == Get(schema, k)
    ensures "$schema" !in Keys(schema) && Distinct(schema) ==> Distinct(r.value)
  {
    if "$schema" in Keys(schema) then
      match UrlArgOf(Get(schema, "$schema").value)
      case Text(s) =>
        if defrag(s) in MetaSchemaIds then Ok(schema) else Err(UnsupportedMetaSchema(defrag(s)))
      case EmptyBytes => Err(UnsupportedMetaSchema(""))
      case Unusable => Err(NotAUrl)
    else
      var r := [("$schema", String(DefaultMetaSchemaId))] + schema;
      assert r[1..] == schema;
      Ok(r)
  }

  /**
   * The value `create_schema_repository` takes as the schema's id: a usable (true) id exists
   * exactly when `$id` or `id` holds one, and `$id` takes precedence over `id`.
   */
  function RawSchemaId(schema: Dict<Value>): (r: Value)
    ensures Truthy(r) <==> Truthy(GetOr(schema, "$id")) || Truthy(GetOr(schema, "id"))
    ensures r == GetOr(schema, "$id") || r == GetOr(schema, "id")
    ensures Truthy(GetOr(schema, "$id")) ==> r == GetOr(schema, "$id")
  {
    var id := GetOr(schema, "$id");
    if Truthy(id) then id else GetOr(schema, "id")
  }

  /** One schema dict made ready for the table: its sanitized id and the schema to store. */
  function Prepare(defrag: string -> string, schema: Dict<Value>): Result<(string, Value), SchemaError>
  {
    var s :- WithMetaSchema(defrag, schema);
    var id := RawSchemaId(s);
    if !Truthy(id) then Err(InvalidSchemaId)
    else match UrlArgOf(id)
      case Text(t) => Ok((defrag(t), Object(s)))
      case _ => Err(NotAUrl)
  }

  /**
   * A prepared entry is keyed by the defragmented id of the very schema it stores; that schema
   * names the default or a supported meta-schema, agrees with the argument on every other key,
   * and is the argument itself when the argument already named its meta-schema.
   */
  lemma PreparedEntry(defrag: string -> string, schema: Dict<Value>)
    requires Prepare(defrag, schema).Ok?
    ensures Prepare(defrag, schema).value.1.Object?
    ensures var s := Prepare(defrag, schema).value.1.fields;
      "$schema" in Keys(s) &&
      var m := Get(s, "$schema").value;
      m == String(DefaultMetaSchemaId) || (m.String? && defrag(m.s) in MetaSchemaIds)
    ensures var (key, stored) := Prepare(defrag, schema).value;
      var id := RawSchemaId(stored.fields);
      Truthy(id) && id.String? && key == defrag(id.s)
    ensures forall k :: k != "$schema" ==> Get(Prepare(defrag, schema).value.1.fields, k) == Get(schema, k)
    ensures "$schema" in Keys(schema) ==> Prepare(defrag, schema).value.1 == Object(schema)
  {
  }

  /** The loop of `create_schema_repository` from a table built so far. */
  function AddAll(defrag: string -> string, repo: Dict<Value>, args: seq<Value>): Result<Dict<Value>, SchemaError>
    decreases |args|
  {
    if args == [] then Ok(repo)
    else if !args[0].Object? then Err(InvalidArgumentType)
    else match Prepare(defrag, args[0].fields)
      case Err(e) => Err(e)
      case Ok(entry) =>
        if entry.0 in Keys(repo) then Err(DuplicateSchemaId(entry.0))
        else AddAll(defrag, Put(repo, entry.0, entry.1), args[1..])
  }

  /** `create_schema_repository(*args)` on schema dicts. */
  function Created(defrag: string -> string, args: seq<Value>): Result<Dict<Value>, SchemaError>
  {
    AddAll(defrag, [], args)
  }

  /** `create_schema_repository`: insert each prepared schema into the table, raising on the first failure. */
  method CreateSchemaRepository(defrag: string -> string, args: seq<Value>) returns (r: Result<Dict<Value>, SchemaError>)
    ensures r == Created(defrag, args)
  {
    var repo: Dict<Value> := [];
    var i := 0;
    while i < |args|
      invariant 0 <= i <= |args|
      invariant Created(defrag, args) == AddAll(defrag, repo, args[i..])
    {
      assert args[i..][0] == args[i] && args[i..][1..] == args[i + 1..];
      var arg := args[i];
      if !arg.Object? {
        return Err(InvalidArgumentType);
      }
      var prepared := Prepare(defrag, arg.fields);
      if prepared.Err? {
        return Err(prepared.error);
      }
      var (id, schema) := prepared.value;
      if id in Keys(repo) {
        return Err(DuplicateSchemaId(id));
      }
      repo := Put(repo, id, schema);
      i := i + 1;
    }
    assert args[i..] == [];
    r := Ok(repo);
  }

  /** Every argument is a dict that prepares without error. */
  predicate AllPrepare(defrag: string -> string, args: seq<Value>)
  {
    forall j :: 0 <= j < |args| ==> args[j].Object? && Prepare(defrag, args[j].fields).Ok?
  }

  /** The arguments after the first still all prepare. */
  lemma AllPrepareTail(defrag: string -> string, args: seq<Value>)
    requires args != [] && AllPrepare(defrag, args)
    ensures AllPrepare(defrag, args[1..])
  {
    assert forall j :: 0 <= j < |args| - 1 ==> args[1..][j] == args[j + 1];
  }

  /** The prepared `(id, schema)` entries of the arguments, in order. */
  function Entries(defrag: string -> string, args: seq<Value>): Dict<Value>
    requires AllPrepare(defrag, args)
    decreases |args|
  {
    if args == [] then []
    else
      AllPrepareTail(defrag, args);
      [Prepare(defrag, args[0].fields).value] + Entries(defrag, args[1..])
  }

  lemma EntriesCons(defrag: string -> string, args: seq<Value>)
    requires args != [] && AllPrepare(defrag, args)
    ensures AllPrepare(defrag, args[1..])
    ensures Entries(defrag, args) == [Prepare(defrag, args[0].fields).value] + Entries(defrag, args[1..])
  {
    AllPrepareTail(defrag, args);
  }

  /** From a table with distinct keys the loop succeeds exactly when all prepare and no id repeats; it appends the entries. */
  lemma {:induction false} AddAllEntries(defrag: string -> string, repo: Dict<Value>, args: seq<Value>)
    requires Distinct(repo)
    ensures AddAll(defrag, repo, args).Ok? <==> AllPrepare(defrag, args) && Distinct(repo + Entries(defrag, args))
    ensures AddAll(defrag, repo, args).Ok? ==> AddAll(defrag, repo, args).value == repo + Entries(defrag, args)
    decreases |args|
  {
    if args == [] {
      assert repo + Entries(defrag, args) == repo;
    } else if !args[0].Object? || Prepare(defrag, args[0].fields).Err? {
      assert !AllPrepare(defrag, args);
    } else {
      var entry := Prepare(defrag, args[0].fields).value;
      var wasAll := AllPrepare(defrag, args);
      assert wasAll <==> AllPrepare(defrag, args[1..]) by {
        if AllPrepare(defrag, args[1..]) {
          forall j | 0 <= j < |args| ensures args[j].Object? && Prepare(defrag, args[j].fields).Ok? {
            if j > 0 { assert args[j] == args[1..][j - 1]; }
          }
        }
        if wasAll { EntriesCons(defrag, args); }
      }
      if entry.0 in Keys(repo) {
        if wasAll {
          EntriesCons(defrag, args);
          DistinctConcat(repo, Entries(defrag, args));
          assert Entries(defrag, args)[0].0 == entry.0;
          assert entry.0 in Keys(Entries(defrag, args));
        }
      } else {
        PutShape(repo, entry.0, entry.1);
        var next := repo + [entry];
        DistinctConcat(repo, [entry]);
        AddAllEntries(defrag, next, args[1..]);
        if wasAll {
          EntriesCons(defrag, args);
          Seqs.Assoc(repo, [entry], Entries(defrag, args[1..]));
        }
      }
    }
  }

  /**
   * `create_schema_repository` succeeds exactly when every argument is a schema dict whose
   * meta-schema and id check out and no two sanitized ids coincide; the table is then those
   * prepared entries, in argument order.
   */
  lemma CreatedTable(defrag: string -> string, args: seq<Value>)
    ensures Created(defrag, args).Ok? <==> AllPrepare(defrag, args) && Distinct(Entries(defrag, args))
    ensures Created(defrag, args).Ok? ==> Created(defrag, args).value == Entries(defrag, args)
  {
    AddAllEntries(defrag, [], args);
    if AllPrepare(defrag, args) {
      assert [] + Entries(defrag, args) == Entries(defrag, args);
    }
  }

  /** A second argument with the id of the first raises "duplicate schema id". */
  lemma DuplicateRejected(defrag: string -> string, a: Value, b: Value)
    requires a.Object? && Prepare(defrag, a.fields).Ok?
    requires b.Object? && Prepare(defrag, b.fields).Ok?
    requires Prepare(defrag, a.fields).value.0 == Prepare(defrag, b.fields).value.0
    ensures Created(defrag, [a, b]) == Err(DuplicateSchemaId(Prepare(defrag, a.fields).value.0))
  {
    var (id, s) := Prepare(defrag, a.fields).value;
    assert [a, b][1..] == [b];
    assert Created(defrag, [a, b]) == AddAll(defrag, [(id, s)], [b]);
  }

  /** No arguments: the empty table. */
  lemma CreatedEmpty(defrag: string -> string)
    ensures Created(defrag, []) == Ok([])
  {
  }

  // ---------------------------------------------------------------------------------
  // merge_schema_repositories
  // ---------------------------------------------------------------------------------

  /** The inner loop of `merge_schema_repositories`: add one table's entries, raising on a conflict. */
  function MergeEntries(result: Dict<Value>, entries: Dict<Value>): (r: Result<Dict<Value>, SchemaError>)
    ensures r.Ok? ==> forall k :: k in Keys(r.value) <==> k in Keys(result) || k in Keys(entries)
    ensures r.Ok? && Distinct(result) ==> Distinct(r.value)
    decreases |entries|
  {
    if entries == [] then Ok(result)
    else
      var (id, schema) := entries[0];
      var other := GetOr(result, id);
      if other != Null && !NativeEquals(other, schema) then Err(Conflict(id))
      else
        var rest := entries[1..];
        assert Keys(entries) == [id] + Keys(rest);
        MergeEntries(Put(result, id, schema), rest)
  }

  /** `merge_schema_repositories` from a table merged so far. */
  function MergeAll(result: Dict<Value>, repos: seq<Dict<Value>>): (r: Result<Dict<Value>, SchemaError>)
    ensures r.Ok? ==> forall k :: k in Keys(r.value) <==> k in Keys(result) || exists j :: 0 <= j < |repos| && k in Keys(repos[j])
    decreases |repos|
  {
    if repos == [] then Ok(result)
    else match MergeEntries(result, repos[0])
      case Err(e) => Err(e)
      case Ok(next) =>
        var r := MergeAll(next, repos[1..]);
        assert forall j :: 0 < j < |repos| ==> repos[j] == repos[1..][j - 1];
        r
  }

  /** `merge_schema_repositories(*repos)`. */
  function Merged(repos: seq<Dict<Value>>): Result<Dict<Value>, SchemaError>
  {
    MergeAll([], repos)
  }

  /** `merge_schema_repositories`: copy every entry of every table into the result, raising on a conflict. */
  method MergeSchemaRepositories(repos: seq<Dict<Value>>) returns (r: Result<Dict<Value>, SchemaError>)
    ensures r == Merged(repos)
  {
    var result: Dict<Value> := [];
    var i := 0;
    while i < |repos|
      invariant 0 <= i <= |repos|
      invariant Merged(repos) == MergeAll(result, repos[i..])
    {
      assert repos[i..][0] == repos[i] && repos[i..][1..] == repos[i + 1..];
      var repo := repos[i];
      var j := 0;
      ghost var before := result;
      while j < |repo|
        invariant 0 <= j <= |repo|
        invariant MergeEntries(before, repo) == MergeEntries(result, repo[j..])
      {
        assert repo[j..][0] == repo[j] && repo[j..][1..] == repo[j + 1..];
        var (id, schema) := repo[j];
        var other := GetOr(result, id);
        if other != Null && !NativeEquals(other, schema) {
          return Err(Conflict(id));
        }
        result := Put(result, id, schema);
        j := j + 1;
      }
      assert repo[j..] == [];
      i := i + 1;
    }
    assert repos[i..] == [];
    r := Ok(result);
  }

  /** A successful merge, entry by entry, is `dict.update`: the later value of an id wins. */
  lemma {:induction false} MergeIsUpdate(result: Dict<Value>, entries: Dict<Value>)
    ensures MergeEntries(result, entries).Ok? ==> MergeEntries(result, entries).value == Update(result, entries)
    decreases |entries|
  {
    if entries != [] {
      var (id, schema) := entries[0];
      MergeIsUpdate(Put(result, id, schema), entries[1..]);
    }
  }

  /** An id that the merged table maps to a non-null schema, met again with a schema not equal to it, raises. */
  lemma {:induction false} ConflictRejected(result: Dict<Value>, entries: Dict<Value>, k: string)
    requires Distinct(entries) && k in Keys(entries)
    requires GetOr(result, k) != Null && !NativeEquals(GetOr(result, k), Get(entries, k).value)
    ensures MergeEntries(result, entries).Err?
    decreases |entries|
  {
    var (id, schema) := entries[0];
    if id != k {
      assert k in Keys(entries[1..]);
      var other := GetOr(result, id);
      if !(other != Null && !NativeEquals(other, schema)) {
        assert GetOr(Put(result, id, schema), k) == GetOr(result, k);
        ConflictRejected(Put(result, id, schema), entries[1..], k);
      }
    }
  }

  /**
   * Merging entries with distinct ids succeeds exactly when no id meets a conflict: the table
   * holds nothing (or null) for it, or a schema equal to the new one under Python's `!=`.
   */
  lemma {:induction false} MergeSucceeds(result: Dict<Value>, entries: Dict<Value>)
    requires Distinct(entries)
    ensures MergeEntries(result, entries).Ok? <==>
      forall k :: k in Keys(entries) ==>
        GetOr(result, k) == Null || NativeEquals(GetOr(result, k), Get(entries, k).value)
    decreases |entries|
  {
    if entries != [] {
      var (id, schema) := entries[0];
      var rest := entries[1..];
      assert Keys(entries) == [id] + Keys(rest);
      var other := GetOr(result, id);
      if !(other != Null && !NativeEquals(other, schema)) {
        var next := Put(result, id, schema);
        MergeSucceeds(next, rest);
        forall k | k in Keys(rest)
          ensures GetOr(next, k) == GetOr(result, k) && Get(entries, k) == Get(rest, k)
        {
          assert k != id;
        }
      }
    }
  }

  /** A schema equal under Python's `==` (here `True` for `1`) is overwritten without conflict. */
  lemma MergeOverwritesEqual()
    ensures Merged([[("a", Object([("x", Bool(true))]))], [("a", Object([("x", Number(1))]))]]) ==
      Ok([("a", Object([("x", Number(1))]))])
  {
    var r1, r2 := [("a", Object([("x", Bool(true))]))], [("a", Object([("x", Number(1))]))];
    assert MergeEntries([], r1) == Ok(r1);
    assert Same(Bool(true), Number(1), true);
    assert Get([("x", Number(1))], "x") == Some(Number(1));
    assert NativeEquals(Object([("x", Bool(true))]), Object([("x", Number(1))]));
    assert GetOr(r1, "a") == Object([("x", Bool(true))]);
    assert Put(r1, "a", r2[0].1) == r2;
    assert MergeEntries(r1, r2) == Ok(r2);
    assert [r1, r2][1..] == [r2];
    assert MergeAll(r2, []) == Ok(r2);
  }

  /** A stored null is overwritten without conflict. */
  lemma MergeOverwritesNull()
    ensures Merged([[("a", Null)], [("a", Object([]))]]) == Ok([("a", Object([]))])
  {
    var n1, n2 := [("a", Null)], [("a", Object([]))];
    assert MergeEntries([], n1) == Ok(n1);
    assert GetOr(n1, "a") == Null;
    assert Put(n1, "a", Object([])) == n2;
    assert MergeEntries(n1, n2) == Ok(n2);
    assert [n1, n2][1..] == [n2];
    assert MergeAll(n2, []) == Ok(n2);
  }

  /** Every value inside a table is well-formed. */
  ghost predicate WellFormedTable(t: Dict<Value>)
  {
    Distinct(t) && forall j :: 0 <= j < |t| ==> WellFormed(t[j].1)
  }

  /** Adding entries a table already holds keeps it as it is: `merge(r, r) == r`. */
  lemma {:induction false} MergeHeld(result: Dict<Value>, entries: Dict<Value>)
    requires forall i :: 0 <= i < |entries| ==> Get(result, entries[i].0) == Some(entries[i].1) && WellFormed(entries[i].1)
    ensures MergeEntries(result, entries) == Ok(result)
    decreases |entries|
  {
    if entries != [] {
      var (id, schema) := entries[0];
      SameReflexive(schema, true);
      PutSame(result, id, schema);
      assert forall i :: 0 <= i < |entries| - 1 ==> entries[1..][i] == entries[i + 1];
      MergeHeld(result, entries[1..]);
    }
  }

  /** A table merged with itself is itself, and so is a table merged alone. */
  lemma MergeSelf(t: Dict<Value>)
    requires WellFormedTable(t)
    ensures Merged([t]) == Ok(t)
    ensures Merged([t, t]) == Ok(t)
  {
    MergeHeld([], []);
    forall i | 0 <= i < |t| ensures Get(t, t[i].0) == Some(t[i].1) {
      GetDistinct(t, i);
    }
    MergeIntoEmpty(t);
    MergeHeld(t, t);
    assert [t, t][1..] == [t] && [t][1..] == [];
    assert MergeAll(t, []) == Ok(t);
    assert MergeAll(t, [t]) == Ok(t);
  }

  /** Merging a table with distinct keys into the empty table copies it. */
  lemma MergeIntoEmpty(t: Dict<Value>)
    requires Distinct(t)
    ensures MergeEntries([], t) == Ok(t)
  {
    assert [] + t == t;
    MergeAppends([], t);
  }

  /** Merging entries whose ids are all new appends them. */
  lemma {:induction false} MergeAppends(result: Dict<Value>, entries: Dict<Value>)
    requires Distinct(result + entries)
    ensures MergeEntries(result, entries) == Ok(result + entries)
    decreases |entries|
  {
    if entries == [] {
      assert result + entries == result;
    } else {
      var (id, schema) := entries[0];
      DistinctConcat(result, entries);
      assert id in Keys(entries);
      PutShape(result, id, schema);
      Seqs.Assoc(result, [entries[0]], entries[1..]);
      assert entries == [entries[0]] + entries[1..];
      MergeAppends(result + [entries[0]], entries[1..]);
    }
  }
}

/**
 * The JSON value model of `hat.json.data`: the `Data` union and its primitives
 * `equals`, `clone` and `flatten`.
 */
module Data {
  import opened Wrappers
  import opened Dict

  /** JSON data: null, bool, number, string, array, or an object kept in insertion order. */
  datatype Value =
    | Null
    | Bool(b: bool)
    | Number(n: int)
    | String(s: string)
    | Array(items: seq<Value>)
    | Object(fields: Dict<Value>)

  /** Every object, at every depth, has distinct keys, as every Python dict does. */
  ghost predicate WellFormed(v: Value)
  {
    match v
    case Array(xs) => forall i :: 0 <= i < |xs| ==> WellFormed(xs[i])
    case Object(fs) => Distinct(fs) && forall i :: 0 <= i < |fs| ==> WellFormed(fs[i].1)
    case _ => true
  }

  /** The exception `equals` can raise: `b[key]` on a key that `b` lacks. */
  datatype EqualsError = KeyError(key: string)

  // ---------------------------------------------------------------------------------
  // equals, as written: `all(...)` stops at the first pair that compares False, and a
  // key of `a` that `b` lacks raises KeyError when it is reached.
  // ---------------------------------------------------------------------------------

  function Equals(a: Value, b: Value): Result<bool, EqualsError>
    decreases a, 1
  {
    match a
    case Null => Ok(b.Null?)
    case Bool(x) => Ok(b.Bool? && x == b.b)
    case Number(x) => Ok(b.Number? && x == b.n)
    case String(x) => Ok(b.String? && x == b.s)
    case Array(xs) =>
      if b.Array? && |xs| == |b.items| then EqualsItems(xs, b.items) else Ok(false)
    case Object(fs) =>
      if b.Object? && |fs| == |b.fields| then EqualsFields(fs, b.fields) else Ok(false)
  }

  /** `all(equals(i, j) for i, j in zip(xs, ys))` */
  function EqualsItems(xs: seq<Value>, ys: seq<Value>): Result<bool, EqualsError>
    decreases xs, 0
  {
    if xs == [] || ys == [] then Ok(true)
    else
      match Equals(xs[0], ys[0])
      case Err(e) => Err(e)
      case Ok(false) => Ok(false)
      case Ok(true) => EqualsItems(xs[1..], ys[1..])
  }

  /** `all(equals(a[key], b[key]) for key in a.keys())`, with `fs` the entries of `a` still to visit */
  function EqualsFields(fs: Dict<Value>, gs: Dict<Value>): Result<bool, EqualsError>
    decreases fs, 0
  {
    if fs == [] then Ok(true)
    else
      match Get(gs, fs[0].0)
      case None => Err(KeyError(fs[0].0))
      case Some(g) =>
        assert fs[0].1 < fs[0];
        match Equals(fs[0].1, g)
        case Err(e) => Err(e)
        case Ok(false) => Ok(false)
        case Ok(true) => EqualsFields(fs[1..], gs)
  }

  // ---------------------------------------------------------------------------------
  // Structural comparison without exceptions. With `boolsAreNumbers` false it is what
  // `equals` evidently intends (a missing key compares False); with it true it is
  // Python's own `==` on data, where True == 1 and False == 0.
  // ---------------------------------------------------------------------------------

  function Same(a: Value, b: Value, boolsAreNumbers: bool): bool
    decreases a
  {
    match a
    case Null => b.Null?
    case Bool(x) =>
      (b.Bool? && x == b.b) || (boolsAreNumbers && b.Number? && b.n == (if x then 1 else 0))
    case Number(x) =>
      (b.Number? && x == b.n) || (boolsAreNumbers && b.Bool? && x == (if b.b then 1 else 0))
    case String(x) => b.String? && x == b.s
    case Array(xs) =>
      b.Array? && |xs| == |b.items| &&
      forall i :: 0 <= i < |xs| ==> Same(xs[i], b.items[i], boolsAreNumbers)
    case Object(fs) =>
      b.Object? && |fs| == |b.fields| &&
      forall i :: 0 <= i < |fs| ==>
        fs[i].0 in Keys(b.fields) && Same(fs[i].1, Get(b.fields, fs[i].0).value, boolsAreNumbers)
  }

  /** `equals` with a missing key comparing False instead of raising. */
  function JsonEquals(a: Value, b: Value): bool
  {
    Same(a, b, false)
  }

  /** Python's `a == b` on data. */
  function NativeEquals(a: Value, b: Value): bool
  {
    Same(a, b, true)
  }

  // ---------------------------------------------------------------------------------
  // clone and flatten
  // ---------------------------------------------------------------------------------

  /** `clone`: rebuild every array and object. As a value the copy is the original. */
  function Clone(v: Value): (r: Value)
    ensures r == v
  {
    match v
    case Array(xs) =>
      var ys := seq(|xs|, i requires 0 <= i < |xs| => Clone(xs[i]));
      assert ys == xs;
      Array(ys)
    case Object(fs) =>
      var gs := seq(|fs|, i requires 0 <= i < |fs| => (fs[i].0, Clone(fs[i].1)));
      assert gs == fs;
      Object(gs)
    case _ => v
  }

  /** `flatten`: the non-array leaves of `v`, in order; objects are leaves. */
  function Flatten(v: Value): seq<Value>
    decreases v, 1
  {
    match v
    case Array(xs) => FlattenItems(xs)
    case _ => [v]
  }

  function FlattenItems(xs: seq<Value>): seq<Value>
    decreases xs, 0
  {
    if xs == [] then [] else Flatten(xs[0]) + FlattenItems(xs[1..])
  }

  // ---------------------------------------------------------------------------------
  // Laws of equals
  // ---------------------------------------------------------------------------------

  /** A bool never equals a number, in either order. */
  lemma BoolIsNotNumber(x: bool, n: int)
    ensures Equals(Bool(x), Number(n)) == Ok(false)
    ensures Equals(Number(n), Bool(x)) == Ok(false)
  {
  }

  /** A null equals only a null, in either order. */
  lemma NullEqualsOnlyNull(v: Value)
    ensures Equals(Null, v) == Ok(v == Null)
    ensures Equals(v, Null) == Ok(v == Null)
  {
  }

  lemma {:induction false} EqualsItemsTrue(xs: seq<Value>, ys: seq<Value>)
    requires |xs| == |ys|
    ensures EqualsItems(xs, ys) == Ok(true) <==> forall i :: 0 <= i < |xs| ==> Equals(xs[i], ys[i]) == Ok(true)
  {
    if xs != [] {
      EqualsItemsTrue(xs[1..], ys[1..]);
      if Equals(xs[0], ys[0]) == Ok(true) {
        assert (forall i :: 0 <= i < |xs| ==> Equals(xs[i], ys[i]) == Ok(true)) <==>
               (forall i :: 0 <= i < |xs[1..]| ==> Equals(xs[1..][i], ys[1..][i]) == Ok(true)) by {
          forall i | 0 < i < |xs| ensures xs[1..][i - 1] == xs[i] && ys[1..][i - 1] == ys[i] { }
        }
      }
    }
  }

  /** Arrays are equal iff they have the same length and are pairwise equal: order matters. */
  lemma EqualsArrays(xs: seq<Value>, ys: seq<Value>)
    ensures Equals(Array(xs), Array(ys)) == Ok(true) <==>
            |xs| == |ys| && forall i :: 0 <= i < |xs| ==> Equals(xs[i], ys[i]) == Ok(true)
  {
    if |xs| == |ys| { EqualsItemsTrue(xs, ys); }
  }

  lemma {:induction false} EqualsFieldsTrue(fs: Dict<Value>, gs: Dict<Value>)
    ensures EqualsFields(fs, gs) == Ok(true) <==>
            forall i :: 0 <= i < |fs| ==>
              fs[i].0 in Keys(gs) && Equals(fs[i].1, Get(gs, fs[i].0).value) == Ok(true)
  {
    if fs != [] {
      EqualsFieldsTrue(fs[1..], gs);
      if fs[0].0 in Keys(gs) && Equals(fs[0].1, Get(gs, fs[0].0).value) == Ok(true) {
        forall i | 0 < i < |fs| ensures fs[1..][i - 1] == fs[i] { }
      }
    }
  }

  /** Objects of the same size are equal iff every key of the first is in the second with an equal value: key order is irrelevant. */
  lemma EqualsObjects(fs: Dict<Value>, gs: Dict<Value>)
    ensures Equals(Object(fs), Object(gs)) == Ok(true) <==>
            |fs| == |gs| &&
            forall i :: 0 <= i < |fs| ==>
              fs[i].0 in Keys(gs) && Equals(fs[i].1, Get(gs, fs[i].0).value) == Ok(true)
  {
    EqualsFieldsTrue(fs, gs);
  }

  /** Same-size objects: reaching a key of the first that the second lacks raises KeyError, it does not return False. */
  lemma {:induction false} EqualsMissingKey(fs: Dict<Value>, gs: Dict<Value>, j: nat)
    requires |fs| == |gs| && j < |fs|
    requires forall i :: 0 <= i < j ==> fs[i].0 in Keys(gs) && Equals(fs[i].1, Get(gs, fs[i].0).value) == Ok(true)
    requires fs[j].0 !in Keys(gs)
    ensures Equals(Object(fs), Object(gs)) == Err(KeyError(fs[j].0))
  {
    FieldsMissingKey(fs, gs, j);
  }

  lemma {:induction false} FieldsMissingKey(fs: Dict<Value>, gs: Dict<Value>, j: nat)
    requires j < |fs|
    requires forall i :: 0 <= i < j ==> fs[i].0 in Keys(gs) && Equals(fs[i].1, Get(gs, fs[i].0).value) == Ok(true)
    requires fs[j].0 !in Keys(gs)
    ensures EqualsFields(fs, gs) == Err(KeyError(fs[j].0))
  {
    if j > 0 {
      assert fs[0].0 in Keys(gs) && Equals(fs[0].1, Get(gs, fs[0].0).value) == Ok(true);
      assert EqualsFields(fs, gs) == EqualsFields(fs[1..], gs);
      forall i | 0 <= i < j - 1 ensures fs[1..][i] == fs[i + 1] { }
      FieldsMissingKey(fs[1..], gs, j - 1);
    }
  }

  /** Where `equals` answers True, the exception-free comparison answers True, and conversely. */
  lemma {:induction false} EqualsMeansJsonEquals(a: Value, b: Value)
    ensures Equals(a, b) == Ok(true) <==> JsonEquals(a, b)
    decreases a
  {
    match a
    case Array(xs) =>
      if b.Array? && |xs| == |b.items| {
        EqualsItemsTrue(xs, b.items);
        forall i | 0 <= i < |xs| ensures Equals(xs[i], b.items[i]) == Ok(true) <==> JsonEquals(xs[i], b.items[i]) {
          EqualsMeansJsonEquals(xs[i], b.items[i]);
        }
      }
    case Object(fs) =>
      if b.Object? && |fs| == |b.fields| {
        EqualsFieldsTrue(fs, b.fields);
        forall i | 0 <= i < |fs| && fs[i].0 in Keys(b.fields)
          ensures Equals(fs[i].1, Get(b.fields, fs[i].0).value) == Ok(true) <==> JsonEquals(fs[i].1, Get(b.fields, fs[i].0).value)
        {
          assert fs[i].1 < fs[i];
          EqualsMeansJsonEquals(fs[i].1, Get(b.fields, fs[i].0).value);
        }
      }
    case _ =>
  }

  lemma {:induction false} SameReflexive(v: Value, boolsAreNumbers: bool)
    requires WellFormed(v)
    ensures Same(v, v, boolsAreNumbers)
    decreases v
  {
    match v
    case Array(xs) =>
      forall i | 0 <= i < |xs| ensures Same(xs[i], xs[i], boolsAreNumbers) {
        SameReflexive(xs[i], boolsAreNumbers);
      }
    case Object(fs) =>
      forall i | 0 <= i < |fs| ensures fs[i].0 in Keys(fs) && Same(fs[i].1, Get(fs, fs[i].0).value, boolsAreNumbers) {
        GetDistinct(fs, i);
        assert fs[i].1 < fs[i];
        SameReflexive(fs[i].1, boolsAreNumbers);
      }
    case _ =>
  }

  lemma {:induction false} SameSymmetric(a: Value, b: Value, boolsAreNumbers: bool)
    requires WellFormed(a) && WellFormed(b)
    requires Same(a, b, boolsAreNumbers)
    ensures Same(b, a, boolsAreNumbers)
    decreases a
  {
    match a
    case Array(xs) =>
      forall i | 0 <= i < |xs| ensures Same(b.items[i], xs[i], boolsAreNumbers) {
        SameSymmetric(xs[i], b.items[i], boolsAreNumbers);
      }
    case Object(fs) =>
      var gs := b.fields;
      KeysCover(fs, gs);
      forall j | 0 <= j < |gs| ensures gs[j].0 in Keys(fs) && Same(gs[j].1, Get(fs, gs[j].0).value, boolsAreNumbers) {
        var k := gs[j].0;
        var i :| 0 <= i < |fs| && Keys(fs)[i] == k;
        GetDistinct(fs, i);
        GetDistinct(gs, j);
        assert fs[i].1 < fs[i];
        SameSymmetric(fs[i].1, gs[j].1, boolsAreNumbers);
      }
    case _ =>
  }

  /** Every well-formed value equals itself. */
  lemma EqualsReflexive(v: Value)
    requires WellFormed(v)
    ensures Equals(v, v) == Ok(true)
  {
    SameReflexive(v, false);
    EqualsMeansJsonEquals(v, v);
  }

  /** When `equals(a, b)` answers True, so does `equals(b, a)`. */
  lemma EqualsSymmetricWhenTrue(a: Value, b: Value)
    requires WellFormed(a) && WellFormed(b)
    requires Equals(a, b) == Ok(true)
    ensures Equals(b, a) == Ok(true)
  {
    EqualsMeansJsonEquals(a, b);
    SameSymmetric(a, b, false);
    EqualsMeansJsonEquals(b, a);
  }

  /** The exception-free comparison is symmetric on well-formed values. */
  lemma JsonEqualsSymmetric(a: Value, b: Value)
    requires WellFormed(a) && WellFormed(b)
    ensures JsonEquals(a, b) == JsonEquals(b, a)
  {
    if JsonEquals(a, b) { SameSymmetric(a, b, false); }
    if JsonEquals(b, a) { SameSymmetric(b, a, false); }
  }

  /** `equals(a, b)` and `equals(b, a)` can disagree: one raises KeyError where the other answers False. */
  lemma EqualsIsNotSymmetric()
    ensures Equals(Object([("y", Number(1)), ("x", Number(1))]), Object([("x", Number(2)), ("z", Number(1))]))
            == Err(KeyError("y"))
    ensures Equals(Object([("x", Number(2)), ("z", Number(1))]), Object([("y", Number(1)), ("x", Number(1))]))
            == Ok(false)
  {
  }

  /** A clone equals its original. */
  lemma CloneEquals(v: Value)
    requires WellFormed(v)
    ensures Equals(Clone(v), v) == Ok(true)
  {
    EqualsReflexive(v);
  }

  // ---------------------------------------------------------------------------------
  // Laws of flatten
  // ---------------------------------------------------------------------------------

  /** `flatten` yields no arrays: nested arrays are walked into, everything else is a leaf. */
  lemma {:induction false} FlattenNoArrays(v: Value)
    ensures forall i :: 0 <= i < |Flatten(v)| ==> !Flatten(v)[i].Array?
    ensures !v.Array? ==> Flatten(v) == [v]
    decreases v, 1
  {
    match v
    case Array(xs) => FlattenItemsNoArrays(xs);
    case _ =>
  }

  lemma {:induction false} FlattenItemsNoArrays(xs: seq<Value>)
    ensures forall i :: 0 <= i < |FlattenItems(xs)| ==> !FlattenItems(xs)[i].Array?
    decreases xs, 0
  {
    if xs != [] {
      FlattenNoArrays(xs[0]);
      FlattenItemsNoArrays(xs[1..]);
    }
  }

  /** Flattening a concatenation concatenates the flattenings. */
  lemma {:induction false} FlattenItemsConcat(xs: seq<Value>, ys: seq<Value>)
    ensures FlattenItems(xs + ys) == FlattenItems(xs) + FlattenItems(ys)
  {
    if xs == [] {
      assert xs + ys == ys;
    } else {
      assert (xs + ys)[0] == xs[0];
      assert (xs + ys)[1..] == xs[1..] + ys;
      FlattenItemsConcat(xs[1..], ys);
    }
  }

  /** The flattening of an array joined from two arrays is the join of their flattenings. */
  lemma FlattenArrayConcat(xs: seq<Value>, ys: seq<Value>)
    ensures Flatten(Array(xs + ys)) == Flatten(Array(xs)) + Flatten(Array(ys))
  {
    FlattenItemsConcat(xs, ys);
  }

  /** A sequence with no arrays in it flattens to itself. */
  lemma {:induction false} FlattenLeaves(xs: seq<Value>)
    requires forall i :: 0 <= i < |xs| ==> !xs[i].Array?
    ensures FlattenItems(xs) == xs
  {
    if xs != [] {
      FlattenLeaves(xs[1..]);
    }
  }

  /** Flattening an already flattened path changes nothing. */
  lemma FlattenIdempotent(v: Value)
    ensures Flatten(Array(Flatten(v))) == Flatten(v)
  {
    FlattenNoArrays(v);
    FlattenLeaves(Flatten(v));
  }

  lemma FlattenExample()
    ensures Flatten(Array([Number(1), Array([]), Array([Number(2)]), Object([("a", Array([Number(3)]))])]))
            == [Number(1), Number(2), Object([("a", Array([Number(3)]))])]
  {
  }
}

/**
 * The path resolver of `hat.json.path`: `get`, `set_` and `remove` over a value addressed by a
 * path, and the observable `Storage` that applies them.
 *
 * A path is itself data: it is read through `Flatten`, and each flattened element must be a
 * string key or an integer index (Python's bools are excluded by the value model already).
 */
module Path {
  import opened Wrappers
  import opened Dict
  import D = Dict
  import opened Data
  import Seqs

  /** The ValueError raised for a path element that is neither a string nor an integer. */
  datatype PathError = InvalidPath

  /** A path element that passed the check. */
  datatype Segment = Key(key: string) | Index(index: int)

  /** The segment a path element names, if it is a string or an integer. */
  function ToSegment(v: Value): Option<Segment>
  {
    match v
    case String(k) => Some(Key(k))
    case Number(i) => Some(Index(i))
    case _ => None
  }

  /** The path element a segment was read from. */
  function FromSegment(s: Segment): (v: Value)
    ensures ToSegment(v) == Some(s)
  {
    match s
    case Key(k) => String(k)
    case Index(i) => Number(i)
  }

  // ---------------------------------------------------------------------------------
  // Python list indexing
  // ---------------------------------------------------------------------------------

  /** `xs[i]` on a list of length `n` does not raise IndexError. */
  predicate InRange(i: int, n: nat)
  {
    -(n as int) <= i < n
  }

  /** The element `xs[i]` denotes: negative indices count from the end. */
  function Position(i: int, n: nat): (p: nat)
    requires InRange(i, n)
    ensures p < n
    ensures i >= 0 ==> p == i
    ensures i < 0 ==> p == n + i
  {
    if i >= 0 then i else n + i
  }

  /** `[None] * n`. */
  function Nulls(n: nat): seq<Value>
  {
    seq(n, _ => Null)
  }

  // ---------------------------------------------------------------------------------
  // One step into a value
  // ---------------------------------------------------------------------------------

  /** The segment names an existing member: a key `v` holds, or an index in range of `v`. */
  predicate Has(v: Value, s: Segment)
  {
    match s
    case Key(k) => v.Object? && k in Keys(v.fields)
    case Index(i) => v.Array? && InRange(i, |v.items|)
  }

  /** The member a segment names; null where it is absent or `v` is of the wrong kind. */
  function Child(v: Value, s: Segment): Value
  {
    match s
    case Key(k) =>
      if v.Object? && k in Keys(v.fields) then D.Get(v.fields, k).value else Null
    case Index(i) =>
      if v.Array? && InRange(i, |v.items|) then v.items[Position(i, |v.items|)] else Null
  }

  /** The node reached by following `segs` through `Child`. */
  function Descend(v: Value, segs: seq<Segment>): Value
    decreases |segs|
  {
    if segs == [] then v else Descend(Child(v, segs[0]), segs[1..])
  }

  /** Every segment of `segs` names an existing member on the way down. */
  predicate Resolves(v: Value, segs: seq<Segment>)
    decreases |segs|
  {
    segs == [] || (Has(v, segs[0]) && Resolves(Child(v, segs[0]), segs[1..]))
  }

  // ---------------------------------------------------------------------------------
  // get
  // ---------------------------------------------------------------------------------

  /** Where the miss-tolerant walk of `get` and `remove` ends. */
  datatype Location =
    | Invalid                       // a malformed element was reached: ValueError
    | Missing                       // an element named no existing member: stop there
    | Found(segs: seq<Segment>)     // every element resolved

  function Prepend(s: Segment, l: Location): Location
  {
    match l
    case Found(segs) => Found([s] + segs)
    case _ => l
  }

  /** The walk over the flattened path, element by element, stopping at the first miss. */
  function Locate(v: Value, path: seq<Value>): (l: Location)
    ensures l.Found? ==> |l.segs| == |path| && Resolves(v, l.segs)
    decreases |path|
  {
    if path == [] then Found([])
    else
      match ToSegment(path[0])
      case None => Invalid
      case Some(s) => if !Has(v, s) then Missing else Prepend(s, Locate(Child(v, s), path[1..]))
  }

  /** `get(data, path, default)` on the flattened path. */
  function Lookup(v: Value, path: seq<Value>, default: Value): Result<Value, PathError>
  {
    match Locate(v, path)
    case Invalid => Err(InvalidPath)
    case Missing => Ok(default)
    case Found(segs) => Ok(Descend(v, segs))
  }

  /** `get`: flatten the path, then walk it. */
  method Get(data: Value, path: Value, default: Value) returns (r: Result<Value, PathError>)
    ensures r == Lookup(data, Flatten(path), default)
  {
    r := GetAlong(data, Flatten(path), default);
  }

  /** The loop of `get`: step `data` down one element at a time, returning early on a miss. */
  method GetAlong(data: Value, segs: seq<Value>, default: Value) returns (r: Result<Value, PathError>)
    ensures r == Lookup(data, segs, default)
  {
    var node := data;
    ghost var done: seq<Segment> := [];
    var i := 0;
    while i < |segs|
      invariant 0 <= i <= |segs|
      invariant node == Descend(data, done)
      invariant Locate(data, segs) == Extend(done, Locate(node, segs[i..]))
    {
      var seg := ToSegment(segs[i]);
      if seg.None? {
        LocateStops(node, segs, i);
        return Err(InvalidPath);
      }
      if !Has(node, seg.value) {
        LocateStops(node, segs, i);
        return Ok(default);
      }
      LocateAdvances(node, segs, i, done);
      DescendSnoc(data, done, seg.value);
      node := Child(node, seg.value);
      done := done + [seg.value];
      i := i + 1;
    }
    assert segs[i..] == [] && done + [] == done;
    return Ok(node);
  }

  /** Where the walk stands at element `i`: an invalid element or a miss ends it. */
  lemma LocateStops(v: Value, path: seq<Value>, i: nat)
    requires i < |path|
    ensures ToSegment(path[i]).None? ==> Locate(v, path[i..]) == Invalid
    ensures ToSegment(path[i]).Some? && !Has(v, ToSegment(path[i]).value) ==> Locate(v, path[i..]) == Missing
  {
  }

  /** Where element `i` names an existing member, the walk moves into it. */
  lemma LocateAdvances(v: Value, path: seq<Value>, i: nat, pre: seq<Segment>)
    requires i < |path| && ToSegment(path[i]).Some? && Has(v, ToSegment(path[i]).value)
    ensures var s := ToSegment(path[i]).value;
      Extend(pre, Locate(v, path[i..])) == Extend(pre + [s], Locate(Child(v, s), path[i + 1..]))
  {
    var s := ToSegment(path[i]).value;
    assert path[i..][1..] == path[i + 1..];
    match Locate(Child(v, s), path[i + 1..])
    case Found(segs) => assert pre + ([s] + segs) == pre + [s] + segs;
    case _ =>
  }

  /** `Prepend` of every segment of `pre`, outermost first. */
  function Extend(pre: seq<Segment>, l: Location): Location
  {
    match l
    case Found(segs) => Found(pre + segs)
    case _ => l
  }

  lemma {:induction false} DescendSnoc(v: Value, segs: seq<Segment>, s: Segment)
    ensures Descend(v, segs + [s]) == Child(Descend(v, segs), s)
    decreases |segs|
  {
    if segs == [] {
      assert segs + [s] == [s];
    } else {
      assert (segs + [s])[1..] == segs[1..] + [s];
      DescendSnoc(Child(v, segs[0]), segs[1..], s);
    }
  }

  // ---------------------------------------------------------------------------------
  // set_
  // ---------------------------------------------------------------------------------

  /** The flattened path checked element by element: ValueError if any element is malformed. */
  function Segments(path: seq<Value>): (r: Result<seq<Segment>, PathError>)
    ensures r.Ok? ==> |r.value| == |path| && forall j :: 0 <= j < |path| ==> ToSegment(path[j]) == Some(r.value[j])
  {
    if path == [] then Ok([])
    else
      match ToSegment(path[0])
      case None => Err(InvalidPath)
      case Some(s) =>
        match Segments(path[1..])
        case Err(e) => Err(e)
        case Ok(ss) => Ok([s] + ss)
  }

  /** The list `set_` writes into: `parent` padded with nulls so that index `i` exists. */
  function Pad(items: seq<Value>, i: int): (r: seq<Value>)
    ensures InRange(i, |r|)
    ensures i >= |items| ==> |r| == i + 1 && r[..|items|] == items && forall j :: |items| <= j < |r| ==> r[j] == Null
    ensures i < 0 && -i > |items| ==> |r| == -i && r[-i - |items|..] == items && forall j :: 0 <= j < -i - |items| ==> r[j] == Null
    ensures InRange(i, |items|) ==> r == items
  {
    if i >= |items| then items + Nulls(i - |items| + 1)
    else if i < 0 && -i > |items| then Nulls(-i - |items|) + items
    else items
  }

  /** One rebuild step of `set_`: a copy of `parent` (or a fresh container of the right kind) with `v` at `s`. */
  function PutAt(parent: Value, s: Segment, v: Value): Value
  {
    match s
    case Key(k) =>
      Object(Put(if parent.Object? then parent.fields else [], k, v))
    case Index(i) =>
      var padded := Pad(if parent.Array? then parent.items else [], i);
      Array(padded[Position(i, |padded|) := v])
  }

  /**
   * What one step of `set_` does to its parent: the member now holds `v`; a dict keeps every
   * other key; a list too short for the index is padded with nulls at the end (index past the
   * end) or at the front (negative index before the start), and no other element moves.
   */
  lemma PutAtPlaces(parent: Value, s: Segment, v: Value)
    ensures var r := PutAt(parent, s, v);
      Has(r, s) && Child(r, s) == v
    ensures s.Key? ==> (
      var r, old_ := PutAt(parent, s, v), if parent.Object? then parent.fields else [];
      r.Object? && forall k :: k != s.key ==> D.Get(r.fields, k) == D.Get(old_, k))
    ensures s.Key? ==> (
      var r, old_ := PutAt(parent, s, v), if parent.Object? then parent.fields else [];
      (s.key in Keys(old_) ==> Keys(r.fields) == Keys(old_)) &&
      (s.key !in Keys(old_) ==> r.fields == old_ + [(s.key, v)]))
    ensures s.Index? ==> (
      var r, old_ := PutAt(parent, s, v), if parent.Array? then parent.items else [];
      var n, i := |old_|, s.index;
      r.Array? &&
      if i >= n then
        |r.items| == i + 1 && r.items[..n] == old_ && r.items[i] == v &&
        forall j :: n <= j < i ==> r.items[j] == Null
      else if i < 0 && -i > n then
        |r.items| == -i && r.items[0] == v && r.items[-i - n..] == old_ &&
        forall j :: 0 < j < -i - n ==> r.items[j] == Null
      else
        |r.items| == n && r.items == old_[Position(i, n) := v])
  {
    if s.Key? {
      var old_ := if parent.Object? then parent.fields else [];
      PutShape(old_, s.key, v);
      if s.key in Keys(old_) {
        KeysInPlace(old_, s.key, v);
      }
    }
  }

  /** `set_` on checked segments: rebuild the path innermost first, creating what is missing. */
  function Assign(v: Value, segs: seq<Segment>, x: Value): Value
    decreases |segs|
  {
    if segs == [] then x else PutAt(v, segs[0], Assign(Child(v, segs[0]), segs[1..], x))
  }

  /** `set_(data, path, value)` on the flattened path. */
  function Stored(v: Value, path: seq<Value>, x: Value): Result<Value, PathError>
  {
    match Segments(path)
    case Err(e) => Err(e)
    case Ok(segs) => Ok(Assign(v, segs, x))
  }

  /** The segments of a stack of `(parent, segment)` pairs. */
  ghost function SegmentsOf(stack: seq<(Value, Segment)>): (r: seq<Segment>)
    ensures |r| == |stack| && forall j :: 0 <= j < |stack| ==> r[j] == stack[j].1
  {
    seq(|stack|, j requires 0 <= j < |stack| => stack[j].1)
  }

  /** The stack links each parent to the next: `stack[j + 1].0` is the child of `stack[j]`. */
  ghost predicate Chained(stack: seq<(Value, Segment)>, root: Value, last: Value)
  {
    (stack == [] ==> last == root) &&
    (stack != [] ==> stack[0].0 == root && last == Child(stack[|stack| - 1].0, stack[|stack| - 1].1)) &&
    forall j :: 0 < j < |stack| ==> stack[j].0 == Child(stack[j - 1].0, stack[j - 1].1)
  }

  /** `set_`: flatten the path, then store along it. */
  method Set(data: Value, path: Value, value: Value) returns (r: Result<Value, PathError>)
    ensures r == Stored(data, Flatten(path), value)
  {
    r := SetAlong(data, Flatten(path), value);
  }

  /**
   * The loops of `set_` over the flattened path: a descent that records `(parent, segment)`
   * pairs, checking every element, then the rebuild of each parent around the value built so far.
   */
  method SetAlong(data: Value, segs: seq<Value>, value: Value) returns (r: Result<Value, PathError>)
    ensures r == Stored(data, segs, value)
  {
    var parents: seq<(Value, Segment)> := [];
    var node := data;
    var i := 0;
    while i < |segs|
      invariant i == |parents| <= |segs|
      invariant forall j :: 0 <= j < i ==> ToSegment(segs[j]) == Some(parents[j].1)
      invariant Chained(parents, data, node)
    {
      var seg := ToSegment(segs[i]);
      if seg.None? {
        SegmentsInvalid(segs, i);
        return Err(InvalidPath);
      }
      ChainedSnoc(parents, data, node, seg.value);
      parents := parents + [(node, seg.value)];
      node := Child(node, seg.value);
      i := i + 1;
    }
    StoredAlong(segs, parents, data, node, value);
    var rebuilt := Rewrap(parents, value);
    r := Ok(rebuilt);
  }

  /** Once every element is checked, `set_` stores what popping the recorded stack rebuilds. */
  lemma StoredAlong(segs: seq<Value>, parents: seq<(Value, Segment)>, data: Value, node: Value, value: Value)
    requires |parents| == |segs| && Chained(parents, data, node)
    requires forall j :: 0 <= j < |segs| ==> ToSegment(segs[j]) == Some(parents[j].1)
    ensures Stored(data, segs, value) == Ok(Rewrapped(parents, value, 0))
  {
    SegmentsValid(segs, SegmentsOf(parents));
    RewrappedIsAssign(parents, data, node, value, 0);
    assert SegmentsOf(parents)[0..] == SegmentsOf(parents);
  }

  /** The rebuild loop of `set_`: pop the recorded `(parent, segment)` pairs, wrapping the value built so far. */
  method Rewrap(parents: seq<(Value, Segment)>, value: Value) returns (rebuilt: Value)
    ensures rebuilt == Rewrapped(parents, value, 0)
  {
    rebuilt := value;
    var k := |parents|;
    while k > 0
      invariant 0 <= k <= |parents|
      invariant rebuilt == Rewrapped(parents, value, k)
    {
      var parent, s := parents[k - 1].0, parents[k - 1].1;
      rebuilt := PutAt(parent, s, rebuilt);
      k := k - 1;
    }
  }

  /** Pushing `(last, s)` onto a chained stack keeps it chained, with the child of `last` on top. */
  lemma ChainedSnoc(stack: seq<(Value, Segment)>, root: Value, last: Value, s: Segment)
    requires Chained(stack, root, last)
    ensures Chained(stack + [(last, s)], root, Child(last, s))
  {
  }

  /** The node the rebuild loops start from at depth `k`: the recorded parent, or the last node reached. */
  ghost function Below(stack: seq<(Value, Segment)>, last: Value, k: nat): Value
  {
    if k < |stack| then stack[k].0 else last
  }

  /** What the rebuild loop of `set_` holds once the stack is popped down to `k` entries. */
  ghost function Rewrapped(stack: seq<(Value, Segment)>, x: Value, k: nat): Value
    requires k <= |stack|
    decreases |stack| - k
  {
    if k == |stack| then x else PutAt(stack[k].0, stack[k].1, Rewrapped(stack, x, k + 1))
  }

  /** Popping a chained stack rebuilds exactly what `Assign` builds along its segments. */
  lemma {:induction false} RewrappedIsAssign(stack: seq<(Value, Segment)>, root: Value, last: Value, x: Value, k: nat)
    requires Chained(stack, root, last) && k <= |stack|
    ensures Rewrapped(stack, x, k) == Assign(Below(stack, last, k), SegmentsOf(stack)[k..], x)
    ensures k == 0 ==> Below(stack, last, k) == root
    decreases |stack| - k
  {
    var ss := SegmentsOf(stack);
    if k < |stack| {
      RewrappedIsAssign(stack, root, last, x, k + 1);
      assert ss[k..][1..] == ss[k + 1..];
      assert Below(stack, last, k + 1) == Child(stack[k].0, stack[k].1);
    }
  }

  lemma {:induction false} SegmentsValid(path: seq<Value>, ss: seq<Segment>)
    requires |ss| == |path|
    requires forall j :: 0 <= j < |path| ==> ToSegment(path[j]) == Some(ss[j])
    ensures Segments(path) == Ok(ss)
  {
    if path != [] {
      SegmentsValid(path[1..], ss[1..]);
      assert ToSegment(path[0]) == Some(ss[0]);
      assert ss == [ss[0]] + ss[1..];
    }
  }

  lemma {:induction false} SegmentsInvalid(path: seq<Value>, i: nat)
    requires i < |path| && ToSegment(path[i]).None?
    ensures Segments(path) == Err(InvalidPath)
  {
    if i > 0 && ToSegment(path[0]).Some? {
      assert path[1..][i - 1] == path[i];
      SegmentsInvalid(path[1..], i - 1);
    }
  }

  // ---------------------------------------------------------------------------------
  // remove
  // ---------------------------------------------------------------------------------

  /** `del parent[s]` on a copy of an existing container. */
  function DeleteAt(v: Value, s: Segment): (r: Value)
    requires Has(v, s)
    ensures r.Object? || r.Array?
  {
    match s
    case Key(k) => Object(D.Delete(v.fields, k))
    case Index(i) =>
      var p := Position(i, |v.items|);
      Array(v.items[..p] + v.items[p + 1..])
  }

  /** `parent[s] = x` on a copy of an existing container. */
  function ReplaceAt(v: Value, s: Segment, x: Value): (r: Value)
    requires Has(v, s)
    ensures r.Object? || r.Array?
  {
    match s
    case Key(k) => Object(Put(v.fields, k, x))
    case Index(i) => Array(v.items[Position(i, |v.items|) := x])
  }

  /** Deleting drops exactly the named key, or splices out exactly the named element. */
  lemma DeleteAtDrops(v: Value, s: Segment)
    requires Has(v, s)
    ensures s.Key? ==> (
      var r := DeleteAt(v, s);
      r.Object? && (Distinct(v.fields) ==> s.key !in Keys(r.fields)))
    ensures s.Key? ==> (
      var r := DeleteAt(v, s);
      forall k :: k != s.key ==> D.Get(r.fields, k) == D.Get(v.fields, k))
    ensures s.Index? ==> (
      var r, p := DeleteAt(v, s), Position(s.index, |v.items|);
      r.Array? && |r.items| == |v.items| - 1 &&
      r.items[..p] == v.items[..p] && r.items[p..] == v.items[p + 1..])
    ensures s.Key? ==> (
      var r, i := DeleteAt(v, s), First(v.fields, s.key);
      r.fields == v.fields[..i] + v.fields[i + 1..])
  {
    if s.Key? {
      DeleteSplices(v.fields, s.key);
    }
  }

  /** Replacing puts `x` at the named member and leaves every other member as it was. */
  lemma ReplaceAtPlaces(v: Value, s: Segment, x: Value)
    requires Has(v, s)
    ensures var r := ReplaceAt(v, s, x);
      Has(r, s) && Child(r, s) == x
    ensures s.Key? ==> (
      var r := ReplaceAt(v, s, x);
      r.Object? && forall k :: k != s.key ==> D.Get(r.fields, k) == D.Get(v.fields, k))
    ensures s.Index? ==> (
      var r := ReplaceAt(v, s, x);
      r.Array? && r.items == v.items[Position(s.index, |v.items|) := x])
    ensures s.Key? ==> (
      var r := ReplaceAt(v, s, x);
      r.fields == v.fields[First(v.fields, s.key) := (s.key, x)] && Keys(r.fields) == Keys(v.fields))
  {
    if s.Key? {
      PutInPlace(v.fields, s.key, x);
      KeysInPlace(v.fields, s.key, x);
    }
  }

  /** `remove` along a resolved path: delete at the deepest level, replace the child at every shallower one. */
  function Excise(v: Value, segs: seq<Segment>): (r: Value)
    requires Resolves(v, segs)
    ensures segs != [] ==> (r.Object? || r.Array?)
    decreases |segs|
  {
    if segs == [] then Null
    else if |segs| == 1 then DeleteAt(v, segs[0])
    else ReplaceAt(v, segs[0], Excise(Child(v, segs[0]), segs[1..]))
  }

  /** `remove(data, path)` on the flattened path: the original when the path does not resolve. */
  function Removed(v: Value, path: seq<Value>): Result<Value, PathError>
  {
    match Locate(v, path)
    case Invalid => Err(InvalidPath)
    case Missing => Ok(v)
    case Found(segs) => Ok(Excise(v, segs))
  }

  /** `remove`: flatten the path, then remove along it. */
  method Remove(data: Value, path: Value) returns (r: Result<Value, PathError>)
    ensures r == Removed(data, Flatten(path))
  {
    r := RemoveAlong(data, Flatten(path));
  }

  /**
   * The loops of `remove` over the flattened path: the miss-tolerant descent of `get`, recording
   * `(parent, segment)` pairs, then the rebuild of each parent after the deepest member is deleted.
   */
  method RemoveAlong(data: Value, segs: seq<Value>) returns (r: Result<Value, PathError>)
    ensures r == Removed(data, segs)
  {
    var node := data;
    var parents: seq<(Value, Segment)> := [];
    ghost var done: seq<Segment> := [];
    var i := 0;
    while i < |segs|
      invariant 0 <= i <= |segs|
      invariant node == Descend(data, done) && Resolves(data, done)
      invariant parents == Trail(data, done)
      invariant Locate(data, segs) == Extend(done, Locate(node, segs[i..]))
    {
      var seg := ToSegment(segs[i]);
      if seg.None? {
        LocateStops(node, segs, i);
        return Err(InvalidPath);
      }
      if !Has(node, seg.value) {
        LocateStops(node, segs, i);
        return Ok(data);
      }
      LocateAdvances(node, segs, i, done);
      DescendSnoc(data, done, seg.value);
      ResolvesSnoc(data, done, seg.value);
      TrailSnoc(data, done, seg.value);
      parents := parents + [(node, seg.value)];
      node := Child(node, seg.value);
      done := done + [seg.value];
      i := i + 1;
    }
    assert segs[i..] == [] && done + [] == done;
    TrailUnwinds(data, done);
    var result := Unwind(parents);
    r := Ok(result);
  }

  /**
   * The rebuild loop of `remove`: pop the recorded `(parent, segment)` pairs; the first pop
   * deletes the member (nothing has been rebuilt yet), every later pop stores the rebuilt child.
   */
  method Unwind(parents: seq<(Value, Segment)>) returns (result: Value)
    requires Present(parents)
    ensures result == Unwound(parents, 0)
  {
    result := Null;
    var k := |parents|;
    while k > 0
      invariant 0 <= k <= |parents|
      invariant result == Unwound(parents, k)
    {
      var parent, s := parents[k - 1].0, parents[k - 1].1;
      if result.Null? {
        result := DeleteAt(parent, s);
      } else {
        result := ReplaceAt(parent, s, result);
      }
      k := k - 1;
    }
  }

  /** The stack the descent of `remove` records along `segs`: each segment with the node it is applied to. */
  ghost function Trail(v: Value, segs: seq<Segment>): (r: seq<(Value, Segment)>)
    ensures |r| == |segs|
    decreases |segs|
  {
    if segs == [] then []
    else
      var n := |segs| - 1;
      Trail(v, segs[..n]) + [(Descend(v, segs[..n]), segs[n])]
  }

  lemma TrailSnoc(v: Value, segs: seq<Segment>, s: Segment)
    ensures Trail(v, segs + [s]) == Trail(v, segs) + [(Descend(v, segs), s)]
  {
    assert (segs + [s])[..|segs|] == segs;
  }

  /** A path resolves one segment further exactly when the next segment names a member of the node reached. */
  lemma {:induction false} ResolvesSnoc(v: Value, segs: seq<Segment>, s: Segment)
    ensures Resolves(v, segs + [s]) <==> Resolves(v, segs) && Has(Descend(v, segs), s)
    decreases |segs|
  {
    if segs == [] {
      assert segs + [s] == [s];
    } else {
      assert (segs + [s])[1..] == segs[1..] + [s];
      ResolvesSnoc(Child(v, segs[0]), segs[1..], s);
    }
  }

  /** Popping the recorded stack of a resolved path removes what `Excise` removes along it. */
  lemma TrailUnwinds(v: Value, segs: seq<Segment>)
    requires Resolves(v, segs)
    ensures Present(Trail(v, segs)) && Unwound(Trail(v, segs), 0) == Excise(v, segs)
  {
    TrailFacts(v, segs);
    UnwoundIsExcise(Trail(v, segs), v, Descend(v, segs), 0);
  }

  /** The recorded stack of a resolved path is chained from the root, names existing members, and carries the path. */
  lemma {:induction false} TrailFacts(v: Value, segs: seq<Segment>)
    requires Resolves(v, segs)
    ensures Chained(Trail(v, segs), v, Descend(v, segs)) && Present(Trail(v, segs))
    ensures SegmentsOf(Trail(v, segs)) == segs
    decreases |segs|
  {
    if segs != [] {
      var n := |segs| - 1;
      var init, s := segs[..n], segs[n];
      assert segs == init + [s];
      ResolvesSnoc(v, init, s);
      TrailFacts(v, init);
      DescendSnoc(v, init, s);
      PushPresent(Trail(v, init), v, Descend(v, init), s);
    }
  }

  /** Every recorded segment names an existing member of its parent. */
  ghost predicate Present(stack: seq<(Value, Segment)>)
  {
    forall j :: 0 <= j < |stack| ==> Has(stack[j].0, stack[j].1)
  }

  /** The descent of `remove` pushes only members that exist. */
  lemma PushPresent(stack: seq<(Value, Segment)>, root: Value, last: Value, s: Segment)
    requires Chained(stack, root, last) && Present(stack) && Has(last, s)
    ensures Chained(stack + [(last, s)], root, Child(last, s)) && Present(stack + [(last, s)])
    ensures SegmentsOf(stack + [(last, s)]) == SegmentsOf(stack) + [s]
  {
    assert SegmentsOf(stack + [(last, s)]) == SegmentsOf(stack) + [s];
  }

  /** What the rebuild loop of `remove` holds once the stack is popped down to `k` entries. */
  ghost function Unwound(stack: seq<(Value, Segment)>, k: nat): Value
    requires k <= |stack|
    decreases |stack| - k
  {
    if k == |stack| then Null
    else
      var inner := Unwound(stack, k + 1);
      var (parent, s) := stack[k];
      if !Has(parent, s) then parent
      else if inner.Null? then DeleteAt(parent, s) else ReplaceAt(parent, s, inner)
  }

  /** Popping a chained stack of existing members removes exactly what `Excise` removes. */
  lemma {:induction false} UnwoundIsExcise(stack: seq<(Value, Segment)>, root: Value, last: Value, k: nat)
    requires Chained(stack, root, last) && Present(stack) && k <= |stack|
    ensures Resolves(Below(stack, last, k), SegmentsOf(stack)[k..])
    ensures Unwound(stack, k) == Excise(Below(stack, last, k), SegmentsOf(stack)[k..])
    ensures k == 0 ==> Below(stack, last, k) == root
    ensures k == 0 ==> Unwound(stack, 0) == Excise(root, SegmentsOf(stack))
    decreases |stack| - k
  {
    var ss := SegmentsOf(stack);
    assert ss[0..] == ss;
    if k < |stack| {
      UnwoundIsExcise(stack, root, last, k + 1);
      assert ss[k..][1..] == ss[k + 1..];
      assert Below(stack, last, k + 1) == Child(stack[k].0, stack[k].1);
      assert Has(stack[k].0, stack[k].1);
    }
  }

  // ---------------------------------------------------------------------------------
  // Laws of get, set_ and remove
  // ---------------------------------------------------------------------------------

  /** The walk resolves a path exactly when every element is a valid segment naming an existing member. */
  lemma LocateFound(v: Value, path: seq<Value>, ss: seq<Segment>)
    ensures Locate(v, path) == Found(ss) <==>
      |ss| == |path| && (forall j :: 0 <= j < |path| ==> ToSegment(path[j]) == Some(ss[j])) && Resolves(v, ss)
  {
    if Locate(v, path) == Found(ss) {
      FoundSegments(v, path);
    }
    if |ss| == |path| && (forall j :: 0 <= j < |path| ==> ToSegment(path[j]) == Some(ss[j])) && Resolves(v, ss) {
      ResolvedLocates(v, path, ss);
    }
  }

  lemma {:induction false} FoundSegments(v: Value, path: seq<Value>)
    requires Locate(v, path).Found?
    ensures forall j :: 0 <= j < |path| ==> ToSegment(path[j]) == Some(Locate(v, path).segs[j])
    decreases |path|
  {
    if path != [] {
      var s := ToSegment(path[0]).value;
      var c := Child(v, s);
      FoundSegments(c, path[1..]);
      var ss := Locate(c, path[1..]).segs;
      assert Locate(v, path).segs == [s] + ss;
      forall j | 0 < j < |path| ensures ToSegment(path[j]) == Some(([s] + ss)[j]) {
        assert path[1..][j - 1] == path[j] && ([s] + ss)[j] == ss[j - 1];
      }
    }
  }

  lemma {:induction false} ResolvedLocates(v: Value, path: seq<Value>, ss: seq<Segment>)
    requires |ss| == |path| && Resolves(v, ss)
    requires forall j :: 0 <= j < |path| ==> ToSegment(path[j]) == Some(ss[j])
    ensures Locate(v, path) == Found(ss)
    decreases |path|
  {
    if path != [] {
      forall j | 0 <= j < |path| - 1 ensures ToSegment(path[1..][j]) == Some(ss[1..][j]) {
        assert path[1..][j] == path[j + 1] && ss[1..][j] == ss[j + 1];
      }
      ResolvedLocates(Child(v, ss[0]), path[1..], ss[1..]);
      assert ss == [ss[0]] + ss[1..];
    }
  }

  lemma {:induction false} DescendAppend(v: Value, ss: seq<Segment>, ts: seq<Segment>)
    ensures Descend(v, ss + ts) == Descend(Descend(v, ss), ts)
    decreases |ss|
  {
    if ss == [] {
      assert ss + ts == ts;
    } else {
      assert (ss + ts)[1..] == ss[1..] + ts;
      DescendAppend(Child(v, ss[0]), ss[1..], ts);
    }
  }

  /** The walk over `p + q`: a malformed element or a miss within `p` ends it there; otherwise it goes on from where `p` led. */
  lemma {:induction false} LocateAppend(v: Value, p: seq<Value>, q: seq<Value>)
    ensures Locate(v, p).Invalid? ==> Locate(v, p + q) == Invalid
    ensures Locate(v, p).Missing? ==> Locate(v, p + q) == Missing
    ensures Locate(v, p).Found? ==> Locate(v, p + q) == Extend(Locate(v, p).segs, Locate(Descend(v, Locate(v, p).segs), q))
    decreases |p|
  {
    if p == [] {
      assert p + q == q;
      var l := Locate(v, q);
      assert l.Found? ==> [] + l.segs == l.segs;
    } else {
      assert (p + q)[0] == p[0] && (p + q)[1..] == p[1..] + q;
      var t := ToSegment(p[0]);
      if t.Some? && Has(v, t.value) {
        var s, c := t.value, Child(v, t.value);
        LocateAppend(c, p[1..], q);
        var l := Locate(c, p[1..]);
        assert Locate(v, p) == Prepend(s, l);
        assert Locate(v, p + q) == Prepend(s, Locate(c, p[1..] + q));
        if l.Found? {
          var ss := l.segs;
          assert ([s] + ss)[0] == s && ([s] + ss)[1..] == ss;
          assert Descend(v, [s] + ss) == Descend(c, ss);
          var m := Locate(Descend(c, ss), q);
          if m.Found? {
            Seqs.Assoc([s], ss, m.segs);
          }
        }
      }
    }
  }

  /**
   * `get` along `p + q` decides at the first miss in `p` and looks at no element of `q`;
   * once `p` resolves, it is `get` along `q` from the node `p` reached.
   */
  lemma LookupAppend(v: Value, p: seq<Value>, q: seq<Value>, d: Value)
    ensures Locate(v, p).Invalid? ==> Lookup(v, p + q, d) == Err(InvalidPath)
    ensures Locate(v, p).Missing? ==> Lookup(v, p + q, d) == Ok(d)
    ensures Locate(v, p).Found? ==> Lookup(v, p + q, d) == Lookup(Descend(v, Locate(v, p).segs), q, d)
  {
    LocateAppend(v, p, q);
    match Locate(v, p) {
      case Found(ss) =>
        match Locate(Descend(v, ss), q) {
          case Found(ts) => DescendAppend(v, ss, ts);
          case _ =>
        }
      case _ =>
    }
  }

  /** `set_` fails exactly when some element of the flattened path is neither a string nor an integer. */
  lemma StoredFails(v: Value, path: seq<Value>, x: Value)
    ensures Stored(v, path, x).Err? <==> exists j :: 0 <= j < |path| && ToSegment(path[j]).None?
  {
    if j :| 0 <= j < |path| && ToSegment(path[j]).None? {
      SegmentsInvalid(path, j);
    } else {
      var ss := seq(|path|, j requires 0 <= j < |path| => ToSegment(path[j]).value);
      SegmentsValid(path, ss);
    }
  }

  /** Along the segments it stored through, `set_` leaves a path that resolves to the stored value. */
  lemma {:induction false} AssignResolves(v: Value, segs: seq<Segment>, x: Value)
    ensures Resolves(Assign(v, segs, x), segs) && Descend(Assign(v, segs, x), segs) == x
    decreases |segs|
  {
    if segs != [] {
      var s := segs[0];
      AssignResolves(Child(v, s), segs[1..], x);
      PutAtPlaces(v, s, Assign(Child(v, s), segs[1..], x));
    }
  }

  /**
   * Below a prefix `init` of the segments, `set_` rebuilds the node `init` reached from the
   * original node there: the prefix resolves afterwards, and the node is the assignment of `rest`.
   */
  lemma {:induction false} AssignAt(v: Value, init: seq<Segment>, rest: seq<Segment>, x: Value)
    ensures Resolves(Assign(v, init + rest, x), init)
    ensures Descend(Assign(v, init + rest, x), init) == Assign(Descend(v, init), rest, x)
    decreases |init|
  {
    if init == [] {
      assert init + rest == rest;
    } else {
      var s, segs := init[0], init + rest;
      assert segs[0] == s && segs[1..] == init[1..] + rest;
      AssignAt(Child(v, s), init[1..], rest, x);
      PutAtPlaces(v, s, Assign(Child(v, s), init[1..] + rest, x));
    }
  }

  /**
   * At every level along the path, `set_` changes only the member on the path: the node at
   * `init` afterwards is the original node there with `s` set to the rebuilt child, so by
   * PutAtPlaces every other key or item of it is kept.
   */
  lemma AssignKeepsOffPath(v: Value, init: seq<Segment>, s: Segment, rest: seq<Segment>, x: Value)
    ensures Resolves(Assign(v, init + [s] + rest, x), init)
    ensures Descend(Assign(v, init + [s] + rest, x), init) ==
      PutAt(Descend(v, init), s, Assign(Descend(v, init + [s]), rest, x))
  {
    Seqs.Assoc(init, [s], rest);
    AssignAt(v, init, [s] + rest, x);
    assert ([s] + rest)[0] == s && ([s] + rest)[1..] == rest;
    DescendSnoc(v, init, s);
  }

  /** `set_({'a': [1, 2], 'b': 3}, ['a', 1], 4)` is `{'a': [1, 4], 'b': 3}`: the sibling `'b'` is kept. */
  lemma SetKeepsSiblingsExample()
    ensures Stored(Object([("a", Array([Number(1), Number(2)])), ("b", Number(3))]), [String("a"), Number(1)], Number(4))
            == Ok(Object([("a", Array([Number(1), Number(4)])), ("b", Number(3))]))
  {
    var v := Object([("a", Array([Number(1), Number(2)])), ("b", Number(3))]);
    SegmentsValid([String("a"), Number(1)], [Key("a"), Index(1)]);
    var a, a' := Array([Number(1), Number(2)]), Array([Number(1), Number(4)]);
    assert Child(v, Key("a")) == a;
    assert Pad(a.items, 1) == a.items && Position(1, 2) == 1;
    assert [Index(1)][1..] == [];
    assert Assign(a, [Index(1)], Number(4)) == PutAt(a, Index(1), Number(4)) == a';
    assert [Key("a"), Index(1)][1..] == [Index(1)];
    assert Put(v.fields, "a", a') == [("a", a'), ("b", Number(3))];
    assert Assign(v, [Key("a"), Index(1)], Number(4)) == PutAt(v, Key("a"), a');
  }

  /** The round trip: `get(set_(d, p, x), p) == x` whenever `set_` succeeds. */
  lemma StoredThenLookup(v: Value, path: seq<Value>, x: Value, d: Value)
    ensures Stored(v, path, x).Ok? ==> Lookup(Stored(v, path, x).value, path, d) == Ok(x)
  {
    if Segments(path).Ok? {
      var ss := Segments(path).value;
      AssignResolves(v, ss, x);
      LocateFound(Assign(v, ss, x), path, ss);
    }
  }

  /** At the end of a resolved path `remove` deletes the member from its parent, and the parent's path still resolves. */
  lemma {:induction false} ExciseDeletes(v: Value, init: seq<Segment>, s: Segment)
    requires Resolves(v, init + [s])
    ensures Has(Descend(v, init), s)
    ensures Resolves(Excise(v, init + [s]), init)
    ensures Descend(Excise(v, init + [s]), init) == DeleteAt(Descend(v, init), s)
    decreases |init|
  {
    ResolvesSnoc(v, init, s);
    if init == [] {
      assert init + [s] == [s];
    } else {
      var a, segs := init[0], init + [s];
      assert segs[0] == a && segs[1..] == init[1..] + [s];
      var inner := Excise(Child(v, a), init[1..] + [s]);
      ExciseDeletes(Child(v, a), init[1..], s);
      ReplaceAtPlaces(v, a, inner);
    }
  }

  /**
   * Above the member it deletes, `remove` rebuilds the node a prefix `init` reached: the prefix
   * still resolves, and the node there is the removal along `rest` from the original node.
   */
  lemma {:induction false} ExciseAt(v: Value, init: seq<Segment>, rest: seq<Segment>)
    requires Resolves(v, init + rest) && rest != []
    ensures Resolves(Descend(v, init), rest)
    ensures Resolves(Excise(v, init + rest), init)
    ensures Descend(Excise(v, init + rest), init) == Excise(Descend(v, init), rest)
    decreases |init|
  {
    if init == [] {
      assert init + rest == rest;
    } else {
      var a, segs := init[0], init + rest;
      assert segs[0] == a && segs[1..] == init[1..] + rest;
      ExciseAt(Child(v, a), init[1..], rest);
      ReplaceAtPlaces(v, a, Excise(Child(v, a), init[1..] + rest));
    }
  }

  /**
   * At every level above the deleted member, `remove` changes only the member on the path: the
   * node at `init` afterwards is the original node there with `s` replaced by the rebuilt child,
   * so by ReplaceAtPlaces every other key or item of it is kept.
   */
  lemma ExciseKeepsOffPath(v: Value, init: seq<Segment>, s: Segment, rest: seq<Segment>)
    requires Resolves(v, init + [s] + rest) && rest != []
    ensures Has(Descend(v, init), s) && Resolves(Descend(v, init + [s]), rest)
    ensures Resolves(Excise(v, init + [s] + rest), init)
    ensures Descend(Excise(v, init + [s] + rest), init) ==
      ReplaceAt(Descend(v, init), s, Excise(Descend(v, init + [s]), rest))
  {
    Seqs.Assoc(init, [s], rest);
    ExciseAt(v, init, [s] + rest);
    assert ([s] + rest)[0] == s && ([s] + rest)[1..] == rest;
    DescendSnoc(v, init, s);
  }

  /**
   * `remove` along a path that resolves: what `get` finds at the path's parent afterwards is the
   * original parent with the member deleted.
   */
  lemma RemovedDeletes(v: Value, path: seq<Value>, d: Value)
    requires Locate(v, path).Found? && path != []
    ensures Has(Descend(v, Locate(v, path).segs[..|path| - 1]), Locate(v, path).segs[|path| - 1])
    ensures var n, segs := |path| - 1, Locate(v, path).segs;
      Lookup(Removed(v, path).value, path[..n], d) == Ok(DeleteAt(Descend(v, segs[..n]), segs[n]))
  {
    var n, segs := |path| - 1, Locate(v, path).segs;
    var r := Excise(v, segs);
    LocateFound(v, path, segs);
    Seqs.SplitLast(segs);
    ExciseDeletes(v, segs[..n], segs[n]);
    SegmentsPrefix(path, segs, n);
    LocateFound(r, path[..n], segs[..n]);
    assert Removed(v, path) == Ok(r);
  }

  lemma SegmentsPrefix(path: seq<Value>, ss: seq<Segment>, n: nat)
    requires n <= |path| == |ss|
    requires forall j :: 0 <= j < |path| ==> ToSegment(path[j]) == Some(ss[j])
    ensures forall j :: 0 <= j < n ==> ToSegment(path[..n][j]) == Some(ss[..n][j])
  {
    forall j | 0 <= j < n ensures ToSegment(path[..n][j]) == Some(ss[..n][j]) {
      assert path[..n][j] == path[j] && ss[..n][j] == ss[j];
    }
  }

  // Examples from the documentation and the tests of `hat.json.path`.

  /** `get(data, ['a', 2, 0])` steps through a dict and two lists. */
  lemma GetNestedExample()
    ensures Lookup(Object([("a", Array([Number(1), Number(2), Array([Number(3), Number(4)])]))]),
                   [String("a"), Number(2), Number(0)], Null) == Ok(Number(3))
  {
    var inner := Array([Number(3), Number(4)]);
    var xs := Array([Number(1), Number(2), inner]);
    var v := Object([("a", xs)]);
    assert Locate(inner, [Number(0)]) == Found([Index(0)]);
    assert Locate(xs, [Number(2), Number(0)]) == Found([Index(2), Index(0)]);
    assert Locate(v, [String("a"), Number(2), Number(0)]) == Found([Key("a"), Index(2), Index(0)]);
  }

  /** Negative indices count from the end; an index outside `[-len, len)` or a key into a string misses. */
  lemma GetIndexExamples()
    ensures Lookup(Array([Number(1), Number(2), Number(3)]), [Number(-1)], Null) == Ok(Number(3))
    ensures Lookup(Array([Number(1), Number(2), Number(3)]), [Number(-4)], Number(123)) == Ok(Number(123))
    ensures Lookup(String("abc"), [Number(1), String("a")], Null) == Ok(Null)
  {
  }

  /** `set_(None, ['a', 1], 'x')` creates the dict and the list, padding the list with a null. */
  lemma SetCreatesExample()
    ensures Stored(Null, [String("a"), Number(1)], String("x"))
            == Ok(Object([("a", Array([Null, String("x")]))]))
    ensures Stored(Null, [Bool(true)], Number(1)) == Err(InvalidPath)
  {
    assert Nulls(2) == [Null, Null];
    SegmentsValid([String("a"), Number(1)], [Key("a"), Index(1)]);
    assert Pad([], 1) == [Null, Null];
    assert Assign(Null, [Index(1)], String("x")) == Array([Null, String("x")]);
  }

  /** On `[1, 2, 3]`, index 4 pads at the end and index -5 pads at the front. */
  lemma SetPadsExample()
    ensures Stored(Array([Number(1), Number(2), Number(3)]), [Number(4)], String("a"))
            == Ok(Array([Number(1), Number(2), Number(3), Null, String("a")]))
    ensures Stored(Array([Number(1), Number(2), Number(3)]), [Number(-5)], String("a"))
            == Ok(Array([String("a"), Null, Number(1), Number(2), Number(3)]))
  {
    var xs := [Number(1), Number(2), Number(3)];
    assert Nulls(2) == [Null, Null];
    SegmentsValid([Number(4)], [Index(4)]);
    SegmentsValid([Number(-5)], [Index(-5)]);
    assert [Index(4)][1..] == [] && [Index(-5)][1..] == [];
    assert Pad(xs, 4) == xs + [Null, Null];
    assert Assign(Array(xs), [Index(4)], String("a")) == PutAt(Array(xs), Index(4), String("a"));
    assert (xs + [Null, Null])[4 := String("a")] == [Number(1), Number(2), Number(3), Null, String("a")];
    assert Pad(xs, -5) == [Null, Null] + xs;
    assert Assign(Array(xs), [Index(-5)], String("a")) == PutAt(Array(xs), Index(-5), String("a"));
    assert Position(-5, 5) == 0;
    assert ([Null, Null] + xs)[0 := String("a")] == [String("a"), Null, Number(1), Number(2), Number(3)];
  }

  /** `remove([1, {'a': [2, 3]}], [1, 'a', 0])` splices the innermost list and rebuilds the rest. */
  lemma RemoveNestedExample()
    ensures Removed(Array([Number(1), Object([("a", Array([Number(2), Number(3)]))])]), [Number(1), String("a"), Number(0)])
            == Ok(Array([Number(1), Object([("a", Array([Number(3)]))])]))
  {
    var inner := Array([Number(2), Number(3)]);
    var obj := Object([("a", inner)]);
    var v := Array([Number(1), obj]);
    var segs := [Index(1), Key("a"), Index(0)];
    NestedLocates(inner, obj, v);
    NestedExcises(inner, obj, v);
  }

  lemma NestedExcises(inner: Value, obj: Value, v: Value)
    requires inner == Array([Number(2), Number(3)]) && obj == Object([("a", inner)]) && v == Array([Number(1), obj])
    requires Child(v, Index(1)) == obj && Child(obj, Key("a")) == inner
    ensures Resolves(v, [Index(1), Key("a"), Index(0)])
    ensures Excise(v, [Index(1), Key("a"), Index(0)]) == Array([Number(1), Object([("a", Array([Number(3)]))])])
  {
    assert DeleteAt(inner, Index(0)) == Array([Number(3)]);
    assert Excise(obj, [Key("a"), Index(0)]) == Object([("a", Array([Number(3)]))]);
    assert Excise(v, [Index(1), Key("a"), Index(0)]) == ReplaceAt(v, Index(1), Excise(obj, [Key("a"), Index(0)]));
  }

  lemma NestedLocates(inner: Value, obj: Value, v: Value)
    requires inner == Array([Number(2), Number(3)]) && obj == Object([("a", inner)]) && v == Array([Number(1), obj])
    ensures Child(v, Index(1)) == obj && Child(obj, Key("a")) == inner
    ensures Locate(v, [Number(1), String("a"), Number(0)]) == Found([Index(1), Key("a"), Index(0)])
  {
    assert Locate(inner, [Number(0)]) == Found([Index(0)]);
    assert Locate(obj, [String("a"), Number(0)]) == Found([Key("a"), Index(0)]);
  }

  /** A key is dropped; a miss leaves the data as it was; the empty path removes everything. */
  lemma RemoveSimpleExamples()
    ensures Removed(Object([("a", Number(1)), ("b", Number(2))]), [String("a")]) == Ok(Object([("b", Number(2))]))
    ensures Removed(Array([Number(1), Number(2), Number(3)]), [Number(5)]) == Ok(Array([Number(1), Number(2), Number(3)]))
    ensures Removed(Number(123), []) == Ok(Null)
  {
  }

  // ---------------------------------------------------------------------------------
  // Storage
  // ---------------------------------------------------------------------------------

  /** The copies of `v` that one change notification hands to each registered callback, in order. */
  function Deliveries(handles: seq<nat>, v: Value): seq<(nat, Value)>
  {
    seq(|handles|, j requires 0 <= j < |handles| => (handles[j], v))
  }

  /**
   * Observable JSON data: `get`, `set` and `remove` apply the path operations to `data`, and every
   * `set` or `remove` that does not raise notifies each registered change callback once with the
   * new data. Callbacks are represented by their registration handles; `delivered` logs every
   * notification as (handle, data) in the order they are made.
   */
  class Storage {
    var data: Value
    var callbacks: seq<nat>
    var nextHandle: nat
    ghost var delivered: seq<(nat, Value)>

    /** Handles are distinct, in the order they were handed out, and below the next one to hand out. */
    ghost predicate Valid()
      reads this
    {
      (forall j :: 0 <= j < |callbacks| ==> callbacks[j] < nextHandle) &&
      (forall i, j :: 0 <= i < j < |callbacks| ==> callbacks[i] < callbacks[j])
    }

    constructor(data: Value)
      ensures Valid()
      ensures this.data == data && callbacks == [] && delivered == []
    {
      this.data := data;
      callbacks := [];
      nextHandle := 0;
      delivered := [];
    }

    /** `register_change_cb`: a fresh handle, added after the callbacks already registered. */
    method RegisterChangeCb() returns (h: nat)
      requires Valid()
      modifies this
      ensures Valid()
      ensures h !in old(callbacks) && callbacks == old(callbacks) + [h]
      ensures data == old(data) && delivered == old(delivered)
    {
      h := nextHandle;
      callbacks := callbacks + [h];
      nextHandle := nextHandle + 1;
    }

    /** `get`: the path lookup on the current data. */
    method Get(path: Value, default: Value) returns (r: Result<Value, PathError>)
      ensures r == Lookup(data, Flatten(path), default)
    {
      r := GetAlong(data, Flatten(path), default);
    }

    /** `set`: replace the data by `set_` of it and notify; a malformed path raises and changes nothing. */
    method Set(path: Value, value: Value) returns (r: Result<(), PathError>)
      requires Valid()
      modifies this
      ensures Valid() && callbacks == old(callbacks) && nextHandle == old(nextHandle)
      ensures var s := Stored(old(data), Flatten(path), value);
        if s.Ok? then r.Ok? && data == s.value && delivered == old(delivered) + Deliveries(callbacks, data)
        else r == Err(InvalidPath) && data == old(data) && delivered == old(delivered)
    {
      var s := SetAlong(data, Flatten(path), value);
      if s.Err? {
        return Err(InvalidPath);
      }
      data := s.value;
      delivered := delivered + Deliveries(callbacks, data);
      r := Ok(());
    }

    /** `remove`: replace the data by `remove` of it and notify, even when nothing was removed. */
    method Remove(path: Value) returns (r: Result<(), PathError>)
      requires Valid()
      modifies this
      ensures Valid() && callbacks == old(callbacks) && nextHandle == old(nextHandle)
      ensures var s := Removed(old(data), Flatten(path));
        if s.Ok? then r.Ok? && data == s.value && delivered == old(delivered) + Deliveries(callbacks, data)
        else r == Err(InvalidPath) && data == old(data) && delivered == old(delivered)
    {
      var s := RemoveAlong(data, Flatten(path));
      if s.Err? {
        return Err(InvalidPath);
      }
      data := s.value;
      delivered := delivered + Deliveries(callbacks, data);
      r := Ok(());
    }
  }
}

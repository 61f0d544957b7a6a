/**
 * Python's `dict` with string keys, as the value it holds: an association list kept in
 * insertion order. Every dictionary the code builds has distinct keys (`Distinct`); the
 * operations are total and keep that invariant.
 */
module Dict {
  import opened Wrappers
  import Seqs

  type Dict<V> = seq<(string, V)>

  /** The keys, in insertion order (`d.keys()`). */
  function Keys<V>(d: Dict<V>): (r: seq<string>)
    ensures |r| == |d|
    ensures forall i :: 0 <= i < |d| ==> r[i] == d[i].0
  {
    if d == [] then [] else [d[0].0] + Keys(d[1..])
  }

  /** No key occurs twice. */
  ghost predicate Distinct<V>(d: Dict<V>)
  {
    d == [] || (d[0].0 !in Keys(d[1..]) && Distinct(d[1..]))
  }

  /** `d.get(k)`: the value of the first entry for `k`, if any. */
  function Get<V>(d: Dict<V>, k: string): (r: Option<V>)
    ensures r.Some? <==> k in Keys(d)
  {
    if d == [] then None
    else if d[0].0 == k then Some(d[0].1)
    else Get(d[1..], k)
  }

  /** `d[k] = v`: overwrite `k` in place when present, append it otherwise. */
  function Put<V>(d: Dict<V>, k: string, v: V): (r: Dict<V>)
    ensures Get(r, k) == Some(v)
    ensures forall k' :: k' != k ==> Get(r, k') == Get(d, k')
    ensures forall k' :: k' in Keys(r) <==> k' in Keys(d) || k' == k
    ensures Distinct(d) ==> Distinct(r)
  {
    if d == [] then [(k, v)]
    else if d[0].0 == k then
      var r := [(k, v)] + d[1..];
      assert r[0] == (k, v) && r[1..] == d[1..];
      r
    else
      var rest := Put(d[1..], k, v);
      var r := [d[0]] + rest;
      assert r[0] == d[0] && r[1..] == rest;
      r
  }

  /** The position of the first entry for `k`, or `|d|` when there is none. */
  function First<V>(d: Dict<V>, k: string): (i: nat)
    ensures i <= |d|
    ensures i < |d| <==> k in Keys(d)
    ensures i < |d| ==> d[i].0 == k
    ensures forall j :: 0 <= j < i ==> d[j].0 != k
    decreases |d|
  {
    if d == [] then 0 else if d[0].0 == k then 0 else 1 + First(d[1..], k)
  }

  /** Overwriting a present key replaces its first entry where it stands. */
  lemma {:induction false} PutInPlace<V>(d: Dict<V>, k: string, v: V)
    requires k in Keys(d)
    ensures Put(d, k, v) == d[First(d, k) := (k, v)]
    decreases |d|
  {
    if d[0].0 != k {
      PutInPlace(d[1..], k, v);
      Seqs.ConsUpdate(d[0], d[1..], First(d[1..], k), (k, v));
      assert [d[0]] + d[1..] == d;
    }
  }

  /** Overwriting a present key leaves the keys and their order as they were. */
  lemma KeysInPlace<V>(d: Dict<V>, k: string, v: V)
    requires k in Keys(d)
    ensures Keys(Put(d, k, v)) == Keys(d)
  {
    PutInPlace(d, k, v);
    var i := First(d, k);
    var r := d[i := (k, v)];
    assert |Keys(r)| == |Keys(d)|;
    forall j | 0 <= j < |d| ensures Keys(r)[j] == Keys(d)[j] {
      assert r[j].0 == d[j].0;
    }
  }

  /** Deleting a present key splices out its first entry; every other entry keeps its place in the order. */
  lemma {:induction false} DeleteSplices<V>(d: Dict<V>, k: string)
    requires k in Keys(d)
    ensures Delete(d, k) == d[..First(d, k)] + d[First(d, k) + 1..]
    decreases |d|
  {
    if d[0].0 != k {
      var i := First(d[1..], k);
      DeleteSplices(d[1..], k);
      assert First(d, k) == i + 1 && Delete(d, k) == [d[0]] + Delete(d[1..], k);
      Seqs.ConsSplice(d, i);
    } else {
      assert d[..0] == [];
    }
  }

  /** Overwriting keeps the entry where it is; a new key goes at the end. */
  lemma {:induction false} PutShape<V>(d: Dict<V>, k: string, v: V)
    ensures k in Keys(d) ==> |Put(d, k, v)| == |d|
    ensures k !in Keys(d) ==> Put(d, k, v) == d + [(k, v)]
  {
    if d != [] && d[0].0 != k {
      PutShape(d[1..], k, v);
      assert k in Keys(d) <==> k in Keys(d[1..]);
      assert d == [d[0]] + d[1..];
    }
  }

  /** `del d[k]`: drop the first entry for `k`, keeping the order of the others. */
  function Delete<V>(d: Dict<V>, k: string): (r: Dict<V>)
    ensures forall k' :: k' != k ==> Get(r, k') == Get(d, k')
    ensures forall k' :: k' != k ==> (k' in Keys(r) <==> k' in Keys(d))
    ensures Distinct(d) ==> k !in Keys(r) && Distinct(r)
    ensures k in Keys(d) ==> |r| == |d| - 1
    ensures k !in Keys(d) ==> r == d
  {
    if d == [] then []
    else if d[0].0 == k then d[1..]
    else [d[0]] + Delete(d[1..], k)
  }

  /** `d.update(e)`: `Put` every entry of `e`, in order, so that later entries win. */
  function Update<V>(d: Dict<V>, e: Dict<V>): (r: Dict<V>)
    ensures Distinct(e) ==> forall k :: Get(r, k) == (if k in Keys(e) then Get(e, k) else Get(d, k))
    ensures forall k :: k in Keys(r) <==> k in Keys(d) || k in Keys(e)
    ensures Distinct(d) ==> Distinct(r)
    decreases |e|
  {
    if e == [] then d
    else
      var d' := Put(d, e[0].0, e[0].1);
      var r := Update(d', e[1..]);
      assert Keys(e) == [e[0].0] + Keys(e[1..]);
      assert Distinct(e) ==> forall k :: Get(r, k) == (if k in Keys(e) then Get(e, k) else Get(d, k)) by {
        if Distinct(e) {
          forall k ensures Get(r, k) == (if k in Keys(e) then Get(e, k) else Get(d, k)) {
            if k in Keys(e[1..]) {
              assert k != e[0].0;
            } else if k == e[0].0 {
            } else {
              assert Get(d', k) == Get(d, k);
            }
          }
        }
      }
      r
  }

  /** In a dictionary with distinct keys every entry is the one found for its key. */
  lemma {:induction false} GetDistinct<V>(d: Dict<V>, i: nat)
    requires Distinct(d) && i < |d|
    ensures Get(d, d[i].0) == Some(d[i].1)
  {
    if i > 0 {
      assert d[i].0 == Keys(d[1..])[i - 1];
      GetDistinct(d[1..], i - 1);
    }
  }

  /** The keys of a dictionary with distinct keys, as a set, have as many elements as it has entries. */
  lemma {:induction false} DistinctKeyCount<V>(d: Dict<V>)
    requires Distinct(d)
    ensures |set k | k in Keys(d)| == |d|
  {
    if d != [] {
      DistinctKeyCount(d[1..]);
      assert (set k | k in Keys(d)) == {d[0].0} + (set k | k in Keys(d[1..]));
    }
  }

  /** Two dictionaries with distinct keys and equally many entries, one's keys among the other's, have the same keys. */
  lemma KeysCover<V, W>(d: Dict<V>, e: Dict<W>)
    requires Distinct(d) && Distinct(e) && |d| == |e|
    requires forall k :: k in Keys(d) ==> k in Keys(e)
    ensures forall k :: k in Keys(e) ==> k in Keys(d)
  {
    var a := set k | k in Keys(d);
    var b := set k | k in Keys(e);
    DistinctKeyCount(d);
    DistinctKeyCount(e);
    assert a <= b;
    assert |b - a| == |b| - |a|;
    assert b - a == {};
    forall k | k in Keys(e) ensures k in Keys(d) {
      assert k in b;
    }
  }

  /** Storing the value a key already has changes nothing. */
  lemma {:induction false} PutSame<V>(d: Dict<V>, k: string, v: V)
    requires Get(d, k) == Some(v)
    ensures Put(d, k, v) == d
  {
    if d[0].0 != k {
      PutSame(d[1..], k, v);
      assert d == [d[0]] + d[1..];
    } else {
      assert d == [d[0]] + d[1..];
    }
  }

  lemma {:induction false} KeysConcat<V>(a: Dict<V>, b: Dict<V>)
    ensures Keys(a + b) == Keys(a) + Keys(b)
  {
    assert forall i :: 0 <= i < |a + b| ==> Keys(a + b)[i] == (Keys(a) + Keys(b))[i];
  }

  /** A concatenation has distinct keys exactly when both parts do and they share none. */
  lemma {:induction false} DistinctConcat<V>(a: Dict<V>, b: Dict<V>)
    ensures Distinct(a + b) <==> Distinct(a) && Distinct(b) && forall k :: k in Keys(a) ==> k !in Keys(b)
    decreases |a|
  {
    if a == [] {
      assert a + b == b;
    } else {
      assert (a + b)[0] == a[0] && (a + b)[1..] == a[1..] + b;
      DistinctConcat(a[1..], b);
      KeysConcat(a[1..], b);
      assert Keys(a) == [a[0].0] + Keys(a[1..]);
    }
  }

  /** Updating a dictionary with entries it already holds changes nothing. */
  lemma {:induction false} UpdateHeld<V>(d: Dict<V>, e: Dict<V>)
    requires forall i :: 0 <= i < |e| ==> Get(d, e[i].0) == Some(e[i].1)
    ensures Update(d, e) == d
    decreases |e|
  {
    if e != [] {
      PutSame(d, e[0].0, e[0].1);
      assert forall i :: 0 <= i < |e| - 1 ==> e[1..][i] == e[i + 1];
      UpdateHeld(d, e[1..]);
    }
  }

  /** `d.update(d)` changes nothing. */
  lemma UpdateSelf<V>(d: Dict<V>)
    requires Distinct(d)
    ensures Update(d, d) == d
  {
    forall i | 0 <= i < |d| ensures Get(d, d[i].0) == Some(d[i].1) {
      GetDistinct(d, i);
    }
    UpdateHeld(d, d);
  }
}

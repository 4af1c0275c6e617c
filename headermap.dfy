/**
 * `HttpClient::HeaderMap`, a `QMultiMap<QByteArray, QByteArray>`: entries are
 * kept in ascending key order, `insert` never replaces an entry and puts the
 * new one in front of the older entries with the same key, `value` returns the
 * newest entry and `remove` drops every entry of a key.
 */
module HeaderMaps {
  import opened Bytes

  datatype Entry = Entry(key: Bytes, value: Bytes)

  type HeaderMap = seq<Entry>

  /** Iteration order of the multimap: keys never decrease. */
  predicate Sorted(h: HeaderMap)
  {
    forall i, j :: 0 <= i < j < |h| ==> !Less(h[j].key, h[i].key)
  }

  /** All values stored under `k`, in iteration order (newest first). */
  function Values(h: HeaderMap, k: Bytes): seq<Bytes>
  {
    if h == [] then []
    else (if h[0].key == k then [h[0].value] else []) + Values(h[1..], k)
  }

  predicate ContainsKey(h: HeaderMap, k: Bytes)
  {
    Values(h, k) != []
  }

  /** `QMultiMap::value(k)`: the newest value, or the empty byte string. */
  function Value(h: HeaderMap, k: Bytes): Bytes
  {
    if Values(h, k) == [] then [] else Values(h, k)[0]
  }

  /** Position of the first entry whose key is not below `k`. */
  function LowerBound(h: HeaderMap, k: Bytes): (p: nat)
    ensures p <= |h|
    ensures forall i :: 0 <= i < p ==> Less(h[i].key, k)
    ensures p < |h| ==> !Less(h[p].key, k)
  {
    if h == [] || !Less(h[0].key, k) then 0 else 1 + LowerBound(h[1..], k)
  }

  /** `QMultiMap::insert`. */
  function Insert(h: HeaderMap, k: Bytes, v: Bytes): (r: HeaderMap)
    ensures |r| == |h| + 1
    ensures multiset(r) == multiset(h) + multiset{Entry(k, v)}
  {
    var p := LowerBound(h, k);
    assert h == h[..p] + h[p..];
    h[..p] + [Entry(k, v)] + h[p..]
  }

  /** `QMultiMap::remove(k)`. */
  function Remove(h: HeaderMap, k: Bytes): (r: HeaderMap)
    ensures forall e :: e in r ==> e in h && e.key != k
    ensures |r| <= |h|
  {
    if h == [] then []
    else (if h[0].key == k then [] else [h[0]]) + Remove(h[1..], k)
  }

  lemma {:induction false} ValuesAppend(a: HeaderMap, b: HeaderMap, k: Bytes)
    ensures Values(a + b, k) == Values(a, k) + Values(b, k)
  {
    if a != [] {
      assert (a + b)[1..] == a[1..] + b;
      ValuesAppend(a[1..], b, k);
    } else {
      assert a + b == b;
    }
  }

  lemma {:induction false} ValuesOfSmallerKeys(h: HeaderMap, k: Bytes)
    requires forall i :: 0 <= i < |h| ==> Less(h[i].key, k)
    ensures Values(h, k) == []
  {
    if h != [] {
      LessIrreflexive(k);
      ValuesOfSmallerKeys(h[1..], k);
    }
  }

  /** Inserting keeps the multimap in key order. */
  lemma InsertSorted(h: HeaderMap, k: Bytes, v: Bytes)
    requires Sorted(h)
    ensures Sorted(Insert(h, k, v))
  {
    var p := LowerBound(h, k);
    var r := Insert(h, k, v);
    forall i, j | 0 <= i < j < |r| ensures !Less(r[j].key, r[i].key) {
      if i < p && j == p {
        LessAsymmetric(h[i].key, k);
      } else if i == p && j > p {
        if Less(h[j - 1].key, k) {
          LessTotal(h[p].key, h[j - 1].key);
          if Less(h[p].key, h[j - 1].key) {
            LessTransitive(h[p].key, h[j - 1].key, k);
          }
        }
      }
    }
  }

  /**
   * The new value comes first among the values of its key, and the values of
   * every other key are untouched.
   */
  lemma InsertSplit(h: HeaderMap, k: Bytes, v: Bytes)
    ensures var p := LowerBound(h, k);
      h == h[..p] + h[p..] && Insert(h, k, v) == h[..p] + ([Entry(k, v)] + h[p..])
  {
  }

  lemma ValuesSingle(k: Bytes, v: Bytes, q: Bytes)
    ensures Values([Entry(k, v)], q) == if q == k then [v] else []
  {
    assert [Entry(k, v)][1..] == [];
  }

  /** A new entry placed after every smaller key only adds its own value. */
  lemma ValuesBetween(before: HeaderMap, after: HeaderMap, k: Bytes, v: Bytes, q: Bytes)
    requires forall i :: 0 <= i < |before| ==> Less(before[i].key, k)
    ensures Values(before + ([Entry(k, v)] + after), q)
         == (if q == k then [v] else []) + Values(before + after, q)
  {
    ValuesAppend(before, [Entry(k, v)] + after, q);
    ValuesAppend([Entry(k, v)], after, q);
    ValuesAppend(before, after, q);
    ValuesSingle(k, v, q);
    if q == k {
      ValuesOfSmallerKeys(before, k);
    }
  }

  lemma InsertValues(h: HeaderMap, k: Bytes, v: Bytes, q: Bytes)
    ensures Values(Insert(h, k, v), q) == (if q == k then [v] else []) + Values(h, q)
  {
    InsertSplit(h, k, v);
    ValuesBetween(h[..LowerBound(h, k)], h[LowerBound(h, k)..], k, v, q);
  }

  /** After `insert(k, v)`, `value(k)` is `v`. */
  lemma InsertValue(h: HeaderMap, k: Bytes, v: Bytes, q: Bytes)
    ensures Value(Insert(h, k, v), q) == if q == k then v else Value(h, q)
  {
    InsertValues(h, k, v, q);
  }

  /** `remove` drops exactly the entries of its key. */
  lemma {:induction false} RemoveValues(h: HeaderMap, k: Bytes, q: Bytes)
    ensures Values(Remove(h, k), q) == if q == k then [] else Values(h, q)
  {
    if h != [] {
      RemoveValues(h[1..], k, q);
      ValuesAppend(if h[0].key == k then [] else [h[0]], Remove(h[1..], k), q);
    }
  }

  lemma {:induction false} RemoveSorted(h: HeaderMap, k: Bytes)
    requires Sorted(h)
    ensures Sorted(Remove(h, k))
  {
    if h != [] {
      RemoveSorted(h[1..], k);
      var rest := Remove(h[1..], k);
      forall e | e in rest ensures !Less(e.key, h[0].key) {
        var j :| 0 <= j < |h[1..]| && h[1..][j] == e;
        assert h[j + 1] == e;
      }
    }
  }
}

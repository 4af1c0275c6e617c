/**
 * A `QMap` keyed by byte strings (`QByteArray`, or a `QString` built from
 * Latin-1 bytes, whose order is the same): one entry per key, iterated in
 * ascending key order, `insert` replacing the value of an existing key.
 */
module ByteMaps {
  import opened Bytes

  type Assoc<V> = seq<(Bytes, V)>

  predicate StrictlySorted<V>(m: Assoc<V>)
  {
    forall i, j :: 0 <= i < j < |m| ==> Less(m[i].0, m[j].0)
  }

  function Keys<V>(m: Assoc<V>): (r: seq<Bytes>)
    ensures |r| == |m| && forall i :: 0 <= i < |m| ==> r[i] == m[i].0
  {
    seq(|m|, i requires 0 <= i < |m| => m[i].0)
  }

  /** `QMap::value(k)`, with the absent case explicit. */
  function Get<V>(m: Assoc<V>, k: Bytes): (r: Option<V>)
    ensures r.None? <==> forall i :: 0 <= i < |m| ==> m[i].0 != k
    ensures r.Some? ==> (k, r.value) in m
  {
    if m == [] then None
    else if m[0].0 == k then Some(m[0].1)
    else
      assert forall e :: e in m[1..] ==> e in m;
      Get(m[1..], k)
  }

  predicate HasKey<V>(m: Assoc<V>, k: Bytes)
  {
    Get(m, k).Some?
  }

  /** `QMap::insert(k, v)`. */
  function Put<V>(m: Assoc<V>, k: Bytes, v: V): (r: Assoc<V>)
    ensures forall e :: e in r ==> e in m || e == (k, v)
  {
    if m == [] then [(k, v)]
    else if m[0].0 == k then [(k, v)] + m[1..]
    else if Less(k, m[0].0) then [(k, v)] + m
    else [m[0]] + Put(m[1..], k, v)
  }

  /** Inserting keeps one entry per key in ascending key order. */
  lemma {:induction false} PutSorted<V>(m: Assoc<V>, k: Bytes, v: V)
    requires StrictlySorted(m)
    ensures StrictlySorted(Put(m, k, v))
  {
    if m != [] && m[0].0 != k && !Less(k, m[0].0) {
      PutSorted(m[1..], k, v);
      var rest := Put(m[1..], k, v);
      LessTotal(k, m[0].0);
      forall e | e in rest ensures Less(m[0].0, e.0) {
        if e != (k, v) {
          var j :| 0 <= j < |m[1..]| && m[1..][j] == e;
          assert m[j + 1] == e;
        }
      }
    } else if m != [] && m[0].0 != k {
      forall j | 0 <= j < |m| ensures Less(k, m[j].0) {
        if j > 0 { LessTransitive(k, m[0].0, m[j].0); }
      }
    }
  }

  /** After `insert(k, v)` the key maps to `v` and every other key is unchanged. */
  lemma {:induction false} GetPut<V>(m: Assoc<V>, k: Bytes, v: V, q: Bytes)
    requires StrictlySorted(m)
    ensures Get(Put(m, k, v), q) == if q == k then Some(v) else Get(m, q)
  {
    if m != [] && m[0].0 != k && !Less(k, m[0].0) {
      GetPut(m[1..], k, v, q);
    } else if m != [] && m[0].0 == k && q != k {
      assert ([(k, v)] + m[1..])[1..] == m[1..];
    } else if m != [] && q != k {
      assert ([(k, v)] + m)[1..] == m;
    }
  }

  /** Inserting a key above every present key appends it. */
  lemma {:induction false} PutAbove<V>(m: Assoc<V>, k: Bytes, v: V)
    requires forall i :: 0 <= i < |m| ==> Less(m[i].0, k)
    ensures Put(m, k, v) == m + [(k, v)]
  {
    if m != [] {
      LessAsymmetric(m[0].0, k);
      PutAbove(m[1..], k, v);
      assert m == [m[0]] + m[1..];
    }
  }
}

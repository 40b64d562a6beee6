/** Ruby hashes keep insertion order, so the string-keyed hashes of the source are modelled
    as association lists.
    `Put` is `h[k] = v`: an existing key keeps its position and takes the new value,
    a new key is appended at the end. */
module Assoc {
  import opened Results

  function Keys<V>(m: seq<(string, V)>): (ks: seq<string>)
    ensures |ks| == |m|
    ensures forall i :: 0 <= i < |m| ==> ks[i] == m[i].0
  {
    seq(|m|, i requires 0 <= i < |m| => m[i].0)
  }

  predicate UniqueKeys<V>(m: seq<(string, V)>) {
    forall i, j :: 0 <= i < j < |m| ==> m[i].0 != m[j].0
  }

  /** `h[k]`: the value stored under `k`, if any. */
  function Get<V>(m: seq<(string, V)>, k: string): (r: Option<V>)
    ensures r.None? <==> k !in Keys(m)
    ensures r.Some? ==> (k, r.value) in m
  {
    if |m| == 0 then None
    else if m[0].0 == k then Some(m[0].1)
    else
      assert Keys(m) == [m[0].0] + Keys(m[1..]);
      Get(m[1..], k)
  }

  /** `h[k] = v`. */
  function Put<V>(m: seq<(string, V)>, k: string, v: V): (r: seq<(string, V)>)
    ensures Get(r, k) == Some(v)
    ensures forall k' :: k' != k ==> Get(r, k') == Get(m, k')
  {
    if |m| == 0 then [(k, v)]
    else if m[0].0 == k then [(k, v)] + m[1..]
    else [m[0]] + Put(m[1..], k, v)
  }

  /** A stored key keeps its position; a new key goes to the end. */
  lemma {:induction false} PutKeys<V>(m: seq<(string, V)>, k: string, v: V)
    ensures k in Keys(m) ==> Keys(Put(m, k, v)) == Keys(m)
    ensures k !in Keys(m) ==> Keys(Put(m, k, v)) == Keys(m) + [k]
  {
    if |m| > 0 {
      var rest := m[1..];
      KeysCons(m[0], rest);
      assert m == [m[0]] + rest;
      if m[0].0 != k {
        PutKeys(rest, k, v);
        KeysCons(m[0], Put(rest, k, v));
      } else {
        KeysCons((k, v), rest);
      }
    }
  }

  lemma {:induction false} PutNonEmpty<V>(m: seq<(string, V)>, k: string, v: V)
    ensures |Put(m, k, v)| > 0
  {
  }

  lemma {:induction false} KeysCons<V>(x: (string, V), m: seq<(string, V)>)
    ensures Keys([x] + m) == [x.0] + Keys(m)
  {
  }

  lemma {:induction false} PutUnique<V>(m: seq<(string, V)>, k: string, v: V)
    requires UniqueKeys(m)
    ensures UniqueKeys(Put(m, k, v))
  {
    PutKeys(m, k, v);
    var ks := Keys(Put(m, k, v));
    forall i, j | 0 <= i < j < |ks|
      ensures ks[i] != ks[j]
    {
      assert Keys(m)[i] == m[i].0;
    }
  }

  /** On a list with unique keys, storing a key that is not yet present appends it. */
  lemma {:induction false} PutFresh<V>(m: seq<(string, V)>, k: string, v: V)
    requires k !in Keys(m)
    ensures Put(m, k, v) == m + [(k, v)]
  {
    if |m| > 0 {
      assert Keys(m) == [m[0].0] + Keys(m[1..]);
      PutFresh(m[1..], k, v);
      assert m == [m[0]] + m[1..];
    }
  }
}

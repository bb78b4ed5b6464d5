/** Python's `dict` with string keys, kept as the sequence of its items in
    insertion order: iterating `items()` walks this sequence, and assigning
    to a key that is already present changes its value in place. */
module OrderedDict {
  import opened Wrappers

  type Dict<V> = seq<(string, V)>

  /** The keys in the order `keys()` yields them. */
  function Keys<V>(d: Dict<V>): seq<string> {
    seq(|d|, i requires 0 <= i < |d| => d[i].0)
  }

  /** No key occurs twice: what every Python dict satisfies. */
  ghost predicate DistinctKeys<V>(d: Dict<V>) {
    forall i, j :: 0 <= i < j < |d| ==> d[i].0 != d[j].0
  }

  /** `d.get(k)`. */
  function Get<V>(d: Dict<V>, k: string): (r: Option<V>)
    ensures r.None? <==> forall i :: 0 <= i < |d| ==> d[i].0 != k
    ensures r.Some? ==> exists i :: 0 <= i < |d| && d[i] == (k, r.value)
  {
    if d == [] then None
    else if d[0].0 == k then Some(d[0].1)
    else Get(d[1..], k)
  }

  /** In a dict, `get` returns the value stored beside the key. */
  lemma {:induction false} GetAt<V>(d: Dict<V>, i: nat)
    requires DistinctKeys(d) && i < |d|
    ensures Get(d, d[i].0) == Some(d[i].1)
  {
    if i > 0 {
      GetAt(d[1..], i - 1);
    }
  }

  /** `d[k] = v`: a new key goes to the end; an existing key keeps its place. */
  function Put<V>(d: Dict<V>, k: string, v: V): Dict<V> {
    if d == [] then [(k, v)]
    else if d[0].0 == k then [(k, v)] + d[1..]
    else [d[0]] + Put(d[1..], k, v)
  }

  /** Assigning an existing key keeps the keys and their order; a new key
      is appended. */
  lemma {:induction false} PutKeys<V>(d: Dict<V>, k: string, v: V)
    ensures k in Keys(d) ==> Keys(Put(d, k, v)) == Keys(d)
    ensures k !in Keys(d) ==> Keys(Put(d, k, v)) == Keys(d) + [k]
  {
    if d == [] {
      assert Keys(Put(d, k, v)) == [k];
    } else if d[0].0 == k {
      assert Keys(d)[0] == k;
      assert Keys(Put(d, k, v)) == Keys(d);
    } else {
      var t := Put(d[1..], k, v);
      PutKeys(d[1..], k, v);
      assert Keys([d[0]] + t) == [d[0].0] + Keys(t);
      assert Keys(d) == [d[0].0] + Keys(d[1..]);
    }
  }

  /** The assigned item is there, and every item under another key stays where it was. */
  lemma {:induction false} PutOthers<V>(d: Dict<V>, k: string, v: V)
    ensures (k, v) in Put(d, k, v)
    ensures forall i :: 0 <= i < |d| && d[i].0 != k ==> i < |Put(d, k, v)| && Put(d, k, v)[i] == d[i]
  {
    if d != [] && d[0].0 != k {
      var t := Put(d[1..], k, v);
      PutOthers(d[1..], k, v);
      assert Put(d, k, v) == [d[0]] + t;
      forall i | 1 <= i < |d| && d[i].0 != k
        ensures i < |Put(d, k, v)| && Put(d, k, v)[i] == d[i]
      {
        assert d[i] == d[1..][i - 1];
      }
    }
  }

  /** Assignment keeps a dict a dict. */
  lemma {:induction false} PutDistinct<V>(d: Dict<V>, k: string, v: V)
    requires DistinctKeys(d)
    ensures DistinctKeys(Put(d, k, v))
  {
    if d != [] && d[0].0 != k {
      PutDistinct(d[1..], k, v);
      PutKeys(d[1..], k, v);
      var t := Put(d[1..], k, v);
      forall j | 0 <= j < |t| ensures t[j].0 != d[0].0 {
        assert Keys(t)[j] == t[j].0;
        assert Keys(t)[j] in Keys(d[1..]) + [k];
      }
    }
  }

  /** Assignment adds no item but the one assigned. */
  lemma {:induction false} PutItems<V>(d: Dict<V>, k: string, v: V)
    ensures forall p :: p in Put(d, k, v) ==> p == (k, v) || p in d
  {
    if d != [] && d[0].0 != k {
      PutItems(d[1..], k, v);
    }
  }

  /** Assignment stores `v` under `k` and leaves every other key's value as it was. */
  lemma {:induction false} PutGet<V>(d: Dict<V>, k: string, v: V, k': string)
    ensures Get(Put(d, k, v), k') == if k' == k then Some(v) else Get(d, k')
  {
    if d != [] && d[0].0 != k {
      PutGet(d[1..], k, v, k');
    }
  }
}

/**
  Python's insertion-ordered dictionaries (`dict`, `collections.OrderedDict`):
  a finite map together with the order in which its keys were first inserted.
  Iterating over such a dictionary visits the keys in that order.
 */
module OrderedMaps {
  import opened Seqs

  /** Index of the first occurrence of `x` in `s` (Python's `list.index`). */
  function IndexOf<T(==)>(s: seq<T>, x: T): (i: nat)
    requires x in s
    ensures i < |s| && s[i] == x
    ensures x !in s[..i]
  {
    if s[0] == x then 0 else 1 + IndexOf(s[1..], x)
  }

  datatype OrderedMap<K(==), V> = OrderedMap(keys: seq<K>, items: map<K, V>) {

    /** `keys` lists exactly the keys of `items`, each once. */
    ghost predicate Valid() {
      && Distinct(keys)
      && (forall k | k in items :: k in keys)
      && (forall i | 0 <= i < |keys| :: keys[i] in items)
    }

    /** `d.values()`, in key order. */
    function Values(): (vs: seq<V>)
      requires Valid()
      ensures |vs| == |keys|
      ensures forall i | 0 <= i < |keys| :: vs[i] == items[keys[i]]
    {
      seq(|keys|, i requires 0 <= i < |keys| && Valid() => items[keys[i]])
    }

    /** `d[k] = v`: a new key goes last, an existing key keeps its place. */
    function Put(k: K, v: V): (r: OrderedMap<K, V>)
      ensures Valid() ==> r.Valid()
      ensures r.items == items[k := v]
      ensures r.keys == if k in items then keys else keys + [k]
    {
      if k in items then OrderedMap(keys, items[k := v])
      else OrderedMap(keys + [k], items[k := v])
    }

    /** `d.pop(k)` for a key that is present: the other keys keep their order. */
    function Pop(k: K): (r: OrderedMap<K, V>)
      requires Valid() && k in items
      ensures r.Valid()
      ensures r.items == items - {k}
      ensures |r.keys| + 1 == |keys|
      ensures exists i | 0 <= i < |keys| :: keys[i] == k && r.keys == keys[..i] + keys[i + 1..]
    {
      var i := IndexOf(keys, k);
      PopValid(this, i);
      OrderedMap(keys[..i] + keys[i + 1..], items - {k})
    }
  }

  /** Writing a key twice keeps only the second value, and the key's first place. */
  lemma PutPut<K, V>(m: OrderedMap<K, V>, k: K, v: V, w: V)
    ensures m.Put(k, v).Put(k, w) == m.Put(k, w)
  {
    assert m.items[k := v][k := w] == m.items[k := w];
  }

  /** Cutting the key at position `i` out of a well-formed map gives a well-formed map. */
  lemma PopValid<K, V>(m: OrderedMap<K, V>, i: nat)
    requires m.Valid() && i < |m.keys|
    ensures OrderedMap(m.keys[..i] + m.keys[i + 1..], m.items - {m.keys[i]}).Valid()
  {
    var rest := m.keys[..i] + m.keys[i + 1..];
    RemoveAt(m.keys, i);
    forall x | x in m.items - {m.keys[i]} ensures x in rest {
      assert x in m.keys;
    }
    forall j | 0 <= j < |rest| ensures rest[j] in m.items - {m.keys[i]} {
      assert rest[j] in rest;
    }
  }

  /** Cutting position `i` out of a list of distinct keys keeps the others, each once. */
  lemma RemoveAt<K>(keys: seq<K>, i: nat)
    requires Distinct(keys) && i < |keys|
    ensures Distinct(keys[..i] + keys[i + 1..])
    ensures forall x :: x in keys[..i] + keys[i + 1..] <==> x in keys && x != keys[i]
  {
    var rest := keys[..i] + keys[i + 1..];
    assert forall a | 0 <= a < |rest| :: rest[a] == keys[if a < i then a else a + 1];
    forall x | x in keys && x != keys[i] ensures x in rest {
      var j :| 0 <= j < |keys| && keys[j] == x;
      assert rest[if j < i then j else j - 1] == x;
    }
  }

  /** A fresh `OrderedDict()`. */
  function Empty<K(==), V>(): (r: OrderedMap<K, V>)
    ensures r.Valid() && r.keys == [] && r.items == map[]
  {
    OrderedMap([], map[])
  }
}

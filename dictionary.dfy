/**
  `ReadOnlyDictionary<TKey, TValue>`: the pairs of a dictionary copied once into a
  list, and a lookup that is a first-match linear search of that list. The value
  is immutable: no member of the module builds a dictionary with other pairs than
  the ones it was given.
*/
module ReadOnlyDictionaries {

  /** The dictionary; `Items` are the source dictionary's pairs in enumeration order (`items.ToList()`). */
  datatype ReadOnlyDictionary<K, V> = ReadOnlyDictionary(Items: seq<(K, V)>)

  /** The pairs of `items` whose key is `key`, in list order (the `where` query). */
  function Where<K(==), V>(items: seq<(K, V)>, key: K): (q: seq<(K, V)>)
    ensures forall i :: 0 <= i < |q| ==> q[i] in items && q[i].0 == key
    ensures forall i :: 0 <= i < |items| && items[i].0 == key ==> items[i] in q
    ensures |q| <= |items|
  {
    if |items| == 0 then []
    else if items[0].0 == key then [items[0]] + Where(items[1..], key)
    else Where(items[1..], key)
  }

  /** `GetQuery(key)`: the stored pairs whose key equals `key`. */
  function GetQuery<K(==), V>(d: ReadOnlyDictionary<K, V>, key: K): (q: seq<(K, V)>)
    ensures forall i :: 0 <= i < |q| ==> q[i] in d.Items && q[i].0 == key
    ensures forall i :: 0 <= i < |d.Items| && d.Items[i].0 == key ==> d.Items[i] in q
  {
    Where(d.Items, key)
  }

  /** `ContainsKey(key)`: the query for `key` is not empty. */
  predicate ContainsKey<K(==), V>(d: ReadOnlyDictionary<K, V>, key: K)
    ensures ContainsKey(d, key) <==> exists i :: 0 <= i < |d.Items| && d.Items[i].0 == key
  {
    var q := GetQuery(d, key);
    assert |q| > 0 ==> q[0] in q;
    assert forall i :: 0 <= i < |d.Items| && d.Items[i].0 == key ==> d.Items[i] in q;
    |q| > 0
  }

  /** The indexer `this[key]`: the value of the first pair of the query, or
      `default(TValue)`, given here as `absent`, when the query is empty. */
  function Item<K(==), V>(d: ReadOnlyDictionary<K, V>, key: K, absent: V): V {
    var q := GetQuery(d, key);
    if |q| == 0 then absent else q[0].1
  }

  /** `TryGetValue(key, out value)`: whether the key is present, and `this[key]`
      when it is, `default(TValue)` when it is not. */
  function TryGetValue<K(==), V>(d: ReadOnlyDictionary<K, V>, key: K, absent: V): (r: (bool, V))
    ensures r.0 <==> exists i :: 0 <= i < |d.Items| && d.Items[i].0 == key
    ensures r.1 == Item(d, key, absent)
  {
    var found := ContainsKey(d, key);
    (found, if found then Item(d, key, absent) else absent)
  }

  /** No key occurs in two pairs, as in every dictionary the constructor copies. */
  predicate DistinctKeys<K(==), V>(items: seq<(K, V)>) {
    forall i, j :: 0 <= i < j < |items| ==> items[i].0 != items[j].0
  }

  /** The indexer returns the value of the first stored pair with that key. */
  lemma {:induction false} ItemIsFirstMatch<K, V>(items: seq<(K, V)>, key: K, absent: V, i: int)
    requires 0 <= i < |items| && items[i].0 == key
    requires forall j :: 0 <= j < i ==> items[j].0 != key
    ensures Item(ReadOnlyDictionary(items), key, absent) == items[i].1
  {
    if i > 0 {
      ItemIsFirstMatch(items[1..], key, absent, i - 1);
      assert Where(items, key) == Where(items[1..], key);
    }
  }

  /** The indexer returns `default(TValue)` exactly for a key no pair has. */
  lemma ItemAbsent<K, V>(d: ReadOnlyDictionary<K, V>, key: K, absent: V)
    requires forall i :: 0 <= i < |d.Items| ==> d.Items[i].0 != key
    ensures Item(d, key, absent) == absent
    ensures TryGetValue(d, key, absent) == (false, absent)
  {
    assert !ContainsKey(d, key);
  }

  /** With distinct keys the list behaves as the map it was copied from: every stored
      pair is found, with its own value. */
  lemma {:induction false} LookupAgreesWithMap<K, V>(items: seq<(K, V)>, absent: V, i: int)
    requires DistinctKeys(items)
    requires 0 <= i < |items|
    ensures Item(ReadOnlyDictionary(items), items[i].0, absent) == items[i].1
    ensures TryGetValue(ReadOnlyDictionary(items), items[i].0, absent) == (true, items[i].1)
  {
    ItemIsFirstMatch(items, items[i].0, absent, i);
  }
}

/** Insertion-ordered dictionaries with string keys.

    Both a JavaScript object's own properties and an element's attribute list
    (a NamedNodeMap) behave like this: looking a key up finds its entry,
    writing an existing key changes its value where it stands, writing a new
    key appends it, and removing a key drops its entry. (JavaScript lists
    integer-like property keys such as `"0"` first, in numeric order; the
    model keeps every key in insertion order.) */
module Dicts {

  datatype Option<T> = None | Some(value: T)

  /** One own property of an object, or one attribute of an element. */
  datatype Entry<V> = Entry(key: string, val: V)

  type Dict<V> = seq<Entry<V>>

  /** No key occurs twice (true of every object and attribute list). */
  predicate Distinct<V>(d: Dict<V>) {
    forall i, j :: 0 <= i < j < |d| ==> d[i].key != d[j].key
  }

  /** The value stored under `k`, if any. */
  function Get<V>(d: Dict<V>, k: string): (r: Option<V>)
    ensures r.Some? ==> exists i :: 0 <= i < |d| && d[i] == Entry(k, r.value)
    ensures r.None? ==> forall i :: 0 <= i < |d| ==> d[i].key != k
  {
    if d == [] then None
    else if d[0].key == k then Some(d[0].val)
    else
      var r := Get(d[1..], k);
      assert r.Some? ==> exists i :: 0 <= i < |d[1..]| && d[1..][i] == Entry(k, r.value);
      r
  }

  predicate Has<V>(d: Dict<V>, k: string) {
    Get(d, k).Some?
  }

  /** The keys in iteration order. */
  function Keys<V>(d: Dict<V>): (ks: seq<string>)
    ensures |ks| == |d|
    ensures forall i :: 0 <= i < |d| ==> ks[i] == d[i].key
  {
    if d == [] then [] else [d[0].key] + Keys(d[1..])
  }

  /** Assignment `obj[k] = v` / `setAttribute(k, v)`. */
  function Put<V>(d: Dict<V>, k: string, v: V): (r: Dict<V>)
    ensures Get(r, k) == Some(v)
    ensures forall j :: j != k ==> Get(r, j) == Get(d, j)
    ensures Distinct(d) ==> Distinct(r)
  {
    if d == [] then [Entry(k, v)]
    else if d[0].key == k then [Entry(k, v)] + d[1..]
    else
      var r := [d[0]] + Put(d[1..], k, v);
      assert Distinct(d) ==> Get(d[1..], d[0].key).None?;
      r
  }

  /** Writing an existing key keeps the order; writing a new key appends it. */
  lemma {:induction false} PutOrder<V>(d: Dict<V>, k: string, v: V)
    ensures Keys(Put(d, k, v)) == if Has(d, k) then Keys(d) else Keys(d) + [k]
  {
    if d != [] && d[0].key != k {
      PutOrder(d[1..], k, v);
      assert Keys(Put(d, k, v)) == [d[0].key] + Keys(Put(d[1..], k, v));
    }
  }

  /** `removeAttribute(k)`: drops the entry for `k`, if there is one. */
  function Remove<V>(d: Dict<V>, k: string): (r: Dict<V>)
    ensures Get(r, k) == None
    ensures forall j :: j != k ==> Get(r, j) == Get(d, j)
    ensures !Has(d, k) ==> r == d
    ensures Distinct(d) ==> Distinct(r)
  {
    if d == [] then []
    else if d[0].key == k then Remove(d[1..], k)
    else
      var r := [d[0]] + Remove(d[1..], k);
      assert Distinct(d) ==> Get(d[1..], d[0].key).None?;
      r
  }

  /** In a dictionary without repeated keys, each entry is what its key finds. */
  lemma {:induction false} GetEntry<V>(d: Dict<V>, i: nat)
    requires Distinct(d) && i < |d|
    ensures Get(d, d[i].key) == Some(d[i].val)
  {
    if i > 0 {
      GetEntry(d[1..], i - 1);
    }
  }

  /** The plain map that `{ ...obj }` produces: every key with its value. */
  function ToMap<V>(d: Dict<V>): map<string, V>
  {
    if d == [] then map[] else ToMap(d[1..])[d[0].key := d[0].val]
  }

  /** The map has exactly the dictionary's keys, each with the value that
      looking it up finds. */
  lemma {:induction false} ToMapContents<V>(d: Dict<V>)
    ensures forall k :: k in ToMap(d) <==> Has(d, k)
    ensures forall k :: k in ToMap(d) ==> Some(ToMap(d)[k]) == Get(d, k)
  {
    if d != [] {
      ToMapContents(d[1..]);
    }
  }
}

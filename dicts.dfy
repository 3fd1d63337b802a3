/**
 * Insertion-ordered dictionaries, as Python's `dict` behaves: a key that is
 * assigned again keeps its position, a new key is appended, and `update`
 * assigns the entries of its argument in order.
 */
module Dicts {
  import opened Wrappers

  datatype Entry<K, V> = Entry(key: K, value: V)

  type Dict<K, V> = seq<Entry<K, V>>

  function Keys<K, V>(d: Dict<K, V>): (ks: seq<K>)
    ensures |ks| == |d|
    ensures forall i :: 0 <= i < |d| ==> ks[i] == d[i].key
  {
    seq(|d|, i requires 0 <= i < |d| => d[i].key)
  }

  /** No key occurs twice, which every Python dict satisfies. */
  predicate Distinct<K(==), V>(d: Dict<K, V>)
  {
    forall i, j :: 0 <= i < j < |d| ==> d[i].key != d[j].key
  }

  /** Position of the first entry with key `k`, or `|d|` when there is none. */
  function IndexOf<K(==), V>(d: Dict<K, V>, k: K): (i: nat)
    ensures i <= |d|
    ensures i < |d| ==> d[i].key == k
    ensures forall j :: 0 <= j < i ==> d[j].key != k
    ensures i < |d| <==> k in Keys(d)
  {
    if d == [] then 0
    else if d[0].key == k then 0
    else
      assert Keys(d) == [d[0].key] + Keys(d[1..]);
      1 + IndexOf(d[1..], k)
  }

  /** `d.get(k)`: the value stored under `k`, if any. */
  function Get<K(==), V>(d: Dict<K, V>, k: K): Option<V>
  {
    var i := IndexOf(d, k);
    if i < |d| then Some(d[i].value) else None
  }

  /** `d.get(k, default)`. */
  function GetOr<K(==), V>(d: Dict<K, V>, k: K, default: V): V
  {
    match Get(d, k)
    case Some(v) => v
    case None => default
  }

  /** `d[k] = v`: overwrite in place, or append a new entry. */
  function Set<K(==), V>(d: Dict<K, V>, k: K, v: V): Dict<K, V>
  {
    var i := IndexOf(d, k);
    if i < |d| then d[i := Entry(k, v)] else d + [Entry(k, v)]
  }

  /** `d.update(u)`: assign every entry of `u`, in order. */
  function Update<K(==), V>(d: Dict<K, V>, u: Dict<K, V>): Dict<K, V>
    decreases |u|
  {
    if u == [] then d else Update(Set(d, u[0].key, u[0].value), u[1..])
  }

  /** Sum of the counts stored in a dictionary of counters. */
  function Total<K>(d: Dict<K, nat>): nat
  {
    if d == [] then 0 else Total(d[..|d| - 1]) + d[|d| - 1].value
  }

  lemma IndexOfByKeys<K, V>(d1: Dict<K, V>, d2: Dict<K, V>, k: K)
    requires Keys(d1) == Keys(d2)
    ensures IndexOf(d1, k) == IndexOf(d2, k)
  {
    var i1, i2 := IndexOf(d1, k), IndexOf(d2, k);
    assert |d1| == |Keys(d1)| == |d2|;
    assert i1 < |d1| ==> Keys(d2)[i1] == k;
    assert i2 < |d2| ==> Keys(d1)[i2] == k;
  }

  lemma {:induction false} IndexOfAppend<K, V>(d: Dict<K, V>, e: Entry<K, V>, k: K)
    ensures IndexOf(d + [e], k) ==
      if IndexOf(d, k) < |d| then IndexOf(d, k) else if e.key == k then |d| else |d| + 1
    decreases |d|
  {
    if d != [] && d[0].key != k {
      assert (d + [e])[1..] == d[1..] + [e];
      IndexOfAppend(d[1..], e, k);
    }
  }

  /** In a dict without repeated keys, every entry is what `get` finds for its key. */
  lemma GetAt<K, V>(d: Dict<K, V>, i: nat)
    requires Distinct(d) && i < |d|
    ensures Get(d, d[i].key) == Some(d[i].value)
  {
    var j := IndexOf(d, d[i].key);
    assert Keys(d)[i] == d[i].key;
    assert j == i;
  }

  /** Reading a key after assigning one. */
  lemma GetSet<K, V>(d: Dict<K, V>, k: K, v: V, k': K)
    ensures Get(Set(d, k, v), k') == if k' == k then Some(v) else Get(d, k')
  {
    var i := IndexOf(d, k);
    if i < |d| {
      var d' := d[i := Entry(k, v)];
      assert Keys(d') == Keys(d);
      IndexOfByKeys(d', d, k');
    } else {
      IndexOfAppend(d, Entry(k, v), k');
    }
  }

  /** Which keys a dictionary holds after an assignment, and that they stay distinct. */
  lemma SetKeys<K, V>(d: Dict<K, V>, k: K, v: V)
    ensures k in Keys(Set(d, k, v))
    ensures forall k' :: k' in Keys(Set(d, k, v)) <==> k' == k || k' in Keys(d)
    ensures Distinct(d) ==> Distinct(Set(d, k, v))
    ensures k !in Keys(d) ==> Set(d, k, v) == d + [Entry(k, v)]
    ensures k in Keys(d) ==> Keys(Set(d, k, v)) == Keys(d)
    ensures forall j :: 0 <= j < |Set(d, k, v)| ==>
      Set(d, k, v)[j] == Entry(k, v) || (j < |d| && Set(d, k, v)[j] == d[j])
  {
    var i := IndexOf(d, k);
    if i < |d| {
      assert Keys(d[i := Entry(k, v)]) == Keys(d);
    } else {
      assert Keys(d + [Entry(k, v)]) == Keys(d) + [k];
    }
  }

  /** `update` with a dict: a key of `u` takes its value from `u`, any other key keeps its own. */
  lemma {:induction false} GetUpdate<K, V>(d: Dict<K, V>, u: Dict<K, V>, k: K)
    requires Distinct(u)
    ensures Get(Update(d, u), k) == if k in Keys(u) then Get(u, k) else Get(d, k)
    decreases |u|
  {
    if u != [] {
      var u' := u[1..];
      assert Keys(u) == [u[0].key] + Keys(u');
      assert Distinct(u');
      GetUpdate(Set(d, u[0].key, u[0].value), u', k);
      GetSet(d, u[0].key, u[0].value, k);
      if k == u[0].key {
        assert k !in Keys(u');
      } else {
        assert IndexOf(u, k) == 1 + IndexOf(u', k);
      }
    }
  }

  /** After `update`, the keys are the old keys and those of `u`. */
  lemma {:induction false} UpdateKeys<K, V>(d: Dict<K, V>, u: Dict<K, V>)
    ensures forall k :: k in Keys(Update(d, u)) <==> k in Keys(d) || k in Keys(u)
    ensures Distinct(d) ==> Distinct(Update(d, u))
    decreases |u|
  {
    if u != [] {
      assert Keys(u) == [u[0].key] + Keys(u[1..]);
      SetKeys(d, u[0].key, u[0].value);
      UpdateKeys(Set(d, u[0].key, u[0].value), u[1..]);
    }
  }

  /** The total of a dictionary of counters after one counter is assigned. */
  lemma {:induction false} TotalSet<K>(d: Dict<K, nat>, k: K, n: nat)
    ensures Total(Set(d, k, n)) + GetOr(d, k, 0) == Total(d) + n
    decreases |d|
  {
    var i := IndexOf(d, k);
    if i < |d| {
      TotalReplace(d, i, Entry(k, n));
    } else {
      assert (d + [Entry(k, n)])[..|d|] == d;
    }
  }

  lemma {:induction false} TotalReplace<K>(d: Dict<K, nat>, i: nat, e: Entry<K, nat>)
    requires i < |d|
    ensures Total(d[i := e]) + d[i].value == Total(d) + e.value
    decreases |d|
  {
    var n := |d| - 1;
    if i < n {
      assert d[i := e][..n] == d[..n][i := e];
      TotalReplace(d[..n], i, e);
    } else {
      assert d[i := e][..n] == d[..n];
    }
  }
}

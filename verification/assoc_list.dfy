/**
 A JavaScript `Map` modelled as an association list in insertion order.
 `Map.prototype.set` on a key already present replaces the value in place, on a new
 key it appends; `Map.prototype.delete` removes the entry and leaves the others in
 order. Iteration (`map.entries()`) walks the list front to back.
 */
module AssocList {
  import opened Wrappers
  import InsertionSet

  /** The keys, in iteration order. */
  function Keys<K, V>(l: seq<(K, V)>): (ks: seq<K>)
    ensures |ks| == |l|
  {
    if |l| == 0 then [] else [l[0].0] + Keys(l[1..])
  }

  /** The `i`-th key is the key of the `i`-th entry. */
  lemma {:induction false} KeyAt<K, V>(l: seq<(K, V)>, i: nat)
    requires i < |l|
    ensures Keys(l)[i] == l[i].0
  {
    if i > 0 {
      KeyAt(l[1..], i - 1);
    }
  }

  /** What a `Map` always satisfies: no key occurs twice. */
  predicate UniqueKeys<K(==), V>(l: seq<(K, V)>) {
    InsertionSet.NoDup(Keys(l))
  }

  /** `Map.prototype.get`: the value stored under `k`, if any. */
  function Get<K(==), V>(l: seq<(K, V)>, k: K): (r: Option<V>)
    ensures r.None? <==> k !in Keys(l)
    ensures r.Some? ==> (k, r.value) in l
  {
    if |l| == 0 then None
    else if l[0].0 == k then Some(l[0].1)
    else Get(l[1..], k)
  }

  /** `Map.prototype.set`: a present key keeps its position, a new key goes last. */
  function Put<K(==,!new), V>(l: seq<(K, V)>, k: K, v: V): (r: seq<(K, V)>)
    ensures Get(r, k) == Some(v)
    ensures forall k' :: k' != k ==> Get(r, k') == Get(l, k')
    ensures k in Keys(l) ==> Keys(r) == Keys(l)
    ensures k !in Keys(l) ==> Keys(r) == Keys(l) + [k]
    ensures UniqueKeys(l) ==> UniqueKeys(r)
  {
    if |l| == 0 then [(k, v)]
    else if l[0].0 == k then
      [(k, v)] + l[1..]
    else
      var rest := Put(l[1..], k, v);
      var r := [l[0]] + rest;
      assert r[1..] == rest;
      assert Keys(l) == [l[0].0] + Keys(l[1..]);
      assert Keys(r) == [l[0].0] + Keys(rest);
      InsertionSet.NoDupCons(l[0].0, Keys(l[1..]));
      InsertionSet.NoDupCons(l[0].0, Keys(rest));
      r
  }

  /** `Map.prototype.delete`: drops the entry for `k` and nothing else. */
  function Remove<K(==,!new), V>(l: seq<(K, V)>, k: K): (r: seq<(K, V)>)
    ensures forall k' :: k' != k ==> Get(r, k') == Get(l, k')
    ensures k !in Keys(l) ==> r == l
    ensures UniqueKeys(l) ==> Keys(r) == InsertionSet.Delete(Keys(l), k)
    ensures UniqueKeys(l) ==> UniqueKeys(r) && Get(r, k) == None
  {
    if |l| == 0 then []
    else if l[0].0 == k then
      assert Keys(l) == [k] + Keys(l[1..]);
      InsertionSet.NoDupCons(k, Keys(l[1..]));
      l[1..]
    else
      var rest := Remove(l[1..], k);
      var r := [l[0]] + rest;
      assert r[1..] == rest;
      assert Keys(l) == [l[0].0] + Keys(l[1..]);
      assert Keys(r) == [l[0].0] + Keys(rest);
      InsertionSet.NoDupCons(l[0].0, Keys(l[1..]));
      InsertionSet.NoDupCons(l[0].0, Keys(rest));
      r
  }

  /** The position of the first entry whose value is `v`, as a `for … of` loop with `break` finds it. */
  function FirstWithValue<K, V(==)>(l: seq<(K, V)>, v: V): (r: Option<nat>)
    ensures r.Some? ==> r.value < |l| && l[r.value].1 == v
    ensures r.Some? ==> forall j :: 0 <= j < r.value ==> l[j].1 != v
    ensures r.None? <==> forall j :: 0 <= j < |l| ==> l[j].1 != v
  {
    if |l| == 0 then None
    else if l[0].1 == v then Some(0)
    else match FirstWithValue(l[1..], v)
      case None => None
      case Some(i) => Some(i + 1)
  }

  /** With unique keys, deleting the key found at position `i` removes exactly that entry. */
  lemma {:induction false} RemoveAt<K(!new), V>(l: seq<(K, V)>, i: nat)
    requires UniqueKeys(l) && i < |l|
    ensures Remove(l, l[i].0) == l[..i] + l[i + 1..]
  {
    if i == 0 {
      assert l[..0] + l[1..] == l[1..];
    } else {
      UniqueTail(l, i);
      var tail := l[1..];
      assert tail[i - 1] == l[i];
      RemoveAt(tail, i - 1);
      DropSplit(l, i);
    }
  }

  lemma DropSplit<T>(l: seq<T>, i: nat)
    requires 0 < i < |l|
    ensures l[..i] + l[i + 1..] == [l[0]] + (l[1..][..i - 1] + l[1..][i..])
  {
  }

  /** A later key differs from the first one, and the tail of a `Map` is a `Map`. */
  lemma UniqueTail<K, V>(l: seq<(K, V)>, i: nat)
    requires UniqueKeys(l) && 0 < i < |l|
    ensures l[0].0 != l[i].0 && UniqueKeys(l[1..])
  {
    KeyAt(l, i);
    KeyAt(l, 0);
    assert Keys(l) == [l[0].0] + Keys(l[1..]);
    InsertionSet.NoDupCons(l[0].0, Keys(l[1..]));
  }

  /** Setting a key twice is setting it once to the later value. */
  lemma {:induction false} PutPut<K(!new), V>(l: seq<(K, V)>, k: K, v: V, w: V)
    ensures Put(Put(l, k, v), k, w) == Put(l, k, w)
  {
    if |l| > 0 && l[0].0 != k {
      PutPut(l[1..], k, v, w);
      assert Put(l, k, v)[1..] == Put(l[1..], k, v);
    }
  }

  /** Deleting a key that was just added restores the map, order included. */
  lemma {:induction false} RemovePutFresh<K(!new), V>(l: seq<(K, V)>, k: K, v: V)
    requires k !in Keys(l)
    ensures Remove(Put(l, k, v), k) == l
  {
    if |l| > 0 {
      assert Keys(l) == [l[0].0] + Keys(l[1..]);
      RemovePutFresh(l[1..], k, v);
      assert Put(l, k, v)[1..] == Put(l[1..], k, v);
    }
  }

  /** Setting a new key appends its entry at the end. */
  lemma {:induction false} PutFresh<K(!new), V>(l: seq<(K, V)>, k: K, v: V)
    requires k !in Keys(l)
    ensures Put(l, k, v) == l + [(k, v)]
  {
    if |l| > 0 {
      assert Keys(l) == [l[0].0] + Keys(l[1..]);
      assert l[0].0 != k;
      PutFresh(l[1..], k, v);
      assert l + [(k, v)] == [l[0]] + (l[1..] + [(k, v)]);
    }
  }

  /** With unique keys, looking up the key of an entry finds that entry's value. */
  lemma {:induction false} GetAt<K, V>(l: seq<(K, V)>, i: nat)
    requires UniqueKeys(l) && i < |l|
    ensures Get(l, l[i].0) == Some(l[i].1)
  {
    if i > 0 {
      UniqueTail(l, i);
      GetAt(l[1..], i - 1);
    }
  }
}

/** The contract of the `lru` crate's bounded map: a table with a recency order, the
    most recently used key first. */
module Lru {
  import opened Bytes

  datatype Lru<K, V> = Lru(cap: nat, order: seq<K>, table: map<K, V>)

  ghost predicate Distinct<K(!new)>(s: seq<K>) {
    s == [] || (s[0] !in s[1..] && Distinct(s[1..]))
  }

  /** The order lists each key of the table once, and there are at most `cap` of them. */
  ghost predicate Sound<K(!new), V>(l: Lru<K, V>) {
    && 0 < l.cap && |l.order| <= l.cap && Distinct(l.order)
    && forall k :: k in l.order <==> k in l.table
  }

  function Without<K(!new, ==)>(s: seq<K>, k: K): (r: seq<K>)
    ensures forall x :: x in r <==> x in s && x != k
    ensures Distinct(s) ==> Distinct(r) && |r| == |s| - (if k in s then 1 else 0)
  {
    if s == [] then []
    else if s[0] == k then
      assert s == [s[0]] + s[1..];
      Without(s[1..], k)
    else
      assert s == [s[0]] + s[1..];
      [s[0]] + Without(s[1..], k)
  }

  /** `get` moves a present key to the front. */
  function Touch<K(!new, ==), V>(l: Lru<K, V>, k: K): Lru<K, V> {
    if k in l.table then l.(order := [k] + Without(l.order, k)) else l
  }

  /** `pop` removes a key. */
  function Remove<K(!new, ==), V>(l: Lru<K, V>, k: K): Lru<K, V> {
    l.(order := Without(l.order, k), table := l.table - {k})
  }

  /** What a `put` of `k` displaces: the key at the end, when `k` is new and there is no room. */
  function Displaced<K(!new, ==), V>(l: Lru<K, V>, k: K): Option<K> {
    if k !in l.table && |l.order| == l.cap && l.order != [] then Some(l.order[|l.order| - 1]) else None
  }

  /** `put` replaces the value of a present key, or adds the key; both move it to the front. */
  function Store<K(!new, ==), V>(l: Lru<K, V>, k: K, v: V): Lru<K, V> {
    var kept := if Displaced(l, k).Some? then Remove(l, Displaced(l, k).value) else l;
    kept.(order := [k] + Without(kept.order, k), table := kept.table[k := v])
  }

  lemma TouchIsSound<K(!new), V>(l: Lru<K, V>, k: K)
    requires Sound(l)
    ensures Sound(Touch(l, k))
  {
    if k in l.table {
      var rest := Without(l.order, k);
      assert ([k] + rest)[1..] == rest;
    }
  }

  lemma RemoveIsSound<K(!new), V>(l: Lru<K, V>, k: K)
    requires Sound(l)
    ensures Sound(Remove(l, k))
  {
  }

  lemma StoreIsSound<K(!new), V>(l: Lru<K, V>, k: K, v: V)
    requires Sound(l)
    ensures Sound(Store(l, k, v))
  {
    var kept := if Displaced(l, k).Some? then Remove(l, Displaced(l, k).value) else l;
    RemoveIsSound(l, k);
    if Displaced(l, k).Some? {
      assert Displaced(l, k).value in l.order;
      RemoveIsSound(l, Displaced(l, k).value);
    }
    var rest := Without(kept.order, k);
    assert ([k] + rest)[1..] == rest;
  }

  class LruCache<K(!new, ==), V> {
    const cap: nat
    var order: seq<K>
    var table: map<K, V>

    ghost function View(): Lru<K, V>
      reads this
    {
      Lru(cap, order, table)
    }

    constructor (cap: nat)
      requires cap > 0
      ensures View() == Lru(cap, [], map[]) && Sound(View())
    {
      this.cap := cap;
      order := [];
      table := map[];
    }

    method Get(k: K) returns (r: Option<V>)
      requires Sound(View())
      modifies this
      ensures Sound(View()) && View() == Touch(old(View()), k)
      ensures r == if k in old(table) then Some(old(table)[k]) else None
    {
      TouchIsSound(View(), k);
      if k !in table {
        return None;
      }
      order := [k] + Without(order, k);
      return Some(table[k]);
    }

    method Pop(k: K)
      requires Sound(View())
      modifies this
      ensures Sound(View()) && View() == Remove(old(View()), k)
    {
      RemoveIsSound(View(), k);
      order := Without(order, k);
      table := table - {k};
    }

    method Put(k: K, v: V)
      requires Sound(View())
      modifies this
      ensures Sound(View()) && View() == Store(old(View()), k, v)
    {
      StoreIsSound(View(), k, v);
      if k !in table && |order| == cap {
        Pop(order[|order| - 1]);
      }
      order := [k] + Without(order, k);
      table := table[k := v];
    }

    method Clear()
      modifies this
      ensures View() == old(View()).(order := [], table := map[])
    {
      order := [];
      table := map[];
    }
  }
}

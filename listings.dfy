/**
 * What iterating a Go map yields: every key visited once, in some order,
 * so an entry stored under two keys is listed twice.
 */
module Listings {
  /**
   * The entries of `m`, each counted once per key that holds it: what a
   * listing of the map holds, whatever its order.
   */
  ghost function Entries<K, V>(m: map<K, V>): multiset<V> {
    EntriesAt(m, m.Keys)
  }

  /** The entries of `m` under the keys `ks`, each counted once per key. */
  ghost function EntriesAt<K, V>(m: map<K, V>, ks: set<K>): multiset<V>
    requires ks <= m.Keys
  {
    if ks == {} then multiset{}
    else
      var k :| k in ks;
      multiset{m[k]} + EntriesAt(m, ks - {k})
  }

  /**
   * Fills `arr` with the entries of `m`, slot `i` getting the entry of the
   * `i`-th key visited, keys visited in an order left open as Go's map
   * iteration leaves it.
   */
  method FillInMapOrder<K, V>(arr: array<V>, m: map<K, V>)
    requires arr.Length == |m|
    modifies arr
    ensures multiset(arr[..]) == Entries(m)
  {
    var keys := m.Keys;
    ghost var sofar: seq<V> := [];
    var i := 0;
    while keys != {}
      invariant keys <= m.Keys && i + |keys| == |m| && i == |sofar|
      invariant forall j :: 0 <= j < i ==> arr[j] == sofar[j]
      invariant multiset(sofar) + EntriesAt(m, keys) == Entries(m)
      decreases keys
    {
      var k :| k in keys;
      VisitKey(sofar, m, keys, k);
      arr[i] := m[k];
      sofar := sofar + [m[k]];
      keys := keys - {k};
      i := i + 1;
    }
    assert arr[..] == sofar;
  }

  /** Visiting one more key moves its entry from the keys still to visit to the listing. */
  lemma VisitKey<K, V>(sofar: seq<V>, m: map<K, V>, keys: set<K>, k: K)
    requires keys <= m.Keys && k in keys
    requires multiset(sofar) + EntriesAt(m, keys) == Entries(m)
    ensures multiset(sofar + [m[k]]) + EntriesAt(m, keys - {k}) == Entries(m)
  {
    EntriesAtRemove(m, keys, k);
  }

  /** The keys an order visits. */
  ghost function Visited<K>(order: seq<K>): set<K> {
    set k | k in order
  }

  /**
   * Entries read along an order that visits keys of `m` at most once are
   * the entries of the keys it visits, once per key.
   */
  lemma {:induction false} ListedAlong<K, V>(m: map<K, V>, order: seq<K>, vals: seq<V>)
    requires |order| == |vals|
    requires forall j :: 0 <= j < |order| ==> order[j] in m && vals[j] == m[order[j]]
    requires forall a, b :: 0 <= a < b < |order| ==> order[a] != order[b]
    ensures Visited(order) <= m.Keys
    ensures multiset(vals) == EntriesAt(m, Visited(order))
    decreases |order|
  {
    if |order| == 0 {
      assert Visited(order) == {};
    } else {
      var n := |order| - 1;
      ListedAlong(m, order[..n], vals[..n]);
      VisitedLast(order);
      ListedSnoc(m, Visited(order[..n]), order[n], vals);
    }
  }

  /** Reading one more key, not read before, adds its entry. */
  lemma ListedSnoc<K, V>(m: map<K, V>, ks: set<K>, k: K, vals: seq<V>)
    requires ks <= m.Keys && k in m && k !in ks
    requires |vals| > 0 && vals[|vals| - 1] == m[k]
    requires multiset(vals[..|vals| - 1]) == EntriesAt(m, ks)
    ensures ks + {k} <= m.Keys
    ensures multiset(vals) == EntriesAt(m, ks + {k})
  {
    EntriesAtRemove(m, ks + {k}, k);
    assert ks + {k} - {k} == ks;
    MultisetSnoc(vals);
  }

  lemma MultisetSnoc<V>(vals: seq<V>)
    requires |vals| > 0
    ensures multiset(vals) == multiset(vals[..|vals| - 1]) + multiset{vals[|vals| - 1]}
  {
    assert vals == vals[..|vals| - 1] + [vals[|vals| - 1]];
  }

  /** An order that visits no key twice visits its last key only last. */
  lemma VisitedLast<K>(order: seq<K>)
    requires |order| > 0
    requires forall a, b :: 0 <= a < b < |order| ==> order[a] != order[b]
    ensures var n := |order| - 1;
            order[n] !in Visited(order[..n]) && Visited(order) == Visited(order[..n]) + {order[n]}
  {
    var n := |order| - 1;
    assert order == order[..n] + [order[n]];
    forall j | 0 <= j < n ensures order[..n][j] != order[n] {
      assert order[..n][j] == order[j];
    }
  }

  /** The keys of `m` that hold `v`. */
  ghost function KeysHolding<K, V>(m: map<K, V>, v: V): set<K> {
    set k | k in m && m[k] == v
  }

  /** Any key can be taken out first: its entry, then the entries of the other keys. */
  lemma {:induction false} EntriesAtRemove<K, V>(m: map<K, V>, ks: set<K>, k: K)
    requires ks <= m.Keys && k in ks
    ensures EntriesAt(m, ks) == multiset{m[k]} + EntriesAt(m, ks - {k})
    decreases ks
  {
    var c :| c in ks && EntriesAt(m, ks) == multiset{m[c]} + EntriesAt(m, ks - {c});
    if c != k {
      EntriesAtRemove(m, ks - {c}, k);
      EntriesAtRemove(m, ks - {k}, c);
      assert ks - {c} - {k} == ks - {k} - {c};
    }
  }

  /** Only the entries under `ks` matter. */
  lemma {:induction false} EntriesAtFrame<K, V>(m: map<K, V>, n: map<K, V>, ks: set<K>)
    requires ks <= m.Keys && ks <= n.Keys
    requires forall k :: k in ks ==> m[k] == n[k]
    ensures EntriesAt(m, ks) == EntriesAt(n, ks)
    decreases ks
  {
    if ks != {} {
      var k :| k in ks && EntriesAt(m, ks) == multiset{m[k]} + EntriesAt(m, ks - {k});
      EntriesAtFrame(m, n, ks - {k});
      EntriesAtRemove(n, ks, k);
    }
  }

  /** Storing an entry under a new key adds it once. */
  lemma EntriesAdd<K, V>(m: map<K, V>, k: K, v: V)
    requires k !in m
    ensures Entries(m[k := v]) == Entries(m) + multiset{v}
  {
    var n := m[k := v];
    assert n.Keys == m.Keys + {k};
    EntriesAtRemove(n, n.Keys, k);
    assert n.Keys - {k} == m.Keys;
    EntriesAtFrame(n, m, m.Keys);
  }

  /** Each entry is counted as many times as there are keys holding it. */
  lemma EntriesCount<K, V>(m: map<K, V>, v: V)
    ensures Entries(m)[v] == |KeysHolding(m, v)|
  {
    EntriesAtCount(m, m.Keys, v);
    assert KeysHolding(m, v) == set k | k in m.Keys && m[k] == v;
  }

  lemma {:induction false} EntriesAtCount<K, V>(m: map<K, V>, ks: set<K>, v: V)
    requires ks <= m.Keys
    ensures EntriesAt(m, ks)[v] == |set k | k in ks && m[k] == v|
    decreases ks
  {
    var holding := set k | k in ks && m[k] == v;
    if ks == {} {
      assert holding == {};
    } else {
      var k :| k in ks && EntriesAt(m, ks) == multiset{m[k]} + EntriesAt(m, ks - {k});
      EntriesAtCount(m, ks - {k}, v);
      var rest := set k' | k' in ks - {k} && m[k'] == v;
      if m[k] == v {
        assert holding == rest + {k};
      } else {
        assert holding == rest;
      }
    }
  }

  /** The entries are as many as the keys, and are exactly the map's values. */
  lemma EntriesMembers<K, V>(m: map<K, V>)
    ensures |Entries(m)| == |m|
    ensures forall v :: v in Entries(m) <==> v in m.Values
  {
    EntriesAtMembers(m, m.Keys);
    forall v ensures v in Entries(m) <==> v in m.Values {
      if v in m.Values {
        var k :| k in m && m[k] == v;
        assert k in m.Keys;
      }
    }
  }

  lemma {:induction false} EntriesAtMembers<K, V>(m: map<K, V>, ks: set<K>)
    requires ks <= m.Keys
    ensures |EntriesAt(m, ks)| == |ks|
    ensures forall v :: v in EntriesAt(m, ks) <==> exists k :: k in ks && m[k] == v
    decreases ks
  {
    if ks != {} {
      var k :| k in ks && EntriesAt(m, ks) == multiset{m[k]} + EntriesAt(m, ks - {k});
      EntriesAtMembers(m, ks - {k});
      forall v ensures v in EntriesAt(m, ks) <==> exists k' :: k' in ks && m[k'] == v {
        if v != m[k] && exists k' :: k' in ks && m[k'] == v {
          var k' :| k' in ks && m[k'] == v;
          assert k' in ks - {k};
        }
      }
    }
  }
}

// Buckets of a hash table as lists, and the map they denote.  Shared by the verifier's index and
// the attester's measurement cache.
module Buckets {

  datatype Item<K, V> = Item(key: K, val: V)

  /** Every item is in its own bucket, no key occurs twice, and together the items are exactly the
      bindings. */
  ghost predicate Indexed<K, V>(slot: K -> nat, n: nat, items: seq<seq<Item<K, V>>>, bindings: map<K, V>)
  {
    && |items| == n
    && (forall b, i :: 0 <= b < n && 0 <= i < |items[b]| ==> Placed(slot, items, bindings, b, i))
    && (forall b, i, j :: 0 <= b < n && 0 <= i < j < |items[b]| ==> items[b][i].key != items[b][j].key)
    && (forall k :: k in bindings ==> slot(k) < n && Listed(items[slot(k)], k))
  }

  ghost predicate Placed<K, V>(slot: K -> nat, items: seq<seq<Item<K, V>>>, bindings: map<K, V>, b: nat, i: nat)
    requires b < |items| && i < |items[b]|
  {
    var it := items[b][i];
    slot(it.key) == b && it.key in bindings && bindings[it.key] == it.val
  }

  ghost predicate Listed<K, V>(bucket: seq<Item<K, V>>, k: K)
  {
    exists i :: 0 <= i < |bucket| && bucket[i].key == k
  }

  lemma {:induction false} IndexedEmpty<K, V>(slot: K -> nat, n: nat)
    ensures Indexed<K, V>(slot, n, seq(n, _ => []), map[])
  {}

  lemma {:induction false} IndexedAppend<K, V>(slot: K -> nat, n: nat, items: seq<seq<Item<K, V>>>,
                                               bindings: map<K, V>, it: Item<K, V>)
    requires Indexed(slot, n, items, bindings) && it.key !in bindings && slot(it.key) < n
    ensures var b := slot(it.key);
      Indexed(slot, n, items[b := items[b] + [it]], bindings[it.key := it.val])
  {
    var s := slot(it.key);
    var items', bindings' := items[s := items[s] + [it]], bindings[it.key := it.val];
    forall b, i | 0 <= b < n && 0 <= i < |items'[b]| ensures Placed(slot, items', bindings', b, i) {
      if i < |items[b]| { assert items'[b][i] == items[b][i] && Placed(slot, items, bindings, b, i); }
    }
    forall b, i, j | 0 <= b < n && 0 <= i < j < |items'[b]| ensures items'[b][i].key != items'[b][j].key {
      assert items'[b][i] == items[b][i] && Placed(slot, items, bindings, b, i);
    }
    forall k | k in bindings' ensures Listed(items'[slot(k)], k) {
      var b := slot(k);
      if k == it.key {
        assert items'[b][|items[b]|].key == k;
      } else {
        var i :| 0 <= i < |items[b]| && items[b][i].key == k;
        assert items'[b][i].key == k;
      }
    }
  }

  lemma {:induction false} IndexedReplace<K, V>(slot: K -> nat, n: nat, items: seq<seq<Item<K, V>>>,
                                                bindings: map<K, V>, s: nat, r: nat, v: V)
    requires Indexed(slot, n, items, bindings) && s < n && r < |items[s]|
    ensures var k := items[s][r].key;
      Indexed(slot, n, items[s := items[s][r := Item(k, v)]], bindings[k := v])
  {
    var key := items[s][r].key;
    var items': seq<seq<Item<K, V>>> := items[s := items[s][r := Item(key, v)]];
    var bindings' := bindings[key := v];
    assert Placed(slot, items, bindings, s, r);
    forall b, i | 0 <= b < n && 0 <= i < |items'[b]|
      ensures items'[b][i].key == items[b][i].key && Placed(slot, items', bindings', b, i)
    {
      assert Placed(slot, items, bindings, b, i);
    }
    forall b, i, j | 0 <= b < n && 0 <= i < j < |items'[b]| ensures items'[b][i].key != items'[b][j].key {
      assert items'[b][i].key == items[b][i].key && items'[b][j].key == items[b][j].key;
    }
    forall k | k in bindings' ensures Listed(items'[slot(k)], k) {
      var i :| 0 <= i < |items[slot(k)]| && items[slot(k)][i].key == k;
      assert items'[slot(k)][i].key == k;
    }
  }

  lemma {:induction false} BoundIffListed<K, V>(slot: K -> nat, n: nat, items: seq<seq<Item<K, V>>>,
                                                bindings: map<K, V>, k: K)
    requires Indexed(slot, n, items, bindings) && slot(k) < n
    ensures k in bindings <==> Listed(items[slot(k)], k)
    ensures forall i :: 0 <= i < |items[slot(k)]| && items[slot(k)][i].key == k
              ==> k in bindings && bindings[k] == items[slot(k)][i].val
  {
    forall i | 0 <= i < |items[slot(k)]| && items[slot(k)][i].key == k
      ensures k in bindings && bindings[k] == items[slot(k)][i].val
    {
      assert Placed(slot, items, bindings, slot(k), i);
    }
  }
}

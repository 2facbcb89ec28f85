/**
 The recency-ordered bounded insertions behind every cache of the facade, and the plain history they
 refine: the last `capacity` distinct keys, by latest insertion.
 */
module BoundedCache {
  import opened Bytes

  // ---- The history a cache stands for ----

  function Without<T(==, !new)>(s: seq<T>, x: T): (r: seq<T>)
    ensures x !in r && forall y :: y in r <==> y in s && y != x
    ensures |r| <= |s|
  {
    if s == [] then [] else (if s[0] == x then [] else [s[0]]) + Without(s[1..], x)
  }

  function LastN<T>(s: seq<T>, n: nat): (r: seq<T>)
    ensures |r| <= n
  {
    if |s| <= n then s else s[|s| - n..]
  }

  /** The distinct keys of a history, in the order of their latest insertion. */
  function Recency<K(==, !new)>(history: seq<K>): seq<K> {
    if history == [] then []
    else
      var last := history[|history| - 1];
      Without(Recency(history[..|history| - 1]), last) + [last]
  }

  function LastIndex<K(==)>(history: seq<K>, key: K): (k: nat)
    requires key in history
    ensures k < |history| && history[k] == key
    ensures forall j :: k < j < |history| ==> history[j] != key
  {
    var n := |history| - 1;
    if history[n] == key then n else LastIndex(history[..n], key)
  }

  // ---- One insertion ----

  /** The order queue after `key` is inserted or refreshed. */
  function Touch<K(==, !new)>(order: seq<K>, key: K, capacity: nat): seq<K> {
    LastN(Without(order, key) + [key], capacity)
  }

  /** Whether inserting `key` makes room by evicting something. */
  predicate Evicts<K(==, !new)>(order: seq<K>, key: K, capacity: nat) {
    |Without(order, key)| + 1 > capacity
  }

  /** The entries of a map that its queue still names. */
  function Named<K(==), V>(entries: map<K, V>, order: seq<K>): map<K, V> {
    map k | k in entries && k in order :: entries[k]
  }

  /** The queue and the keys describe the same entries. */
  predicate Synced<K(!new)>(keys: set<K>, order: seq<K>) {
    Distinct(order) && keys == SetOf(order)
  }

  lemma {:induction false} SyncedSize<K(!new)>(keys: set<K>, order: seq<K>)
    requires Synced(keys, order)
    ensures |keys| == |order|
  {
    if order != [] {
      var last := order[|order| - 1];
      var rest := order[..|order| - 1];
      assert order == rest + [last];
      SyncedSize(keys - {last}, rest);
    }
  }

  lemma {:induction false} WithoutKeepsOrder<K(!new)>(s: seq<K>, x: K)
    requires Distinct(s)
    ensures Distinct(Without(s, x)) && (x !in s ==> Without(s, x) == s)
    ensures x in s ==> |Without(s, x)| == |s| - 1
  {
    if s != [] {
      WithoutKeepsOrder(s[1..], x);
      var more := Without(s[1..], x);
      if s[0] != x {
        assert s[0] !in s[1..];
        assert Without(s, x) == [s[0]] + more;
      } else {
        assert x !in s[1..];
      }
    }
  }

  /** Popping the front of what is left of `all` leaves one entry fewer of it, and one key fewer. */
  lemma PopOldest<K(!new)>(keys: set<K>, order: seq<K>, all: seq<K>)
    requires Synced(keys, order) && order != [] && order == LastN(all, |order|)
    ensures order[0] in keys && Synced(keys - {order[0]}, order[1..])
    ensures |keys| == |order| && |keys - {order[0]}| == |order| - 1
    ensures order[1..] == LastN(all, |order| - 1)
  {
    assert order == [order[0]] + order[1..];
    SyncedSize(keys, order);
    SyncedSize(keys - {order[0]}, order[1..]);
  }

  /** The queue and the keys with `key` moved to the back. */
  lemma Pushed<K(!new)>(keys: set<K>, order: seq<K>, key: K)
    requires Synced(keys, order)
    ensures var all := Without(order, key) + [key];
            && Synced(keys + {key}, all) && |keys + {key}| == |all|
            && LastN(all, |all|) == all
            && all == (if key in keys then Without(order, key) else order) + [key]
  {
    WithoutKeepsOrder(order, key);
    SyncedSize(keys + {key}, Without(order, key) + [key]);
  }

  /** `bounded_set_insert`. */
  method BoundedSetInsert<K(==, !new)>(keys: set<K>, order: seq<K>, value: K, capacity: nat)
    returns (newKeys: set<K>, newOrder: seq<K>, evicted: bool)
    requires Synced(keys, order)
    ensures newOrder == Touch(order, value, capacity) && Synced(newKeys, newOrder)
    ensures evicted <==> Evicts(order, value, capacity)
    ensures evicted <==> newKeys != keys + {value}
  {
    hide Synced, Without;
    newKeys, newOrder := keys, order;
    Pushed(keys, order, value);
    if value in newKeys {
      newOrder := Without(newOrder, value);
    }
    newKeys := newKeys + {value};
    newOrder := newOrder + [value];
    evicted := false;
    ghost var all := newOrder;
    while |newKeys| > capacity
      invariant Synced(newKeys, newOrder) && newKeys <= keys + {value}
      invariant |newKeys| == |newOrder| <= |all| && newOrder == LastN(all, |newOrder|)
      invariant |newOrder| < |all| ==> capacity <= |newOrder|
      invariant evicted <==> |newOrder| < |all|
      invariant !evicted ==> newKeys == keys + {value}
      decreases |newOrder|
    {
      PopOldest(newKeys, newOrder, all);
      var oldest := newOrder[0];
      newOrder := newOrder[1..];
      if oldest in newKeys {
        newKeys := newKeys - {oldest};
        evicted := true;
      }
    }
  }

  lemma NamedExactly<K(!new), V>(kept: map<K, V>, entries: map<K, V>, order: seq<K>)
    requires Synced(kept.Keys, order) && SubMap(kept, entries)
    ensures kept == Named(entries, order)
  {
    assert forall k :: k in order <==> k in kept.Keys;
  }

  /** `bounded_map_insert`: the same, with a value beside every key. */
  method BoundedMapInsert<K(==, !new), V>(entries: map<K, V>, order: seq<K>, key: K, value: V, capacity: nat)
    returns (newEntries: map<K, V>, newOrder: seq<K>, evicted: bool)
    requires Synced(entries.Keys, order)
    ensures newOrder == Touch(order, key, capacity) && Synced(newEntries.Keys, newOrder)
    ensures newEntries == Named(entries[key := value], newOrder)
    ensures evicted <==> Evicts(order, key, capacity)
    ensures evicted <==> newEntries.Keys != entries.Keys + {key}
  {
    hide Synced, Without, Named;
    newEntries, newOrder := entries, order;
    Pushed(entries.Keys, order, key);
    if key in newEntries {
      newOrder := Without(newOrder, key);
    }
    newEntries := newEntries[key := value];
    newOrder := newOrder + [key];
    evicted := false;
    ghost var all := newOrder;
    assert newEntries.Keys == entries.Keys + {key};
    while |newEntries| > capacity
      invariant Synced(newEntries.Keys, newOrder)
      invariant SubMap(newEntries, entries[key := value])
      invariant |newEntries.Keys| == |newOrder| <= |all| && newOrder == LastN(all, |newOrder|)
      invariant |newOrder| < |all| ==> capacity <= |newOrder|
      invariant evicted <==> |newOrder| < |all|
      invariant !evicted ==> newEntries.Keys == entries.Keys + {key}
      decreases |newOrder|
    {
      PopOldest(newEntries.Keys, newOrder, all);
      var oldest := newOrder[0];
      newOrder := newOrder[1..];
      if oldest in newEntries {
        newEntries := newEntries - {oldest};
        evicted := true;
      }
    }
    NamedExactly(newEntries, entries[key := value], newOrder);
  }

  // ---- Any run of insertions refines its history ----

  /** `Recency` is what its name says: each key once, exactly the keys of the history, by latest insertion. */
  lemma {:induction false} RecencyOrder<K(!new)>(history: seq<K>)
    ensures var r := Recency(history);
            && Distinct(r)
            && (forall k :: k in r <==> k in history)
            && forall i, j :: 0 <= i < j < |r| ==> LastIndex(history, r[i]) < LastIndex(history, r[j])
  {
    if history != [] {
      var n := |history| - 1;
      var before := Recency(history[..n]);
      var last := history[n];
      assert history == history[..n] + [last];
      RecencyOrder(history[..n]);
      WithoutKeepsOrder(before, last);
      var r := Recency(history);
      forall i, j | 0 <= i < j < |r|
        ensures LastIndex(history, r[i]) < LastIndex(history, r[j])
      {
        assert r[i] == Without(before, last)[i] && r[i] != last;
        if j < |r| - 1 {
          assert r[j] == Without(before, last)[j] && r[j] != last;
          var p, q := WithoutMonotone(before, last, i, j);
        }
      }
    }
  }

  /** Leaving one entry out keeps the order of the others. */
  lemma {:induction false} WithoutMonotone<T(!new)>(s: seq<T>, x: T, i: nat, j: nat) returns (p: nat, q: nat)
    requires i < j < |Without(s, x)|
    ensures p < q < |s| && s[p] == Without(s, x)[i] && s[q] == Without(s, x)[j]
  {
    var more := Without(s[1..], x);
    if s[0] == x {
      p, q := WithoutMonotone(s[1..], x, i, j);
      p, q := p + 1, q + 1;
    } else if i == 0 {
      assert more[j - 1] in s[1..];
      q :| 0 <= q < |s[1..]| && s[1..][q] == more[j - 1];
      p, q := 0, q + 1;
    } else {
      p, q := WithoutMonotone(s[1..], x, i - 1, j - 1);
      p, q := p + 1, q + 1;
    }
  }

  lemma LastNCons<T>(x: T, s: seq<T>, n: nat)
    requires n <= |s|
    ensures LastN([x] + s, n) == LastN(s, n)
  {}

  lemma WithoutHead<K(!new)>(first: K, rest: seq<K>, key: K)
    requires Distinct([first] + rest)
    ensures Distinct(rest) && |Without(rest, key)| + 1 >= |rest|
    ensures Without([first] + rest, key) == if first == key then Without(rest, key) else [first] + Without(rest, key)
  {
    var all := [first] + rest;
    assert all[1..] == rest;
    forall i, j | 0 <= i < j < |rest| ensures rest[i] != rest[j] {
      assert all[i + 1] != all[j + 1];
    }
    WithoutKeepsOrder(rest, key);
  }

  /** With `key` moved to the back, an entry in front of `capacity` others is dropped either way. */
  lemma DropFront<K(!new)>(first: K, rest: seq<K>, key: K, capacity: nat)
    requires Distinct([first] + rest) && |rest| >= capacity
    ensures Distinct(rest)
    ensures LastN(Without([first] + rest, key) + [key], capacity) == LastN(Without(rest, key) + [key], capacity)
  {
    hide Without, Distinct, LastN;
    WithoutHead(first, rest, key);
    var more := Without(rest, key);
    if first != key {
      LastNCons(first, more + [key], capacity);
      assert [first] + more + [key] == [first] + (more + [key]);
    }
  }

  /** Refreshing a key in the retained tail is refreshing it in the whole history. */
  lemma {:induction false} TouchRefines<K(!new)>(all: seq<K>, key: K, capacity: nat)
    requires Distinct(all)
    ensures Touch(LastN(all, capacity), key, capacity) == LastN(Without(all, key) + [key], capacity)
  {
    hide Without, Distinct;
    if |all| > capacity {
      var rest := all[1..];
      assert all == [all[0]] + rest;
      LastNCons(all[0], rest, capacity);
      DropFront(all[0], rest, key, capacity);
      TouchRefines(rest, key, capacity);
    }
  }

  /** The queue after a run of insertions into an empty cache. */
  function Replayed<K(==, !new)>(history: seq<K>, capacity: nat): seq<K> {
    if history == [] then []
    else Touch(Replayed(history[..|history| - 1], capacity), history[|history| - 1], capacity)
  }

  /** After any run, the queue is the last `capacity` distinct keys of the history. */
  lemma {:induction false} ReplayedRefines<K(!new)>(history: seq<K>, capacity: nat)
    ensures Replayed(history, capacity) == LastN(Recency(history), capacity)
  {
    if history != [] {
      var before := history[..|history| - 1];
      ReplayedRefines(before, capacity);
      RecencyOrder(before);
      TouchRefines(Recency(before), history[|history| - 1], capacity);
    }
  }

  function KeysOf<K, V>(history: seq<(K, V)>): (keys: seq<K>)
    ensures |keys| == |history| && forall i :: 0 <= i < |keys| ==> keys[i] == history[i].0
  {
    seq(|history|, i requires 0 <= i < |history| => history[i].0)
  }

  /** A bounded map stands for a history: its queue and keys are the retained tail, its values the latest. */
  ghost predicate Refines<K(!new), V>(entries: map<K, V>, order: seq<K>, history: seq<(K, V)>, capacity: nat) {
    var keys := KeysOf(history);
    && order == LastN(Recency(keys), capacity)
    && Synced(entries.Keys, order)
    && forall k :: k in entries ==> k in keys && entries[k] == history[LastIndex(keys, k)].1
  }

  /** Every insertion keeps a map refining its history, extended by that insertion. */
  lemma InsertRefines<K(!new), V>(entries: map<K, V>, order: seq<K>, history: seq<(K, V)>, key: K, value: V,
                                  capacity: nat, newEntries: map<K, V>, newOrder: seq<K>)
    requires Refines(entries, order, history, capacity)
    requires newOrder == Touch(order, key, capacity) && Synced(newEntries.Keys, newOrder)
    requires newEntries == Named(entries[key := value], newOrder)
    ensures Refines(newEntries, newOrder, history + [(key, value)], capacity)
  {
    var keys := KeysOf(history);
    var more := KeysOf(history + [(key, value)]);
    assert more == keys + [key] && more[..|more| - 1] == keys;
    RecencyOrder(keys);
    TouchRefines(Recency(keys), key, capacity);
  }

  /** Whether the insertion `i` of a history costs an entry: one retained before it, or the one inserted. */
  ghost predicate Costs<K(!new)>(keys: seq<K>, i: nat, capacity: nat)
    requires i < |keys|
  {
    exists k :: (k in LastN(Recency(keys[..i]), capacity) || k == keys[i]) && k !in LastN(Recency(keys[..i + 1]), capacity)
  }

  /** Any run of insertions into an empty map: it stands for its history, and each eviction is reported. */
  method InsertAll<K(==, !new), V>(history: seq<(K, V)>, capacity: nat)
    returns (entries: map<K, V>, order: seq<K>, evictions: seq<bool>)
    ensures Refines(entries, order, history, capacity)
    ensures |evictions| == |history|
    ensures forall i :: 0 <= i < |history| ==> (evictions[i] <==> Costs(KeysOf(history), i, capacity))
  {
    hide Refines, Costs, Recency;
    entries, order, evictions := map[], [], [];
    NothingInserted<K, V>(capacity);
    for n := 0 to |history|
      invariant Refines(entries, order, history[..n], capacity)
      invariant |evictions| == n && forall i :: 0 <= i < n ==> (evictions[i] <==> Costs(KeysOf(history), i, capacity))
    {
      RefinesParts(entries, order, history[..n], capacity);
      var newEntries, newOrder, evicted := BoundedMapInsert(entries, order, history[n].0, history[n].1, capacity);
      InsertRefines(entries, order, history[..n], history[n].0, history[n].1, capacity, newEntries, newOrder);
      assert history[..n + 1] == history[..n] + [(history[n].0, history[n].1)];
      RefinesParts(newEntries, newOrder, history[..n + 1], capacity);
      EvictionCosts(history, n, entries.Keys, newEntries.Keys, capacity);
      entries, order, evictions := newEntries, newOrder, evictions + [evicted];
    }
    assert history[..|history|] == history;
  }

  lemma NothingInserted<K(!new), V>(capacity: nat)
    ensures Refines<K, V>(map[], [], [], capacity)
  {}

  lemma RefinesParts<K(!new), V>(entries: map<K, V>, order: seq<K>, history: seq<(K, V)>, capacity: nat)
    requires Refines(entries, order, history, capacity)
    ensures Synced(entries.Keys, order) && entries.Keys == SetOf(LastN(Recency(KeysOf(history)), capacity))
  {}

  lemma EvictionCosts<K(!new), V>(history: seq<(K, V)>, n: nat, before: set<K>, after: set<K>, capacity: nat)
    requires n < |history|
    requires before == SetOf(LastN(Recency(KeysOf(history[..n])), capacity))
    requires after == SetOf(LastN(Recency(KeysOf(history[..n + 1])), capacity))
    requires after <= before + {history[n].0}
    ensures Costs(KeysOf(history), n, capacity) <==> after != before + {history[n].0}
  {
    hide Recency, LastN;
    var keys := KeysOf(history);
    assert KeysOf(history[..n]) == keys[..n] && KeysOf(history[..n + 1]) == keys[..n + 1];
    if after != before + {history[n].0} {
      var k :| k in before + {history[n].0} && k !in after;
      assert k in LastN(Recency(keys[..n]), capacity) || k == keys[n];
      assert k !in LastN(Recency(keys[..n + 1]), capacity);
    }
    if Costs(keys, n, capacity) {
      var k :| (k in LastN(Recency(keys[..n]), capacity) || k == keys[n]) && k !in LastN(Recency(keys[..n + 1]), capacity);
      assert k in before + {history[n].0} && k !in after;
    }
  }
}

/**
 The routing cache as the source writes it: an LRU list and an index from key to list
 iterator, spliced, erased and evicted in place.  List nodes live in `nodes` under the
 iterator that names them, so an iterator stays valid while its node moves in the list.
 */
module RoutingCache {
  import opened Bytes
  import opened CacheModel

  type Iter = nat

  // The iterators of `lru` spell out `list`, and the index maps exactly its keys, each to its own iterator:
  // list and index are a duplicate-free bijection.
  predicate Linked(lru: seq<Iter>, nodes: map<Iter, Entry>, idx: map<Key, Iter>, list: seq<Entry>) {
    && |lru| == |list|
    && if lru == [] then idx == map[]
       else
         && lru[0] in nodes && nodes[lru[0]] == list[0]
         && list[0].key in idx && idx[list[0].key] == lru[0]
         && Linked(lru[1..], nodes, idx - {list[0].key}, list[1..])
  }

  // list::erase: unlink one node.
  function Unlink(lru: seq<Iter>, i: Iter): seq<Iter> {
    if lru == [] then []
    else if lru[0] == i then lru[1..]
    else [lru[0]] + Unlink(lru[1..], i)
  }

  // An index entry points at the node of its key, and the key is in the list.
  lemma {:induction false} IndexPoints(lru: seq<Iter>, nodes: map<Iter, Entry>, idx: map<Key, Iter>, list: seq<Entry>, k: Key)
    requires Linked(lru, nodes, idx, list)
    ensures k in idx <==> Has(list, k)
    ensures k in idx ==> idx[k] in nodes && nodes[idx[k]].key == k && Find(list, k) == nodes[idx[k]]
  {
    if lru == [] {
      assert !Has(list, k);
    } else if list[0].key == k {
      assert Has(list, k);
    } else {
      IndexPoints(lru[1..], nodes, idx - {list[0].key}, list[1..], k);
      HasTail(list, k);
    }
  }

  lemma {:induction false} MemberIndexed(lru: seq<Iter>, nodes: map<Iter, Entry>, idx: map<Key, Iter>, list: seq<Entry>, i: Iter)
    requires Linked(lru, nodes, idx, list) && i in lru
    ensures i in nodes && nodes[i].key in idx
  {
    if i != lru[0] { MemberIndexed(lru[1..], nodes, idx - {list[0].key}, list[1..], i); }
  }

  // No key and no iterator occurs twice.
  lemma {:induction false} LinkedDistinct(lru: seq<Iter>, nodes: map<Iter, Entry>, idx: map<Key, Iter>, list: seq<Entry>)
    requires Linked(lru, nodes, idx, list)
    ensures Distinct(list) && forall a, b | 0 <= a < b < |lru| :: lru[a] != lru[b]
  {
    if lru != [] {
      var rest := idx - {list[0].key};
      LinkedDistinct(lru[1..], nodes, rest, list[1..]);
      forall b | 0 < b < |lru| ensures lru[0] != lru[b] && list[0].key != list[b].key {
        MemberIndexed(lru[1..], nodes, rest, list[1..], lru[b]);
        assert list[1..][b - 1].key == list[b].key;
        assert Has(list[1..], list[b].key);
        IndexPoints(lru[1..], nodes, rest, list[1..], list[b].key);
      }
    }
  }

  // A node outside the list can be written freely.
  lemma {:induction false} OtherNode(lru: seq<Iter>, nodes: map<Iter, Entry>, idx: map<Key, Iter>, list: seq<Entry>,
                                     i: Iter, e: Entry)
    requires Linked(lru, nodes, idx, list) && i !in lru
    ensures Linked(lru, nodes[i := e], idx, list)
  {
    if lru != [] { OtherNode(lru[1..], nodes, idx - {list[0].key}, list[1..], i, e); }
  }

  lemma {:induction false} IndexSize(lru: seq<Iter>, nodes: map<Iter, Entry>, idx: map<Key, Iter>, list: seq<Entry>)
    requires Linked(lru, nodes, idx, list)
    ensures |idx| == |list|
  {
    if lru != [] {
      var k := list[0].key;
      IndexSize(lru[1..], nodes, idx - {k}, list[1..]);
      assert idx.Keys == (idx - {k}).Keys + {k};
      assert |idx.Keys| == |(idx - {k}).Keys| + 1;
    }
  }

  // Unlinking a key's node and erasing its index entry removes exactly that key.
  lemma {:induction false} EraseLinked(lru: seq<Iter>, nodes: map<Iter, Entry>, idx: map<Key, Iter>, list: seq<Entry>, k: Key)
    requires Linked(lru, nodes, idx, list) && k in idx
    ensures Linked(Unlink(lru, idx[k]), nodes, idx - {k}, Without(list, k))
    ensures |Without(list, k)| == |list| - 1
  {
    var head := list[0].key;
    if head != k {
      IndexPoints(lru, nodes, idx, list, k);
      var rest := idx - {head};
      EraseLinked(lru[1..], nodes, rest, list[1..], k);
      assert idx - {k} - {head} == rest - {k};
      assert Without(list, k)[1..] == Without(list[1..], k);
      assert Unlink(lru, idx[k])[1..] == Unlink(lru[1..], idx[k]);
    }
  }

  lemma FrontLinked(lru: seq<Iter>, nodes: map<Iter, Entry>, idx: map<Key, Iter>, list: seq<Entry>, i: Iter, e: Entry)
    requires Linked(lru, nodes, idx, list) && i !in lru && e.key !in idx
    ensures Linked([i] + lru, nodes[i := e], idx[e.key := i], [e] + list)
  {
    OtherNode(lru, nodes, idx, list, i, e);
    assert idx[e.key := i] - {e.key} == idx;
    assert ([i] + lru)[1..] == lru && ([e] + list)[1..] == list;
  }

  // Writing a node and splicing it to the front.
  lemma RefreshLinked(lru: seq<Iter>, nodes: map<Iter, Entry>, idx: map<Key, Iter>, list: seq<Entry>, e: Entry)
    requires Linked(lru, nodes, idx, list) && e.key in idx
    ensures var i := idx[e.key];
      Linked([i] + Unlink(lru, i), nodes[i := e], idx, [e] + Without(list, e.key)) && |Without(list, e.key)| == |list| - 1
  {
    var k, i := e.key, idx[e.key];
    IndexPoints(lru, nodes, idx, list, k);
    EraseLinked(lru, nodes, idx, list, k);
    if i in Unlink(lru, i) {
      MemberIndexed(Unlink(lru, i), nodes, idx - {k}, Without(list, k), i);
      assert false;
    }
    FrontLinked(Unlink(lru, i), nodes, idx - {k}, Without(list, k), i, e);
    assert (idx - {k})[k := i] == idx;
  }

  lemma {:induction false} PopLinked(lru: seq<Iter>, nodes: map<Iter, Entry>, idx: map<Key, Iter>, list: seq<Entry>)
    requires Linked(lru, nodes, idx, list) && lru != []
    ensures var n := |lru| - 1;
      lru[n] in nodes && nodes[lru[n]].key in idx
      && Linked(lru[..n], nodes, idx - {nodes[lru[n]].key}, list[..n])
  {
    var n := |lru| - 1;
    if n == 0 {
      assert idx - {list[0].key} == map[];
    } else {
      var head := list[0].key;
      PopLinked(lru[1..], nodes, idx - {head}, list[1..]);
      var last := nodes[lru[n]].key;
      assert lru[1..][..n - 1] == lru[..n][1..] && list[1..][..n - 1] == list[..n][1..];
      assert idx - {head} - {last} == idx - {last} - {head};
    }
  }

  // Pushing in front and evicting from the back is a Put of a new key.
  lemma FitIsPut(l: seq<Entry>, e: Entry, capacity: nat)
    requires !Has(l, e.key) && |l| <= capacity
    ensures var n := if |l| + 1 > capacity then capacity else |l| + 1;
      CacheModel.Put(l, e.key, e.nodeId, e.expiresAt, capacity) == ([e] + l)[..n]
  {
    assert ([e] + l)[..|l| + 1] == [e] + l;
  }

  class RoutingCache {
    const capacity: nat
    const ttl: nat
    var lru: seq<Iter>
    var nodes: map<Iter, Entry>
    var idx: map<Key, Iter>
    var nextIter: Iter
    var puts: nat
    var hits: nat
    var misses: nat
    var expirations: nat
    var evictions: nat
    // the entries in list order
    ghost var list: seq<Entry>

    ghost predicate Ready()
      reads this
    {
      Linked(lru, nodes, idx, list) && forall i | i in nodes :: i < nextIter
    }

    ghost predicate Valid()
      reads this
    {
      Ready() && |list| <= capacity
    }

    constructor (cap: nat, t: nat)
      ensures Valid() && list == [] && capacity == cap && ttl == t
      ensures puts == hits == misses == expirations == evictions == 0
    {
      capacity, ttl, lru, nodes, idx, nextIter, list := cap, t, [], map[], map[], 0, [];
      puts, hits, misses, expirations, evictions := 0, 0, 0, 0, 0;
    }

    // Give a node a new value and splice it to the front.
    method Refresh(k: Key, nodeId: NodeId, exp: int)
      requires Ready() && k in idx
      modifies this`lru, this`nodes, this`list
      ensures Ready() && list == [Entry(k, nodeId, exp)] + Without(old(list), k) && |list| == old(|list|)
    {
      var i := idx[k];
      IndexPoints(lru, nodes, idx, list, k);
      RefreshLinked(lru, nodes, idx, list, Entry(k, nodeId, exp));
      nodes := nodes[i := Entry(k, nodeId, exp)];
      lru := [i] + Unlink(lru, i);
      list := [Entry(k, nodeId, exp)] + Without(list, k);
    }

    // Unlink a node and drop it from the index.
    method Erase(k: Key)
      requires Ready() && k in idx
      modifies this`lru, this`idx, this`list
      ensures Ready() && list == Without(old(list), k) && |list| == old(|list|) - 1
    {
      EraseLinked(lru, nodes, idx, list, k);
      lru := Unlink(lru, idx[k]);
      idx := idx - {k};
      list := Without(list, k);
    }

    method PushFront(k: Key, nodeId: NodeId, exp: int)
      requires Ready() && k !in idx
      modifies this`lru, this`nodes, this`idx, this`nextIter, this`list
      ensures Ready() && list == [Entry(k, nodeId, exp)] + old(list)
    {
      var i := nextIter;
      if i in lru {
        MemberIndexed(lru, nodes, idx, list, i);
        assert false;
      }
      FrontLinked(lru, nodes, idx, list, i, Entry(k, nodeId, exp));
      nextIter := i + 1;
      nodes := nodes[i := Entry(k, nodeId, exp)];
      lru := [i] + lru;
      idx := idx[k := i];
      list := [Entry(k, nodeId, exp)] + list;
    }

    // Drop the least recently used node.
    method PopBack()
      requires Ready() && list != []
      modifies this`lru, this`idx, this`list
      ensures Ready() && list == old(list)[..|old(list)| - 1]
    {
      PopLinked(lru, nodes, idx, list);
      var n := |lru| - 1;
      var victim := lru[n];
      idx := idx - {nodes[victim].key};
      lru := lru[..n];
      list := list[..n];
    }

    // Evict until the index fits.
    method EvictToFit()
      requires Ready()
      modifies this`lru, this`idx, this`evictions, this`list
      ensures Valid() && |list| == (if old(|list|) > capacity then capacity else old(|list|))
      ensures list == old(list)[..|list|]
      ensures evictions == old(evictions) + old(|list|) - |list|
    {
      ghost var all := list;
      IndexSize(lru, nodes, idx, list);
      while |idx| > capacity
        invariant Ready() && |idx| == |list| <= |all|
        invariant |list| >= (if |all| > capacity then capacity else |all|)
        invariant list == all[..|list|]
        invariant evictions + |list| == old(evictions) + |all|
        decreases |list|
      {
        PopBack();
        evictions := evictions + 1;
        IndexSize(lru, nodes, idx, list);
      }
    }

    method Put(k: Key, nodeId: NodeId, now: int)
      requires Valid()
      modifies this
      ensures Valid()
      ensures list == CacheModel.Put(old(list), k, nodeId, now + ttl, capacity)
      ensures puts == old(puts) + 1 && hits == old(hits) && misses == old(misses) && expirations == old(expirations)
      ensures evictions == old(evictions) + old(|list|) + (if Has(old(list), k) then 0 else 1) - |list|
    {
      var exp := now + ttl;
      puts := puts + 1;
      IndexPoints(lru, nodes, idx, list, k);
      if k in idx {
        Refresh(k, nodeId, exp);
        return;
      }
      FitIsPut(list, Entry(k, nodeId, exp), capacity);
      PushFront(k, nodeId, exp);
      EvictToFit();
    }

    method Get(k: Key, now: int) returns (r: Option<NodeId>)
      requires Valid()
      modifies this
      ensures Valid()
      ensures (list, r) == CacheModel.Get(old(list), k, now)
      ensures puts == old(puts) && evictions == old(evictions)
      ensures hits == old(hits) + (if r.Some? then 1 else 0) && misses == old(misses) + (if r.Some? then 0 else 1)
      ensures expirations == old(expirations) + old(|list|) - |list|
    {
      IndexPoints(lru, nodes, idx, list, k);
      if k !in idx {
        misses := misses + 1;
        return None;
      }
      var e := nodes[idx[k]];
      if e.expiresAt < now {
        Erase(k);
        expirations := expirations + 1;
        misses := misses + 1;
        return None;
      }
      hits := hits + 1;
      Refresh(k, e.nodeId, e.expiresAt);
      return Some(e.nodeId);
    }

    method Invalidate(k: Key)
      requires Valid()
      modifies this
      ensures Valid() && list == Without(old(list), k)
    {
      IndexPoints(lru, nodes, idx, list, k);
      if k in idx {
        Erase(k);
      } else {
        NothingToRemove(list, k);
      }
    }

    method Clear()
      requires Valid()
      modifies this
      ensures Valid() && list == []
    {
      idx := map[];
      lru := [];
      list := [];
    }
  }

  lemma {:induction false} NothingToRemove(l: seq<Entry>, k: Key)
    requires forall i | 0 <= i < |l| :: l[i].key != k
    ensures Without(l, k) == l
  {
    if l != [] { NothingToRemove(l[1..], k); }
  }
}

/** The in-memory etcd client as the source writes it: fields mutated under one lock. */
module EtcdClient {
  import opened Bytes
  import opened EtcdTypes
  import S = EtcdStore

  class InMemoryEtcdClient {
    var revision: nat
    var kvs: Snapshot
    var leases: map<LeaseId, S.Lease>
    var watchers: map<S.Handle, Key>
    var nextLease: LeaseId
    var nextWatch: S.Handle
    var dispatchQ: seq<S.Queued>
    ghost var base: map<S.Handle, Snapshot>
    ghost var delivered: map<S.Handle, seq<Event>>

    ghost function State(): S.Store
      reads this
    {
      S.Store(revision, kvs, leases, watchers, nextLease, nextWatch, dispatchQ, base, delivered)
    }

    constructor ()
      ensures State() == S.INIT && S.Inv(State())
    {
      revision, kvs, leases, watchers, nextLease, nextWatch, dispatchQ := 0, map[], map[], map[], 1, 1, [];
      base, delivered := map[], map[];
    }

    method NotifyLocked(ev: Event, order: seq<S.Handle>)
      requires Lists(order, watchers.Keys)
      modifies this`dispatchQ
      ensures State() == S.Notify(old(State()), ev, order)
    {
      for i := 0 to |order|
        invariant dispatchQ == old(dispatchQ) + S.Fan(watchers, ev, order[..i])
      {
        FanSnoc(watchers, ev, order[..i], order[i]);
        assert order[..i + 1] == order[..i] + [order[i]];
        if watchers[order[i]] <= ev.kv.key {
          dispatchQ := dispatchQ + [S.Queued(order[i], ev)];
        }
      }
      assert order[..|order|] == order;
    }

    method Put(key: Key, value: seq<byte>, lease: LeaseId) returns (ok: bool, rev: nat, ghost order: seq<S.Handle>)
      modifies this
      ensures Lists(order, old(watchers).Keys)
      ensures (State(), ok) == S.Put(old(State()), key, value, lease, order)
      ensures ok ==> rev == revision && key in kvs && kvs[key].modRevision == rev
    {
      var o := IterationOrder(watchers.Keys);
      order := o;
      if lease != NO_LEASE && lease !in leases { return false, 0, order; }
      revision := revision + 1;
      var hadPrev := key in kvs;
      var prev := if hadPrev then kvs[key] else NO_KV;
      var cur := KeyValue(key, value, revision, if hadPrev then prev.createRevision else revision, lease);
      kvs := kvs[key := cur];
      NotifyLocked(PutEvent(cur, prev), o);
      return true, revision, order;
    }

    method Get(key: Key) returns (kv: Option<KeyValue>)
      ensures kv == if key in kvs then Some(kvs[key]) else None
    {
      if key in kvs { return Some(kvs[key]); }
      return None;
    }

    method Delete(key: Key) returns (ok: bool, ghost order: seq<S.Handle>)
      modifies this
      ensures Lists(order, old(watchers).Keys)
      ensures (State(), ok) == S.Delete(old(State()), key, order)
    {
      var o := IterationOrder(watchers.Keys);
      order := o;
      if key !in kvs { return false, order; }
      NotifyLocked(DeleteEvent(kvs[key], kvs[key]), o);
      kvs := kvs - {key};
      revision := revision + 1;
      return true, order;
    }

    method PutIfRevision(key: Key, value: seq<byte>, expected: nat, lease: LeaseId)
      returns (ok: bool, rev: nat, ghost order: seq<S.Handle>)
      modifies this
      ensures Lists(order, old(watchers).Keys)
      ensures (State(), ok) == S.PutIfRevision(old(State()), key, value, expected, lease, order)
      ensures ok ==> rev == revision
    {
      var o := IterationOrder(watchers.Keys);
      order := o;
      var present := key in kvs;
      var actual := if present then kvs[key].modRevision else 0;
      if actual != expected { return false, 0, order; }
      if lease != NO_LEASE && lease !in leases { return false, 0, order; }
      revision := revision + 1;
      var prev := if present then kvs[key] else NO_KV;
      var cur := KeyValue(key, value, revision, if present then prev.createRevision else revision, lease);
      kvs := kvs[key := cur];
      NotifyLocked(PutEvent(cur, prev), o);
      return true, revision, order;
    }

    method LeaseGrant(ttl: nat, now: nat) returns (id: LeaseId)
      modifies this
      ensures (State(), id) == S.LeaseGrant(old(State()), ttl, now)
    {
      id := nextLease;
      nextLease := nextLease + 1;
      leases := leases[id := S.Lease(ttl, now + ttl)];
    }

    method LeaseKeepAlive(id: LeaseId, now: nat) returns (ok: bool)
      modifies this
      ensures (State(), ok) == S.LeaseKeepAlive(old(State()), id, now)
    {
      if id !in leases { return false; }
      leases := leases[id := leases[id].(deadline := now + leases[id].ttl)];
      return true;
    }

    method DropLocked(k: Key, order: seq<S.Handle>)
      requires k in kvs && Lists(order, watchers.Keys)
      modifies this`dispatchQ, this`kvs
      ensures State() == S.Drop(old(State()), k, order)
    {
      NotifyLocked(DeleteEvent(kvs[k], kvs[k]), order);
      kvs := kvs - {k};
    }

    // Walks all keys and drops those bound to the lease.
    method ExpireLeaseLocked(lease: LeaseId, order: seq<S.Handle>) returns (ghost keys: seq<Key>)
      requires Lists(order, watchers.Keys)
      modifies this
      ensures Lists(keys, S.Bound(old(State()), lease))
      ensures State() == S.EndLease(old(State()), lease, keys, order)
    {
      var walk := IterationOrder(kvs.Keys);
      ghost var s0 := State();
      keys := [];
      for i := 0 to |walk|
        invariant State() == S.DropAll(s0, keys, order) && watchers == old(watchers)
        invariant Walked(s0.kvs, kvs, keys, walk[..i], lease)
      {
        var k := walk[i];
        WalkOn(s0.kvs, kvs, keys, walk, i, lease);
        if kvs[k].lease == lease {
          DropAllSnoc(s0, keys, k, order);
          DropLocked(k, order);
          keys := keys + [k];
        }
      }
      assert walk[..|walk|] == walk;
      WalkedAll(s0, kvs, keys, walk, lease);
      leases := leases - {lease};
    }

    method LeaseRevoke(id: LeaseId) returns (ok: bool, ghost keys: seq<Key>, ghost order: seq<S.Handle>)
      modifies this
      ensures Lists(order, old(watchers).Keys) && Lists(keys, S.Bound(old(State()), id))
      ensures ok <==> id in old(leases)
      ensures State() == if ok then S.EndLease(old(State()), id, keys, order) else old(State())
    {
      var o := IterationOrder(watchers.Keys);
      order := o;
      if id !in leases {
        ghost var bound := S.Bound(State(), id);
        keys := SomeListing(bound);
        return false, keys, order;
      }
      keys := ExpireLeaseLocked(id, o);
      return true, keys, order;
    }

    // One pass of the sweeper: exactly the leases past their deadline end, with exactly their keys.
    method SweepOnce(now: nat)
      requires S.Inv(State())
      modifies this
      ensures S.Inv(State()) && watchers == old(watchers) && revision == old(revision)
      ensures leases == LiveLeases(old(leases), now) && kvs == LiveKeys(old(kvs), old(leases), now)
      ensures forall id | id in old(leases) :: id in leases <==> now < old(leases)[id].deadline
      ensures forall k | k in old(kvs) :: k in kvs <==> old(kvs)[k].lease == NO_LEASE || old(kvs)[k].lease in leases
    {
      var o := IterationOrder(watchers.Keys);
      var expired := IterationOrder(set id | id in leases && leases[id].deadline <= now);
      ghost var s0 := State();
      for i := 0 to |expired|
        invariant S.Inv(State()) && watchers == s0.watchers && revision == s0.revision
        invariant leases == WithoutLeases(s0.leases, expired[..i]) && kvs == WithoutBound(s0.kvs, expired[..i])
      {
        assert expired[i] in expired && expired[i] !in expired[..i];
        EndOne(expired[i], o);
        assert expired[..i + 1] == expired[..i] + [expired[i]];
        WithoutOneMore(s0.leases, s0.kvs, expired[..i], expired[i]);
      }
      assert expired[..|expired|] == expired;
      SweptLeases(s0.leases, expired, now);
      SweptKeys(s0.kvs, s0.leases, expired, now);
      assert forall k | k in s0.kvs :: S.KvOk(s0, k);
      assert NO_LEASE !in s0.leases;
    }

    // One lease ends with exactly its keys.
    method EndOne(lease: LeaseId, order: seq<S.Handle>)
      requires S.Inv(State()) && Lists(order, watchers.Keys) && lease in leases
      modifies this
      ensures S.Inv(State()) && watchers == old(watchers) && revision == old(revision)
      ensures leases == old(leases) - {lease} && kvs == Unbound(old(kvs), lease)
    {
      ghost var keys := ExpireLeaseLocked(lease, order);
      S.EndLeaseExact(old(State()), lease, keys, order);
    }

    method WatchPrefix(prefix: Key) returns (h: S.Handle)
      modifies this
      ensures (State(), h) == S.WatchPrefix(old(State()), prefix)
    {
      h := nextWatch;
      nextWatch := nextWatch + 1;
      watchers := watchers[h := prefix];
      base, delivered := base[h := Restrict(kvs, prefix)], delivered[h := []];
    }

    method Unwatch(h: S.Handle)
      modifies this
      ensures State() == S.Unwatch(old(State()), h)
    {
      watchers := watchers - {h};
    }

    // One turn of the dispatch loop; the caller invokes the returned callback with the lock released.
    method DispatchOne() returns (item: Option<S.Queued>)
      requires S.Inv(State())
      modifies this
      ensures State() == S.Dispatch(old(State()))
      ensures item == if old(dispatchQ) != [] && old(dispatchQ)[0].handle in watchers
                      then Some(old(dispatchQ)[0]) else None
    {
      if dispatchQ == [] { return None; }
      var front := dispatchQ[0];
      dispatchQ := dispatchQ[1..];
      if front.handle !in watchers { return None; }
      assert S.Mirrors(old(State()), front.handle);
      delivered := delivered[front.handle := delivered[front.handle] + [front.ev]];
      return Some(front);
    }
  }

  // After visiting the keys in `done`: those bound to the lease are dropped and listed in `keys`.
  ghost predicate Walked(before: Snapshot, now: Snapshot, keys: seq<Key>, done: seq<Key>, lease: LeaseId) {
    && (forall k :: k in keys <==> k in done && k in before && before[k].lease == lease)
    && (forall a, b :: 0 <= a < b < |keys| ==> keys[a] != keys[b])
    && now == map k | k in before && k !in keys :: before[k]
  }

  lemma WalkOn(before: Snapshot, now: Snapshot, keys: seq<Key>, walk: seq<Key>, i: nat, lease: LeaseId)
    requires i < |walk| && Lists(walk, before.Keys) && Walked(before, now, keys, walk[..i], lease)
    ensures var k := walk[i];
      && k in now
      && (if now[k].lease == lease then Walked(before, now - {k}, keys + [k], walk[..i + 1], lease)
          else Walked(before, now, keys, walk[..i + 1], lease))
  {
    var k := walk[i];
    assert k in walk && k !in walk[..i];
    assert forall x :: x in walk[..i + 1] <==> x in walk[..i] || x == k;
    assert forall x :: x in keys + [k] <==> x in keys || x == k;
  }

  lemma WalkedAll(s: S.Store, now: Snapshot, keys: seq<Key>, walk: seq<Key>, lease: LeaseId)
    requires Lists(walk, s.kvs.Keys) && Walked(s.kvs, now, keys, walk, lease)
    ensures Lists(keys, S.Bound(s, lease))
  {
  }

  ghost function WithoutLeases(leases: map<LeaseId, S.Lease>, ended: seq<LeaseId>): map<LeaseId, S.Lease> {
    map id | id in leases && id !in ended :: leases[id]
  }

  ghost function WithoutBound(kvs: Snapshot, ended: seq<LeaseId>): Snapshot {
    map k | k in kvs && kvs[k].lease !in ended :: kvs[k]
  }

  function Unbound(kvs: Snapshot, lease: LeaseId): Snapshot {
    map k | k in kvs && kvs[k].lease != lease :: kvs[k]
  }

  lemma WithoutOneMore(leases: map<LeaseId, S.Lease>, kvs: Snapshot, ended: seq<LeaseId>, id: LeaseId)
    ensures WithoutLeases(leases, ended + [id]) == WithoutLeases(leases, ended) - {id}
    ensures WithoutBound(kvs, ended + [id]) == Unbound(WithoutBound(kvs, ended), id)
  {
    assert forall x :: x in ended + [id] <==> x in ended || x == id;
  }

  // What a sweep leaves: the leases before their deadline, and the keys not bound to any other lease.
  function LiveLeases(leases: map<LeaseId, S.Lease>, now: nat): map<LeaseId, S.Lease> {
    map id | id in leases && leases[id].deadline > now :: leases[id]
  }

  function LiveKeys(kvs: Snapshot, leases: map<LeaseId, S.Lease>, now: nat): Snapshot {
    map k | k in kvs && (kvs[k].lease in leases ==> leases[kvs[k].lease].deadline > now) :: kvs[k]
  }

  lemma SweptLeases(leases: map<LeaseId, S.Lease>, expired: seq<LeaseId>, now: nat)
    requires Lists(expired, set id | id in leases && leases[id].deadline <= now)
    ensures WithoutLeases(leases, expired) == LiveLeases(leases, now)
  {
    assert forall id :: id in expired <==> id in leases && leases[id].deadline <= now;
  }

  lemma SweptKeys(kvs: Snapshot, leases: map<LeaseId, S.Lease>, expired: seq<LeaseId>, now: nat)
    requires Lists(expired, set id | id in leases && leases[id].deadline <= now)
    ensures WithoutBound(kvs, expired) == LiveKeys(kvs, leases, now)
  {
    assert forall id :: id in expired <==> id in leases && leases[id].deadline <= now;
  }

  lemma SomeListing<T(!new)>(all: set<T>) returns (order: seq<T>)
    ensures Lists(order, all)
    decreases all
  {
    if all == {} {
      order := [];
    } else {
      var x :| x in all;
      var rest := SomeListing(all - {x});
      order := [x] + rest;
    }
  }

  lemma {:induction false} FanSnoc(watchers: map<S.Handle, Key>, ev: Event, order: seq<S.Handle>, h: S.Handle)
    ensures S.Fan(watchers, ev, order + [h]) == S.Fan(watchers, ev, order) + S.Fan(watchers, ev, [h])
  {
    if order == [] {
      assert order + [h] == [h];
    } else {
      assert (order + [h])[1..] == order[1..] + [h];
      FanSnoc(watchers, ev, order[1..], h);
    }
  }

  lemma {:induction false} DropAllSnoc(s: S.Store, keys: seq<Key>, k: Key, order: seq<S.Handle>)
    ensures var d := S.DropAll(s, keys, order);
      S.DropAll(s, keys + [k], order) == if k in d.kvs then S.Drop(d, k, order) else d
    decreases |keys|
  {
    if keys == [] {
      assert keys + [k] == [k];
      assert [k][1..] == [];
    } else {
      assert (keys + [k])[1..] == keys[1..] + [k];
      DropAllSnoc(if keys[0] in s.kvs then S.Drop(s, keys[0], order) else s, keys[1..], k, order);
    }
  }
}

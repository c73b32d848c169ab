/**
 The in-memory etcd client as a state machine: one action is one critical section of
 its mutex.  Hash-map iteration order is not specified by the source, so actions that
 iterate carry the order they happened to use.

 `base` and `delivered` are history: the prefix snapshot at the moment a watcher was
 registered, and the events its callback has received.
 */
module EtcdStore {
  import opened Bytes
  import opened EtcdTypes

  type Handle = nat

  datatype Lease = Lease(ttl: nat, deadline: nat)

  datatype Queued = Queued(handle: Handle, ev: Event)

  datatype Store = Store(
    revision: nat,
    kvs: Snapshot,
    leases: map<LeaseId, Lease>,
    watchers: map<Handle, Key>,
    nextLease: LeaseId,
    nextWatch: Handle,
    queue: seq<Queued>,
    base: map<Handle, Snapshot>,
    delivered: map<Handle, seq<Event>>)

  const INIT := Store(0, map[], map[], map[], 1, 1, [], map[], map[])

  // ----- Notification ----------------------------------------------------

  // One queued delivery for every listed watcher whose prefix matches.
  function Fan(watchers: map<Handle, Key>, ev: Event, order: seq<Handle>): seq<Queued> {
    if order == [] then []
    else if order[0] in watchers && watchers[order[0]] <= ev.kv.key then
      [Queued(order[0], ev)] + Fan(watchers, ev, order[1..])
    else Fan(watchers, ev, order[1..])
  }

  function Notify(s: Store, ev: Event, order: seq<Handle>): Store {
    s.(queue := s.queue + Fan(s.watchers, ev, order))
  }

  // The events queued for one watcher, in delivery order.
  function For(q: seq<Queued>, h: Handle): seq<Event> {
    if q == [] then []
    else if q[0].handle == h then [q[0].ev] + For(q[1..], h)
    else For(q[1..], h)
  }

  // ----- The operations --------------------------------------------------

  predicate LeaseOk(s: Store, lease: LeaseId) {
    lease == NO_LEASE || lease in s.leases
  }

  function PrevOf(s: Store, key: Key): KeyValue {
    if key in s.kvs then s.kvs[key] else NO_KV
  }

  function Written(s: Store, key: Key, value: seq<byte>, lease: LeaseId): KeyValue {
    KeyValue(key, value, s.revision + 1, if key in s.kvs then s.kvs[key].createRevision else s.revision + 1, lease)
  }

  function Write(s: Store, key: Key, value: seq<byte>, lease: LeaseId, order: seq<Handle>): Store {
    var cur := Written(s, key, value, lease);
    Notify(s.(revision := s.revision + 1, kvs := s.kvs[key := cur]), PutEvent(cur, PrevOf(s, key)), order)
  }

  function Put(s: Store, key: Key, value: seq<byte>, lease: LeaseId, order: seq<Handle>): (Store, bool) {
    if LeaseOk(s, lease) then (Write(s, key, value, lease, order), true) else (s, false)
  }

  function ActualRevision(s: Store, key: Key): nat {
    if key in s.kvs then s.kvs[key].modRevision else 0
  }

  function PutIfRevision(s: Store, key: Key, value: seq<byte>, expected: nat, lease: LeaseId, order: seq<Handle>)
    : (Store, bool)
  {
    if ActualRevision(s, key) != expected || !LeaseOk(s, lease) then (s, false)
    else (Write(s, key, value, lease, order), true)
  }

  // Erase one key and tell its watchers; the revision is the caller's business.
  function Drop(s: Store, key: Key, order: seq<Handle>): Store
    requires key in s.kvs
  {
    Notify(s.(kvs := s.kvs - {key}), DeleteEvent(s.kvs[key], s.kvs[key]), order)
  }

  function Delete(s: Store, key: Key, order: seq<Handle>): (Store, bool) {
    if key !in s.kvs then (s, false)
    else (Drop(s, key, order).(revision := s.revision + 1), true)
  }

  function LeaseGrant(s: Store, ttl: nat, now: nat): (Store, LeaseId) {
    (s.(leases := s.leases[s.nextLease := Lease(ttl, now + ttl)], nextLease := s.nextLease + 1), s.nextLease)
  }

  function LeaseKeepAlive(s: Store, id: LeaseId, now: nat): (Store, bool) {
    if id !in s.leases then (s, false)
    else (s.(leases := s.leases[id := s.leases[id].(deadline := now + s.leases[id].ttl)]), true)
  }

  function Bound(s: Store, lease: LeaseId): set<Key> {
    set k | k in s.kvs && s.kvs[k].lease == lease
  }

  function DropAll(s: Store, keys: seq<Key>, order: seq<Handle>): Store
    decreases |keys|
  {
    if keys == [] then s
    else DropAll(if keys[0] in s.kvs then Drop(s, keys[0], order) else s, keys[1..], order)
  }

  // The end of a lease, by revocation or expiry; `keys` lists the keys bound to it.
  function EndLease(s: Store, lease: LeaseId, keys: seq<Key>, order: seq<Handle>): Store {
    var r := DropAll(s, keys, order);
    r.(leases := r.leases - {lease})
  }

  function WatchPrefix(s: Store, prefix: Key): (Store, Handle) {
    (s.(watchers := s.watchers[s.nextWatch := prefix], nextWatch := s.nextWatch + 1,
        base := s.base[s.nextWatch := Restrict(s.kvs, prefix)], delivered := s.delivered[s.nextWatch := []]),
     s.nextWatch)
  }

  function Unwatch(s: Store, h: Handle): Store {
    s.(watchers := s.watchers - {h})
  }

  // The dispatcher takes one event; a watcher removed since then does not get it.
  function Dispatch(s: Store): Store {
    if s.queue == [] then s
    else
      var item := s.queue[0];
      var r := s.(queue := s.queue[1..]);
      if item.handle in s.watchers && item.handle in s.delivered then
        r.(delivered := s.delivered[item.handle := s.delivered[item.handle] + [item.ev]])
      else r
  }

  datatype Action =
    | DoPut(key: Key, value: seq<byte>, lease: LeaseId, order: seq<Handle>)
    | DoPutIf(key: Key, value: seq<byte>, expected: nat, lease: LeaseId, order: seq<Handle>)
    | DoDelete(key: Key, order: seq<Handle>)
    | DoGrant(ttl: nat, now: nat)
    | DoKeepAlive(id: LeaseId, now: nat)
    | DoRevoke(id: LeaseId, keys: seq<Key>, order: seq<Handle>)
    | DoExpire(id: LeaseId, now: nat, keys: seq<Key>, order: seq<Handle>)
    | DoWatch(prefix: Key)
    | DoUnwatch(h: Handle)
    | DoDispatch

  // The orders an action carries are real enumerations of the maps they iterate.
  ghost predicate Genuine(s: Store, a: Action) {
    && ((a.DoPut? || a.DoPutIf? || a.DoDelete? || a.DoRevoke? || a.DoExpire?) ==> Lists(a.order, s.watchers.Keys))
    && ((a.DoRevoke? || a.DoExpire?) ==> Lists(a.keys, Bound(s, a.id)))
  }

  ghost function Act(s: Store, a: Action): Store {
    if !Genuine(s, a) then s
    else match a
      case DoPut(key, value, lease, order) => Put(s, key, value, lease, order).0
      case DoPutIf(key, value, expected, lease, order) => PutIfRevision(s, key, value, expected, lease, order).0
      case DoDelete(key, order) => Delete(s, key, order).0
      case DoGrant(ttl, now) => LeaseGrant(s, ttl, now).0
      case DoKeepAlive(id, now) => LeaseKeepAlive(s, id, now).0
      case DoRevoke(id, keys, order) => if id in s.leases then EndLease(s, id, keys, order) else s
      case DoExpire(id, now, keys, order) =>
        if id in s.leases && s.leases[id].deadline <= now then EndLease(s, id, keys, order) else s
      case DoWatch(prefix) => WatchPrefix(s, prefix).0
      case DoUnwatch(h) => Unwatch(s, h)
      case DoDispatch => Dispatch(s)
  }

  ghost function Exec(s: Store, schedule: seq<Action>): Store
    decreases |schedule|
  {
    if schedule == [] then s else Exec(Act(s, schedule[0]), schedule[1..])
  }

  // ----- The invariant ---------------------------------------------------

  // What a watcher has been told and is about to be told adds up to the store under its prefix.
  ghost predicate Mirrors(s: Store, h: Handle) {
    && h in s.watchers && h in s.base && h in s.delivered
    && Replay(s.base[h], s.delivered[h] + For(s.queue, h)) == Restrict(s.kvs, s.watchers[h])
  }

  ghost predicate WatchOk(s: Store) {
    && (forall h | h in s.watchers :: h < s.nextWatch && Mirrors(s, h))
    && (forall i | 0 <= i < |s.queue| :: s.queue[i].handle < s.nextWatch)
  }

  ghost predicate KvOk(s: Store, k: Key)
    requires k in s.kvs
  {
    var kv := s.kvs[k];
    kv.key == k && 0 < kv.createRevision <= kv.modRevision <= s.revision && LeaseOk(s, kv.lease)
  }

  ghost predicate DataOk(s: Store) {
    && (forall k | k in s.kvs :: KvOk(s, k))
    && 0 < s.nextLease && (forall id | id in s.leases :: 0 < id < s.nextLease)
  }

  ghost predicate Inv(s: Store) {
    WatchOk(s) && DataOk(s)
  }

  // ----- Lemmas about queues and notification ----------------------------

  lemma {:induction false} ForConcat(a: seq<Queued>, b: seq<Queued>, h: Handle)
    ensures For(a + b, h) == For(a, h) + For(b, h)
  {
    if a == [] {
      assert a + b == b;
    } else {
      assert (a + b)[1..] == a[1..] + b;
      ForConcat(a[1..], b, h);
    }
  }

  lemma {:induction false} FanHandles(watchers: map<Handle, Key>, ev: Event, order: seq<Handle>)
    ensures forall i | 0 <= i < |Fan(watchers, ev, order)| :: Fan(watchers, ev, order)[i].handle in watchers
  {
    if order != [] { FanHandles(watchers, ev, order[1..]); }
  }

  // A listed, matching watcher gets the event exactly once; everyone else not at all.
  lemma {:induction false} FanFor(watchers: map<Handle, Key>, ev: Event, order: seq<Handle>, h: Handle)
    requires forall i, j :: 0 <= i < j < |order| ==> order[i] != order[j]
    ensures For(Fan(watchers, ev, order), h) ==
      if h in order && h in watchers && watchers[h] <= ev.kv.key then [ev] else []
  {
    if order != [] {
      var rest := order[1..];
      FanFor(watchers, ev, rest, h);
      assert h in order <==> h == order[0] || h in rest;
      if order[0] in watchers && watchers[order[0]] <= ev.kv.key {
        ForConcat([Queued(order[0], ev)], Fan(watchers, ev, rest), h);
        assert For([Queued(order[0], ev)], h) == if h == order[0] then [ev] else [];
      }
    }
  }

  // Applying an event commutes with looking at one prefix only.
  lemma ApplyRestrict(kvs: Snapshot, ev: Event, prefix: Key)
    ensures Restrict(Apply(kvs, ev), prefix)
      == if prefix <= ev.kv.key then Apply(Restrict(kvs, prefix), ev) else Restrict(kvs, prefix)
  {
  }

  lemma ReplayOneMore(base: Snapshot, before: seq<Event>, ev: Event)
    ensures Replay(base, before + [ev]) == Apply(Replay(base, before), ev)
  {
    var m := Replay(base, before);
    ReplayConcat(base, before, [ev]);
    assert Replay(m, [ev]) == Replay(Apply(m, ev), []);
  }

  // Changing one key and notifying keeps every mirror exact.
  lemma NotifyMirrors(s: Store, kvs: Snapshot, ev: Event, order: seq<Handle>, h: Handle)
    requires Mirrors(s, h) && Lists(order, s.watchers.Keys)
    requires kvs == Apply(s.kvs, ev)
    ensures Mirrors(Notify(s.(kvs := kvs), ev, order), h)
  {
    var fan := Fan(s.watchers, ev, order);
    var before := s.delivered[h] + For(s.queue, h);
    FanFor(s.watchers, ev, order, h);
    ForConcat(s.queue, fan, h);
    ApplyRestrict(s.kvs, ev, s.watchers[h]);
    ReplayOneMore(s.base[h], before, ev);
    assert s.delivered[h] + For(s.queue + fan, h) == before + For(fan, h);
    assert before + [] == before;
  }

  lemma NotifyWatchOk(s: Store, kvs: Snapshot, ev: Event, order: seq<Handle>)
    requires WatchOk(s) && Lists(order, s.watchers.Keys) && kvs == Apply(s.kvs, ev)
    ensures WatchOk(Notify(s.(kvs := kvs), ev, order))
  {
    var r := Notify(s.(kvs := kvs), ev, order);
    FanHandles(s.watchers, ev, order);
    forall h | h in r.watchers ensures Mirrors(r, h) {
      NotifyMirrors(s, kvs, ev, order, h);
    }
  }

  // ----- Every action keeps the invariant --------------------------------

  lemma WriteKeeps(s: Store, key: Key, value: seq<byte>, lease: LeaseId, order: seq<Handle>)
    requires Inv(s) && Lists(order, s.watchers.Keys) && LeaseOk(s, lease)
    ensures Inv(Write(s, key, value, lease, order))
  {
    var cur := Written(s, key, value, lease);
    var ev := PutEvent(cur, PrevOf(s, key));
    var r := Write(s, key, value, lease, order);
    NotifyWatchOk(s, s.kvs[key := cur], ev, order);
    RevisionIrrelevant(Notify(s.(kvs := s.kvs[key := cur]), ev, order), s.revision + 1);
    forall k | k in r.kvs ensures KvOk(r, k) {
      if k in s.kvs { assert KvOk(s, k); }
    }
  }

  lemma RevisionIrrelevant(s: Store, revision: nat)
    requires WatchOk(s)
    ensures WatchOk(s.(revision := revision))
  {
    var r := s.(revision := revision);
    forall h | h in r.watchers ensures Mirrors(r, h) { assert Mirrors(s, h); }
  }

  lemma DropKeeps(s: Store, key: Key, order: seq<Handle>)
    requires Inv(s) && Lists(order, s.watchers.Keys) && key in s.kvs
    ensures Inv(Drop(s, key, order))
  {
    var r := Drop(s, key, order);
    assert KvOk(s, key);
    NotifyWatchOk(s, s.kvs - {key}, DeleteEvent(s.kvs[key], s.kvs[key]), order);
    forall k | k in r.kvs ensures KvOk(r, k) { assert KvOk(s, k); }
  }

  lemma {:induction false} DropAllKeeps(s: Store, keys: seq<Key>, order: seq<Handle>)
    requires Inv(s) && Lists(order, s.watchers.Keys)
    ensures var r := DropAll(s, keys, order);
      && Inv(r) && r.leases == s.leases && r.watchers == s.watchers && r.revision == s.revision
      && r.nextLease == s.nextLease && r.nextWatch == s.nextWatch
      && r.kvs == map k | k in s.kvs && k !in keys :: s.kvs[k]
    decreases |keys|
  {
    if keys != [] {
      var m := if keys[0] in s.kvs then Drop(s, keys[0], order) else s;
      if keys[0] in s.kvs { DropKeeps(s, keys[0], order); }
      DropAllKeeps(m, keys[1..], order);
      assert forall k :: k in keys <==> k == keys[0] || k in keys[1..];
    }
  }

  // Ending a lease removes exactly its own keys, leaves no key bound to it, and touches no other lease.
  lemma EndLeaseExact(s: Store, lease: LeaseId, keys: seq<Key>, order: seq<Handle>)
    requires Inv(s) && Lists(order, s.watchers.Keys) && Lists(keys, Bound(s, lease)) && lease in s.leases
    ensures var r := EndLease(s, lease, keys, order);
      && Inv(r)
      && r.kvs == (map k | k in s.kvs && s.kvs[k].lease != lease :: s.kvs[k])
      && r.leases == s.leases - {lease} && r.revision == s.revision && r.watchers == s.watchers
  {
    var d := DropAll(s, keys, order);
    var r := EndLease(s, lease, keys, order);
    DropAllKeeps(s, keys, order);
    assert forall k | k in s.kvs :: k in keys <==> s.kvs[k].lease == lease;
    forall k | k in r.kvs ensures KvOk(r, k) { assert KvOk(d, k); }
    forall h | h in r.watchers ensures Mirrors(r, h) { assert Mirrors(d, h); }
  }

  lemma WatchKeeps(s: Store, prefix: Key)
    requires Inv(s)
    ensures Inv(WatchPrefix(s, prefix).0)
  {
    var r := WatchPrefix(s, prefix).0;
    NothingQueuedFor(s.queue, s.nextWatch);
    forall h | h in r.watchers ensures Mirrors(r, h) {
      if h != s.nextWatch { assert Mirrors(s, h); }
    }
    forall k | k in r.kvs ensures KvOk(r, k) { assert KvOk(s, k); }
  }

  lemma {:induction false} NothingQueuedFor(q: seq<Queued>, h: Handle)
    requires forall i | 0 <= i < |q| :: q[i].handle != h
    ensures For(q, h) == []
  {
    if q != [] { NothingQueuedFor(q[1..], h); }
  }

  lemma DispatchKeeps(s: Store)
    requires Inv(s)
    ensures Inv(Dispatch(s))
  {
    var r := Dispatch(s);
    if s.queue != [] {
      var item := s.queue[0];
      forall h | h in r.watchers ensures Mirrors(r, h) {
        assert Mirrors(s, h);
        if h == item.handle {
          assert s.delivered[h] + For(s.queue, h) == r.delivered[h] + For(r.queue, h);
        }
      }
    }
    forall k | k in r.kvs ensures KvOk(r, k) { assert KvOk(s, k); }
  }

  lemma QuietKeeps(s: Store, r: Store)
    requires Inv(s) && r.kvs == s.kvs && r.revision == s.revision && r.queue == s.queue
    requires r.base == s.base && r.delivered == s.delivered && r.nextWatch == s.nextWatch
    requires forall h | h in r.watchers :: h in s.watchers && r.watchers[h] == s.watchers[h]
    requires s.leases.Keys <= r.leases.Keys
    requires 0 < r.nextLease && forall id | id in r.leases :: 0 < id < r.nextLease
    ensures Inv(r)
  {
    forall h | h in r.watchers ensures Mirrors(r, h) { assert Mirrors(s, h); }
    forall k | k in r.kvs ensures KvOk(r, k) { assert KvOk(s, k); }
  }

  lemma ActKeeps(s: Store, a: Action)
    requires Inv(s)
    ensures Inv(Act(s, a))
  {
    if Genuine(s, a) {
      match a
      case DoPut(key, value, lease, order) =>
        if LeaseOk(s, lease) { WriteKeeps(s, key, value, lease, order); }
      case DoPutIf(key, value, expected, lease, order) =>
        if LeaseOk(s, lease) { WriteKeeps(s, key, value, lease, order); }
      case DoDelete(key, order) =>
        if key in s.kvs {
          DropKeeps(s, key, order);
          var d := Drop(s, key, order);
          var r := Act(s, a);
          RevisionIrrelevant(d, s.revision + 1);
          forall k | k in r.kvs ensures KvOk(r, k) { assert KvOk(d, k); }
        }
      case DoGrant(ttl, now) => QuietKeeps(s, Act(s, a));
      case DoKeepAlive(id, now) => QuietKeeps(s, Act(s, a));
      case DoRevoke(id, keys, order) =>
        if id in s.leases { EndLeaseExact(s, id, keys, order); }
      case DoExpire(id, now, keys, order) =>
        if id in s.leases { EndLeaseExact(s, id, keys, order); }
      case DoWatch(prefix) => WatchKeeps(s, prefix);
      case DoUnwatch(h) => QuietKeeps(s, Act(s, a));
      case DoDispatch => DispatchKeeps(s);
    }
  }

  lemma {:induction false} ExecKeeps(s: Store, schedule: seq<Action>)
    requires Inv(s)
    ensures Inv(Exec(s, schedule))
    decreases |schedule|
  {
    if schedule != [] {
      ActKeeps(s, schedule[0]);
      ExecKeeps(Act(s, schedule[0]), schedule[1..]);
    }
  }

  // ----- Theorems over every run -----------------------------------------

  // Replaying what a watcher received and what is still queued for it, onto the snapshot taken
  // when it registered, gives exactly the store under its prefix.
  lemma WatchersMirrorTheStore(schedule: seq<Action>, h: Handle)
    requires h in Exec(INIT, schedule).watchers
    ensures var s := Exec(INIT, schedule);
      && h in s.base && h in s.delivered
      && Replay(s.base[h], s.delivered[h] + For(s.queue, h)) == Restrict(s.kvs, s.watchers[h])
  {
    assert Inv(INIT);
    ExecKeeps(INIT, schedule);
    assert Mirrors(Exec(INIT, schedule), h);
  }

  // Every key bound to a lease is bound to a live one.
  lemma LeasedKeysAreLive(schedule: seq<Action>, k: Key)
    requires k in Exec(INIT, schedule).kvs
    ensures var s := Exec(INIT, schedule); s.kvs[k].lease == NO_LEASE || s.kvs[k].lease in s.leases
  {
    assert Inv(INIT);
    ExecKeeps(INIT, schedule);
    assert KvOk(Exec(INIT, schedule), k);
  }

  // Revision r of key k is in the past: k has been written or removed since.
  ghost predicate Gone(s: Store, k: Key, r: nat) {
    r <= s.revision && ActualRevision(s, k) != r
  }

  lemma TouchedOnlyUp(s: Store, a: Action, k: Key)
    requires Inv(s)
    ensures var t := Act(s, a);
      && s.revision <= t.revision
      && (k in t.kvs ==> (k in s.kvs && t.kvs[k] == s.kvs[k]) || t.kvs[k].modRevision > s.revision)
  {
    if Genuine(s, a) {
      match a
      case DoRevoke(id, keys, order) =>
        if id in s.leases { EndLeaseExact(s, id, keys, order); }
      case DoExpire(id, now, keys, order) =>
        if id in s.leases { EndLeaseExact(s, id, keys, order); }
      case _ =>
    }
  }

  lemma {:induction false} GoneStaysGone(s: Store, schedule: seq<Action>, k: Key, r: nat)
    requires Inv(s) && r > 0 && Gone(s, k, r)
    ensures Gone(Exec(s, schedule), k, r)
    decreases |schedule|
  {
    if schedule != [] {
      TouchedOnlyUp(s, schedule[0], k);
      ActKeeps(s, schedule[0]);
      GoneStaysGone(Act(s, schedule[0]), schedule[1..], k, r);
    }
  }

  lemma {:induction false} ExecSplit(s: Store, schedule: seq<Action>, n: nat)
    requires n <= |schedule|
    ensures Exec(s, schedule) == Exec(Exec(s, schedule[..n]), schedule[n..])
    decreases n
  {
    if n > 0 {
      ExecSplit(Act(s, schedule[0]), schedule[1..], n - 1);
      assert schedule[..n][1..] == schedule[1..][..n - 1];
      assert schedule[n..] == schedule[1..][n - 1..];
    } else {
      assert schedule[0..] == schedule;
    }
  }

  // If the compare of a PutIfRevision(k, r) succeeds, k still holds the very value it had when it
  // received revision r: it was neither written nor deleted at any moment in between.
  lemma {:induction false} CompareMeansUntouched(before: seq<Action>, after: seq<Action>, k: Key, r: nat, n: nat)
    requires r > 0 && n <= |after|
    requires ActualRevision(Exec(INIT, before), k) == r
    requires ActualRevision(Exec(Exec(INIT, before), after), k) == r
    ensures var s := Exec(INIT, before); var t := Exec(s, after[..n]);
      k in t.kvs && t.kvs[k] == s.kvs[k]
    decreases n
  {
    var s := Exec(INIT, before);
    assert Inv(INIT);
    ExecKeeps(INIT, before);
    assert KvOk(s, k);
    if n > 0 {
      CompareMeansUntouched(before, after, k, r, n - 1);
      var u := Exec(s, after[..n - 1]);
      ExecKeeps(s, after[..n - 1]);
      assert KvOk(u, k);
      assert after[..n][..n - 1] == after[..n - 1] && after[..n][n - 1..] == [after[n - 1]];
      ExecSplit(s, after[..n], n - 1);
      var t := Exec(s, after[..n]);
      assert t == Act(u, after[n - 1]) by { assert Exec(u, [after[n - 1]]) == Exec(Act(u, after[n - 1]), []); }
      TouchedOnlyUp(u, after[n - 1], k);
      ActKeeps(u, after[n - 1]);
      if ActualRevision(t, k) != r {
        GoneStaysGone(t, after[n..], k, r);
        ExecSplit(s, after, n);
      }
    }
  }

  // Exactly when the compare-and-swap writes.
  lemma PutIfSucceedsIff(schedule: seq<Action>, key: Key, value: seq<byte>, expected: nat, lease: LeaseId,
                         order: seq<Handle>)
    ensures var s := Exec(INIT, schedule);
      PutIfRevision(s, key, value, expected, lease, order).1 <==>
        && LeaseOk(s, lease)
        && (if expected == 0 then key !in s.kvs else key in s.kvs && s.kvs[key].modRevision == expected)
  {
    assert Inv(INIT);
    ExecKeeps(INIT, schedule);
    var s := Exec(INIT, schedule);
    if key in s.kvs { assert KvOk(s, key); }
  }
}

/** What writes, deletes and watches do to the store and tell its watchers, over every run. */
module EtcdEffects {
  import opened Bytes
  import opened EtcdTypes
  import opened EtcdStore

  // ----- Writes --------------------------------------------------------------

  // A Put or PutIfRevision with these arguments.
  predicate IsWrite(a: Action, key: Key, value: seq<byte>, lease: LeaseId) {
    (a.DoPut? || a.DoPutIf?) && a.key == key && a.value == value && a.lease == lease
  }

  // It goes through: its lease is none or live, and the revision it expects, zero for an absent key, is the key's.
  ghost predicate Writes(s: Store, a: Action, key: Key, value: seq<byte>, lease: LeaseId) {
    && Genuine(s, a) && IsWrite(a, key, value, lease) && (lease == NO_LEASE || lease in s.leases)
    && (a.DoPutIf? ==> if key in s.kvs then a.expected == s.kvs[key].modRevision else a.expected == 0)
  }

  // The entry is what was written: this value under this lease, at this revision, created then or kept.
  ghost predicate Stored(kv: KeyValue, key: Key, value: seq<byte>, lease: LeaseId, revision: nat, kvs: Snapshot) {
    && kv.key == key && kv.value == value && kv.lease == lease && kv.modRevision == revision
    && (if key in kvs then kv.createRevision == kvs[key].createRevision else kv.createRevision == revision)
  }

  // Every key but one has the same entry, or none, in both.
  ghost predicate SameBut(m: Snapshot, n: Snapshot, key: Key) {
    && (forall k | k in m && k != key :: k in n && n[k] == m[k])
    && (forall k | k in n && k != key :: k in m)
  }

  // Exactly the watchers whose prefix the key has get this one event more.
  ghost predicate Told(s: Store, t: Store, key: Key, ev: Event) {
    forall h :: For(t.queue, h) == For(s.queue, h) + if h in s.watchers && s.watchers[h] <= key then [ev] else []
  }

  function Before(s: Store, key: Key): KeyValue {
    if key in s.kvs then s.kvs[key] else NO_KV
  }

  lemma NotifyTells(s: Store, t: Store, ev: Event, order: seq<Handle>)
    requires Lists(order, s.watchers.Keys) && t.queue == s.queue + Fan(s.watchers, ev, order)
    ensures Told(s, t, ev.kv.key, ev)
  {
    forall h ensures For(t.queue, h) == For(s.queue, h) + if h in s.watchers && s.watchers[h] <= ev.kv.key then [ev] else [] {
      FanFor(s.watchers, ev, order, h);
      ForConcat(s.queue, Fan(s.watchers, ev, order), h);
    }
  }

  lemma WriteIs(s: Store, key: Key, value: seq<byte>, lease: LeaseId, order: seq<Handle>)
    ensures var t := Write(s, key, value, lease, order);
      && t.revision == s.revision + 1 && t.leases == s.leases && t.watchers == s.watchers
      && key in t.kvs && Stored(t.kvs[key], key, value, lease, s.revision + 1, s.kvs) && SameBut(s.kvs, t.kvs, key)
      && t.queue == s.queue + Fan(s.watchers, PutEvent(t.kvs[key], Before(s, key)), order)
  {
  }

  lemma WriteData(s: Store, a: Action, key: Key, value: seq<byte>, lease: LeaseId)
    requires Writes(s, a, key, value, lease)
    ensures Act(s, a) == Write(s, key, value, lease, a.order)
  {
  }

  // In every run, a write that goes through stores exactly its arguments at the next revision, changes no other key
  // and no lease, and tells every watcher of the key once, with the entry it replaced; one that does not changes
  // nothing. Put and PutIfRevision report which.
  lemma WriteStoresIff(schedule: seq<Action>, a: Action, key: Key, value: seq<byte>, lease: LeaseId)
    requires IsWrite(a, key, value, lease) && Genuine(Exec(INIT, schedule), a)
    ensures var s := Exec(INIT, schedule); var t := Act(s, a);
      if Writes(s, a, key, value, lease) then
        && t.revision == s.revision + 1 && t.leases == s.leases && t.watchers == s.watchers
        && key in t.kvs && Stored(t.kvs[key], key, value, lease, s.revision + 1, s.kvs) && SameBut(s.kvs, t.kvs, key)
        && Told(s, t, key, PutEvent(t.kvs[key], Before(s, key)))
      else t == s
    ensures var s := Exec(INIT, schedule);
      Writes(s, a, key, value, lease) <==>
        if a.DoPut? then Put(s, key, value, lease, a.order).1
        else PutIfRevision(s, key, value, a.expected, lease, a.order).1
  {
    var s := Exec(INIT, schedule);
    assert Inv(INIT);
    ExecKeeps(INIT, schedule);
    if key in s.kvs { assert KvOk(s, key); }
    if Writes(s, a, key, value, lease) {
      WriteData(s, a, key, value, lease);
      WriteIs(s, key, value, lease, a.order);
      NotifyTells(s, Act(s, a), PutEvent(Act(s, a).kvs[key], Before(s, key)), a.order);
    }
  }

  // ----- Deletes -------------------------------------------------------------

  // In every run, a delete removes exactly its key at the next revision and tells every watcher of it once; a delete
  // of an absent key changes nothing. Delete reports which.
  lemma DeleteRemovesIff(schedule: seq<Action>, key: Key, order: seq<Handle>)
    requires Genuine(Exec(INIT, schedule), DoDelete(key, order))
    ensures var s := Exec(INIT, schedule); var t := Act(s, DoDelete(key, order));
      if key in s.kvs then
        && t.revision == s.revision + 1 && t.leases == s.leases && t.watchers == s.watchers
        && key !in t.kvs && SameBut(s.kvs, t.kvs, key) && Told(s, t, key, DeleteEvent(s.kvs[key], s.kvs[key]))
      else t == s
    ensures Delete(Exec(INIT, schedule), key, order).1 <==> key in Exec(INIT, schedule).kvs
  {
    var s := Exec(INIT, schedule);
    assert Inv(INIT);
    ExecKeeps(INIT, schedule);
    if key in s.kvs {
      assert KvOk(s, key);
      NotifyTells(s, Act(s, DoDelete(key, order)), DeleteEvent(s.kvs[key], s.kvs[key]), order);
    }
  }

  // ----- Watches -------------------------------------------------------------

  // In every run a watch is registered under a handle never used before, for exactly its prefix, with nothing delivered
  // or queued yet; the store and the other watchers stay as they are.
  lemma WatchRegisters(schedule: seq<Action>, prefix: Key)
    ensures var s := Exec(INIT, schedule); var t := Act(s, DoWatch(prefix)); var h := WatchPrefix(s, prefix).1;
      && h !in s.watchers && h in t.watchers && t.watchers[h] == prefix && t.delivered[h] == [] && For(t.queue, h) == []
      && t.base[h] == Restrict(s.kvs, prefix)
      && t.kvs == s.kvs && t.queue == s.queue && t.watchers - {h} == s.watchers
  {
    var s := Exec(INIT, schedule);
    assert Inv(INIT);
    ExecKeeps(INIT, schedule);
    NothingQueuedFor(s.queue, s.nextWatch);
  }

  lemma {:induction false} DropAllQuiet(s: Store, keys: seq<Key>, order: seq<Handle>)
    ensures var r := DropAll(s, keys, order);
      r.watchers == s.watchers && r.delivered == s.delivered && r.nextWatch == s.nextWatch
    decreases |keys|
  {
    if keys != [] { DropAllQuiet(if keys[0] in s.kvs then Drop(s, keys[0], order) else s, keys[1..], order); }
  }

  // The watcher was registered once, is no longer, and has heard `heard`.
  ghost predicate Silent(s: Store, h: Handle, heard: seq<Event>) {
    h < s.nextWatch && h !in s.watchers && h in s.delivered && s.delivered[h] == heard
  }

  lemma SilentStep(s: Store, a: Action, h: Handle, heard: seq<Event>)
    requires Silent(s, h, heard)
    ensures Silent(Act(s, a), h, heard)
  {
    if a.DoRevoke? || a.DoExpire? { DropAllQuiet(s, a.keys, a.order); }
  }

  lemma {:induction false} SilentStays(s: Store, schedule: seq<Action>, h: Handle, heard: seq<Event>)
    requires Silent(s, h, heard)
    ensures Silent(Exec(s, schedule), h, heard)
    decreases |schedule|
  {
    if schedule != [] {
      SilentStep(s, schedule[0], h, heard);
      SilentStays(Act(s, schedule[0]), schedule[1..], h, heard);
    }
  }

  lemma UnwatchIs(s: Store, h: Handle)
    ensures Act(s, DoUnwatch(h)) == s.(watchers := s.watchers - {h})
  {
  }

  // In every run a watcher that is unwatched hears nothing more, not even what is still queued for it, and its handle is
  // never given out again; no other watcher is affected.
  lemma UnwatchedHearsNothing(before: seq<Action>, h: Handle, after: seq<Action>)
    requires h in Exec(INIT, before).watchers
    ensures var s := Exec(INIT, before); var t := Act(s, DoUnwatch(h)); var u := Exec(t, after);
      && t.watchers == s.watchers - {h} && t.kvs == s.kvs && t.queue == s.queue
      && h in s.delivered && h in u.delivered && u.delivered[h] == s.delivered[h] && h !in u.watchers
  {
    var s := Exec(INIT, before);
    assert Inv(INIT);
    ExecKeeps(INIT, before);
    assert Mirrors(s, h);
    UnwatchIs(s, h);
    SilentStays(Act(s, DoUnwatch(h)), after, h, s.delivered[h]);
  }
}

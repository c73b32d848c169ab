/** How long a lease lives, and what its end removes and announces, over every run of the store. */
module EtcdLeases {
  import opened Bytes
  import opened EtcdTypes
  import opened EtcdStore
  import opened EtcdEffects

  // ----- A key bound to a lease ------------------------------------------------

  // The action writes or deletes the key by name.
  predicate Touches(a: Action, key: Key) {
    (a.DoPut? || a.DoPutIf? || a.DoDelete?) && a.key == key
  }

  // The key has entry `kv` exactly as long as its lease lives, and the lease number is in the past.
  ghost predicate Bounded(s: Store, key: Key, kv: KeyValue) {
    && (key in s.kvs <==> kv.lease in s.leases) && (key in s.kvs ==> s.kvs[key] == kv)
    && 0 < kv.lease < s.nextLease
  }

  lemma BoundedStep(s: Store, a: Action, key: Key, kv: KeyValue)
    requires Inv(s) && Bounded(s, key, kv) && !Touches(a, key)
    ensures Bounded(Act(s, a), key, kv)
  {
    if Genuine(s, a) {
      match a
      case DoRevoke(id, keys, order) =>
        if id in s.leases {
          EndLeaseExact(s, id, keys, order);
          EndKeepsNext(s, id, keys, order);
        }
      case DoExpire(id, now, keys, order) =>
        if id in s.leases {
          EndLeaseExact(s, id, keys, order);
          EndKeepsNext(s, id, keys, order);
        }
      case _ =>
    }
  }

  lemma EndKeepsNext(s: Store, id: LeaseId, keys: seq<Key>, order: seq<Handle>)
    requires Inv(s) && Lists(order, s.watchers.Keys)
    ensures EndLease(s, id, keys, order).nextLease == s.nextLease
  {
    DropAllKeeps(s, keys, order);
  }

  lemma {:induction false} BoundedStays(s: Store, schedule: seq<Action>, key: Key, kv: KeyValue)
    requires Inv(s) && Bounded(s, key, kv) && forall a | a in schedule :: !Touches(a, key)
    ensures Bounded(Exec(s, schedule), key, kv)
    decreases |schedule|
  {
    if schedule != [] {
      BoundedStep(s, schedule[0], key, kv);
      ActKeeps(s, schedule[0]);
      BoundedStays(Act(s, schedule[0]), schedule[1..], key, kv);
    }
  }

  // Over every run: a key written under a lease and not touched since is there, as written, exactly as long as the
  // lease is.
  lemma LeasedKeyLivesIff(before: seq<Action>, a: Action, after: seq<Action>, key: Key, value: seq<byte>, lease: LeaseId)
    requires Writes(Exec(INIT, before), a, key, value, lease) && lease != NO_LEASE
    requires forall x | x in after :: !Touches(x, key)
    ensures var s := Exec(INIT, before); var t := Exec(Act(s, a), after);
      && (key in t.kvs <==> lease in t.leases)
      && (key in t.kvs ==> Stored(t.kvs[key], key, value, lease, s.revision + 1, s.kvs))
  {
    var s := Exec(INIT, before);
    assert Inv(INIT);
    ExecKeeps(INIT, before);
    ActKeeps(s, a);
    WriteStoresIff(before, a, key, value, lease);
    BoundedStays(Act(s, a), after, key, Act(s, a).kvs[key]);
  }

  // ----- The end of a lease ----------------------------------------------------

  // The lease is revoked, or found past its deadline.
  ghost predicate Ends(s: Store, a: Action, lease: LeaseId) {
    Genuine(s, a) && lease in s.leases
    && ((a.DoRevoke? && a.id == lease) || (a.DoExpire? && a.id == lease && s.leases[lease].deadline <= a.now))
  }

  lemma {:induction false} DropAllTells(s: Store, keys: seq<Key>, order: seq<Handle>, key: Key, h: Handle)
    requires Lists(order, s.watchers.Keys) && h in s.watchers && s.watchers[h] <= key && key in s.kvs && key in keys
    requires s.kvs[key].key == key
    ensures DeleteEvent(s.kvs[key], s.kvs[key]) in For(DropAll(s, keys, order).queue, h)
    decreases |keys|
  {
    var m := if keys[0] in s.kvs then Drop(s, keys[0], order) else s;
    if keys[0] == key {
      var ev := DeleteEvent(s.kvs[key], s.kvs[key]);
      FanFor(s.watchers, ev, order, h);
      ForConcat(s.queue, Fan(s.watchers, ev, order), h);
      assert ev in For(m.queue, h);
      DropAllAdds(m, keys[1..], order, h);
    } else {
      DropAllTells(m, keys[1..], order, key, h);
    }
  }

  lemma {:induction false} DropAllAdds(s: Store, keys: seq<Key>, order: seq<Handle>, h: Handle)
    ensures For(s.queue, h) <= For(DropAll(s, keys, order).queue, h)
    decreases |keys|
  {
    if keys != [] {
      var m := if keys[0] in s.kvs then Drop(s, keys[0], order) else s;
      if keys[0] in s.kvs {
        ForConcat(s.queue, Fan(s.watchers, DeleteEvent(s.kvs[keys[0]], s.kvs[keys[0]]), order), h);
      }
      DropAllAdds(m, keys[1..], order, h);
    }
  }

  // Over every run: a key written under a lease and not touched since is gone once the lease ends, and every watcher
  // of it then has a Delete of that very entry queued.
  lemma LeaseEndRemoves(before: seq<Action>, a: Action, after: seq<Action>, end: Action, key: Key, value: seq<byte>,
                        lease: LeaseId, h: Handle)
    requires Writes(Exec(INIT, before), a, key, value, lease) && lease != NO_LEASE
    requires forall x | x in after :: !Touches(x, key)
    requires Ends(Exec(Act(Exec(INIT, before), a), after), end, lease)
    ensures var s := Exec(INIT, before); var t := Exec(Act(s, a), after); var u := Act(t, end);
      && key in t.kvs && key !in u.kvs && lease !in u.leases
      && (h in t.watchers && t.watchers[h] <= key ==> DeleteEvent(t.kvs[key], t.kvs[key]) in For(u.queue, h))
  {
    var s := Exec(INIT, before);
    var t := Exec(Act(s, a), after);
    LeasedKeyLivesIff(before, a, after, key, value, lease);
    assert Inv(INIT);
    ExecKeeps(INIT, before);
    ActKeeps(s, a);
    ExecKeeps(Act(s, a), after);
    EndRemoves(t, end, key, lease, h);
  }

  lemma EndRemoves(t: Store, end: Action, key: Key, lease: LeaseId, h: Handle)
    requires Inv(t) && Ends(t, end, lease) && key in t.kvs && t.kvs[key].lease == lease
    ensures var u := Act(t, end);
      && key !in u.kvs && lease !in u.leases
      && (h in t.watchers && t.watchers[h] <= key ==> DeleteEvent(t.kvs[key], t.kvs[key]) in For(u.queue, h))
  {
    assert Act(t, end) == EndLease(t, lease, end.keys, end.order);
    EndLeaseExact(t, lease, end.keys, end.order);
    assert key in Bound(t, lease) && KvOk(t, key);
    if h in t.watchers && t.watchers[h] <= key { DropAllTells(t, end.keys, end.order, key, h); }
  }

  // ----- Deadlines -------------------------------------------------------------

  // The action is about this lease and could move its deadline or end it before `deadline`.
  predicate Early(a: Action, lease: LeaseId, deadline: int) {
    (a.DoKeepAlive? && a.id == lease) || (a.DoRevoke? && a.id == lease) || (a.DoExpire? && a.id == lease && a.now >= deadline)
  }

  ghost predicate Due(s: Store, lease: LeaseId, deadline: int, ttl: nat) {
    lease in s.leases && s.leases[lease].deadline == deadline && s.leases[lease].ttl == ttl && 0 < lease < s.nextLease
  }

  lemma DueStep(s: Store, a: Action, lease: LeaseId, deadline: int, ttl: nat)
    requires Inv(s) && Due(s, lease, deadline, ttl) && !Early(a, lease, deadline)
    ensures Due(Act(s, a), lease, deadline, ttl)
  {
    if Genuine(s, a) {
      match a
      case DoRevoke(id, keys, order) =>
        if id in s.leases {
          EndLeaseExact(s, id, keys, order);
          EndKeepsNext(s, id, keys, order);
        }
      case DoExpire(id, now, keys, order) =>
        if id in s.leases {
          EndLeaseExact(s, id, keys, order);
          EndKeepsNext(s, id, keys, order);
        }
      case _ =>
    }
  }

  lemma {:induction false} DueStays(s: Store, schedule: seq<Action>, lease: LeaseId, deadline: int, ttl: nat)
    requires Inv(s) && Due(s, lease, deadline, ttl) && forall a | a in schedule :: !Early(a, lease, deadline)
    ensures Due(Exec(s, schedule), lease, deadline, ttl)
    decreases |schedule|
  {
    if schedule != [] {
      DueStep(s, schedule[0], lease, deadline, ttl);
      ActKeeps(s, schedule[0]);
      DueStays(Act(s, schedule[0]), schedule[1..], lease, deadline, ttl);
    }
  }

  // Over every run: a lease granted at `now` is new and survives everything but a revocation and a sweep from
  // now + ttl on, and the first such sweep ends it.
  lemma GrantLivesIff(before: seq<Action>, ttl: nat, now: nat, after: seq<Action>, sweep: nat, keys: seq<Key>, order: seq<Handle>)
    requires var s := Exec(INIT, before); forall a | a in after :: !Early(a, s.nextLease, now + ttl)
    requires var s := Exec(INIT, before); var t := Exec(Act(s, DoGrant(ttl, now)), after);
      Genuine(t, DoExpire(s.nextLease, sweep, keys, order))
    ensures var s := Exec(INIT, before); var t := Exec(Act(s, DoGrant(ttl, now)), after);
      && s.nextLease !in s.leases && s.nextLease != NO_LEASE && s.nextLease in t.leases
      && (s.nextLease in Act(t, DoExpire(s.nextLease, sweep, keys, order)).leases <==> sweep < now + ttl)
  {
    var s := Exec(INIT, before);
    assert Inv(INIT);
    ExecKeeps(INIT, before);
    ActKeeps(s, DoGrant(ttl, now));
    DueStays(Act(s, DoGrant(ttl, now)), after, s.nextLease, now + ttl, ttl);
    ExecKeeps(Act(s, DoGrant(ttl, now)), after);
    SweepEndsIff(Exec(Act(s, DoGrant(ttl, now)), after), s.nextLease, now + ttl, ttl, sweep, keys, order);
  }

  // The same from a keep-alive, with the ttl of the grant.
  lemma KeepAliveLivesIff(before: seq<Action>, lease: LeaseId, now: nat, after: seq<Action>, sweep: nat, keys: seq<Key>,
                          order: seq<Handle>)
    requires var s := Exec(INIT, before); lease in s.leases && forall a | a in after :: !Early(a, lease, now + s.leases[lease].ttl)
    requires var t := Exec(Act(Exec(INIT, before), DoKeepAlive(lease, now)), after);
      Genuine(t, DoExpire(lease, sweep, keys, order))
    ensures var s := Exec(INIT, before); var t := Exec(Act(s, DoKeepAlive(lease, now)), after);
      && lease in t.leases && t.leases[lease].ttl == s.leases[lease].ttl
      && (lease in Act(t, DoExpire(lease, sweep, keys, order)).leases <==> sweep < now + s.leases[lease].ttl)
  {
    var s := Exec(INIT, before);
    var ttl := s.leases[lease].ttl;
    assert Inv(INIT);
    ExecKeeps(INIT, before);
    ActKeeps(s, DoKeepAlive(lease, now));
    DueStays(Act(s, DoKeepAlive(lease, now)), after, lease, now + ttl, ttl);
    ExecKeeps(Act(s, DoKeepAlive(lease, now)), after);
    SweepEndsIff(Exec(Act(s, DoKeepAlive(lease, now)), after), lease, now + ttl, ttl, sweep, keys, order);
  }

  lemma SweepEndsIff(t: Store, lease: LeaseId, deadline: int, ttl: nat, sweep: nat, keys: seq<Key>, order: seq<Handle>)
    requires Inv(t) && Due(t, lease, deadline, ttl) && Genuine(t, DoExpire(lease, sweep, keys, order))
    ensures lease in Act(t, DoExpire(lease, sweep, keys, order)).leases <==> sweep < deadline
  {
    EndLeaseExact(t, lease, keys, order);
  }
}

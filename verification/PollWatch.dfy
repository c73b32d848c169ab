/**
 The polling watcher of the HTTP etcd client: it reads a prefix, compares with what it
 read last time and synthesises Put and Delete events for the differences.
 */
module PollWatch {
  import opened EtcdTypes

  ghost predicate Keyed(m: Snapshot) {
    forall k | k in m :: m[k].key == k
  }

  // A key is reported as put when it is new or its revision moved.
  predicate Changed(last: Snapshot, cur: Snapshot, k: Key) {
    k in cur && (k !in last || last[k].modRevision != cur[k].modRevision)
  }

  function Puts(last: Snapshot, cur: Snapshot, order: seq<Key>): seq<Event> {
    if order == [] then []
    else if Changed(last, cur, order[0]) then
      [PutEvent(cur[order[0]], if order[0] in last then last[order[0]] else NO_KV)] + Puts(last, cur, order[1..])
    else Puts(last, cur, order[1..])
  }

  function Deletes(last: Snapshot, cur: Snapshot, order: seq<Key>): seq<Event> {
    if order == [] then []
    else if order[0] in last && order[0] !in cur then
      [DeleteEvent(last[order[0]], last[order[0]])] + Deletes(last, cur, order[1..])
    else Deletes(last, cur, order[1..])
  }

  // What a subscriber's copy of `last` becomes after one poll that read `cur`.
  ghost function Merged(last: Snapshot, cur: Snapshot): Snapshot {
    map k | k in cur :: if Changed(last, cur, k) then cur[k] else last[k]
  }

  // Equal revisions of a key mean equal values.
  ghost predicate Agree(last: Snapshot, cur: Snapshot) {
    forall k | k in last && k in cur && last[k].modRevision == cur[k].modRevision :: last[k] == cur[k]
  }

  function Overlay(last: Snapshot, cur: Snapshot, order: seq<Key>): Snapshot {
    map k | k in order && Changed(last, cur, k) :: cur[k]
  }

  lemma OverlayStep(m: Snapshot, last: Snapshot, cur: Snapshot, order: seq<Key>)
    requires order != []
    ensures var k, rest := order[0], order[1..];
      m + Overlay(last, cur, order) == (if Changed(last, cur, k) then m[k := cur[k]] else m) + Overlay(last, cur, rest)
  {
    assert forall x :: x in order <==> x == order[0] || x in order[1..];
  }

  lemma {:induction false} ReplayPuts(m: Snapshot, last: Snapshot, cur: Snapshot, order: seq<Key>)
    requires Keyed(cur)
    ensures Replay(m, Puts(last, cur, order)) == m + Overlay(last, cur, order)
    decreases |order|
  {
    if order == [] {
      assert m + Overlay(last, cur, order) == m;
    } else {
      var k, rest := order[0], order[1..];
      ReplayPuts(if Changed(last, cur, k) then m[k := cur[k]] else m, last, cur, rest);
      OverlayStep(m, last, cur, order);
    }
  }

  lemma {:induction false} ReplayDeletes(m: Snapshot, last: Snapshot, cur: Snapshot, order: seq<Key>)
    requires Keyed(last)
    ensures Replay(m, Deletes(last, cur, order)) == m - (set k | k in order && k in last && k !in cur)
    decreases |order|
  {
    if order != [] {
      var k, rest := order[0], order[1..];
      var head := if k in last && k !in cur then m - {k} else m;
      ReplayDeletes(head, last, cur, rest);
      assert forall x :: x in order <==> x == k || x in rest;
    }
  }

  lemma PollReplays(last: Snapshot, cur: Snapshot, puts: seq<Key>, deletes: seq<Key>)
    requires Keyed(last) && Keyed(cur) && Lists(puts, cur.Keys) && Lists(deletes, last.Keys)
    ensures Replay(last, Puts(last, cur, puts) + Deletes(last, cur, deletes)) == Merged(last, cur)
  {
    ReplayConcat(last, Puts(last, cur, puts), Deletes(last, cur, deletes));
    ReplayPuts(last, last, cur, puts);
    ReplayDeletes(Replay(last, Puts(last, cur, puts)), last, cur, deletes);
  }

  lemma MergedIff(last: Snapshot, cur: Snapshot)
    ensures Merged(last, cur) == cur <==> Agree(last, cur)
  {
    if Merged(last, cur) == cur {
      forall k | k in last && k in cur && last[k].modRevision == cur[k].modRevision ensures last[k] == cur[k] {
        assert Merged(last, cur)[k] == last[k];
      }
    }
  }

  // ----- Whole runs of the poller ----------------------------------------

  // One round: a failed read, or what was read with the iteration orders of the two diff loops.
  datatype Poll = Failed | Read(cur: Snapshot, puts: seq<Key>, deletes: seq<Key>)

  ghost predicate Genuine(last: Snapshot, p: Poll) {
    p.Read? ==> Keyed(p.cur) && Lists(p.puts, p.cur.Keys) && Lists(p.deletes, last.Keys)
  }

  function Emitted(last: Snapshot, p: Poll): seq<Event> {
    match p
    case Failed => []
    case Read(cur, puts, deletes) => Puts(last, cur, puts) + Deletes(last, cur, deletes)
  }

  function Next(last: Snapshot, p: Poll): Snapshot {
    match p
    case Failed => last
    case Read(cur, _, _) => cur
  }

  function LastState(seed: Snapshot, polls: seq<Poll>): Snapshot
    decreases |polls|
  {
    if polls == [] then seed else Next(LastState(seed, polls[..|polls| - 1]), polls[|polls| - 1])
  }

  function Events(seed: Snapshot, polls: seq<Poll>): seq<Event>
    decreases |polls|
  {
    if polls == [] then []
    else
      var before := polls[..|polls| - 1];
      Events(seed, before) + Emitted(LastState(seed, before), polls[|polls| - 1])
  }

  ghost predicate GenuineRun(seed: Snapshot, polls: seq<Poll>)
    decreases |polls|
  {
    if polls == [] then Keyed(seed)
    else
      var before := polls[..|polls| - 1];
      GenuineRun(seed, before) && Genuine(LastState(seed, before), polls[|polls| - 1])
  }

  // Every successful read agrees with the one before it.
  ghost predicate AgreeingRun(seed: Snapshot, polls: seq<Poll>)
    decreases |polls|
  {
    if polls == [] then true
    else
      var before, p := polls[..|polls| - 1], polls[|polls| - 1];
      AgreeingRun(seed, before) && (p.Read? ==> Agree(LastState(seed, before), p.cur))
  }

  // After every round so far, the subscriber's copy is the last state that was read.
  ghost predicate MirrorsThroughout(seed: Snapshot, polls: seq<Poll>)
    decreases |polls|
  {
    && (polls != [] ==> MirrorsThroughout(seed, polls[..|polls| - 1]))
    && Replay(seed, Events(seed, polls)) == LastState(seed, polls)
  }

  lemma {:induction false} LastStateKeyed(seed: Snapshot, polls: seq<Poll>)
    requires GenuineRun(seed, polls)
    ensures Keyed(LastState(seed, polls))
    decreases |polls|
  {
    if polls != [] { LastStateKeyed(seed, polls[..|polls| - 1]); }
  }

  lemma RoundReplays(seed: Snapshot, polls: seq<Poll>)
    requires polls != [] && GenuineRun(seed, polls)
    requires var before := polls[..|polls| - 1]; Replay(seed, Events(seed, before)) == LastState(seed, before)
    ensures var n := |polls| - 1; var last := LastState(seed, polls[..n]);
      Replay(seed, Events(seed, polls)) == match polls[n] case Failed => last case Read(cur, _, _) => Merged(last, cur)
  {
    var before, p := polls[..|polls| - 1], polls[|polls| - 1];
    LastStateKeyed(seed, before);
    ReplayConcat(seed, Events(seed, before), Emitted(LastState(seed, before), p));
    if p.Read? { PollReplays(LastState(seed, before), p.cur, p.puts, p.deletes); }
  }

  // For every sequence of rounds, failed ones included: the events rebuild the polled state after
  // every round exactly when every successful read agrees with the one before it on equal revisions.
  lemma {:induction false} PollingMirrorsIff(seed: Snapshot, polls: seq<Poll>)
    requires GenuineRun(seed, polls)
    ensures MirrorsThroughout(seed, polls) <==> AgreeingRun(seed, polls)
    decreases |polls|
  {
    if polls != [] {
      var before, p := polls[..|polls| - 1], polls[|polls| - 1];
      PollingMirrorsIff(seed, before);
      if MirrorsThroughout(seed, before) {
        RoundReplays(seed, polls);
        if p.Read? { MergedIff(LastState(seed, before), p.cur); }
      }
    }
  }

  lemma {:induction false} NoPuts(last: Snapshot, cur: Snapshot, order: seq<Key>)
    ensures Puts(last, cur, order) == [] <==> forall k | k in order :: !Changed(last, cur, k)
  {
    if order != [] {
      NoPuts(last, cur, order[1..]);
      assert forall x :: x in order <==> x == order[0] || x in order[1..];
    }
  }

  lemma {:induction false} NoDeletes(last: Snapshot, cur: Snapshot, order: seq<Key>)
    ensures Deletes(last, cur, order) == [] <==> forall k | k in order && k in last :: k in cur
  {
    if order != [] {
      NoDeletes(last, cur, order[1..]);
      assert forall x :: x in order <==> x == order[0] || x in order[1..];
    }
  }

  // A round is silent exactly when no key appeared, disappeared or changed its revision.
  lemma SilentIff(last: Snapshot, cur: Snapshot, puts: seq<Key>, deletes: seq<Key>)
    requires Lists(puts, cur.Keys) && Lists(deletes, last.Keys)
    ensures Puts(last, cur, puts) + Deletes(last, cur, deletes) == [] <==>
      last.Keys == cur.Keys && forall k | k in cur && k in last :: last[k].modRevision == cur[k].modRevision
  {
    NoPuts(last, cur, puts);
    NoDeletes(last, cur, deletes);
    if Puts(last, cur, puts) == [] && Deletes(last, cur, deletes) == [] {
      assert forall k | k in cur.Keys :: k in puts && !Changed(last, cur, k) && k in last.Keys;
      assert forall k | k in last.Keys :: k in deletes && k in cur.Keys;
    }
    if last.Keys == cur.Keys {
      assert forall k :: k in cur <==> k in last;
    }
  }

  // The key of every event is one that was read, and its own entry and what it replaced are told.
  ghost predicate PutOf(last: Snapshot, cur: Snapshot, k: Key, e: Event) {
    && k in cur && (k !in last || last[k].modRevision != cur[k].modRevision)
    && e == PutEvent(cur[k], if k in last then last[k] else NO_KV)
  }

  ghost predicate DeleteOf(last: Snapshot, cur: Snapshot, k: Key, e: Event) {
    k in last && k !in cur && e == DeleteEvent(last[k], last[k])
  }

  lemma {:induction false} PutsExact(last: Snapshot, cur: Snapshot, order: seq<Key>, e: Event)
    ensures e in Puts(last, cur, order) <==> exists k :: k in order && PutOf(last, cur, k, e)
    ensures |Puts(last, cur, order)| <= |order|
  {
    if order != [] {
      PutsExact(last, cur, order[1..], e);
      assert order == [order[0]] + order[1..];
      assert forall k :: k in order <==> k == order[0] || k in order[1..];
      assert e in Puts(last, cur, order) <==> PutOf(last, cur, order[0], e) || e in Puts(last, cur, order[1..]);
    }
  }

  lemma {:induction false} DeletesExact(last: Snapshot, cur: Snapshot, order: seq<Key>, e: Event)
    ensures e in Deletes(last, cur, order) <==> exists k :: k in order && DeleteOf(last, cur, k, e)
    ensures |Deletes(last, cur, order)| <= |order|
  {
    if order != [] {
      DeletesExact(last, cur, order[1..], e);
      assert order == [order[0]] + order[1..];
      assert forall k :: k in order <==> k == order[0] || k in order[1..];
      assert e in Deletes(last, cur, order) <==> DeleteOf(last, cur, order[0], e) || e in Deletes(last, cur, order[1..]);
    }
  }

  ghost predicate Once(events: seq<Event>) {
    forall i, j | 0 <= i < j < |events| :: events[i].kv.key != events[j].kv.key
  }

  lemma {:induction false} PutsOnce(last: Snapshot, cur: Snapshot, order: seq<Key>)
    requires Keyed(cur) && forall i, j :: 0 <= i < j < |order| ==> order[i] != order[j]
    ensures Once(Puts(last, cur, order))
    decreases |order|
  {
    if order != [] {
      var rest := Puts(last, cur, order[1..]);
      PutsOnce(last, cur, order[1..]);
      forall j | 0 <= j < |rest| ensures rest[j].kv.key != order[0] {
        PutsExact(last, cur, order[1..], rest[j]);
        var k :| k in order[1..] && PutOf(last, cur, k, rest[j]);
        var i :| 0 <= i < |order[1..]| && order[1..][i] == k;
        assert order[i + 1] == k;
      }
    }
  }

  lemma {:induction false} DeletesOnce(last: Snapshot, cur: Snapshot, order: seq<Key>)
    requires Keyed(last) && forall i, j :: 0 <= i < j < |order| ==> order[i] != order[j]
    ensures Once(Deletes(last, cur, order))
    decreases |order|
  {
    if order != [] {
      var rest := Deletes(last, cur, order[1..]);
      DeletesOnce(last, cur, order[1..]);
      forall j | 0 <= j < |rest| ensures rest[j].kv.key != order[0] {
        DeletesExact(last, cur, order[1..], rest[j]);
        var k :| k in order[1..] && DeleteOf(last, cur, k, rest[j]);
        var i :| 0 <= i < |order[1..]| && order[1..][i] == k;
        assert order[i + 1] == k;
      }
    }
  }

  // A round emits exactly one put for each key that is new or has a new revision, with its entry and the one it
  // replaced, and one delete for each key that is gone, with its last entry.
  lemma EventsExact(last: Snapshot, cur: Snapshot, puts: seq<Key>, deletes: seq<Key>, e: Event)
    requires Keyed(last) && Keyed(cur) && Lists(puts, cur.Keys) && Lists(deletes, last.Keys)
    ensures e in Puts(last, cur, puts) + Deletes(last, cur, deletes) <==>
      exists k :: PutOf(last, cur, k, e) || DeleteOf(last, cur, k, e)
    ensures Once(Puts(last, cur, puts)) && Once(Deletes(last, cur, deletes))
  {
    PutsExact(last, cur, puts, e);
    DeletesExact(last, cur, deletes, e);
    if k :| PutOf(last, cur, k, e) { assert k in cur.Keys && k in puts; }
    if k :| DeleteOf(last, cur, k, e) { assert k in last.Keys && k in deletes; }
    PutsOnce(last, cur, puts);
    DeletesOnce(last, cur, deletes);
  }

  // ----- The poller itself -----------------------------------------------

  // Entries by key, a later one replacing an earlier one.
  ghost predicate Indexes(m: Snapshot, kvs: seq<KeyValue>) {
    && Keyed(m) && m.Keys == (set j | 0 <= j < |kvs| :: kvs[j].key)
    && forall a | 0 <= a < |kvs| && (forall j | a < j < |kvs| :: kvs[j].key != kvs[a].key) ::
         kvs[a].key in m && m[kvs[a].key] == kvs[a]
  }

  class PollWatcher {
    var lastState: Snapshot

    // A later entry for the same key replaces an earlier one.
    static method Index(kvs: seq<KeyValue>) returns (m: Snapshot)
      ensures Indexes(m, kvs)
    {
      m := map[];
      for i := 0 to |kvs|
        invariant Keyed(m) && m.Keys == set j | 0 <= j < i :: kvs[j].key
        invariant forall a | 0 <= a < i && (forall j | a < j < i :: kvs[j].key != kvs[a].key) ::
          kvs[a].key in m && m[kvs[a].key] == kvs[a]
      {
        m := m[kvs[i].key := kvs[i]];
      }
    }

    // Registration seeds the watcher with what the first read returned (nothing when it failed).
    constructor (initial: seq<KeyValue>)
      ensures Indexes(lastState, initial)
    {
      var m := Index(initial);
      lastState := m;
    }

    // The first diff loop: keys that are new or have a new revision.
    static method DiffPuts(last: Snapshot, cur: Snapshot) returns (events: seq<Event>, order: seq<Key>)
      ensures Lists(order, cur.Keys) && events == Puts(last, cur, order)
    {
      order := IterationOrder(cur.Keys);
      events := [];
      for i := 0 to |order|
        invariant events == Puts(last, cur, order[..i])
      {
        var k := order[i];
        PutsSnoc(last, cur, order[..i], k);
        assert order[..i + 1] == order[..i] + [k];
        assert k in cur.Keys;
        if k !in last || last[k].modRevision != cur[k].modRevision {
          events := events + [PutEvent(cur[k], if k in last then last[k] else NO_KV)];
        }
      }
      assert order[..|order|] == order;
    }

    // The second diff loop: keys that are gone.
    static method DiffDeletes(last: Snapshot, cur: Snapshot) returns (events: seq<Event>, order: seq<Key>)
      ensures Lists(order, last.Keys) && events == Deletes(last, cur, order)
    {
      order := IterationOrder(last.Keys);
      events := [];
      for i := 0 to |order|
        invariant events == Deletes(last, cur, order[..i])
      {
        var k := order[i];
        DeletesSnoc(last, cur, order[..i], k);
        assert order[..i + 1] == order[..i] + [k];
        assert k in last.Keys;
        if k !in cur {
          events := events + [DeleteEvent(last[k], last[k])];
        }
      }
      assert order[..|order|] == order;
    }

    // One round.  A read that failed returns an error and no entries.
    method PollOnce(failed: bool, cur: seq<KeyValue>) returns (events: seq<Event>, ghost p: Poll)
      requires Keyed(lastState)
      modifies this
      ensures Genuine(old(lastState), p) && (p.Failed? <==> failed && cur == [])
      ensures p.Read? ==> Indexes(p.cur, cur)
      ensures events == Emitted(old(lastState), p) && lastState == Next(old(lastState), p)
    {
      if failed && cur == [] { return [], Failed; }
      var newState := Index(cur);
      var puts, putOrder := DiffPuts(lastState, newState);
      var deletes, deleteOrder := DiffDeletes(lastState, newState);
      lastState := newState;
      return puts + deletes, Read(newState, putOrder, deleteOrder);
    }
  }

  lemma {:induction false} PutsSnoc(last: Snapshot, cur: Snapshot, order: seq<Key>, k: Key)
    ensures Puts(last, cur, order + [k]) == Puts(last, cur, order) + Puts(last, cur, [k])
  {
    if order == [] {
      assert order + [k] == [k];
    } else {
      assert (order + [k])[1..] == order[1..] + [k];
      PutsSnoc(last, cur, order[1..], k);
    }
  }

  lemma {:induction false} DeletesSnoc(last: Snapshot, cur: Snapshot, order: seq<Key>, k: Key)
    ensures Deletes(last, cur, order + [k]) == Deletes(last, cur, order) + Deletes(last, cur, [k])
  {
    if order == [] {
      assert order + [k] == [k];
    } else {
      assert (order + [k])[1..] == order[1..] + [k];
      DeletesSnoc(last, cur, order[1..], k);
    }
  }
}

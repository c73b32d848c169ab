/** Keys, values, revisions and watch events of the etcd surface, and replaying events. */
module EtcdTypes {
  import opened Bytes

  type Key = seq<byte>
  type LeaseId = int

  const NO_LEASE: LeaseId := 0

  datatype KeyValue = KeyValue(key: Key, value: seq<byte>, modRevision: nat, createRevision: nat, lease: LeaseId)

  type Snapshot = map<Key, KeyValue>

  // The empty KeyValue an event carries when a key had no previous value.
  const NO_KV := KeyValue([], [], 0, 0, NO_LEASE)

  datatype Event = PutEvent(kv: KeyValue, prev: KeyValue) | DeleteEvent(kv: KeyValue, prev: KeyValue)

  // What a subscriber that mirrors the store does with one event.
  function Apply(m: Snapshot, e: Event): Snapshot {
    match e
    case PutEvent(kv, _) => m[kv.key := kv]
    case DeleteEvent(kv, _) => m - {kv.key}
  }

  function Replay(m: Snapshot, events: seq<Event>): Snapshot
    decreases |events|
  {
    if events == [] then m else Replay(Apply(m, events[0]), events[1..])
  }

  lemma {:induction false} ReplayConcat(m: Snapshot, a: seq<Event>, b: seq<Event>)
    ensures Replay(m, a + b) == Replay(Replay(m, a), b)
    decreases |a|
  {
    if a == [] {
      assert a + b == b;
    } else {
      assert (a + b)[1..] == a[1..] + b;
      ReplayConcat(Apply(m, a[0]), a[1..], b);
    }
  }

  // The part of a snapshot under a prefix.
  function Restrict(m: Snapshot, prefix: Key): Snapshot {
    map k | k in m && prefix <= k :: m[k]
  }

  // `order` lists every element of `all` exactly once.
  ghost predicate Lists<T(!new)>(order: seq<T>, all: set<T>) {
    && (forall x :: x in order <==> x in all)
    && (forall i, j :: 0 <= i < j < |order| ==> order[i] != order[j])
  }

  // Some enumeration of a set: the iteration order of a hash map.
  method IterationOrder<T(!new, ==)>(all: set<T>) returns (order: seq<T>)
    ensures Lists(order, all)
  {
    order := [];
    var todo := all;
    while todo != {}
      invariant todo <= all && Lists(order, all - todo)
      decreases todo
    {
      var x :| x in todo;
      todo := todo - {x};
      order := order + [x];
    }
  }
}

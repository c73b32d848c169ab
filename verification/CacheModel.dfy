/**
 The routing cache as a list of entries, most recently used first, and its laws over whole runs.

 `reference` is the simple map the cache must agree with: the latest Put of each key since the
 last Invalidate or Clear, with its expiry.  `touched` numbers the last Put or hit of every key,
 and `lapsed` holds the keys whose entry a Get dropped as expired since they were last put.
 */
module CacheModel {
  import opened Bytes

  type NodeId = seq<byte>

  datatype Key = Key(tenantId: seq<byte>, prefix: seq<byte>)

  datatype Entry = Entry(key: Key, nodeId: NodeId, expiresAt: int)

  ghost predicate Distinct(l: seq<Entry>) {
    forall i, j | 0 <= i < j < |l| :: l[i].key != l[j].key
  }

  predicate Has(l: seq<Entry>, k: Key) {
    exists i | 0 <= i < |l| :: l[i].key == k
  }

  // The first entry for k.
  function Find(l: seq<Entry>, k: Key): (e: Entry)
    requires Has(l, k)
    ensures e in l && e.key == k
  {
    if l[0].key == k then l[0]
    else
      assert Has(l[1..], k) by { var i :| 0 <= i < |l| && l[i].key == k; assert l[1..][i - 1].key == k; }
      Find(l[1..], k)
  }

  function Without(l: seq<Entry>, k: Key): seq<Entry> {
    if l == [] then []
    else if l[0].key == k then l[1..]
    else [l[0]] + Without(l[1..], k)
  }

  function Put(l: seq<Entry>, k: Key, nodeId: NodeId, expiresAt: int, capacity: nat): seq<Entry> {
    var e := Entry(k, nodeId, expiresAt);
    if Has(l, k) then [e] + Without(l, k)
    else if |l| < capacity then [e] + l
    else ([e] + l)[..capacity]
  }

  function Get(l: seq<Entry>, k: Key, now: int): (seq<Entry>, Option<NodeId>) {
    if !Has(l, k) then (l, None)
    else if Find(l, k).expiresAt < now then (Without(l, k), None)
    else ([Find(l, k)] + Without(l, k), Some(Find(l, k).nodeId))
  }

  // ----- Removing an entry -----------------------------------------------

  lemma HasTail(l: seq<Entry>, k: Key)
    requires l != [] && l[0].key != k
    ensures Has(l, k) <==> Has(l[1..], k)
  {
    if Has(l, k) { var i :| 0 <= i < |l| && l[i].key == k; assert l[1..][i - 1].key == k; }
    if Has(l[1..], k) { var i :| 0 <= i < |l[1..]| && l[1..][i].key == k; assert l[i + 1].key == k; }
  }

  lemma {:induction false} WithoutKeeps(l: seq<Entry>, k: Key)
    requires Distinct(l)
    ensures forall e :: e in Without(l, k) <==> e in l && e.key != k
    ensures |Without(l, k)| == if Has(l, k) then |l| - 1 else |l|
  {
    if l != [] {
      assert forall e :: e in l <==> e == l[0] || e in l[1..];
      if l[0].key == k {
        assert forall e | e in l[1..] :: e.key != k;
      } else {
        WithoutKeeps(l[1..], k);
        HasTail(l, k);
      }
    }
  }

  lemma {:induction false} WithoutDistinct(l: seq<Entry>, k: Key)
    requires Distinct(l)
    ensures Distinct(Without(l, k))
  {
    if l != [] && l[0].key != k {
      var w := Without(l[1..], k);
      WithoutDistinct(l[1..], k);
      WithoutKeeps(l[1..], k);
      forall i, j | 0 <= i < j < |Without(l, k)| ensures Without(l, k)[i].key != Without(l, k)[j].key {
        if i == 0 { assert w[j - 1] in l[1..]; }
      }
    }
  }

  lemma WithoutHas(l: seq<Entry>, k: Key)
    requires Distinct(l)
    ensures Distinct(Without(l, k)) && !Has(Without(l, k), k)
    ensures forall e :: e in Without(l, k) <==> e in l && e.key != k
    ensures |Without(l, k)| == if Has(l, k) then |l| - 1 else |l|
  {
    WithoutKeeps(l, k);
    WithoutDistinct(l, k);
    assert forall i | 0 <= i < |Without(l, k)| :: Without(l, k)[i] in Without(l, k);
  }

  // ----- Whole runs ------------------------------------------------------

  datatype Cache = Cache(
    capacity: nat,
    list: seq<Entry>,
    clock: nat,
    touched: map<Key, nat>,
    reference: map<Key, Entry>,
    lapsed: set<Key>)

  datatype Op =
    | DoPut(key: Key, nodeId: NodeId, expiresAt: int)
    | DoGet(key: Key, now: int)
    | DoInvalidate(key: Key)
    | DoClear

  function Touch(c: Cache, k: Key): Cache {
    c.(clock := c.clock + 1, touched := c.touched[k := c.clock])
  }

  function Act(c: Cache, op: Op): Cache {
    match op
    case DoPut(k, node, exp) =>
      Touch(c, k).(list := Put(c.list, k, node, exp, c.capacity),
                   reference := c.reference[k := Entry(k, node, exp)], lapsed := c.lapsed - {k})
    case DoGet(k, now) =>
      var (l, r) := Get(c.list, k, now);
      if r.Some? then Touch(c, k).(list := l)
      else c.(list := l, lapsed := if Has(c.list, k) then c.lapsed + {k} else c.lapsed)
    case DoInvalidate(k) => c.(list := Without(c.list, k), reference := c.reference - {k})
    case DoClear => c.(list := [], reference := map[])
  }

  function Exec(c: Cache, ops: seq<Op>): Cache
    decreases |ops|
  {
    if ops == [] then c else Exec(Act(c, ops[0]), ops[1..])
  }

  function Empty(capacity: nat): Cache {
    Cache(capacity, [], 0, map[], map[], {})
  }

  // Keys used more recently than k.
  ghost function Later(c: Cache, k: Key): set<Key>
    requires k in c.touched
  {
    set j | j in c.touched && c.touched[j] > c.touched[k]
  }

  // Most recently used first.
  ghost predicate Ordered(l: seq<Entry>, touched: map<Key, nat>) {
    && (forall i | 0 <= i < |l| :: l[i].key in touched)
    && (forall i, j | 0 <= i < j < |l| :: touched[l[i].key] > touched[l[j].key])
  }

  ghost predicate EntryOk(c: Cache, e: Entry) {
    e.key in c.reference && c.reference[e.key] == e && e.key in c.touched
  }

  // A key that was put and is no longer cached expired, or enough other keys were used since.
  ghost predicate MissingOk(c: Cache, k: Key) {
    k in c.touched && (Has(c.list, k) || k in c.lapsed || |Later(c, k)| >= c.capacity)
  }

  ghost predicate Inv(c: Cache) {
    && Distinct(c.list) && |c.list| <= c.capacity
    && (forall k | k in c.touched :: c.touched[k] < c.clock)
    && (forall e | e in c.list :: EntryOk(c, e))
    && Ordered(c.list, c.touched)
    && (forall k | k in c.reference :: MissingOk(c, k))
  }

  // ----- Every operation keeps the invariant -----------------------------

  lemma {:induction false} WithoutOrdered(l: seq<Entry>, touched: map<Key, nat>, k: Key)
    requires Ordered(l, touched)
    ensures Ordered(Without(l, k), touched)
  {
    if l != [] && l[0].key != k {
      WithoutOrdered(l[1..], touched, k);
      WithoutMembers(l[1..], k);
      var w := Without(l[1..], k);
      forall j | 0 <= j < |w| ensures touched[l[0].key] > touched[w[j].key] {
        assert w[j] in l[1..];
      }
    }
  }

  lemma {:induction false} WithoutMembers(l: seq<Entry>, k: Key)
    ensures forall e | e in Without(l, k) :: e in l
  {
    if l != [] && l[0].key != k { WithoutMembers(l[1..], k); }
  }

  // Touching k moves only k: a list without k keeps its order, and k goes in front of it.
  lemma TouchOrdered(c: Cache, rest: seq<Entry>, e: Entry)
    requires Ordered(rest, c.touched) && !Has(rest, e.key)
    requires forall k | k in c.touched :: c.touched[k] < c.clock
    ensures Ordered([e] + rest, c.touched[e.key := c.clock])
  {
    forall i | 0 <= i < |rest| ensures rest[i].key != e.key {
    }
  }

  // Touching only adds to what is later than another key.
  lemma TouchLater(c: Cache, k: Key, j: Key)
    requires j in c.touched && j != k
    requires forall i | i in c.touched :: c.touched[i] < c.clock
    ensures Later(c, j) <= Later(Touch(c, k), j) && |Later(c, j)| <= |Later(Touch(c, k), j)|
  {
    assert Later(c, j) <= Later(Touch(c, k), j);
    SubsetSize(Later(c, j), Later(Touch(c, k), j));
  }

  lemma SubsetSize<T>(a: set<T>, b: set<T>)
    requires a <= b
    ensures |a| <= |b|
  {
    assert b == a + (b - a);
  }

  ghost function Keys(l: seq<Entry>): set<Key> {
    set i | 0 <= i < |l| :: l[i].key
  }

  lemma {:induction false} KeysSize(l: seq<Entry>)
    requires Distinct(l)
    ensures |Keys(l)| == |l|
  {
    if l != [] {
      var n := |l| - 1;
      KeysSize(l[..n]);
      assert Keys(l) == Keys(l[..n]) + {l[n].key};
      assert l[n].key !in Keys(l[..n]);
    }
  }

  lemma HasWithout(l: seq<Entry>, k: Key, j: Key)
    requires Distinct(l) && j != k
    ensures Has(Without(l, k), j) == Has(l, j)
  {
    WithoutHas(l, k);
    if Has(l, j) {
      var i :| 0 <= i < |l| && l[i].key == j;
      assert l[i] in Without(l, k);
    }
    if Has(Without(l, k), j) {
      var i :| 0 <= i < |Without(l, k)| && Without(l, k)[i].key == j;
      assert Without(l, k)[i] in l;
    }
  }

  lemma PutPresentKeeps(c: Cache, k: Key, node: NodeId, exp: int)
    requires Inv(c) && Has(c.list, k)
    ensures Inv(Act(c, DoPut(k, node, exp)))
  {
    var e, w, r := Entry(k, node, exp), Without(c.list, k), Act(c, DoPut(k, node, exp));
    WithoutHas(c.list, k);
    WithoutOrdered(c.list, c.touched, k);
    TouchOrdered(c, w, e);
    assert r.list == [e] + w;
    forall x | x in r.list ensures EntryOk(r, x) {
      if x != e { assert x in c.list && EntryOk(c, x); }
    }
    forall j | j in r.reference ensures MissingOk(r, j) {
      if j == k {
        assert r.list[0].key == k;
      } else {
        assert MissingOk(c, j);
        HasWithout(c.list, k, j);
        if Has(w, j) { var i :| 0 <= i < |w| && w[i].key == j; assert r.list[i + 1].key == j; }
        TouchLater(c, k, j);
        assert Later(r, j) == Later(Touch(c, k), j);
      }
    }
  }

  lemma PrefixOk(l: seq<Entry>, touched: map<Key, nat>, n: nat)
    requires Distinct(l) && Ordered(l, touched) && n <= |l|
    ensures Distinct(l[..n]) && Ordered(l[..n], touched)
  {
  }

  // After a full cache takes a new key, everything that stays was used after what was evicted.
  lemma EvictedHasLater(c: Cache, k: Key, node: NodeId, exp: int)
    requires Inv(c) && !Has(c.list, k) && |c.list| == c.capacity > 0
    ensures var r := Act(c, DoPut(k, node, exp)); var v := c.list[c.capacity - 1].key;
      v in r.touched && Keys(r.list) <= Later(r, v) && |Keys(r.list)| == c.capacity
  {
    var r, v := Act(c, DoPut(k, node, exp)), c.list[c.capacity - 1].key;
    var keep := c.list[..c.capacity - 1];
    assert r.list == [Entry(k, node, exp)] + keep;
    assert Distinct(r.list);
    KeysSize(r.list);
    forall j | j in Keys(r.list) ensures j in Later(r, v) {
      var i :| 0 <= i < |r.list| && r.list[i].key == j;
      if i > 0 { assert j == c.list[i - 1].key; }
    }
  }

  lemma PutNewKeeps(c: Cache, k: Key, node: NodeId, exp: int)
    requires Inv(c) && !Has(c.list, k)
    ensures Inv(Act(c, DoPut(k, node, exp)))
  {
    var e, r := Entry(k, node, exp), Act(c, DoPut(k, node, exp));
    var full := [e] + c.list;
    TouchOrdered(c, c.list, e);
    assert Distinct(full);
    PrefixOk(full, r.touched, |r.list|);
    assert r.list == full[..|r.list|];
    forall x | x in r.list ensures EntryOk(r, x) {
      if x != e { assert x in c.list && EntryOk(c, x); }
    }
    forall j | j in r.reference ensures MissingOk(r, j) { PutNewMissing(c, k, node, exp, j); }
  }

  lemma PutNewMissing(c: Cache, k: Key, node: NodeId, exp: int, j: Key)
    requires Inv(c) && !Has(c.list, k) && (j == k || j in c.reference)
    ensures MissingOk(Act(c, DoPut(k, node, exp)), j)
  {
    var r := Act(c, DoPut(k, node, exp));
    if j == k {
      if c.capacity > 0 { assert r.list[0].key == k; }
    } else {
      assert MissingOk(c, j);
      TouchLater(c, k, j);
      assert Later(r, j) == Later(Touch(c, k), j);
      if Has(c.list, j) {
        var i :| 0 <= i < |c.list| && c.list[i].key == j;
        if i + 1 < |r.list| {
          assert r.list[i + 1].key == j;
        } else {
          EvictedHasLater(c, k, node, exp);
          SubsetSize(Keys(r.list), Later(r, j));
        }
      }
    }
  }

  // A hit is a Put of the entry that was there.
  lemma HitKeeps(c: Cache, k: Key, now: int)
    requires Inv(c) && Has(c.list, k) && Find(c.list, k).expiresAt >= now
    ensures Inv(Act(c, DoGet(k, now)))
  {
    var e := Find(c.list, k);
    assert EntryOk(c, e);
    PutPresentKeeps(c, k, e.nodeId, e.expiresAt);
    var p, r := Act(c, DoPut(k, e.nodeId, e.expiresAt)), Act(c, DoGet(k, now));
    assert r.list == p.list && r.reference == p.reference && r.touched == p.touched;
    forall j | j in r.reference ensures MissingOk(r, j) {
      assert MissingOk(p, j);
      assert Later(r, j) == Later(p, j);
    }
    forall x | x in r.list ensures EntryOk(r, x) { assert EntryOk(p, x); }
  }

  lemma ExpiredKeeps(c: Cache, k: Key, now: int)
    requires Inv(c) && Has(c.list, k) && Find(c.list, k).expiresAt < now
    ensures Inv(Act(c, DoGet(k, now)))
  {
    var r := Act(c, DoGet(k, now));
    WithoutHas(c.list, k);
    WithoutOrdered(c.list, c.touched, k);
    forall x | x in r.list ensures EntryOk(r, x) { assert EntryOk(c, x); }
    forall j | j in r.reference ensures MissingOk(r, j) {
      assert MissingOk(c, j);
      if j != k { HasWithout(c.list, k, j); }
      assert Later(r, j) == Later(c, j);
    }
  }

  lemma InvalidateKeeps(c: Cache, k: Key)
    requires Inv(c)
    ensures Inv(Act(c, DoInvalidate(k)))
  {
    var r := Act(c, DoInvalidate(k));
    WithoutHas(c.list, k);
    WithoutOrdered(c.list, c.touched, k);
    forall x | x in r.list ensures EntryOk(r, x) {
      assert x in c.list && EntryOk(c, x);
    }
    forall j | j in r.reference ensures MissingOk(r, j) {
      assert MissingOk(c, j);
      HasWithout(c.list, k, j);
      assert Later(r, j) == Later(c, j);
    }
  }

  lemma ActKeeps(c: Cache, op: Op)
    requires Inv(c)
    ensures Inv(Act(c, op))
  {
    match op
    case DoPut(k, node, exp) =>
      if Has(c.list, k) { PutPresentKeeps(c, k, node, exp); } else { PutNewKeeps(c, k, node, exp); }
    case DoGet(k, now) =>
      if Has(c.list, k) {
        if Find(c.list, k).expiresAt < now { ExpiredKeeps(c, k, now); } else { HitKeeps(c, k, now); }
      }
    case DoInvalidate(k) => InvalidateKeeps(c, k);
    case DoClear =>
  }

  lemma {:induction false} ExecKeeps(c: Cache, ops: seq<Op>)
    requires Inv(c)
    ensures Inv(Exec(c, ops)) && Exec(c, ops).capacity == c.capacity
    decreases |ops|
  {
    if ops != [] {
      ActKeeps(c, ops[0]);
      ExecKeeps(Act(c, ops[0]), ops[1..]);
    }
  }

  // ----- Theorems over every run -----------------------------------------

  // The list holds each key once, at most `capacity` of them, most recently used first; every entry is
  // the latest Put of its key since the last Invalidate or Clear.
  lemma CacheIsWellFormed(capacity: nat, ops: seq<Op>)
    ensures var c := Exec(Empty(capacity), ops);
      && Distinct(c.list) && |c.list| <= capacity && Ordered(c.list, c.touched)
      && (forall e | e in c.list :: e.key in c.reference && c.reference[e.key] == e)
  {
    ExecKeeps(Empty(capacity), ops);
    var c := Exec(Empty(capacity), ops);
    forall e | e in c.list ensures e.key in c.reference && c.reference[e.key] == e { assert EntryOk(c, e); }
  }

  // A hit is the latest Put and not expired; a miss is an absent or expired Put, an entry dropped as
  // expired earlier, or a key since whose last use at least `capacity` other keys were used.
  lemma GetAgreesWithReference(capacity: nat, ops: seq<Op>, k: Key, now: int)
    ensures var c := Exec(Empty(capacity), ops); var r := Get(c.list, k, now).1;
      && (r.Some? ==> k in c.reference && c.reference[k].nodeId == r.value && now <= c.reference[k].expiresAt)
      && (r.None? && k in c.reference && now <= c.reference[k].expiresAt ==>
            k in c.touched && (k in c.lapsed || |Later(c, k)| >= capacity))
  {
    ExecKeeps(Empty(capacity), ops);
    var c := Exec(Empty(capacity), ops);
    if Has(c.list, k) { assert EntryOk(c, Find(c.list, k)); }
    if k in c.reference { assert MissingOk(c, k); }
  }

  // A Put drops another key exactly when it is new, the list is full and that key is last.
  lemma PutDropsIff(l: seq<Entry>, k: Key, node: NodeId, exp: int, capacity: nat, j: Key)
    requires Distinct(l) && |l| <= capacity && Has(l, j) && j != k
    ensures !Has(Put(l, k, node, exp, capacity), j) <==> !Has(l, k) && |l| == capacity && l[capacity - 1].key == j
  {
    var r := Put(l, k, node, exp, capacity);
    var i :| 0 <= i < |l| && l[i].key == j;
    if Has(l, k) {
      HasWithout(l, k, j);
      var w := Without(l, k);
      var m :| 0 <= m < |w| && w[m].key == j;
      assert r[m + 1].key == j;
    } else if i + 1 < |r| {
      assert r[i + 1].key == j;
    }
  }

  // A Put evicts exactly when a new key meets a full cache, and then only the least recently used key.
  lemma EvictsLeastRecentlyUsed(capacity: nat, ops: seq<Op>, k: Key, node: NodeId, exp: int, j: Key)
    requires var c := Exec(Empty(capacity), ops); Has(c.list, j) && j != k
    ensures var c := Exec(Empty(capacity), ops); var l := Put(c.list, k, node, exp, capacity);
      !Has(l, j) <==> !Has(c.list, k) && |c.list| == capacity && c.list[capacity - 1].key == j
    ensures var c := Exec(Empty(capacity), ops); var l := Put(c.list, k, node, exp, capacity);
      !Has(l, j) ==> forall e | e in c.list && e.key != j :: e.key in c.touched && j in c.touched
                       && c.touched[j] < c.touched[e.key]
  {
    ExecKeeps(Empty(capacity), ops);
    var c := Exec(Empty(capacity), ops);
    PutDropsIff(c.list, k, node, exp, capacity, j);
    if !Has(Put(c.list, k, node, exp, capacity), j) {
      forall e | e in c.list && e.key != j
        ensures e.key in c.touched && j in c.touched && c.touched[j] < c.touched[e.key]
      {
        var i :| 0 <= i < |c.list| && c.list[i] == e;
        assert i < capacity - 1;
      }
    }
  }
}

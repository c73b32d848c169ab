/**
 When the refresh loop can be trusted to have the current view installed: which published values and which
 failing loads it tolerates. A load that fails, and one that reads a malformed view, keep the nodes of the
 last good one, and nothing asks for another before the next change or the interval.
 */
module ViewFailures {
  import opened Bytes
  import opened EtcdTypes
  import opened ClusterView
  import opened ViewRefresh
  import S = EtcdStore

  // The values that may be published at the view key.
  type Published = seq<byte> -> bool

  predicate Publishes(op: S.Action, key: Key, allowed: Published) {
    (op.DoPut? || op.DoPutIf?) && op.key == key ==> allowed(op.value)
  }

  predicate Respects(a: Action, key: Key, allowed: Published, mayFail: bool) {
    && (a.Store? ==> Publishes(a.a, key, allowed))
    && (a.Load? && a.err ==> mayFail)
  }

  ghost predicate Run(schedule: seq<Action>, key: Key, allowed: Published, mayFail: bool) {
    forall i | 0 <= i < |schedule| :: Respects(schedule[i], key, allowed, mayFail)
  }

  // When nothing is on its way, the resolver routes to exactly the current view's nodes.
  ghost predicate Current(t: Sys, key: Key, json: seq<byte> -> Json) {
    Quiet(t) ==> ParseNodes(Body(View(t.etcd, key)), json) == Some(t.loop.resolver)
  }

  // Every value parses, and if loads may fail every value has no routable node.
  ghost predicate Tame(allowed: Published, mayFail: bool, json: seq<byte> -> Json) {
    forall v: seq<byte> | allowed(v) :: ParseNodes(v, json).Some? && (mayFail ==> ParseNodes(v, json) == Some([]))
  }

  // ----- Tame views are current --------------------------------------------

  lemma {:induction false} DropAllKeepsOnly(e: S.Store, keys: seq<Key>, order: seq<S.Handle>, key: Key)
    ensures var r := S.DropAll(e, keys, order); key in r.kvs ==> key in e.kvs && r.kvs[key] == e.kvs[key]
    decreases |keys|
  {
    if keys != [] {
      DropAllKeepsOnly(if keys[0] in e.kvs then S.Drop(e, keys[0], order) else e, keys[1..], order, key);
    }
  }

  ghost predicate ViewAllowed(view: Option<KeyValue>, allowed: Published) {
    view.Some? ==> allowed(view.value.value)
  }

  lemma StoreAllowed(e: S.Store, op: S.Action, key: Key, allowed: Published)
    requires ViewAllowed(View(e, key), allowed) && Publishes(op, key, allowed)
    ensures ViewAllowed(View(S.Act(e, op), key), allowed)
  {
    if op.DoRevoke? || op.DoExpire? { DropAllKeepsOnly(e, op.keys, op.order, key); }
  }

  // Without failing loads a loop that waits has installed what it saw last; with them it has never installed a node.
  ghost predicate LoopTame<V, B, R>(l: Loop<V, B, R>, mayFail: bool, load: V -> B, none: R) {
    && (l.pc.Applying? ==> if l.pc.body.Some? then l.pc.body.value == load(l.seen) else mayFail)
    && (!mayFail && (l.pc.Waiting? || l.pc.Woken?) ==> l.lastOk)
    && (mayFail ==> l.resolver == none)
  }

  lemma LoopStaysTame<V, B, R>(l: Loop<V, B, R>, a: Action, mayFail: bool, view: V, load: V -> B, parse: B -> Option<R>, none: R)
    requires LoopTame(l, mayFail, load, none) && (a.Load? && a.err ==> mayFail)
    requires parse(load(l.seen)).Some? && (mayFail ==> parse(load(l.seen)) == Some(none))
    ensures LoopTame(LoopStep(l, a, view, load, parse), mayFail, load, none)
  {
  }

  ghost predicate SysTame(s: Sys, key: Key, allowed: Published, mayFail: bool) {
    && ViewAllowed(View(s.etcd, key), allowed) && ViewAllowed(s.loop.seen, allowed)
    && LoopTame(s.loop, mayFail, LoaderOf(), [])
  }

  lemma ActTame(s: Sys, a: Action, key: Key, allowed: Published, mayFail: bool, json: seq<byte> -> Json)
    requires SysTame(s, key, allowed, mayFail) && Respects(a, key, allowed, mayFail) && Tame(allowed, mayFail, json)
    ensures SysTame(Act(s, a, key, json), key, allowed, mayFail)
  {
    if a.Store? {
      StoreAllowed(s.etcd, a.a, key, allowed);
    } else if !a.Dispatch? && !a.Subscribe? && !a.Unsubscribe? {
      assert ParseNodes(Body(s.loop.seen), json).Some? && (mayFail ==> ParseNodes(Body(s.loop.seen), json) == Some([]));
      LoopStaysTame(s.loop, a, mayFail, View(s.etcd, key), LoaderOf(), ParserOf(json), []);
    }
  }

  lemma {:induction false} ExecTame(s: Sys, schedule: seq<Action>, key: Key, allowed: Published, mayFail: bool,
                                    json: seq<byte> -> Json)
    requires SysTame(s, key, allowed, mayFail) && Run(schedule, key, allowed, mayFail) && Tame(allowed, mayFail, json)
    ensures SysTame(Exec(s, schedule, key, json), key, allowed, mayFail)
    decreases |schedule|
  {
    if schedule != [] {
      assert Respects(schedule[0], key, allowed, mayFail);
      ActTame(s, schedule[0], key, allowed, mayFail, json);
      ExecTame(Act(s, schedule[0], key, json), schedule[1..], key, allowed, mayFail, json);
    }
  }

  lemma TameIsCurrent(before: seq<Action>, after: seq<Action>, key: Key, allowed: Published, mayFail: bool,
                      json: seq<byte> -> Json)
    requires Tame(allowed, mayFail, json) && Run(before, key, allowed, mayFail) && Run(after, key, allowed, mayFail)
    requires SafeToSubscribe(Exec(INIT, before, key, json), key) && Unsubscribe !in after
    ensures Current(Exec(Act(Exec(INIT, before, key, json), Subscribe, key, json), after, key, json), key, json)
  {
    var s := Exec(INIT, before, key, json);
    var u := Act(s, Subscribe, key, json);
    assert Inv(INIT, key, json);
    ExecKeeps(INIT, before, key, json);
    ActKeeps(s, Subscribe, key, json);
    SafeMeansCurrent(u, after, key, json);
    ExecTame(INIT, before, key, allowed, mayFail, json);
    ActTame(s, Subscribe, key, allowed, mayFail, json);
    ExecTame(u, after, key, allowed, mayFail, json);
    assert ParseNodes([], json) == Some([]);
  }

  // ----- Others are not ----------------------------------------------------

  // The view is published, the loop starts and its first load succeeds or fails; the agent subscribes only then.
  function FirstLoad(key: Key, value: seq<byte>, err: bool): seq<Action> {
    [Store(S.DoPut(key, value, NO_LEASE, [])), StartLoop, Load(err), Install]
  }

  lemma FirstPut(key: Key, value: seq<byte>)
    ensures var e := S.Act(S.INIT, S.DoPut(key, value, NO_LEASE, []));
      key in e.kvs && e.kvs[key].value == value && e.queue == []
  {
  }

  lemma Then(s: Sys, a: Action, rest: seq<Action>, key: Key, json: seq<byte> -> Json)
    ensures Exec(s, [a] + rest, key, json) == Exec(Act(s, a, key, json), rest, key, json)
  {
    assert ([a] + rest)[1..] == rest;
  }

  // A first load that fails, or reads a malformed view, leaves the resolver empty and the loop waiting.
  lemma LoadKeepsNone(s1: Sys, key: Key, err: bool, json: seq<byte> -> Json)
    requires s1.sub.None? && s1.loop == INIT.loop && (err || ParseNodes(Body(View(s1.etcd, key)), json).None?)
    ensures var s := Exec(s1, [StartLoop, Load(err), Install], key, json); var l := s.loop;
      && s.etcd == s1.etcd && s.sub.None? && l.seen == View(s1.etcd, key)
      && l.pc == Waiting && l.running && l.resolver == [] && !l.flag && !l.inFlight
  {
    var s2 := Act(s1, StartLoop, key, json);
    var s3 := Act(s2, Load(err), key, json);
    Then(s1, StartLoop, [Load(err), Install], key, json);
    Then(s2, Load(err), [Install], key, json);
    Then(s3, Install, [], key, json);
    assert [StartLoop] + [Load(err), Install] == [StartLoop, Load(err), Install];
    assert [Load(err)] + [Install] == [Load(err), Install];
  }

  // The agent subscribes then, misses no event, and everything is quiet.
  lemma FirstLoadKeepsNone(key: Key, value: seq<byte>, err: bool, json: seq<byte> -> Json)
    requires err || ParseNodes(value, json).None?
    ensures var s := Exec(INIT, FirstLoad(key, value, err), key, json);
      var t := Act(s, Subscribe, key, json);
      && s.sub.None? && s.loop.running && SafeToSubscribe(s, key)
      && Quiet(t) && Body(View(t.etcd, key)) == value && t.loop.resolver == []
  {
    var put := Store(S.DoPut(key, value, NO_LEASE, []));
    var s1 := Act(INIT, put, key, json);
    FirstPut(key, value);
    LoadKeepsNone(s1, key, err, json);
    Then(INIT, put, [StartLoop, Load(err), Install], key, json);
    assert FirstLoad(key, value, err) == [put] + [StartLoop, Load(err), Install];
    S.NothingQueuedFor(s1.etcd.queue, s1.etcd.nextWatch);
  }

  lemma UntameBreaks(key: Key, allowed: Published, mayFail: bool, json: seq<byte> -> Json) returns (before: seq<Action>)
    requires !Tame(allowed, mayFail, json)
    ensures Run(before, key, allowed, mayFail) && SafeToSubscribe(Exec(INIT, before, key, json), key)
    ensures !Current(Act(Exec(INIT, before, key, json), Subscribe, key, json), key, json)
  {
    var v: seq<byte> :| allowed(v) && !(ParseNodes(v, json).Some? && (mayFail ==> ParseNodes(v, json) == Some([])));
    var err := ParseNodes(v, json).Some?;
    before := FirstLoad(key, v, err);
    FirstLoadKeepsNone(key, v, err, json);
  }

  // Over all runs: subscribing at a safe moment, every quiet state has exactly the current view's nodes installed, if and
  // only if every value that may be published parses and, where loads may fail, names no routable node.
  lemma RefreshCurrentIff(key: Key, allowed: Published, mayFail: bool, json: seq<byte> -> Json)
    ensures (forall before, after |
               && Run(before, key, allowed, mayFail) && Run(after, key, allowed, mayFail)
               && SafeToSubscribe(Exec(INIT, before, key, json), key) && Unsubscribe !in after ::
               Current(Exec(Act(Exec(INIT, before, key, json), Subscribe, key, json), after, key, json), key, json))
      <==> Tame(allowed, mayFail, json)
  {
    if Tame(allowed, mayFail, json) {
      forall before, after |
        && Run(before, key, allowed, mayFail) && Run(after, key, allowed, mayFail)
        && SafeToSubscribe(Exec(INIT, before, key, json), key) && Unsubscribe !in after
        ensures Current(Exec(Act(Exec(INIT, before, key, json), Subscribe, key, json), after, key, json), key, json)
      {
        TameIsCurrent(before, after, key, allowed, mayFail, json);
      }
    } else {
      var before := UntameBreaks(key, allowed, mayFail, json);
      var u := Act(Exec(INIT, before, key, json), Subscribe, key, json);
      assert Exec(u, [], key, json) == u && Run([], key, allowed, mayFail);
    }
  }
}

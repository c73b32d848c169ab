/**
 Watch-driven refresh of the routing view: the etcd store and its dispatcher, the watch
 subscription on the view key, the refresh flag, the refresh loop and the resolver.

 Each action is one atomic step of one of those threads.  `dirty`, `changed`, `loaded`,
 `seen` and `lastOk` are history: the view changed while subscribed and since the last load,
 it changed since subscription, a load began since subscription, what the last load read, and
 whether the last refresh installed nodes.
 */
module ViewRefresh {
  import opened Bytes
  import opened EtcdTypes
  import opened ClusterView
  import S = EtcdStore

  datatype LoopPc<B> =
    | NotStarted
    | Loading                                // about to call the loader
    | Applying(body: Option<B>)              // loaded, about to parse and install
    | Waiting                                // in wait_for
    | Woken                                  // flag cleared, about to check running
    | Exited

  // Over the type of what the store holds, of a loaded body and of the installed nodes.
  datatype Loop<V, B, R> = Loop(
    inFlight: bool,
    flag: bool,
    running: bool,
    pc: LoopPc<B>,
    resolver: R,
    refreshesOk: nat,
    refreshesFailed: nat,
    dirty: bool,
    changed: bool,
    loaded: bool,
    seen: V,
    lastOk: bool)

  type Refresher = Loop<Option<KeyValue>, seq<byte>, seq<Routed>>

  datatype Sys = Sys(etcd: S.Store, sub: Option<S.Handle>, loop: Refresher)

  const INIT := Sys(S.INIT, None, Loop(false, false, false, NotStarted, [], 0, 0, false, false, false, None, false))

  datatype Action =
    | Store(a: S.Action)          // any client of the store
    | Dispatch                    // the dispatcher pops one event
    | Callback                    // the subscription's callback runs RequestRefresh
    | Request                     // RequestRefresh from elsewhere
    | Subscribe
    | Unsubscribe
    | StartLoop                   // also again, once Stop has joined the thread
    | StopLoop                    // Stop clears running; its wakeup is a Request
    | Load(err: bool)
    | Install
    | Wake(timeout: bool)
    | Check

  function View(etcd: S.Store, key: Key): Option<KeyValue> {
    if key in etcd.kvs then Some(etcd.kvs[key]) else None
  }

  // The loader's body: empty when the key is absent.
  function Body(view: Option<KeyValue>): seq<byte> {
    if view.Some? then view.value.value else []
  }

  // The view was republished or deleted.
  function Moved(l: Refresher): Refresher {
    l.(dirty := true, changed := true)
  }

  function Subscribed(l: Refresher): Refresher {
    l.(dirty := false, changed := false, loaded := false)
  }

  // The loader and the parser as the loop sees them.
  function LoaderOf(): Option<KeyValue> -> seq<byte> {
    view => Body(view)
  }

  function ParserOf(json: seq<byte> -> Json): seq<byte> -> Option<seq<Routed>> {
    body => ParseNodes(body, json)
  }

  // The threads other than the store and its dispatcher; `view` is what a read of the key returns now.
  function LoopStep<V, B, R>(l: Loop<V, B, R>, a: Action, view: V, load: V -> B, parse: B -> Option<R>): Loop<V, B, R> {
    match a
    case Callback => if l.inFlight then l.(inFlight := false, flag := true) else l
    case Request => l.(flag := true)
    case StartLoop => if l.pc.NotStarted? || l.pc.Exited? then l.(running := true, pc := Loading) else l
    case StopLoop => l.(running := false)
    case Load(err) =>
      if !l.pc.Loading? then l
      else l.(pc := Applying(if err then None else Some(load(view))), dirty := false, loaded := true, seen := view)
    case Install =>
      if !l.pc.Applying? then l
      else
        var nodes := if l.pc.body.None? then None else parse(l.pc.body.value);
        var next := if l.running then Waiting else Exited;
        if nodes.None? then l.(pc := next, refreshesFailed := l.refreshesFailed + 1, lastOk := false)
        else l.(pc := next, resolver := nodes.value, refreshesOk := l.refreshesOk + 1, lastOk := true)
    case Wake(timeout) =>
      if l.pc.Waiting? && (l.flag || timeout) then l.(flag := false, pc := Woken) else l
    case Check =>
      if l.pc.Woken? then l.(pc := if l.running then Loading else Exited) else l
    case _ => l
  }

  ghost function Act(s: Sys, a: Action, key: Key, json: seq<byte> -> Json): Sys {
    match a
    case Store(op) =>
      if op.DoDispatch? || (op.DoUnwatch? && s.sub == Some(op.h)) then s
      else
        var e := S.Act(s.etcd, op);
        Sys(e, s.sub, if s.sub.Some? && View(e, key) != View(s.etcd, key) then Moved(s.loop) else s.loop)
    case Dispatch =>
      if s.loop.inFlight || s.etcd.queue == [] then s
      else Sys(S.Dispatch(s.etcd), s.sub, s.loop.(inFlight := s.sub == Some(s.etcd.queue[0].handle)))
    case Subscribe =>
      if s.sub.Some? then s
      else
        var (e, h) := S.WatchPrefix(s.etcd, key);
        Sys(e, Some(h), Subscribed(s.loop))
    case Unsubscribe =>
      if s.sub.None? then s else Sys(S.Unwatch(s.etcd, s.sub.value), None, s.loop)
    case _ => s.(loop := LoopStep(s.loop, a, View(s.etcd, key), LoaderOf(), ParserOf(json)))
  }

  ghost function Exec(s: Sys, schedule: seq<Action>, key: Key, json: seq<byte> -> Json): Sys
    decreases |schedule|
  {
    if schedule == [] then s else Exec(Act(s, schedule[0], key, json), schedule[1..], key, json)
  }

  // ----- The invariant ---------------------------------------------------

  // A load is on its way without the queue's help.
  ghost predicate Coming<V, B, R>(l: Loop<V, B, R>) {
    l.inFlight || l.flag || l.pc.NotStarted? || l.pc.Loading? || l.pc.Woken? || l.pc.Exited?
  }

  // `watching`: subscribed; `pending`: an event for the subscription is queued.
  ghost predicate LoopOk<V, B, R>(l: Loop<V, B, R>, watching: bool, pending: bool, view: V, load: V -> B,
                                  parse: B -> Option<R>) {
    && (watching && l.dirty ==> pending || Coming(l))
    && (watching && l.loaded && !l.dirty ==> l.seen == view)
    && (watching && l.changed ==> l.loaded || l.dirty)
    && (l.pc.Applying? && l.pc.body.Some? ==> l.pc.body.value == load(l.seen))
    && (l.lastOk && !l.pc.Applying? ==> parse(load(l.seen)) == Some(l.resolver))
  }

  ghost predicate Pending(s: Sys) {
    s.sub.Some? && S.For(s.etcd.queue, s.sub.value) != []
  }

  ghost predicate EtcdOk(s: Sys, key: Key) {
    S.Inv(s.etcd) && (s.sub.Some? ==> s.sub.value in s.etcd.watchers && s.etcd.watchers[s.sub.value] == key)
  }

  ghost predicate Inv(s: Sys, key: Key, json: seq<byte> -> Json) {
    EtcdOk(s, key) && LoopOk(s.loop, s.sub.Some?, Pending(s), View(s.etcd, key), LoaderOf(), ParserOf(json))
  }

  // ----- The store's side ------------------------------------------------

  lemma {:induction false} DropAllAppends(e: S.Store, keys: seq<Key>, order: seq<S.Handle>)
    ensures var r := S.DropAll(e, keys, order);
      e.queue <= r.queue && r.watchers == e.watchers && r.base == e.base && r.delivered == e.delivered
    decreases |keys|
  {
    if keys != [] {
      DropAllAppends(if keys[0] in e.kvs then S.Drop(e, keys[0], order) else e, keys[1..], order);
    }
  }

  // Any client action only appends to the queue and leaves an existing watcher's history alone.
  lemma StoreAppends(e: S.Store, op: S.Action, h: S.Handle)
    requires S.Mirrors(e, h) && h in e.watchers && h < e.nextWatch && !op.DoDispatch? && !(op.DoUnwatch? && op.h == h)
    ensures var r := S.Act(e, op);
      && e.queue <= r.queue && h in r.watchers && r.watchers[h] == e.watchers[h]
      && h in e.base && h in e.delivered && h in r.base && h in r.delivered
      && r.base[h] == e.base[h] && r.delivered[h] == e.delivered[h]
  {
    if S.Genuine(e, op) {
      if op.DoRevoke? { DropAllAppends(e, op.keys, op.order); }
      if op.DoExpire? { DropAllAppends(e, op.keys, op.order); }
    }
  }

  lemma ForPrefix(q: seq<S.Queued>, r: seq<S.Queued>, h: S.Handle)
    requires q <= r
    ensures S.For(q, h) != [] ==> S.For(r, h) != []
    ensures S.For(q, h) == S.For(r, h) || S.For(r, h) != []
  {
    assert r == q + r[|q|..];
    S.ForConcat(q, r[|q|..], h);
  }

  // The view cannot change without an event for a watcher of its key being queued.
  lemma ChangeIsQueued(e: S.Store, op: S.Action, h: S.Handle, key: Key)
    requires S.Inv(e) && h in e.watchers && e.watchers[h] == key
    requires !op.DoDispatch? && !(op.DoUnwatch? && op.h == h)
    ensures var r := S.Act(e, op);
      && (S.For(e.queue, h) != [] ==> S.For(r.queue, h) != [])
      && (View(r, key) != View(e, key) ==> S.For(r.queue, h) != [])
  {
    var r := S.Act(e, op);
    StoreAppends(e, op, h);
    ForPrefix(e.queue, r.queue, h);
    S.ActKeeps(e, op);
    assert S.Mirrors(e, h) && S.Mirrors(r, h);
    if S.For(r.queue, h) == [] {
      assert Restrict(r.kvs, key) == Restrict(e.kvs, key);
      assert key in r.kvs <==> key in Restrict(r.kvs, key);
      assert key in e.kvs <==> key in Restrict(e.kvs, key);
    }
  }

  // ----- Every action keeps the invariant --------------------------------

  lemma LoopStepKeeps<V, B, R>(l: Loop<V, B, R>, a: Action, watching: bool, pending: bool, view: V, load: V -> B,
                               parse: B -> Option<R>)
    requires LoopOk(l, watching, pending, view, load, parse)
    ensures LoopOk(LoopStep(l, a, view, load, parse), watching, pending, view, load, parse)
  {
  }

  lemma StoreKeeps(s: Sys, op: S.Action, key: Key, json: seq<byte> -> Json)
    requires Inv(s, key, json) && !op.DoDispatch? && !(op.DoUnwatch? && s.sub == Some(op.h))
    ensures Inv(Act(s, Store(op), key, json), key, json)
  {
    var t := Act(s, Store(op), key, json);
    assert S.Inv(t.etcd) by { S.ActKeeps(s.etcd, op); }
    if s.sub.Some? {
      assert EtcdOk(t, key) by { StoreAppends(s.etcd, op, s.sub.value); }
      assert (Pending(s) ==> Pending(t)) && (View(t.etcd, key) != View(s.etcd, key) ==> Pending(t)) by {
        ChangeIsQueued(s.etcd, op, s.sub.value, key);
      }
    }
  }

  lemma DispatchKeeps(s: Sys, key: Key, json: seq<byte> -> Json)
    requires Inv(s, key, json)
    ensures Inv(Act(s, Dispatch, key, json), key, json)
  {
    var t := Act(s, Dispatch, key, json);
    assert S.Inv(t.etcd) by { S.DispatchKeeps(s.etcd); }
    assert t.etcd.watchers == s.etcd.watchers && View(t.etcd, key) == View(s.etcd, key);
    assert Pending(s) && !s.loop.inFlight ==> Pending(t) || t.loop.inFlight;
  }

  lemma SubscribeKeeps(s: Sys, key: Key, json: seq<byte> -> Json)
    requires Inv(s, key, json)
    ensures Inv(Act(s, Subscribe, key, json), key, json)
  {
    if s.sub.None? {
      assert S.Inv(Act(s, Subscribe, key, json).etcd) by { S.WatchKeeps(s.etcd, key); }
    }
  }

  lemma UnsubscribeKeeps(s: Sys, key: Key, json: seq<byte> -> Json)
    requires Inv(s, key, json)
    ensures Inv(Act(s, Unsubscribe, key, json), key, json)
  {
    if s.sub.Some? {
      assert S.Inv(Act(s, Unsubscribe, key, json).etcd) by { S.ActKeeps(s.etcd, S.DoUnwatch(s.sub.value)); }
    }
  }

  lemma ActKeeps(s: Sys, a: Action, key: Key, json: seq<byte> -> Json)
    requires Inv(s, key, json)
    ensures Inv(Act(s, a, key, json), key, json)
  {
    match a
    case Store(op) =>
      if !op.DoDispatch? && !(op.DoUnwatch? && s.sub == Some(op.h)) { StoreKeeps(s, op, key, json); }
    case Dispatch => DispatchKeeps(s, key, json);
    case Subscribe => SubscribeKeeps(s, key, json);
    case Unsubscribe => UnsubscribeKeeps(s, key, json);
    case _ => LoopStepKeeps(s.loop, a, s.sub.Some?, Pending(s), View(s.etcd, key), LoaderOf(), ParserOf(json));
  }

  lemma {:induction false} ExecKeeps(s: Sys, schedule: seq<Action>, key: Key, json: seq<byte> -> Json)
    requires Inv(s, key, json)
    ensures Inv(Exec(s, schedule, key, json), key, json)
    decreases |schedule|
  {
    if schedule != [] {
      ActKeeps(s, schedule[0], key, json);
      ExecKeeps(Act(s, schedule[0], key, json), schedule[1..], key, json);
    }
  }

  // ----- No wakeup is lost -----------------------------------------------

  // Nothing is on its way: no event for the subscription, no callback, no request, and the loop waits.
  ghost predicate Quiet(s: Sys) {
    s.sub.Some? && !Pending(s) && !s.loop.inFlight && !s.loop.flag && s.loop.pc == Waiting
  }

  // In every run, whenever everything is quiet and the view changed since subscription, the last load
  // began after the last change; a successful refresh then left exactly the current view's routable nodes.
  lemma NoLostWakeup(schedule: seq<Action>, key: Key, json: seq<byte> -> Json)
    requires Quiet(Exec(INIT, schedule, key, json))
    ensures var s := Exec(INIT, schedule, key, json); var l := s.loop;
      && !l.dirty
      && (l.changed || l.loaded ==> l.seen == View(s.etcd, key))
      && ((l.changed || l.loaded) && l.lastOk ==> ParseNodes(Body(View(s.etcd, key)), json) == Some(l.resolver))
  {
    assert Inv(INIT, key, json);
    ExecKeeps(INIT, schedule, key, json);
  }

  // ----- Subscribing after the loop has started --------------------------

  // Subscribing now leaves no gap: a load is still to come, or the last one saw the current view.
  ghost predicate SafeToSubscribe(s: Sys, key: Key) {
    Coming(s.loop) || s.loop.seen == View(s.etcd, key)
  }

  ghost predicate Covered(s: Sys, key: Key) {
    s.sub.Some? && (s.loop.loaded || s.loop.dirty || SafeToSubscribe(s, key))
  }

  lemma CoveredStep(s: Sys, a: Action, key: Key, json: seq<byte> -> Json)
    requires Covered(s, key) && a != Unsubscribe
    ensures Covered(Act(s, a, key, json), key)
  {
  }

  lemma {:induction false} CoveredStays(s: Sys, schedule: seq<Action>, key: Key, json: seq<byte> -> Json)
    requires Covered(s, key) && Unsubscribe !in schedule
    ensures Covered(Exec(s, schedule, key, json), key)
    decreases |schedule|
  {
    if schedule != [] {
      CoveredStep(s, schedule[0], key, json);
      CoveredStays(Act(s, schedule[0], key, json), schedule[1..], key, json);
    }
  }

  lemma GapShows(s: Sys, key: Key, json: seq<byte> -> Json)
    requires Inv(s, key, json) && s.sub.None? && s.loop.running && !SafeToSubscribe(s, key)
    ensures exists after | Unsubscribe !in after ::
      var t := Exec(Act(s, Subscribe, key, json), after, key, json); Quiet(t) && t.loop.seen != View(t.etcd, key)
  {
    var u := Act(s, Subscribe, key, json);
    S.NothingQueuedFor(s.etcd.queue, s.etcd.nextWatch);
    assert !Pending(u);
    if s.loop.pc == Waiting {
      var t := Exec(u, [], key, json);
      assert Quiet(t) && t.loop.seen != View(t.etcd, key);
    } else {
      var after := [Install];
      var t := Exec(u, after, key, json);
      assert t == Act(u, Install, key, json) by { assert Exec(t, [], key, json) == t; }
      assert Quiet(t) && t.loop.seen != View(t.etcd, key);
    }
  }

  // Subscribing after a run, every quiet state reached from there has the last load begun on the current view if
  // and only if the moment was safe: a load was still to come, or the last one had begun on the current view. From
  // a safe moment, a quiet state whose last refresh succeeded routes to exactly the current view's nodes.
  lemma SubscriptionGapIff(before: seq<Action>, key: Key, json: seq<byte> -> Json)
    requires var s := Exec(INIT, before, key, json); s.sub.None? && s.loop.running
    ensures var s := Exec(INIT, before, key, json);
      (forall after | Unsubscribe !in after ::
         var t := Exec(Act(s, Subscribe, key, json), after, key, json); Quiet(t) ==> t.loop.seen == View(t.etcd, key))
      <==> SafeToSubscribe(s, key)
    ensures var s := Exec(INIT, before, key, json);
      SafeToSubscribe(s, key) ==> forall after | Unsubscribe !in after ::
        var t := Exec(Act(s, Subscribe, key, json), after, key, json);
        Quiet(t) && t.loop.lastOk ==> ParseNodes(Body(View(t.etcd, key)), json) == Some(t.loop.resolver)
  {
    var s := Exec(INIT, before, key, json);
    var u := Act(s, Subscribe, key, json);
    assert Inv(INIT, key, json);
    ExecKeeps(INIT, before, key, json);
    if SafeToSubscribe(s, key) {
      ActKeeps(s, Subscribe, key, json);
      forall after | Unsubscribe !in after ensures QuietIsCurrent(Exec(u, after, key, json), key, json) {
        SafeMeansCurrent(u, after, key, json);
      }
    } else {
      GapShows(s, key, json);
    }
  }

  ghost predicate QuietIsCurrent(t: Sys, key: Key, json: seq<byte> -> Json) {
    Quiet(t) ==>
      && t.loop.seen == View(t.etcd, key)
      && (t.loop.lastOk ==> ParseNodes(Body(View(t.etcd, key)), json) == Some(t.loop.resolver))
  }

  lemma SafeMeansCurrent(u: Sys, after: seq<Action>, key: Key, json: seq<byte> -> Json)
    requires Inv(u, key, json) && Covered(u, key) && Unsubscribe !in after
    ensures QuietIsCurrent(Exec(u, after, key, json), key, json)
  {
    CoveredStays(u, after, key, json);
    ExecKeeps(u, after, key, json);
  }
}

/** What one refresh installs, and that a change is served by the loop's own steps, without the timer. */
module ViewProgress {
  import opened Bytes
  import opened EtcdTypes
  import opened ClusterView
  import opened ViewRefresh
  import S = EtcdStore

  // The text is no view: not an object with an array of nodes. An empty text is one without nodes.
  predicate NoView(body: seq<byte>, json: seq<byte> -> Json) {
    body != [] && !(json(body).Document? && json(body).nodes.Some?)
  }

  // The nodes are exactly those the view's entries install, in view order.
  ghost predicate Shows(body: seq<byte>, nodes: seq<Routed>, json: seq<byte> -> Json)
    requires !NoView(body, json)
  {
    if body == [] then nodes == [] else exists from: seq<nat> :: Selects(json(body).nodes.value, from, nodes)
  }

  lemma ParseShows(body: seq<byte>, json: seq<byte> -> Json)
    ensures ParseNodes(body, json).None? <==> NoView(body, json)
    ensures ParseNodes(body, json).Some? ==> Shows(body, ParseNodes(body, json).value, json)
  {
    if body != [] && !NoView(body, json) {
      var from := InstalledInOrder(json(body).nodes.value);
    }
  }

  // The refresh failed: nothing installed, one more failure counted.
  predicate Kept<V, B, R(==)>(l: Loop<V, B, R>, m: Loop<V, B, R>) {
    m.resolver == l.resolver && m.refreshesFailed == l.refreshesFailed + 1 && m.refreshesOk == l.refreshesOk
  }

  predicate Counted<V, B, R>(l: Loop<V, B, R>, m: Loop<V, B, R>) {
    m.refreshesOk == l.refreshesOk + 1 && m.refreshesFailed == l.refreshesFailed
  }

  lemma LoopKeeps<V, B, R>(l: Loop<V, B, R>, view: V, load: V -> B, parse: B -> Option<R>)
    requires l.pc.Applying? && (l.pc.body.Some? ==> parse(l.pc.body.value).None?)
    ensures var m := LoopStep(l, Install, view, load, parse); Kept(l, m) && m.pc == if l.running then Waiting else Exited
  {
  }

  lemma LoopInstalls<V, B, R>(l: Loop<V, B, R>, view: V, load: V -> B, parse: B -> Option<R>)
    requires l.pc.Applying? && l.pc.body.Some? && parse(l.pc.body.value).Some?
    ensures var m := LoopStep(l, Install, view, load, parse);
      Counted(l, m) && Some(m.resolver) == parse(l.pc.body.value) && m.pc == if l.running then Waiting else Exited
  {
  }

  // A refresh whose load failed or read no view keeps the installed nodes and counts as failed; any other installs
  // exactly the view's nodes and counts as done.
  lemma InstallExact(s: Sys, key: Key, json: seq<byte> -> Json)
    requires s.loop.pc.Applying?
    ensures var l := s.loop; var t := Act(s, Install, key, json); var body := l.pc.body;
      && t.etcd == s.etcd && t.sub == s.sub && t.loop.pc == (if l.running then Waiting else Exited)
      && (if body.None? || NoView(body.value, json) then Kept(l, t.loop)
          else Counted(l, t.loop) && Shows(body.value, t.loop.resolver, json))
  {
    var body := s.loop.pc.body;
    if body.Some? { ParseShows(body.value, json); }
    if body.None? || NoView(body.value, json) {
      LoopKeeps(s.loop, View(s.etcd, key), LoaderOf(), ParserOf(json));
    } else {
      LoopInstalls(s.loop, View(s.etcd, key), LoaderOf(), ParserOf(json));
    }
  }

  // ----- Serving a change ----------------------------------------------------

  // A step of the dispatcher, of the subscription's callback, or of the loop; no timeout and no failing load.
  predicate Own(a: Action) {
    a == Dispatch || a == Callback || a == Wake(false) || a == Check || a == Load(false) || a == Install
  }

  ghost predicate Owns(schedule: seq<Action>) {
    forall a | a in schedule :: Own(a)
  }

  // A change is on its way to the loop.
  ghost predicate Coming(s: Sys) {
    Pending(s) || s.loop.inFlight || s.loop.flag
  }

  ghost predicate SameView(s: Sys, t: Sys, key: Key) {
    t.sub == s.sub && View(t.etcd, key) == View(s.etcd, key) && t.loop.running == s.loop.running
  }

  lemma Then(s: Sys, a: Action, rest: seq<Action>, key: Key, json: seq<byte> -> Json)
    ensures Exec(s, [a] + rest, key, json) == Exec(Act(s, a, key, json), rest, key, json)
  {
    assert ([a] + rest)[1..] == rest;
  }

  lemma {:induction false} ExecConcat(s: Sys, a: seq<Action>, b: seq<Action>, key: Key, json: seq<byte> -> Json)
    ensures Exec(s, a + b, key, json) == Exec(Exec(s, a, key, json), b, key, json)
    decreases |a|
  {
    if a == [] {
      assert a + b == b;
    } else {
      assert (a + b)[1..] == a[1..] + b;
      ExecConcat(Act(s, a[0], key, json), a[1..], b, key, json);
    }
  }

  // Dispatching takes an event of the subscription into the callback, and leaves the later ones queued.
  lemma DispatchBrings(u: Sys, key: Key, json: seq<byte> -> Json)
    requires u.sub.Some? && !u.loop.inFlight && u.etcd.queue != []
    ensures var v := Act(u, Dispatch, key, json);
      && SameView(u, v, key) && v.etcd.queue == u.etcd.queue[1..] && v.loop.pc == u.loop.pc && (Coming(u) ==> Coming(v))
  {
  }

  // Every queued event is dispatched and called back.
  lemma {:induction false} Drained(s: Sys, key: Key, json: seq<byte> -> Json) returns (schedule: seq<Action>)
    requires s.sub.Some? && s.loop.pc == Waiting
    ensures Owns(schedule)
    ensures var t := Exec(s, schedule, key, json);
      && SameView(s, t, key) && t.etcd.queue == [] && !t.loop.inFlight && t.loop.pc == Waiting
      && (Coming(s) ==> t.loop.flag)
    decreases |s.etcd.queue|
  {
    var u := Act(s, Callback, key, json);
    if s.etcd.queue == [] {
      schedule := [Callback];
      assert [Callback][1..] == [] && Exec(s, [Callback], key, json) == Exec(u, [], key, json);
    } else {
      var v := Act(u, Dispatch, key, json);
      assert u.etcd == s.etcd && !u.loop.inFlight && (Coming(s) ==> Coming(u));
      DispatchBrings(u, key, json);
      var rest := Drained(v, key, json);
      Then(s, Callback, [Dispatch] + rest, key, json);
      Then(u, Dispatch, rest, key, json);
      schedule := [Callback] + ([Dispatch] + rest);
    }
  }

  lemma LoopStep1<V, B, R>(l: Loop<V, B, R>, view: V, load: V -> B, parse: B -> Option<R>)
    requires l.pc == Waiting && l.running && l.flag
    ensures LoopStep(LoopStep(l, Wake(false), view, load, parse), Check, view, load, parse) == l.(flag := false, pc := Loading)
  {
  }

  lemma LoopStep2<V, B, R>(l: Loop<V, B, R>, view: V, load: V -> B, parse: B -> Option<R>)
    requires l.pc == Loading && l.running
    ensures var m := LoopStep(LoopStep(l, Load(false), view, load, parse), Install, view, load, parse);
      && m.pc == Waiting && m.flag == l.flag && m.inFlight == l.inFlight && m.seen == view
      && (parse(load(view)).Some? ==> parse(load(view)) == Some(m.resolver) && m.refreshesOk == l.refreshesOk + 1)
  {
    var loaded := LoopStep(l, Load(false), view, load, parse);
    if parse(load(view)).Some? { LoopInstalls(loaded, view, load, parse); } else { LoopKeeps(loaded, view, load, parse); }
  }

  lemma LoopAlone(s: Sys, a: Action, key: Key, json: seq<byte> -> Json)
    requires a.Wake? || a.Check? || a.Load? || a.Install?
    ensures Act(s, a, key, json) == s.(loop := LoopStep(s.loop, a, View(s.etcd, key), LoaderOf(), ParserOf(json)))
  {
  }

  lemma FourSteps(s: Sys, a: Action, b: Action, c: Action, d: Action, key: Key, json: seq<byte> -> Json)
    ensures Exec(s, [a, b, c, d], key, json) == Act(Act(Act(Act(s, a, key, json), b, key, json), c, key, json), d, key, json)
  {
    var s1 := Act(s, a, key, json);
    var s2 := Act(s1, b, key, json);
    var s3 := Act(s2, c, key, json);
    assert [a] + [b, c, d] == [a, b, c, d] && [b] + [c, d] == [b, c, d] && [c] + [d] == [c, d] && [d] + [] == [d];
    Then(s, a, [b, c, d], key, json);
    Then(s1, b, [c, d], key, json);
    Then(s2, c, [d], key, json);
    Then(s3, d, [], key, json);
  }

  // One round of a loop that was asked to refresh.
  lemma OneRound(s: Sys, key: Key, json: seq<byte> -> Json)
    requires s.loop.pc == Waiting && s.loop.running && s.loop.flag && !s.loop.inFlight
    ensures var t := Exec(s, [Wake(false), Check, Load(false), Install], key, json); var l := t.loop;
      && t.etcd == s.etcd && t.sub == s.sub && l.pc == Waiting && !l.flag && !l.inFlight && l.seen == View(s.etcd, key)
      && (ParseNodes(Body(View(s.etcd, key)), json).Some? ==>
            ParseNodes(Body(View(s.etcd, key)), json) == Some(l.resolver) && l.refreshesOk == s.loop.refreshesOk + 1)
  {
    var view := View(s.etcd, key);
    var s1 := Act(s, Wake(false), key, json);
    var s2 := Act(s1, Check, key, json);
    var s3 := Act(s2, Load(false), key, json);
    LoopAlone(s, Wake(false), key, json);
    LoopAlone(s1, Check, key, json);
    LoopAlone(s2, Load(false), key, json);
    LoopAlone(s3, Install, key, json);
    LoopStep1(s.loop, view, LoaderOf(), ParserOf(json));
    LoopStep2(s2.loop, view, LoaderOf(), ParserOf(json));
    FourSteps(s, Wake(false), Check, Load(false), Install, key, json);
  }

  // After every run: if the loop waits and a change or request is on its way, steps of dispatcher, callback and loop
  // alone reach a quiet state that has read the current view and, if that parses, installed exactly its nodes.
  lemma ChangeIsServed(before: seq<Action>, key: Key, json: seq<byte> -> Json) returns (schedule: seq<Action>)
    requires var s := Exec(INIT, before, key, json); s.sub.Some? && s.loop.running && s.loop.pc == Waiting && Coming(s)
    ensures Owns(schedule)
    ensures var s := Exec(INIT, before, key, json); var t := Exec(s, schedule, key, json); var view := View(s.etcd, key);
      && Quiet(t) && View(t.etcd, key) == view && t.loop.seen == view
      && (ParseNodes(Body(view), json).Some? ==> ParseNodes(Body(view), json) == Some(t.loop.resolver))
  {
    var s := Exec(INIT, before, key, json);
    var first := Drained(s, key, json);
    var u := Exec(s, first, key, json);
    OneRound(u, key, json);
    schedule := first + [Wake(false), Check, Load(false), Install];
    ExecConcat(s, first, [Wake(false), Check, Load(false), Install], key, json);
    assert S.For([], s.sub.value) == [];
  }

  // ----- Starting, stopping and unsubscribing ----------------------------------

  // Start lets a loop that is not running load at once.
  lemma StartRuns<V, B, R>(l: Loop<V, B, R>, view: V, load: V -> B, parse: B -> Option<R>)
    requires l.pc == NotStarted || l.pc == Exited
    ensures var m := LoopStep(l, StartLoop, view, load, parse); m.running && m.pc == Loading && m.resolver == l.resolver
  {
  }

  // Stop, with its wakeup, ends a waiting loop without another load.
  lemma StopRuns<V, B, R>(l: Loop<V, B, R>, view: V, load: V -> B, parse: B -> Option<R>)
    requires l.pc == Waiting
    ensures var stopped := LoopStep(LoopStep(l, StopLoop, view, load, parse), Request, view, load, parse);
      var m := LoopStep(LoopStep(stopped, Wake(false), view, load, parse), Check, view, load, parse);
      m.pc == Exited && !m.running && m.resolver == l.resolver && m.seen == l.seen
  {
    var a := LoopStep(l, StopLoop, view, load, parse);
    assert a == l.(running := false);
    var b := LoopStep(a, Request, view, load, parse);
    assert b == a.(flag := true);
  }

  // Unsubscribing takes the watcher out of the store; the loop goes on.
  lemma UnsubscribeRuns(s: Sys, key: Key, json: seq<byte> -> Json)
    requires s.sub.Some?
    ensures var t := Act(s, Unsubscribe, key, json);
      t.sub.None? && s.sub.value !in t.etcd.watchers && t.etcd.kvs == s.etcd.kvs && t.loop == s.loop
  {
  }
}

/**
 Readers, seals and evictors of the node's prefix index racing on one leaf's refcount.

 The index maps a path to a leaf; leaves are numbered in order of creation and carry a
 refcount that starts at one. Each step below is one atomic action of the code: a find in the
 index, one compare-and-swap, one update of the handle table. Schedules interleave the steps
 of any number of threads.
 */
module NodeEviction {
  type Path = nat
  type Leaf = nat
  type Thread = nat
  type Handle = nat

  // Where a thread is inside Lookup, Release or TryEvictNow.
  datatype Pc =
    | Idle
    | Found(leaf: Leaf)                  // Lookup: leaf found, not yet acquired
    | Held(leaf: Leaf)                   // Lookup: acquired, handle not yet registered
    | Releasing(leaf: Leaf)              // Release: handle erased, refcount not yet dropped
    | Victim(path: Path, leaf: Leaf)     // TryEvictNow: leaf found, not yet claimed
    | Claimed(path: Path, leaf: Leaf)    // TryEvictNow: claimed, not yet removed

  datatype State = State(
    art: map<Path, Leaf>,
    refcount: seq<nat>,
    handles: map<Handle, Leaf>,
    nextHandle: nat,
    threads: map<Thread, Pc>,
    events: seq<Leaf>)  // the leaf whose locator each EVICT event carries

  datatype Action =
    | Seal(path: Path)
    | LookupFind(t: Thread, path: Path)
    | LookupAcquire(t: Thread)
    | LookupRegister(t: Thread)
    | ReleaseErase(t: Thread, handle: Handle)
    | ReleaseDrop(t: Thread)
    | EvictFind(t: Thread, path: Path)
    | EvictClaim(t: Thread)
    | EvictRemove(t: Thread)

  const INIT := State(map[], [], map[], 1, map[], [])

  function At(s: State, t: Thread): Pc {
    if t in s.threads then s.threads[t] else Idle
  }

  function Goto(s: State, t: Thread, pc: Pc): State {
    s.(threads := s.threads[t := pc])
  }

  // A reader's hold on leaf `l`, from its acquire to its drop.
  predicate Holds(pc: Pc, l: Leaf) {
    pc == Held(l) || pc == Releasing(l)
  }

  function Act(s: State, a: Action): State {
    match a
    case Seal(path) => s.(art := s.art[path := |s.refcount|], refcount := s.refcount + [1])
    case LookupFind(t, path) =>
      if At(s, t).Idle? && path in s.art then Goto(s, t, Found(s.art[path])) else s
    case LookupAcquire(t) =>
      (match At(s, t)
       case Found(l) =>
         if l < |s.refcount| && s.refcount[l] != 0
         then Goto(s.(refcount := s.refcount[l := s.refcount[l] + 1]), t, Held(l))
         else Goto(s, t, Idle)
       case _ => s)
    case LookupRegister(t) =>
      (match At(s, t)
       case Held(l) => Goto(s.(handles := s.handles[s.nextHandle := l], nextHandle := s.nextHandle + 1), t, Idle)
       case _ => s)
    case ReleaseErase(t, h) =>
      if At(s, t).Idle? && h in s.handles
      then Goto(s.(handles := s.handles - {h}), t, Releasing(s.handles[h])) else s
    case ReleaseDrop(t) =>
      (match At(s, t)
       case Releasing(l) =>
         if l < |s.refcount| && s.refcount[l] > 0
         then Goto(s.(refcount := s.refcount[l := s.refcount[l] - 1]), t, Idle) else s
       case _ => s)
    case EvictFind(t, path) =>
      if At(s, t).Idle? && path in s.art then Goto(s, t, Victim(path, s.art[path])) else s
    case EvictClaim(t) =>
      (match At(s, t)
       case Victim(path, l) =>
         if l < |s.refcount| && s.refcount[l] == 1
         then Goto(s.(refcount := s.refcount[l := 0]), t, Claimed(path, l))
         else Goto(s, t, Idle)
       case _ => s)
    case EvictRemove(t) =>
      (match At(s, t)
       case Claimed(path, l) =>
         if path in s.art then Goto(s.(art := s.art - {path}, events := s.events + [l]), t, Idle)
         else Goto(s, t, Idle)
       case _ => s)
  }

  function Exec(s: State, sched: seq<Action>): State
    decreases |sched|
  {
    if sched == [] then s else Exec(Act(s, sched[0]), sched[1..])
  }

  // ----- Holders ---------------------------------------------------------

  function ByHandle(handles: map<Handle, Leaf>, l: Leaf): set<Handle> {
    set h | h in handles && handles[h] == l
  }

  function ByThread(threads: map<Thread, Pc>, l: Leaf): set<Thread> {
    set t | t in threads && Holds(threads[t], l)
  }

  // Live readers of `l`: registered handles, and threads between acquire and drop.
  function Readers(s: State, l: Leaf): nat {
    |ByHandle(s.handles, l)| + |ByThread(s.threads, l)|
  }

  lemma ThreadMoves(threads: map<Thread, Pc>, t: Thread, pc: Pc, l: Leaf)
    ensures var was := t in threads && Holds(threads[t], l);
      |ByThread(threads[t := pc], l)|
      == |ByThread(threads, l)| - (if was then 1 else 0) + (if Holds(pc, l) then 1 else 0)
  {
    var rest := ByThread(threads, l) - {t};
    assert ByThread(threads[t := pc], l) == if Holds(pc, l) then rest + {t} else rest;
  }

  lemma HandleAdded(handles: map<Handle, Leaf>, h: Handle, x: Leaf, l: Leaf)
    requires h !in handles
    ensures |ByHandle(handles[h := x], l)| == |ByHandle(handles, l)| + if x == l then 1 else 0
  {
    assert ByHandle(handles[h := x], l) == ByHandle(handles, l) + if x == l then {h} else {};
  }

  lemma HandleErased(handles: map<Handle, Leaf>, h: Handle, l: Leaf)
    requires h in handles
    ensures |ByHandle(handles - {h}, l)| == |ByHandle(handles, l)| - if handles[h] == l then 1 else 0
  {
    assert ByHandle(handles - {h}, l) == ByHandle(handles, l) - {h};
    assert h in ByHandle(handles, l) <==> handles[h] == l;
  }

  // ----- The refcount invariant ------------------------------------------

  ghost predicate Known(s: State) {
    && (forall p | p in s.art :: s.art[p] < |s.refcount|)
    && (forall h | h in s.handles :: s.handles[h] < |s.refcount| && h < s.nextHandle)
    && (forall t | t in s.threads && !s.threads[t].Idle? :: s.threads[t].leaf < |s.refcount|)
    && (forall i | 0 <= i < |s.events| :: s.events[i] < |s.refcount|)
  }

  // An unclaimed leaf counts one for the index and one for each reader; a claimed leaf is at zero, unread.
  predicate Counted(s: State, l: Leaf) {
    l < |s.refcount| ==>
      if s.refcount[l] == 0 then Readers(s, l) == 0 else s.refcount[l] == 1 + Readers(s, l)
  }

  ghost predicate EventsClaimed(s: State) {
    && (forall i | 0 <= i < |s.events| :: s.events[i] < |s.refcount| && s.refcount[s.events[i]] == 0)
    && (forall i, j | 0 <= i < j < |s.events| :: s.events[i] != s.events[j])
  }

  // A claimed leaf is at zero and has had no event yet.
  predicate ClaimOk(s: State, t: Thread) {
    At(s, t).Claimed? ==>
      At(s, t).leaf < |s.refcount| && s.refcount[At(s, t).leaf] == 0 && At(s, t).leaf !in s.events
  }

  predicate Apart(s: State, t: Thread, u: Thread) {
    t != u && At(s, t).Claimed? && At(s, u).Claimed? ==> At(s, t).leaf != At(s, u).leaf
  }

  // Every leaf is claimed by at most one evictor, and yields at most one event.
  ghost predicate ClaimedOnce(s: State) {
    EventsClaimed(s) && (forall t :: ClaimOk(s, t)) && (forall t, u :: Apart(s, t, u))
  }

  ghost predicate Inv(s: State) {
    Known(s) && ClaimedOnce(s) && forall l :: Counted(s, l)
  }

  lemma UnknownUnread(s: State, l: Leaf)
    requires Known(s) && l >= |s.refcount|
    ensures Readers(s, l) == 0
  {
    assert ByHandle(s.handles, l) == {};
    assert ByThread(s.threads, l) == {};
  }

  lemma TableCounts(s: State, a: Action, l: Leaf)
    requires Known(s) && Counted(s, l) && (a.Seal? || a.LookupRegister? || a.ReleaseErase?)
    ensures Counted(Act(s, a), l)
  {
    match a
    case Seal(path) => if l == |s.refcount| { UnknownUnread(s, l); }
    case LookupRegister(t) =>
      if At(s, t).Held? {
        ThreadMoves(s.threads, t, Idle, l);
        HandleAdded(s.handles, s.nextHandle, At(s, t).leaf, l);
      }
    case ReleaseErase(t, h) =>
      if At(s, t).Idle? && h in s.handles {
        ThreadMoves(s.threads, t, Releasing(s.handles[h]), l);
        HandleErased(s.handles, h, l);
      }
  }

  lemma RefcountMoves(s: State, a: Action, l: Leaf)
    requires Known(s) && Counted(s, l) && (a.LookupAcquire? || a.ReleaseDrop? || a.EvictClaim?)
    ensures Counted(Act(s, a), l)
  {
    var pc := At(Act(s, a), a.t);
    if Act(s, a) != s {
      ThreadMoves(s.threads, a.t, pc, l);
      if a.ReleaseDrop? && At(s, a.t) == Releasing(l) { assert a.t in ByThread(s.threads, l); }
    }
  }

  lemma FindCounts(s: State, a: Action, l: Leaf)
    requires Known(s) && Counted(s, l) && (a.LookupFind? || a.EvictFind? || a.EvictRemove?)
    ensures Counted(Act(s, a), l)
  {
    if Act(s, a) != s { ThreadMoves(s.threads, a.t, At(Act(s, a), a.t), l); }
  }

  lemma ActCounts(s: State, a: Action, l: Leaf)
    requires Known(s) && Counted(s, l)
    ensures Counted(Act(s, a), l)
  {
    if a.Seal? || a.LookupRegister? || a.ReleaseErase? {
      TableCounts(s, a, l);
    } else if a.LookupAcquire? || a.ReleaseDrop? || a.EvictClaim? {
      RefcountMoves(s, a, l);
    } else {
      FindCounts(s, a, l);
    }
  }

  lemma DropsAboveOne(s: State, t: Thread)
    requires Known(s) && At(s, t).Releasing? && Counted(s, At(s, t).leaf)
    ensures s.refcount[At(s, t).leaf] >= 2
  {
    assert t in ByThread(s.threads, At(s, t).leaf);
  }

  // A refcount at zero never moves again.
  lemma ZeroStays(s: State, a: Action, l: Leaf)
    requires Known(s) && Counted(s, l) && l < |s.refcount| && s.refcount[l] == 0
    ensures l < |Act(s, a).refcount| && Act(s, a).refcount[l] == 0
  {
    if a.ReleaseDrop? && At(s, a.t) == Releasing(l) { DropsAboveOne(s, a.t); }
  }

  ghost predicate ZerosKept(s: State, u: State) {
    |s.refcount| <= |u.refcount| && forall l | 0 <= l < |s.refcount| && s.refcount[l] == 0 :: u.refcount[l] == 0
  }

  lemma EventsKept(s: State, a: Action)
    requires EventsClaimed(s) && ZerosKept(s, Act(s, a)) && (a.EvictRemove? ==> ClaimOk(s, a.t))
    ensures EventsClaimed(Act(s, a))
  {
    var u := Act(s, a);
    assert u.events == s.events || (a.EvictRemove? && At(s, a.t).Claimed? && u.events == s.events + [At(s, a.t).leaf]);
    forall i | 0 <= i < |u.events| ensures u.events[i] < |u.refcount| && u.refcount[u.events[i]] == 0 {
      if i < |s.events| { assert u.events[i] == s.events[i]; }
    }
  }

  lemma ClaimKept(s: State, a: Action, t: Thread)
    requires EventsClaimed(s) && ZerosKept(s, Act(s, a)) && ClaimOk(s, t)
    requires a.EvictRemove? ==> Apart(s, a.t, t)
    ensures ClaimOk(Act(s, a), t)
  {
    if a.EvictClaim? && a.t == t && At(Act(s, a), t).Claimed? && !At(s, t).Claimed? {
      assert At(s, t).leaf !in s.events;
    }
  }

  lemma ApartKept(s: State, a: Action, t: Thread, u: Thread)
    requires Apart(s, t, u) && ClaimOk(s, t) && ClaimOk(s, u)
    ensures Apart(Act(s, a), t, u)
  {
  }

  lemma ActClaimsOnce(s: State, a: Action)
    requires Known(s) && ClaimedOnce(s) && forall l :: Counted(s, l)
    ensures ClaimedOnce(Act(s, a))
  {
    assert ZerosKept(s, Act(s, a)) by {
      forall l | 0 <= l < |s.refcount| && s.refcount[l] == 0 ensures Act(s, a).refcount[l] == 0 { ZeroStays(s, a, l); }
    }
    if a.EvictRemove? { assert ClaimOk(s, a.t); }
    EventsKept(s, a);
    forall t ensures ClaimOk(Act(s, a), t) {
      if a.EvictRemove? { assert Apart(s, a.t, t); }
      ClaimKept(s, a, t);
    }
    forall t, u ensures Apart(Act(s, a), t, u) { ApartKept(s, a, t, u); }
  }

  lemma ActKeeps(s: State, a: Action)
    requires Inv(s)
    ensures Inv(Act(s, a))
  {
    ActKnown(s, a);
    ActClaimsOnce(s, a);
    forall l ensures Counted(Act(s, a), l) { ActCounts(s, a, l); }
  }

  lemma {:induction false} ExecKeeps(s: State, sched: seq<Action>)
    requires Inv(s)
    ensures Inv(Exec(s, sched))
    decreases |sched|
  {
    if sched != [] {
      ActKeeps(s, sched[0]);
      ExecKeeps(Act(s, sched[0]), sched[1..]);
    }
  }

  lemma InitInv()
    ensures Inv(INIT)
  {
  }

  // In every run each leaf's refcount is zero, with no reader, once claimed, and otherwise one plus its readers.
  lemma RefcountCountsReaders(sched: seq<Action>, l: Leaf)
    requires l < |Exec(INIT, sched).refcount|
    ensures var s := Exec(INIT, sched);
      if s.refcount[l] == 0 then Readers(s, l) == 0 else s.refcount[l] == 1 + Readers(s, l)
  {
    InitInv();
    ExecKeeps(INIT, sched);
    assert Counted(Exec(INIT, sched), l);
  }

  // In every run no leaf has two EVICT events.
  lemma OneEventPerLeaf(sched: seq<Action>)
    ensures var e := Exec(INIT, sched).events; forall i, j | 0 <= i < j < |e| :: e[i] != e[j]
  {
    InitInv();
    ExecKeeps(INIT, sched);
  }

  // In every run a claimed leaf is never handed out: no handle names it, and a racing Lookup misses.
  lemma ClaimedNeverHandedOut(sched: seq<Action>, l: Leaf)
    requires l < |Exec(INIT, sched).refcount| && Exec(INIT, sched).refcount[l] == 0
    ensures var s := Exec(INIT, sched);
      && (forall h | h in s.handles :: s.handles[h] != l)
      && forall t | At(s, t) == Found(l) :: At(Act(s, LookupAcquire(t)), t) == Idle
  {
    RefcountCountsReaders(sched, l);
    var s := Exec(INIT, sched);
    assert ByHandle(s.handles, l) == {};
    forall h | h in s.handles ensures s.handles[h] != l { assert h !in ByHandle(s.handles, l); }
  }

  lemma {:induction false} GrowsAlong(s: State, sched: seq<Action>, l: Leaf)
    requires Inv(s) && l < |s.refcount|
    ensures var t := Exec(s, sched); l < |t.refcount| && (s.refcount[l] == 0 ==> t.refcount[l] == 0)
    decreases |sched|
  {
    if sched != [] {
      ActKeeps(s, sched[0]);
      assert Counted(s, l);
      if s.refcount[l] == 0 { ZeroStays(s, sched[0], l); }
      GrowsAlong(Act(s, sched[0]), sched[1..], l);
    }
  }

  lemma {:induction false} ExecConcat(s: State, a: seq<Action>, b: seq<Action>)
    ensures Exec(s, a + b) == Exec(Exec(s, a), b)
    decreases |a|
  {
    if a == [] {
      assert a + b == b;
    } else {
      assert (a + b)[1..] == a[1..] + b;
      ExecConcat(Act(s, a[0]), a[1..], b);
    }
  }

  // A claim is for ever: a leaf claimed at some point of a run is claimed in every continuation.
  lemma ClaimIsPermanent(before: seq<Action>, after: seq<Action>, l: Leaf)
    requires l < |Exec(INIT, before).refcount| && Exec(INIT, before).refcount[l] == 0
    ensures var s := Exec(INIT, before + after); l < |s.refcount| && s.refcount[l] == 0
  {
    InitInv();
    ExecKeeps(INIT, before);
    ExecConcat(INIT, before, after);
    GrowsAlong(Exec(INIT, before), after, l);
  }

  // ----- What a claim goes on to remove ----------------------------------

  lemma {:induction false} ReplacedStaysReplaced(s: State, sched: seq<Action>, path: Path, l: Leaf)
    requires l < |s.refcount| && (path in s.art ==> s.art[path] != l)
    ensures var t := Exec(s, sched); path in t.art ==> t.art[path] != l
    decreases |sched|
  {
    if sched != [] { ReplacedStaysReplaced(Act(s, sched[0]), sched[1..], path, l); }
  }

  lemma {:induction false} SameLeafIff(s: State, sched: seq<Action>, path: Path)
    requires Known(s) && path in s.art && path in Exec(s, sched).art
    ensures Exec(s, sched).art[path] == s.art[path] <==> Seal(path) !in sched
    decreases |sched|
  {
    if sched != [] {
      var u := Act(s, sched[0]);
      assert sched == [sched[0]] + sched[1..];
      if sched[0] == Seal(path) {
        ReplacedStaysReplaced(u, sched[1..], path, s.art[path]);
      } else if path in u.art {
        ActKnown(s, sched[0]);
        SameLeafIff(u, sched[1..], path);
      } else {
        ReplacedStaysReplaced(u, sched[1..], path, s.art[path]);
        NeedsSeal(u, sched[1..], path);
      }
    }
  }

  lemma ActKnown(s: State, a: Action)
    requires Known(s)
    ensures Known(Act(s, a))
  {
  }

  lemma {:induction false} NeedsSeal(s: State, sched: seq<Action>, path: Path)
    requires path !in s.art && path in Exec(s, sched).art
    ensures Seal(path) in sched
    decreases |sched|
  {
    if sched != [] && sched[0] != Seal(path) { NeedsSeal(Act(s, sched[0]), sched[1..], path); }
  }

  /**
   An evictor finds a leaf at `path` after run `before`, and after any further run `during` is about
   to remove it. If the path is still there, what it removes is the leaf it claimed, which then has no
   reader, if and only if no Seal on that path came in between. If the path is gone it removes nothing.
   */
  lemma RemovesClaimedLeafIff(before: seq<Action>, during: seq<Action>, t: Thread, path: Path)
    requires path in Exec(INIT, before).art
    requires At(Exec(INIT, before + during), t) == Claimed(path, Exec(INIT, before).art[path])
    ensures var l := Exec(INIT, before).art[path];
      var s := Exec(INIT, before + during);
      var u := Act(s, EvictRemove(t));
      && path !in u.art && Readers(s, l) == 0
      && (path in s.art ==> (s.art[path] == l <==> Seal(path) !in during))
      && (path !in s.art ==> u.art == s.art && u.events == s.events)
      && (path in s.art ==> u.events == s.events + [l])
  {
    var l := Exec(INIT, before).art[path];
    var s := Exec(INIT, before + during);
    InitInv();
    ExecKeeps(INIT, before);
    ExecKeeps(INIT, before + during);
    ExecConcat(INIT, before, during);
    assert Counted(s, l) && ClaimOk(s, t);
    if path in s.art { SameLeafIff(Exec(INIT, before), during, path); }
  }

  lemma StepTo(s: State, a: Action, u: State, rest: seq<Action>)
    requires Act(s, a) == u
    ensures Exec(s, [a] + rest) == Exec(u, rest)
  {
    assert ([a] + rest)[1..] == rest;
  }

  const S1 := State(map[9 := 0], [1], map[], 1, map[], [])
  const S2 := S1.(threads := map[0 := Victim(9, 0)])
  const S3 := S2.(threads := map[0 := Claimed(9, 0)], refcount := [0])
  const S4 := S3.(art := map[9 := 1], refcount := [0, 1])
  const S5 := S4.(threads := map[0 := Claimed(9, 0), 1 := Found(1)])
  const S6 := S5.(threads := map[0 := Claimed(9, 0), 1 := Held(1)], refcount := [0, 2])
  const S7 := S6.(threads := map[0 := Claimed(9, 0), 1 := Idle], handles := map[1 := 1], nextHandle := 2)

  lemma RaceBegins()
    ensures Act(INIT, Seal(9)) == S1 && Act(S1, EvictFind(0, 9)) == S2
    ensures Act(S2, EvictClaim(0)) == S3 && Act(S3, Seal(9)) == S4
  {
  }

  lemma RaceEnds()
    ensures Act(S4, LookupFind(1, 9)) == S5 && Act(S5, LookupAcquire(1)) == S6 && Act(S6, LookupRegister(1)) == S7
    ensures Readers(S7, 1) == 1 && At(S7, 0) == Claimed(9, 0)
  {
    assert ByHandle(S7.handles, 1) == {1};
    assert ByThread(S7.threads, 1) == {};
  }

  // The code does not look again between its claim and its removal: here a Seal replaces the leaf in
  // between, a reader takes the new leaf, and the evictor removes that one, under the old leaf's event.
  lemma SealBetweenRemovesReadLeaf()
    ensures var before := [Seal(9)];
      var during := [EvictFind(0, 9), EvictClaim(0), Seal(9), LookupFind(1, 9), LookupAcquire(1), LookupRegister(1)];
      var s := Exec(INIT, before + during);
      && s.art == map[9 := 1] && Readers(s, 1) == 1
      && Act(s, EvictRemove(0)).art == map[] && Act(s, EvictRemove(0)).events == [0]
  {
    RaceBegins();
    RaceEnds();
    var rest6 := [LookupRegister(1)];
    var rest5 := [LookupAcquire(1)] + rest6;
    var rest4 := [LookupFind(1, 9)] + rest5;
    var rest3 := [Seal(9)] + rest4;
    var rest2 := [EvictClaim(0)] + rest3;
    var rest1 := [EvictFind(0, 9)] + rest2;
    StepTo(INIT, Seal(9), S1, rest1);
    StepTo(S1, EvictFind(0, 9), S2, rest2);
    StepTo(S2, EvictClaim(0), S3, rest3);
    StepTo(S3, Seal(9), S4, rest4);
    StepTo(S4, LookupFind(1, 9), S5, rest5);
    StepTo(S5, LookupAcquire(1), S6, rest6);
    StepTo(S6, LookupRegister(1), S7, []);
    assert rest1 == [EvictFind(0, 9), EvictClaim(0), Seal(9), LookupFind(1, 9), LookupAcquire(1), LookupRegister(1)];
  }
}

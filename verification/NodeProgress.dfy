/**
 That the racing machines do their work: what a lookup, release or eviction, and what a reserve, seal, release or sweep
 does when it runs by itself, after any interleaving.
 */
module NodeProgress {
  import opened Bytes
  import E = NodeEviction
  import H = NodeHandles

  // ----- Readers and evictors --------------------------------------------------

  lemma TwoSteps(s: E.State, a: E.Action, b: E.Action)
    ensures E.Exec(s, [a, b]) == E.Act(E.Act(s, a), b)
  {
    var t := E.Act(s, a);
    assert [a, b][1..] == [b] && [b][1..] == [];
    assert E.Exec(t, [b]) == E.Exec(E.Act(t, b), []);
  }

  lemma ThreeSteps(s: E.State, a: E.Action, b: E.Action, c: E.Action)
    ensures E.Exec(s, [a, b, c]) == E.Act(E.Act(E.Act(s, a), b), c)
  {
    assert [a, b, c][1..] == [b, c];
    TwoSteps(E.Act(s, a), b, c);
  }

  // A lookup of an indexed, unclaimed leaf takes one hold on it and registers a new handle; any other changes nothing.
  lemma LookupRuns(sched: seq<E.Action>, t: E.Thread, path: E.Path)
    requires E.At(E.Exec(E.INIT, sched), t).Idle?
    ensures var s := E.Exec(E.INIT, sched);
      var u := E.Exec(s, [E.LookupFind(t, path), E.LookupAcquire(t), E.LookupRegister(t)]);
      && E.At(u, t).Idle? && u.art == s.art && u.events == s.events
      && (if path in s.art && s.art[path] < |s.refcount| && s.refcount[s.art[path]] > 0 then
            && s.nextHandle !in s.handles && u.handles == s.handles[s.nextHandle := s.art[path]]
            && u.refcount == s.refcount[s.art[path] := s.refcount[s.art[path]] + 1]
          else u.handles == s.handles && u.refcount == s.refcount)
  {
    var s := E.Exec(E.INIT, sched);
    E.InitInv();
    E.ExecKeeps(E.INIT, sched);
    ThreeSteps(s, E.LookupFind(t, path), E.LookupAcquire(t), E.LookupRegister(t));
  }

  // A release erases its handle and gives up exactly its hold.
  lemma ReleaseRuns(sched: seq<E.Action>, t: E.Thread, h: E.Handle)
    requires E.At(E.Exec(E.INIT, sched), t).Idle? && h in E.Exec(E.INIT, sched).handles
    ensures var s := E.Exec(E.INIT, sched); var u := E.Exec(s, [E.ReleaseErase(t, h), E.ReleaseDrop(t)]); var l := s.handles[h];
      && E.At(u, t).Idle? && u.art == s.art && u.events == s.events && u.handles == s.handles - {h}
      && l < |s.refcount| && s.refcount[l] > 1 && u.refcount == s.refcount[l := s.refcount[l] - 1]
  {
    var s := E.Exec(E.INIT, sched);
    var l := s.handles[h];
    E.InitInv();
    E.ExecKeeps(E.INIT, sched);
    assert E.Counted(s, l);
    assert h in E.ByHandle(s.handles, l);
    TwoSteps(s, E.ReleaseErase(t, h), E.ReleaseDrop(t));
  }

  // An eviction of an indexed leaf that nobody reads claims it, takes its path out of the index and announces it; any
  // other changes nothing.
  lemma EvictRuns(sched: seq<E.Action>, t: E.Thread, path: E.Path)
    requires E.At(E.Exec(E.INIT, sched), t).Idle?
    ensures var s := E.Exec(E.INIT, sched);
      var u := E.Exec(s, [E.EvictFind(t, path), E.EvictClaim(t), E.EvictRemove(t)]);
      && E.At(u, t).Idle? && u.handles == s.handles
      && (if path in s.art && s.art[path] < |s.refcount| && s.refcount[s.art[path]] == 1 then
            u.art == s.art - {path} && u.events == s.events + [s.art[path]] && u.refcount == s.refcount[s.art[path] := 0]
          else u.art == s.art && u.events == s.events && u.refcount == s.refcount)
  {
    ThreeSteps(E.Exec(E.INIT, sched), E.EvictFind(t, path), E.EvictClaim(t), E.EvictRemove(t));
  }

  // ----- Handles and slots -------------------------------------------------------

  lemma Then(s: H.State, a: H.Action, rest: seq<H.Action>)
    ensures H.Exec(s, [a] + rest) == H.Exec(H.Act(s, a), rest)
  {
    assert ([a] + rest)[1..] == rest;
  }

  // The last steps of a Seal or Release.
  function Finish(t: H.Thread): seq<H.Action> {
    [H.Unpool(t)] + ([H.Push(t)] + [H.Erase(t)])
  }

  lemma FinishIs(s: H.State, t: H.Thread)
    ensures H.Exec(s, Finish(t)) == H.Act(H.Act(H.Act(s, H.Unpool(t)), H.Push(t)), H.Erase(t))
  {
    var s1 := H.Act(s, H.Unpool(t));
    var s2 := H.Act(s1, H.Push(t));
    Then(s, H.Unpool(t), [H.Push(t)] + [H.Erase(t)]);
    Then(s1, H.Push(t), [H.Erase(t)]);
    Then(s2, H.Erase(t), []);
    assert [H.Erase(t)] + [] == [H.Erase(t)];
  }

  // After any interleaving a thread that is cleaning up finishes by itself: the reservation is out of the pool, its slot,
  // if it was still there, is back on the free stack, and a Seal's handle is erased.
  lemma CleanupFinishes(s: H.State, t: H.Thread)
    requires H.At(s.threads, t).Cleaning?
    ensures var pc := H.At(s.threads, t); var u := H.Exec(s, Finish(t));
      && H.At(u.threads, t).Idle? && pc.ih !in u.pool.active && u.pool.active == s.pool.active - {pc.ih}
      && u.pool.free == s.pool.free + (if pc.ih in s.pool.active then [s.pool.active[pc.ih]] else [])
      && u.handles.live == (if pc.from.Some? then s.handles.live - {pc.from.value} else s.handles.live)
      && u.handles.commits == s.handles.commits
  {
    FinishIs(s, t);
    var pc := H.At(s.threads, t);
    if pc.ih !in s.pool.active { assert s.pool.active - {pc.ih} == s.pool.active; }
  }

  // A Reserve takes the top of the free stack for a new reservation under a new handle, or finds the stack empty.
  lemma ReserveRuns(sched: seq<H.Action>, slots: nat, t: H.Thread)
    requires H.At(H.Exec(H.Init(slots), sched).threads, t).Idle?
    ensures var s := H.Exec(H.Init(slots), sched); var u := H.Act(H.Act(H.Act(s, H.Pop(t)), H.Enter(t)), H.Register(t));
      var h, ih, k := s.handles.next, s.ledger.next, |s.pool.free| - 1;
      if s.pool.free == [] then u == s
      else
        && H.At(u.threads, t).Idle? && h !in s.handles.live && ih !in s.pool.active
        && u.pool.free == s.pool.free[..k] && u.pool.active == s.pool.active[ih := s.pool.free[k]]
        && u.handles.live == s.handles.live[h := ih] && u.handles.commits == s.handles.commits
  {
    var s := H.Exec(H.Init(slots), sched);
    H.InitOk(slots);
    H.ExecKeeps(H.Init(slots), sched);
    assert forall x | x in s.handles.live :: H.Names(s.handles.ingestOf, x, s.handles.live[x]);
  }

  // A Seal of a live handle commits it once and gives its slot and handle back; a Release does so without committing.
  lemma SealRuns(s: H.State, t: H.Thread, h: H.Handle)
    requires H.At(s.threads, t).Idle? && h in s.handles.live && s.handles.live[h] in s.pool.active
    ensures var ih := s.handles.live[h]; var u := H.Exec(H.Act(H.Act(s, H.SealBegin(t, h)), H.SealCommit(t)), Finish(t));
      && H.At(u.threads, t).Idle? && u.handles.commits == s.handles.commits + [h] && u.handles.live == s.handles.live - {h}
      && u.pool.active == s.pool.active - {ih} && u.pool.free == s.pool.free + [s.pool.active[ih]]
    ensures var ih := s.handles.live[h]; var u := H.Exec(H.Act(s, H.ReleaseBegin(t, h)), Finish(t));
      && H.At(u.threads, t).Idle? && u.handles.commits == s.handles.commits && u.handles.live == s.handles.live - {h}
      && u.pool.active == s.pool.active - {ih} && u.pool.free == s.pool.free + [s.pool.active[ih]]
  {
    CleanupFinishes(H.Act(H.Act(s, H.SealBegin(t, h)), H.SealCommit(t)), t);
    CleanupFinishes(H.Act(s, H.ReleaseBegin(t, h)), t);
  }

  // A Seal with nothing to commit, and a Reserve whose slot is too small, give everything back.
  lemma FailuresGiveBack(s: H.State, t: H.Thread, h: H.Handle)
    requires H.At(s.threads, t).Idle?
    ensures h in s.handles.live && s.handles.live[h] in s.pool.active ==>
      var ih := s.handles.live[h]; var u := H.Exec(H.Act(H.Act(s, H.SealBegin(t, h)), H.SealFail(t)), Finish(t));
      && H.At(u.threads, t).Idle? && u.handles.commits == s.handles.commits && u.handles.live == s.handles.live - {h}
      && u.pool.active == s.pool.active - {ih} && u.pool.free == s.pool.free + [s.pool.active[ih]]
    ensures s.pool.free != [] && s.ledger.next !in s.pool.active ==>
      var u := H.Exec(H.Act(H.Act(H.Act(s, H.Pop(t)), H.Enter(t)), H.Refuse(t)), Finish(t));
      && H.At(u.threads, t).Idle? && u.handles.live == s.handles.live && u.handles.commits == s.handles.commits
      && u.pool.active == s.pool.active && u.pool.free == s.pool.free
  {
    if h in s.handles.live && s.handles.live[h] in s.pool.active {
      CleanupFinishes(H.Act(H.Act(s, H.SealBegin(t, h)), H.SealFail(t)), t);
    }
    if s.pool.free != [] && s.ledger.next !in s.pool.active { RefusedReserve(s, t); }
  }

  lemma RefusedReserve(s: H.State, t: H.Thread)
    requires H.At(s.threads, t).Idle? && s.pool.free != [] && s.ledger.next !in s.pool.active
    ensures var u := H.Exec(H.Act(H.Act(H.Act(s, H.Pop(t)), H.Enter(t)), H.Refuse(t)), Finish(t));
      && H.At(u.threads, t).Idle? && u.handles.live == s.handles.live && u.handles.commits == s.handles.commits
      && u.pool.active == s.pool.active && u.pool.free == s.pool.free
  {
    var v := H.Act(H.Act(H.Act(s, H.Pop(t)), H.Enter(t)), H.Refuse(t));
    var k, ih := |s.pool.free| - 1, s.ledger.next;
    RefusedIs(s, t);
    CleanupFinishes(v, t);
    assert s.pool.active[ih := s.pool.free[k]] - {ih} == s.pool.active;
    assert s.pool.free[..k] + [s.pool.free[k]] == s.pool.free;
  }

  lemma RefusedIs(s: H.State, t: H.Thread)
    requires H.At(s.threads, t).Idle? && s.pool.free != []
    ensures var v := H.Act(H.Act(H.Act(s, H.Pop(t)), H.Enter(t)), H.Refuse(t)); var k := |s.pool.free| - 1;
      && H.At(v.threads, t) == H.Cleaning(None, s.ledger.next) && v.handles == s.handles && v.pool.free == s.pool.free[..k]
      && v.pool.active == s.pool.active[s.ledger.next := s.pool.free[k]]
  {
  }

  // The sweeper takes an overdue entry out of the pool, leaves its handle, and gives its slots back in order.
  lemma SweepRuns(s: H.State, ih: H.Ingest)
    requires ih in s.pool.active && s.pool.returned == |s.pool.swept|
    ensures var u := H.Act(H.Act(s, H.Expire(ih)), H.GiveBack);
      && u.pool.active == s.pool.active - {ih} && u.pool.free == s.pool.free + [s.pool.active[ih]]
      && u.pool.returned == |u.pool.swept| && u.handles == s.handles && u.threads == s.threads
      && u.ledger.expired == s.ledger.expired + {ih}
  {
  }
}

/**
 What holds of handles and pinned slots in every interleaving of Reserve, Seal, Release and the sweeper,
 and exactly which overlaps on one handle a caller must keep apart.
 */
module NodeRaces {
  import opened Bytes
  import opened NodeHandles

  ghost predicate Distinct<T>(xs: seq<T>) {
    forall i, j | 0 <= i < j < |xs| :: xs[i] != xs[j]
  }

  // ----- In every interleaving ---------------------------------------------

  ghost predicate Somewhere(p: Pool, threads: map<Thread, Pc>, x: Slot) {
    exists at :: Holds(p, threads, at) == Some(x)
  }

  // Each slot is in exactly one place: the free stack, a pool entry, a thread's hands or the sweeper's.
  ghost predicate EachSlotOnce(p: Pool, threads: map<Thread, Pc>, slots: nat) {
    && (forall x: Slot | x < slots :: Somewhere(p, threads, x))
    && (forall at :: Holds(p, threads, at).Some? ==> Holds(p, threads, at).value < slots)
    && (forall a, b | Holds(p, threads, a).Some? && Holds(p, threads, a) == Holds(p, threads, b) :: a == b)
  }

  lemma EachOnce(p: Pool, threads: map<Thread, Pc>)
    requires SlotsOk(p, threads)
    ensures EachSlotOnce(p, threads, |p.place|) && Distinct(p.free)
  {
    forall x: Slot | x < |p.place| ensures Somewhere(p, threads, x) {
      assert Holds(p, threads, p.place[x]) == Some(x);
    }
    forall i, j | 0 <= i < j < |p.free| ensures p.free[i] != p.free[j] {
      assert Holds(p, threads, FreeAt(i)).Some? && Holds(p, threads, FreeAt(j)).Some?;
    }
  }

  lemma SlotsConserved(slots: nat, sched: seq<Action>)
    ensures var s := Exec(Init(slots), sched);
      && EachSlotOnce(s.pool, s.threads, slots) && Distinct(s.pool.free)
      && Distinct(s.ledger.released)
      && (forall ih | 1 <= ih < s.ledger.next :: ih in s.pool.active <==> ih !in s.ledger.released)
  {
    InitOk(slots);
    ExecKeeps(Init(slots), sched);
    EachOnce(Exec(Init(slots), sched).pool, Exec(Init(slots), sched).threads);
  }

  ghost predicate Quiet(s: State) {
    forall t :: At(s.threads, t).Idle?
  }

  // Between calls every pool entry has one live handle, and a live handle without an entry lost it to the sweeper.
  lemma QuietMatches(slots: nat, sched: seq<Action>)
    requires Quiet(Exec(Init(slots), sched))
    ensures var s := Exec(Init(slots), sched);
      && (forall ih | ih in s.pool.active :: exists h :: h in s.handles.live && s.handles.live[h] == ih)
      && (forall g, h | g in s.handles.live && h in s.handles.live && s.handles.live[g] == s.handles.live[h] :: g == h)
      && (forall h | h in s.handles.live :: s.handles.live[h] in s.pool.active || s.handles.live[h] in s.ledger.expired)
  {
    InitOk(slots);
    ExecKeeps(Init(slots), sched);
    var s := Exec(Init(slots), sched);
    forall ih | ih in s.pool.active ensures exists h :: h in s.handles.live && s.handles.live[h] == ih {
      var o := s.ledger.owner[ih];
      assert OwnerOk(s.pool.active, s.handles.handleOf, s.handles.live, s.threads, ih, o);
      assert o.Table? && s.handles.live[o.h] == ih;
    }
    forall h | h in s.handles.live
      ensures s.handles.live[h] in s.pool.active || s.handles.live[h] in s.ledger.expired
      ensures Has(s.ledger.owner, s.handles.live[h], Table(h))
    {
      assert HandleOk(s.pool.active, s.ledger.expired, s.ledger.owner, s.handles.ingestOf, s.handles.eraser, s.threads,
                      h, s.handles.live[h]);
    }
  }

  lemma GoneStep(s: State, a: Action, h: Handle)
    requires h < s.handles.next && h !in s.handles.live
    ensures h < Act(s, a).handles.next && h !in Act(s, a).handles.live
  {
  }

  // A handle once gone is never live again.
  lemma {:induction false} GoneStaysGone(s: State, sched: seq<Action>, h: Handle)
    requires h < s.handles.next && h !in s.handles.live
    ensures h !in Exec(s, sched).handles.live
    decreases |sched|
  {
    if sched != [] {
      GoneStep(s, sched[0], h);
      GoneStaysGone(Act(s, sched[0]), sched[1..], h);
    }
  }

  // ----- Which overlaps matter ---------------------------------------------

  predicate Seals(pc: Pc, h: Handle) {
    pc.Sealing? && pc.h == h
  }

  // A Seal of h that has not yet erased it.
  predicate Works(pc: Pc, h: Handle) {
    Seals(pc, h) || Cleanup(pc, h)
  }

  ghost predicate AnyWorks(threads: map<Thread, Pc>, h: Handle) {
    exists t :: t in threads && Works(threads[t], h)
  }

  ghost predicate AnySeals(threads: map<Thread, Pc>, h: Handle) {
    exists t :: t in threads && Seals(threads[t], h)
  }

  ghost predicate AnyReads(threads: map<Thread, Pc>, ih: Ingest) {
    exists t :: t in threads && threads[t].Sealing? && threads[t].ih == ih
  }

  // A Seal overlaps another Seal of its handle, and one whose reservation is gone; a Release, and the sweeper, only a
  // Seal that has yet to commit.
  ghost predicate Overlaps(s: State, a: Action) {
    match a
    case SealBegin(u, h) =>
      At(s.threads, u).Idle? && h in s.handles.live && (s.handles.live[h] !in s.pool.active || AnyWorks(s.threads, h))
    case ReleaseBegin(u, h) => At(s.threads, u).Idle? && h in s.handles.live && AnySeals(s.threads, h)
    case Expire(ih) => ih in s.pool.active && AnyReads(s.threads, ih)
    case _ => false
  }

  ghost predicate Apart(s: State, sched: seq<Action>)
    decreases |sched|
  {
    sched == [] || (!Overlaps(s, sched[0]) && Apart(Act(s, sched[0]), sched[1..]))
  }

  // No handle is committed twice, and a Seal that has yet to commit still holds its slot.
  ghost predicate Sound(s: State) {
    Distinct(s.handles.commits)
    && (forall t | t in s.threads && s.threads[t].Sealing? :: s.threads[t].ih in s.pool.active)
  }

  // Every Seal that has yet to commit is alone on a live handle with a slot.
  ghost predicate SealAlone(active: map<Ingest, Slot>, live: map<Handle, Ingest>, commits: seq<Handle>,
                            threads: map<Thread, Pc>, t: Thread, pc: Pc) {
    pc.Sealing? ==>
      && pc.h in live && live[pc.h] == pc.ih && pc.ih in active && pc.h !in commits
      && (forall u | u in threads && Works(threads[u], pc.h) :: u == t)
  }

  ghost predicate Alone(active: map<Ingest, Slot>, live: map<Handle, Ingest>, commits: seq<Handle>, threads: map<Thread, Pc>) {
    && Distinct(commits)
    && (forall t | t in threads :: SealAlone(active, live, commits, threads, t, threads[t]))
  }

  // A thread that begins no Seal and commits nothing.
  lemma AloneMove(active: map<Ingest, Slot>, live: map<Handle, Ingest>, commits: seq<Handle>, threads: map<Thread, Pc>,
                  t: Thread, pc: Pc)
    requires Alone(active, live, commits, threads) && !pc.Sealing?
    requires forall h | Works(pc, h) :: Works(At(threads, t), h)
    ensures Alone(active, live, commits, threads[t := pc])
  {
  }

  lemma AloneCommit(active: map<Ingest, Slot>, live: map<Handle, Ingest>, commits: seq<Handle>, threads: map<Thread, Pc>,
                    t: Thread, h: Handle, ih: Ingest)
    requires Alone(active, live, commits, threads) && At(threads, t) == Sealing(h, ih)
    ensures Alone(active, live, commits + [h], threads[t := Cleaning(Some(h), ih)])
  {
    assert SealAlone(active, live, commits, threads, t, threads[t]);
  }

  lemma AloneBegin(active: map<Ingest, Slot>, live: map<Handle, Ingest>, commits: seq<Handle>, threads: map<Thread, Pc>,
                   t: Thread, h: Handle)
    requires Alone(active, live, commits, threads) && At(threads, t).Idle? && h in live && live[h] in active
    requires h !in commits && !AnyWorks(threads, h)
    ensures Alone(active, live, commits, threads[t := Sealing(h, live[h])])
  {
  }

  // Removing a pool entry that no Seal still needs.
  lemma AloneDrop(active: map<Ingest, Slot>, live: map<Handle, Ingest>, commits: seq<Handle>, threads: map<Thread, Pc>, ih: Ingest)
    requires Alone(active, live, commits, threads) && !AnyReads(threads, ih)
    ensures Alone(active - {ih}, live, commits, threads)
  {
  }

  // Removing a handle that no Seal still needs.
  lemma AloneErase(active: map<Ingest, Slot>, live: map<Handle, Ingest>, commits: seq<Handle>, threads: map<Thread, Pc>, h: Handle)
    requires Alone(active, live, commits, threads) && !AnySeals(threads, h)
    ensures Alone(active, live - {h}, commits, threads)
  {
  }

  lemma AloneGrow(active: map<Ingest, Slot>, live: map<Handle, Ingest>, commits: seq<Handle>, threads: map<Thread, Pc>,
                  ih: Ingest, slot: Slot, h: Handle)
    requires Alone(active, live, commits, threads) && h !in live
    ensures Alone(active[ih := slot], live, commits, threads) && Alone(active, live[h := ih], commits, threads)
  {
  }

  ghost predicate AllAlone(s: State) {
    Alone(s.pool.active, s.handles.live, s.handles.commits, s.threads)
  }

  lemma BeginAlone(s: State, t: Thread, h: Handle)
    requires Inv(s) && AllAlone(s) && !Overlaps(s, SealBegin(t, h))
    ensures AllAlone(Act(s, SealBegin(t, h)))
  {
    if At(s.threads, t).Idle? && h in s.handles.live {
      if h in s.handles.commits {
        assert CommitOk(s.handles.ingestOf, s.handles.sealer, s.handles.live, s.threads, h);
        assert Works(s.threads[s.handles.sealer[h]], h);
        assert false;
      }
      AloneBegin(s.pool.active, s.handles.live, s.handles.commits, s.threads, t, h);
    }
  }

  // In a run without overlaps, nobody who is about to erase a pool entry takes it from a Seal that has yet to commit.
  lemma NoneReads(s: State, t: Thread)
    requires Inv(s) && AllAlone(s) && At(s.threads, t).Cleaning?
    ensures !AnyReads(s.threads, s.threads[t].ih)
  {
    var pc := s.threads[t];
    assert PcOk(s.pool.active, s.ledger.owner, s.handles.ingestOf, t, pc);
    assert pc.from.Some? ==> Works(pc, pc.from.value);
    forall u | u in s.threads ensures !(s.threads[u].Sealing? && s.threads[u].ih == pc.ih) {
      assert SealAlone(s.pool.active, s.handles.live, s.handles.commits, s.threads, u, s.threads[u]);
    }
  }

  lemma UnpoolAlone(s: State, t: Thread)
    requires Inv(s) && AllAlone(s)
    ensures AllAlone(Act(s, Unpool(t)))
  {
    var active, live, commits, threads := s.pool.active, s.handles.live, s.handles.commits, s.threads;
    if At(threads, t).Cleaning? {
      var ih, pc := threads[t].ih, Act(s, Unpool(t)).threads[t];
      NoneReads(s, t);
      AloneDrop(active, live, commits, threads, ih);
      AloneMove(if ih in active then active - {ih} else active, live, commits, threads, t, pc);
    }
  }

  lemma EraseAlone(s: State, t: Thread)
    requires Inv(s) && AllAlone(s)
    ensures AllAlone(Act(s, Erase(t)))
  {
    var active, live, commits, threads := s.pool.active, s.handles.live, s.handles.commits, s.threads;
    if At(threads, t).Erasing? {
      var h := threads[t].h;
      assert Works(threads[t], h);
      forall u | u in threads ensures !Seals(threads[u], h) {
        assert SealAlone(active, live, commits, threads, u, threads[u]);
      }
      AloneErase(active, live, commits, threads, h);
      AloneMove(active, live - {h}, commits, threads, t, Idle);
    }
  }

  lemma ReleaseAlone(s: State, t: Thread, h: Handle)
    requires AllAlone(s) && !Overlaps(s, ReleaseBegin(t, h))
    ensures AllAlone(Act(s, ReleaseBegin(t, h)))
  {
    if At(s.threads, t).Idle? && h in s.handles.live {
      AloneErase(s.pool.active, s.handles.live, s.handles.commits, s.threads, h);
      AloneMove(s.pool.active, s.handles.live - {h}, s.handles.commits, s.threads, t, Cleaning(None, s.handles.live[h]));
    }
  }

  lemma ReserveAlone(s: State, a: Action)
    requires Inv(s) && AllAlone(s) && (a.Enter? || a.Register?)
    ensures AllAlone(Act(s, a))
  {
    var active, live, commits, threads := s.pool.active, s.handles.live, s.handles.commits, s.threads;
    if a.Enter? && At(threads, a.t).Popped? {
      AloneGrow(active, live, commits, threads, s.ledger.next, At(threads, a.t).slot, s.handles.next);
      AloneMove(active[s.ledger.next := At(threads, a.t).slot], live, commits, threads, a.t, Reserved(s.ledger.next));
    } else if a.Register? && At(threads, a.t).Reserved? {
      Unregistered(active, s.ledger, s.handles, threads, a.t, At(threads, a.t).ih);
      AloneGrow(active, live, commits, threads, At(threads, a.t).ih, 0, s.handles.next);
      AloneMove(active, live[s.handles.next := At(threads, a.t).ih], commits, threads, a.t, Idle);
    }
  }

  lemma ActAlone(s: State, a: Action)
    requires Inv(s) && AllAlone(s) && !Overlaps(s, a)
    ensures AllAlone(Act(s, a))
  {
    match a
    case SealBegin(t, h) => BeginAlone(s, t, h);
    case SealCommit(t) =>
      if At(s.threads, t).Sealing? {
        AloneCommit(s.pool.active, s.handles.live, s.handles.commits, s.threads, t, s.threads[t].h, s.threads[t].ih);
      }
    case Unpool(t) => UnpoolAlone(s, t);
    case Erase(t) => EraseAlone(s, t);
    case ReleaseBegin(t, h) => ReleaseAlone(s, t, h);
    case Enter(_) => ReserveAlone(s, a);
    case Register(_) => ReserveAlone(s, a);
    case Expire(ih) =>
      if ih in s.pool.active { AloneDrop(s.pool.active, s.handles.live, s.handles.commits, s.threads, ih); }
    case GiveBack =>
    case _ =>
      if Act(s, a) != s {
        AloneMove(s.pool.active, s.handles.live, s.handles.commits, s.threads, a.t, Act(s, a).threads[a.t]);
      }
  }

  lemma {:induction false} ApartIsSound(s: State, sched: seq<Action>)
    requires Inv(s) && AllAlone(s) && Apart(s, sched)
    ensures Inv(Exec(s, sched)) && AllAlone(Exec(s, sched)) && Sound(Exec(s, sched))
    decreases |sched|
  {
    if sched != [] {
      ActKeeps(s, sched[0]);
      ActAlone(s, sched[0]);
      ApartIsSound(Act(s, sched[0]), sched[1..]);
    } else {
      forall t | t in s.threads && s.threads[t].Sealing? ensures s.threads[t].ih in s.pool.active {
        assert SealAlone(s.pool.active, s.handles.live, s.handles.commits, s.threads, t, s.threads[t]);
      }
    }
  }

  lemma Committed(s: State, t: Thread, h: Handle, ih: Ingest)
    requires At(s.threads, t) == Sealing(h, ih)
    ensures Apart(s, [SealCommit(t)]) && Exec(s, [SealCommit(t)]) == Act(s, SealCommit(t))
    ensures Act(s, SealCommit(t)).handles.commits == s.handles.commits + [h]
    ensures Act(s, SealCommit(t)).threads == s.threads[t := Cleaning(Some(h), ih)]
  {
  }

  // Two Seals of one handle, both past the copy of its state, both commit it.
  lemma BothCommit(s: State, t: Thread, u: Thread, h: Handle)
    requires t != u && At(s.threads, t).Sealing? && At(s.threads, u).Sealing? && At(s.threads, t).h == At(s.threads, u).h == h
    ensures Apart(s, [SealCommit(t), SealCommit(u)]) && !Sound(Exec(s, [SealCommit(t), SealCommit(u)]))
  {
    var s1 := Act(s, SealCommit(t));
    var s2 := Act(s1, SealCommit(u));
    Committed(s, t, h, s.threads[t].ih);
    Committed(s1, u, h, s.threads[u].ih);
    assert [SealCommit(t), SealCommit(u)][1..] == [SealCommit(u)];
    assert Exec(s, [SealCommit(t), SealCommit(u)]) == s2;
    var n := |s.handles.commits|;
    assert s2.handles.commits[n] == s2.handles.commits[n + 1] == h;
  }

  // Erasing the pool entry that a Seal has yet to read.
  lemma TakenAway(s: State, t: Thread, u: Thread, from: Option<Handle>, h: Handle, ih: Ingest)
    requires At(s.threads, t) == Cleaning(from, ih) && At(s.threads, u) == Sealing(h, ih)
    ensures Apart(s, [Unpool(t)]) && !Sound(Exec(s, [Unpool(t)]))
  {
    var s1 := Act(s, Unpool(t));
    assert Exec(s, [Unpool(t)]) == s1 && [Unpool(t)][1..] == [];
    assert s1.threads[u] == Sealing(h, ih) && ih !in s1.pool.active;
  }

  lemma SealOverlapBreaks(s: State, u: Thread, h: Handle) returns (after: seq<Action>)
    requires Inv(s) && Overlaps(s, SealBegin(u, h))
    ensures Apart(Act(s, SealBegin(u, h)), after) && !Sound(Exec(Act(s, SealBegin(u, h)), after))
  {
    var s1, ih := Act(s, SealBegin(u, h)), s.handles.live[h];
    if ih !in s.pool.active {
      after := [];
      assert s1.threads[u] == Sealing(h, ih);
    } else {
      assert HandleOk(s.pool.active, s.ledger.expired, s.ledger.owner, s.handles.ingestOf, s.handles.eraser, s.threads, h, ih);
      var t :| t in s.threads && Works(s.threads[t], h);
      assert PcOk(s.pool.active, s.ledger.owner, s.handles.ingestOf, t, s.threads[t]);
      if s.threads[t].Sealing? {
        after := [SealCommit(t), SealCommit(u)];
        BothCommit(s1, t, u, h);
      } else {
        after := [Unpool(t)];
        TakenAway(s1, t, u, Some(h), h, ih);
      }
    }
  }

  lemma ReleaseOverlapBreaks(s: State, u: Thread, h: Handle)
    requires Inv(s) && Overlaps(s, ReleaseBegin(u, h))
    ensures Apart(Act(s, ReleaseBegin(u, h)), [Unpool(u)]) && !Sound(Exec(Act(s, ReleaseBegin(u, h)), [Unpool(u)]))
  {
    var ih := s.handles.live[h];
    assert HandleOk(s.pool.active, s.ledger.expired, s.ledger.owner, s.handles.ingestOf, s.handles.eraser, s.threads, h, ih);
    var t :| t in s.threads && Seals(s.threads[t], h);
    assert PcOk(s.pool.active, s.ledger.owner, s.handles.ingestOf, t, s.threads[t]);
    TakenAway(Act(s, ReleaseBegin(u, h)), u, t, None, h, ih);
  }

  lemma OverlapBreaks(s: State, a: Action) returns (after: seq<Action>)
    requires Inv(s) && Overlaps(s, a)
    ensures Apart(Act(s, a), after) && !Sound(Exec(Act(s, a), after))
  {
    match a
    case SealBegin(u, h) => after := SealOverlapBreaks(s, u, h);
    case ReleaseBegin(u, h) =>
      ReleaseOverlapBreaks(s, u, h);
      after := [Unpool(u)];
    case Expire(ih) =>
      after := [];
      var t :| t in s.threads && s.threads[t].Sealing? && s.threads[t].ih == ih;
      assert Act(s, a).threads[t] == s.threads[t];
  }

  // After any run without overlaps, a step keeps every further run without overlaps sound if and only if it overlaps nothing.
  lemma SoundIff(slots: nat, before: seq<Action>, a: Action)
    requires Apart(Init(slots), before)
    ensures var s := Exec(Init(slots), before);
      (forall after | Apart(Act(s, a), after) :: Sound(Exec(Act(s, a), after))) <==> !Overlaps(s, a)
  {
    InitOk(slots);
    ApartIsSound(Init(slots), before);
    var s := Exec(Init(slots), before);
    if Overlaps(s, a) {
      var after := OverlapBreaks(s, a);
    } else {
      ActKeeps(s, a);
      ActAlone(s, a);
      forall after | Apart(Act(s, a), after) ensures Sound(Exec(Act(s, a), after)) {
        ApartIsSound(Act(s, a), after);
      }
    }
  }
}

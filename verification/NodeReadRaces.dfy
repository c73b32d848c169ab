/**
 Which atomic steps take a leaf that is being read out of the index, over every interleaving of readers,
 seals and evictors.
 */
module NodeReadRaces {
  import opened NodeEviction

  ghost predicate Indexed(art: map<Path, Leaf>, l: Leaf) {
    exists p :: p in art && art[p] == l
  }

  predicate Reading(pc: Pc) {
    pc.Held? || pc.Releasing?
  }

  // A registered handle, or a thread between acquire and drop, reads the leaf.
  ghost predicate IsRead(handles: map<Handle, Leaf>, threads: map<Thread, Pc>, l: Leaf) {
    (exists h :: h in handles && handles[h] == l) || (exists t :: t in threads && Reading(threads[t]) && threads[t].leaf == l)
  }

  ghost predicate ReadIndexed(art: map<Path, Leaf>, handles: map<Handle, Leaf>, threads: map<Thread, Pc>) {
    && (forall h | h in handles :: Indexed(art, handles[h]))
    && (forall t | t in threads && Reading(threads[t]) :: Indexed(art, threads[t].leaf))
  }

  // Every leaf that is being read is in the index.
  ghost predicate ReadersIndexed(s: State) {
    ReadIndexed(s.art, s.handles, s.threads)
  }

  // A Seal of a path whose leaf is read; an evictor's remove of such a path, which it does not look at again after
  // its claim; a lookup that acquires a leaf replaced since it was found.
  ghost predicate Strands(s: State, a: Action) {
    match a
    case Seal(path) => path in s.art && IsRead(s.handles, s.threads, s.art[path])
    case EvictRemove(t) =>
      At(s, t).Claimed? && At(s, t).path in s.art && IsRead(s.handles, s.threads, s.art[At(s, t).path])
    case LookupAcquire(t) =>
      At(s, t).Found? && At(s, t).leaf < |s.refcount| && s.refcount[At(s, t).leaf] != 0 && !Indexed(s.art, At(s, t).leaf)
    case _ => false
  }

  // Each leaf is indexed at one path at most.
  ghost predicate OnePath(art: map<Path, Leaf>) {
    forall p, q | p in art && q in art && p != q :: art[p] != art[q]
  }

  // ----- One step ----------------------------------------------------------

  // Taking path out of the index, or giving it a new leaf, leaves exactly the other leaves indexed.
  lemma OthersStay(art: map<Path, Leaf>, art': map<Path, Leaf>, path: Path, l: Leaf)
    requires OnePath(art) && Indexed(art, l) && art - {path} == art' - {path} && (path in art' ==> art'[path] != l)
    ensures Indexed(art', l) <==> !(path in art && art[path] == l)
  {
    assert forall p | p != path :: p in art <==> p in art - {path};
    assert forall p | p != path :: p in art' <==> p in art' - {path};
    assert forall p | p != path && p in art :: art[p] == (art' - {path})[p] == art'[p];
    if !(path in art && art[path] == l) {
      var p :| p in art && art[p] == l;
      assert p in art' && art'[p] == l;
    }
  }

  lemma ArtIff(art: map<Path, Leaf>, art': map<Path, Leaf>, path: Path, handles: map<Handle, Leaf>, threads: map<Thread, Pc>)
    requires OnePath(art) && ReadIndexed(art, handles, threads) && art - {path} == art' - {path}
    requires path in art' ==> !Indexed(art, art'[path])
    ensures ReadIndexed(art', handles, threads) <==> !(path in art && IsRead(handles, threads, art[path]))
  {
    forall h | h in handles ensures Indexed(art', handles[h]) <==> !(path in art && art[path] == handles[h]) {
      OthersStay(art, art', path, handles[h]);
    }
    forall t | t in threads && Reading(threads[t])
      ensures Indexed(art', threads[t].leaf) <==> !(path in art && art[path] == threads[t].leaf)
    {
      OthersStay(art, art', path, threads[t].leaf);
    }
  }

  lemma SealIff(s: State, path: Path)
    requires Known(s) && OnePath(s.art) && ReadersIndexed(s)
    ensures ReadersIndexed(Act(s, Seal(path))) <==> !Strands(s, Seal(path))
  {
    var u := Act(s, Seal(path));
    assert s.art - {path} == u.art - {path};
    ArtIff(s.art, u.art, path, s.handles, s.threads);
  }

  lemma RemoveIff(s: State, t: Thread)
    requires OnePath(s.art) && ReadersIndexed(s) && At(s, t).Claimed?
    ensures ReadersIndexed(Act(s, EvictRemove(t))) <==> !Strands(s, EvictRemove(t))
  {
    var u, path := Act(s, EvictRemove(t)), At(s, t).path;
    assert u.art == s.art - {path};
    assert s.art - {path} == u.art - {path};
    ArtIff(s.art, u.art, path, s.handles, s.threads);
    assert ReadIndexed(u.art, s.handles, s.threads[t := Idle]) <==> ReadIndexed(u.art, s.handles, s.threads) by {
      assert forall r | r != t && r in s.threads :: s.threads[t := Idle][r] == s.threads[r];
    }
  }

  lemma AcquireIff(s: State, t: Thread)
    requires ReadersIndexed(s)
    ensures ReadersIndexed(Act(s, LookupAcquire(t))) <==> !Strands(s, LookupAcquire(t))
  {
    var u := Act(s, LookupAcquire(t));
    if At(s, t).Found? { assert t in u.threads; }
  }

  lemma OtherStays(s: State, a: Action)
    requires ReadersIndexed(s) && !a.Seal? && !a.LookupAcquire? && !a.EvictRemove?
    ensures ReadersIndexed(Act(s, a))
  {
    assert Act(s, a).art == s.art;
  }

  // A step keeps every leaf being read in the index if and only if it is none of the three.
  lemma StepIff(s: State, a: Action)
    requires Known(s) && OnePath(s.art) && ReadersIndexed(s)
    ensures ReadersIndexed(Act(s, a)) <==> !Strands(s, a)
  {
    match a
    case Seal(path) => SealIff(s, path);
    case EvictRemove(t) => if At(s, t).Claimed? { RemoveIff(s, t); }
    case LookupAcquire(t) => AcquireIff(s, t);
    case _ => OtherStays(s, a);
  }

  lemma ActOnePath(s: State, a: Action)
    requires Known(s) && OnePath(s.art)
    ensures OnePath(Act(s, a).art)
  {
  }

  // ----- Whole runs --------------------------------------------------------

  ghost predicate AlwaysIndexed(s: State, sched: seq<Action>)
    decreases |sched|
  {
    ReadersIndexed(s) && (sched == [] || AlwaysIndexed(Act(s, sched[0]), sched[1..]))
  }

  ghost predicate NeverStrands(s: State, sched: seq<Action>)
    decreases |sched|
  {
    sched == [] || (!Strands(s, sched[0]) && NeverStrands(Act(s, sched[0]), sched[1..]))
  }

  lemma {:induction false} AlwaysIff(s: State, sched: seq<Action>)
    requires Known(s) && OnePath(s.art) && ReadersIndexed(s)
    ensures AlwaysIndexed(s, sched) <==> NeverStrands(s, sched)
    decreases |sched|
  {
    if sched != [] {
      StepIff(s, sched[0]);
      if !Strands(s, sched[0]) {
        ActKnown(s, sched[0]);
        ActOnePath(s, sched[0]);
        AlwaysIff(Act(s, sched[0]), sched[1..]);
      }
    }
  }

  // An interleaving keeps every leaf being read in the index throughout if and only if none of its steps is one of the
  // three.
  lemma ReadLeavesStayIff(sched: seq<Action>)
    ensures AlwaysIndexed(INIT, sched) <==> NeverStrands(INIT, sched)
  {
    AlwaysIff(INIT, sched);
  }
}

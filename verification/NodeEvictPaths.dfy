/**
 Whether a DRAM eviction of a key accounts for every leaf sealed under it. The node remembers one path per
 key, the last one sealed, so leaves of the key at other paths are out of reach.
 */
module NodeEvictPaths {
  import opened NodeModel
  import opened NodeSafety
  import opened NodeEvictKeys

  predicate HasKey(ix: Index, p: Path, k: Key) {
    p in ix.art && ix.art[p] < |ix.leaves| && ix.leaves[ix.art[p]].locator.key == k
  }

  // Every indexed leaf of the key is queued for deferred eviction.
  ghost predicate AllQueued(ix: Index, k: Key) {
    forall p | HasKey(ix, p, k) :: Deferred(p, ix.art[p]) in ix.deferred
  }

  ghost predicate OnePath(allowed: Allowed) {
    forall p: Path, q: Path, k: Key | allowed(p, k) && allowed(q, k) :: p == q
  }

  // ----- One path per key is enough ----------------------------------------

  // The leaf at p is where its key points, or queued.
  predicate Tracked(ix: Index, p: Path, k: Key) {
    HasKey(ix, p, k) ==> (k in ix.evictIndex && ix.evictIndex[k] == p) || Deferred(p, ix.art[p]) in ix.deferred
  }

  ghost predicate AllTracked(ix: Index) {
    forall p, k :: Tracked(ix, p, k)
  }

  lemma SealTracks(ix: Index, st: HandleState, bytes: nat, path: Path, refused: bool, allowed: Allowed)
    requires AllTracked(ix) && Paired(ix, allowed) && OnePath(allowed) && allowed(path, st.locator.key)
    ensures AllTracked(Committed(ix, st, bytes, path, refused))
  {
    var iy := Committed(ix, st, bytes, path, refused);
    forall p, k ensures Tracked(iy, p, k) {
      assert Tracked(ix, p, k);
    }
  }

  lemma EvictTracks(ix: Index, key: Key)
    requires AllTracked(ix) && ArtOk(ix)
    ensures AllTracked(OnDramEvict(ix, key))
  {
    var iy := OnDramEvict(ix, key);
    forall p, k ensures Tracked(iy, p, k) {
      assert Tracked(ix, p, k);
    }
  }

  lemma {:induction false} KeepReadHas(ix: Index, work: seq<Deferred>, e: Deferred)
    ensures e in KeepRead(ix, work) <==> e in work && StillRead(ix, e)
  {
    if work != [] {
      KeepReadHas(ix, work[1..], e);
      assert work == [work[0]] + work[1..];
    }
  }

  lemma SweepTracks(ix: Index)
    requires AllTracked(ix) && ArtOk(ix)
    ensures AllTracked(Sweep(ix))
  {
    SweepShrinks(ix, ix.deferred);
    SweepKeepsKeys(ix, ix.deferred);
    forall p, k ensures Tracked(Sweep(ix), p, k) {
      assert Tracked(ix, p, k);
      SweepTracksAt(ix, p, k);
    }
  }

  // Of the queued leaves a pass leaves in the index exactly those still read, and those it keeps queued.
  lemma SweepTracksAt(ix: Index, p: Path, k: Key)
    requires Tracked(ix, p, k) && ArtOk(ix) && Shrinks(ix, SweepIndex(ix, ix.deferred))
    requires SweepIndex(ix, ix.deferred).evictIndex == ix.evictIndex
    ensures Tracked(Sweep(ix), p, k)
  {
    if HasKey(Sweep(ix), p, k) {
      var e := Deferred(p, ix.art[p]);
      SweepRemovesExactly(ix, ix.deferred, p);
      SweepKeepsExactly(ix, ix.deferred);
      KeepReadHas(ix, ix.deferred, e);
      assert HasKey(ix, p, k) && Sweep(ix).art[p] == ix.art[p];
      assert e in ix.deferred ==> StillRead(ix, e);
    }
  }

  lemma {:induction false} SweepKeepsKeys(ix: Index, work: seq<Deferred>)
    ensures SweepIndex(ix, work).evictIndex == ix.evictIndex
    decreases |work|
  {
    if work != [] {
      SweepKeepsKeys(if Current(ix, work[0]) then TryEvictNow(ix, work[0].path) else ix, work[1..]);
    }
  }

  lemma SameTracks(ix: Index, iy: Index)
    requires AllTracked(ix) && Shrinks(ix, iy) && iy.evictIndex == ix.evictIndex && iy.deferred == ix.deferred
    ensures AllTracked(iy)
  {
    forall p, k ensures Tracked(iy, p, k) {
      assert Tracked(ix, p, k);
    }
  }

  lemma OtherTracks(s: State, op: Op, slotBytes: nat, hash: seq<Token> -> Chunk)
    requires AllTracked(s.index) && Sealing(s, op, hash).None? && !op.OpDramEvict? && !op.OpSweep?
    ensures AllTracked(Act(s, op, slotBytes, hash).index)
  {
    SameTracks(s.index, Act(s, op, slotBytes, hash).index);
  }

  lemma ActTracks(s: State, op: Op, allowed: Allowed, slotBytes: nat, hash: seq<Token> -> Chunk)
    requires AllTracked(s.index) && Paired(s.index, allowed) && OnePath(allowed) && ArtOk(s.index)
    requires Sealing(s, op, hash).Some? ==> allowed(Sealing(s, op, hash).value.0, Sealing(s, op, hash).value.1)
    ensures AllTracked(Act(s, op, slotBytes, hash).index)
  {
    if Sealing(s, op, hash).Some? {
      var st := s.handles[op.h];
      SealTracks(s.index, st, Watermark(s.pool, st.ingest), Sealing(s, op, hash).value.0, op.refused, allowed);
    } else if op.OpDramEvict? {
      EvictTracks(s.index, op.key);
    } else if op.OpSweep? {
      SweepTracks(s.index);
    } else {
      OtherTracks(s, op, slotBytes, hash);
    }
  }

  lemma {:induction false} ExecTracks(s: State, ops: seq<Op>, allowed: Allowed, slotBytes: nat, hash: seq<Token> -> Chunk)
    requires AllTracked(s.index) && Paired(s.index, allowed) && CountInv(s) && OnePath(allowed)
    requires Seals(s, ops, allowed, slotBytes, hash)
    ensures AllTracked(Exec(s, ops, slotBytes, hash).index) && CountInv(Exec(s, ops, slotBytes, hash))
    decreases |ops|
  {
    if ops != [] {
      ActTracks(s, ops[0], allowed, slotBytes, hash);
      ActPairs(s, ops[0], allowed, slotBytes, hash);
      ActCounts(s, ops[0], slotBytes, hash);
      ExecTracks(Act(s, ops[0], slotBytes, hash), ops[1..], allowed, slotBytes, hash);
    }
  }

  lemma EvictQueuesAll(ix: Index, k: Key)
    requires AllTracked(ix) && ArtOk(ix)
    ensures AllQueued(OnDramEvict(ix, k), k)
  {
    EvictTracks(ix, k);
    assert k !in OnDramEvict(ix, k).evictIndex;
    forall p | HasKey(OnDramEvict(ix, k), p, k)
      ensures Deferred(p, OnDramEvict(ix, k).art[p]) in OnDramEvict(ix, k).deferred
    {
      assert Tracked(OnDramEvict(ix, k), p, k);
    }
  }

  // ----- Two paths for one key ---------------------------------------------

  lemma SealAsMoves(s: State, locator: Locator, path: Path, slotBytes: nat, hash: seq<Token> -> Chunk)
    requires s.pool.free != [] && slotBytes >= 1
    ensures var t := Exec(s, SealAs(s.nextHandle, locator, path), slotBytes, hash);
      && (forall p | p in s.index.art && p != path :: p in t.index.art && t.index.art[p] == s.index.art[p])
      && s.index.leaves <= t.index.leaves && t.index.deferred == s.index.deferred
      && t.index.evictIndex == s.index.evictIndex[locator.key := path]
  {
    var ops := SealAs(s.nextHandle, locator, path);
    var s1 := Act(s, ops[0], slotBytes, hash);
    var s2 := Act(s1, ops[1], slotBytes, hash);
    assert s1.index == s.index && s1.handles[s.nextHandle] == IngestH(locator, s.pool.next, 0);
    assert Exec(s, ops, slotBytes, hash) == Exec(s1, ops[1..], slotBytes, hash) == Exec(s2, [], slotBytes, hash);
  }

  lemma FirstSeal(slots: nat, locator: Locator, path: Path, slotBytes: nat, hash: seq<Token> -> Chunk)
    requires slots >= 1 && slotBytes >= 1 && path != []
    ensures var t := Exec(Init(slots), SealAs(1, locator, path), slotBytes, hash);
      && HasKey(t.index, path, locator.key) && t.index.deferred == []
      && t.pool.free != [] && t.nextHandle == 2
  {
    SealAsDoes(Init(slots), locator, path, slotBytes, hash);
    SealAsMoves(Init(slots), locator, path, slotBytes, hash);
  }

  // Evicting a key leaves its leaf at a path other than the last one sealed neither evicted nor queued.
  lemma OtherPathLeft(ix: Index, k: Key, p: Path, q: Path)
    requires HasKey(ix, p, k) && ix.deferred == [] && k in ix.evictIndex && ix.evictIndex[k] == q && p != q
    ensures HasKey(OnDramEvict(ix, k), p, k) && !AllQueued(OnDramEvict(ix, k), k)
  {
    var iy := OnDramEvict(ix, k);
    assert HasKey(iy, p, k) && Deferred(p, iy.art[p]) !in iy.deferred;
  }

  // For any key and two paths, sealing it at one and then at the other, or at an empty path, loses track of the first.
  lemma TwoPathsForOneKey(slots: nat, slotBytes: nat, hash: seq<Token> -> Chunk, allowed: Allowed,
                          p: Path, q: Path, k: Key) returns (ops: seq<Op>)
    requires slots >= 1 && slotBytes >= 1 && p != [] && p != q && allowed(p, k) && allowed(q, k)
    ensures Seals(Init(slots), ops, allowed, slotBytes, hash)
    ensures !AllQueued(OnDramEvict(Exec(Init(slots), ops, slotBytes, hash).index, k), k)
  {
    var s, a := Init(slots), Locator(0, k);
    var t := Exec(s, SealAs(1, a, p), slotBytes, hash);
    FirstSeal(slots, a, p, slotBytes, hash);
    var last := SealAs(2, a, q);
    assert last + [] == last;
    SealAsMoves(t, a, q, slotBytes, hash);
    SealAsSeals(t, a, q, [], allowed, slotBytes, hash);
    SealAsSeals(s, a, p, last, allowed, slotBytes, hash);
    ops := SealAs(1, a, p) + last;
    OtherPathLeft(Exec(t, last, slotBytes, hash).index, k, p, q);
  }

  // In every run whose seals are allowed, a DRAM eviction of a key leaves every leaf of that key evicted or queued, if
  // and only if no key may be sealed at two paths, the empty path included.
  lemma EvictsWholeKeyIff(slots: nat, slotBytes: nat, hash: seq<Token> -> Chunk, allowed: Allowed)
    requires slots >= 1 && slotBytes >= 1
    ensures (forall ops, k | Seals(Init(slots), ops, allowed, slotBytes, hash) ::
               AllQueued(OnDramEvict(Exec(Init(slots), ops, slotBytes, hash).index, k), k))
      <==> OnePath(allowed)
  {
    if OnePath(allowed) {
      forall ops, k | Seals(Init(slots), ops, allowed, slotBytes, hash)
        ensures AllQueued(OnDramEvict(Exec(Init(slots), ops, slotBytes, hash).index, k), k)
      {
        ExecTracks(Init(slots), ops, allowed, slotBytes, hash);
        EvictQueuesAll(Exec(Init(slots), ops, slotBytes, hash).index, k);
      }
    } else {
      var p: Path, q: Path, k: Key :| allowed(p, k) && allowed(q, k) && p != q;
      var ops;
      if p != [] {
        ops := TwoPathsForOneKey(slots, slotBytes, hash, allowed, p, q, k);
      } else {
        ops := TwoPathsForOneKey(slots, slotBytes, hash, allowed, q, p, k);
      }
    }
  }

  lemma SweepTakesQueued(ix: Index, k: Key, p: Path)
    requires ArtOk(ix) && AllQueued(ix, k) && (HasKey(ix, p, k) ==> ix.leaves[ix.art[p]].refcount == 1)
    ensures !HasKey(Sweep(ix), p, k)
  {
    SweepShrinks(ix, ix.deferred);
    SweepRemovesExactly(ix, ix.deferred, p);
  }

  // Nobody reads a leaf of the key.
  ghost predicate Unread(ix: Index, k: Key) {
    forall p | HasKey(ix, p, k) :: ix.leaves[ix.art[p]].refcount == 1
  }

  // An eviction leaves in the index only leaves that were there, as they were.
  lemma EvictLeaves(ix: Index, key: Key)
    requires ArtOk(ix)
    ensures var iy := OnDramEvict(ix, key);
      ArtOk(iy) && forall p | p in iy.art :: p in ix.art && iy.art[p] == ix.art[p] && iy.leaves[iy.art[p]] == ix.leaves[ix.art[p]]
  {
    if key in ix.evictIndex {
      TryEvictKeeps(ix.(evictIndex := ix.evictIndex - {key}), ix.evictIndex[key]);
    }
  }

  lemma UnreadGone(ix: Index, k: Key, p: Path)
    requires AllTracked(ix) && ArtOk(ix) && Unread(ix, k)
    ensures !HasKey(Sweep(OnDramEvict(ix, k)), p, k)
  {
    EvictQueuesAll(ix, k);
    EvictLeaves(ix, k);
    SweepTakesQueued(OnDramEvict(ix, k), k, p);
  }

  // With one path per key, evicting a key nobody reads and one sweep pass leave no leaf of it in the index.
  lemma UnreadKeyGone(slots: nat, slotBytes: nat, hash: seq<Token> -> Chunk, allowed: Allowed, ops: seq<Op>, k: Key, p: Path)
    requires OnePath(allowed) && Seals(Init(slots), ops, allowed, slotBytes, hash)
    requires Unread(Exec(Init(slots), ops, slotBytes, hash).index, k)
    ensures !HasKey(Sweep(OnDramEvict(Exec(Init(slots), ops, slotBytes, hash).index, k)), p, k)
  {
    ExecTracks(Init(slots), ops, allowed, slotBytes, hash);
    UnreadGone(Exec(Init(slots), ops, slotBytes, hash).index, k, p);
  }
}

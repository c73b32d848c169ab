/** What every sequence of node operations keeps: slots, handles, refcounts and deferred evictions. */
module NodeSafety {
  import opened NodeModel

  // ----- Slots and handles -----------------------------------------------

  function Owners(handles: map<Handle, HandleState>): set<Ingest> {
    set h | h in handles && handles[h].IngestH? :: handles[h].ingest
  }

  // Live ingest handles and live reservations, hence held slots, correspond one to one.
  ghost predicate Owned(s: State) {
    && Owners(s.handles) == s.pool.active.Keys
    && (forall g, h | g in s.handles && h in s.handles && g != h && s.handles[g].IngestH? && s.handles[h].IngestH? ::
          s.handles[g].ingest != s.handles[h].ingest)
    && s.nextHandle >= 1 && (forall h | h in s.handles :: 1 <= h < s.nextHandle)
  }

  ghost predicate SlotInv(s: State, slots: nat) {
    PoolOk(s.pool, slots) && Owned(s)
  }

  lemma OwnersAdd(handles: map<Handle, HandleState>, h: Handle, x: HandleState)
    requires h !in handles
    ensures Owners(handles[h := x]) == Owners(handles) + if x.IngestH? then {x.ingest} else {}
  {
    var more := handles[h := x];
    forall i | i in Owners(handles) ensures i in Owners(more) {
      var g :| g in handles && handles[g].IngestH? && handles[g].ingest == i;
      assert more[g] == handles[g];
    }
    assert more[h] == x;
  }

  lemma FreshIngest(s: State, slots: nat)
    requires SlotInv(s, slots)
    ensures s.pool.next !in s.pool.active
    ensures forall h | h in s.handles && s.handles[h].IngestH? :: s.handles[h].ingest != s.pool.next
  {
    forall h | h in s.handles && s.handles[h].IngestH? ensures s.handles[h].ingest != s.pool.next {
      assert s.handles[h].ingest in Owners(s.handles);
    }
  }

  lemma ReserveOwns(s: State, x: HandleState, slots: nat)
    requires SlotInv(s, slots) && s.pool.free != [] && x.IngestH? && x.ingest == s.pool.next
    ensures Owned(s.(pool := ReserveSlot(s.pool), handles := s.handles[s.nextHandle := x], nextHandle := s.nextHandle + 1))
  {
    FreshIngest(s, slots);
    assert s.nextHandle !in s.handles;
    OwnersAdd(s.handles, s.nextHandle, x);
  }

  lemma ReserveKeepsSlots(s: State, locator: Locator, bytes: nat, ns: Chunk, slotBytes: nat, slots: nat)
    requires SlotInv(s, slots)
    ensures SlotInv(Reserve(s, locator, bytes, ns, slotBytes).0, slots)
  {
    if bytes > 0 && s.pool.free != [] {
      ReserveSlotOk(s.pool, slots);
      if slotBytes < bytes {
        FreshIngest(s, slots);
        DropSlotOk(ReserveSlot(s.pool), slots, s.pool.next);
        assert DropSlot(ReserveSlot(s.pool), s.pool.next).active.Keys == s.pool.active.Keys;
      } else {
        ReserveOwns(s, IngestH(locator, s.pool.next, ns), slots);
      }
    }
  }

  lemma OwnersRemove(s: State, h: Handle)
    requires Owned(s) && h in s.handles && s.handles[h].IngestH?
    ensures Owners(s.handles - {h}) == Owners(s.handles) - {s.handles[h].ingest}
  {
    var rest := s.handles - {h};
    forall i | i in Owners(s.handles) - {s.handles[h].ingest} ensures i in Owners(rest) {
      var g :| g in s.handles && s.handles[g].IngestH? && s.handles[g].ingest == i;
      assert rest[g] == s.handles[g];
    }
  }

  lemma ForgetKeepsSlots(s: State, h: Handle, slots: nat)
    requires SlotInv(s, slots) && h in s.handles && s.handles[h].IngestH?
    ensures SlotInv(Forget(s, h, s.handles[h].ingest), slots)
  {
    var ih := s.handles[h].ingest;
    assert ih in Owners(s.handles);
    DropSlotOk(s.pool, slots, ih);
    OwnersRemove(s, h);
  }

  lemma ReadRelease(s: State, h: Handle)
    requires Owned(s) && h in s.handles && s.handles[h].ReadH?
    ensures Owned(s.(handles := s.handles - {h}))
  {
    var rest := s.handles - {h};
    forall i | i in Owners(s.handles) ensures i in Owners(rest) {
      var g :| g in s.handles && s.handles[g].IngestH? && s.handles[g].ingest == i;
      assert rest[g] == s.handles[g];
    }
    assert Owners(rest) == Owners(s.handles);
  }

  lemma SealKeepsSlots(s: State, h: Handle, path: Path, refused: bool, slots: nat)
    requires SlotInv(s, slots) && h in s.handles && s.handles[h].IngestH?
    ensures SlotInv(SealCommit(s, h, path, refused).0, slots)
  {
    var st := s.handles[h];
    var t := s.(index := Committed(s.index, st, Watermark(s.pool, st.ingest), path, refused));
    assert SlotInv(t, slots);
    ForgetKeepsSlots(t, h, slots);
  }

  lemma LookupKeepsSlots(s: State, tokens: seq<Token>, ns: Chunk, hash: seq<Token> -> Chunk, slots: nat)
    requires SlotInv(s, slots)
    ensures SlotInv(Lookup(s, tokens, ns, hash).0, slots)
  {
    var t := Lookup(s, tokens, ns, hash).0;
    if t.nextHandle != s.nextHandle { OwnersAdd(s.handles, s.nextHandle, t.handles[s.nextHandle]); }
  }

  lemma PublishKeepsSlots(s: State, h: Handle, w: nat, slots: nat)
    requires SlotInv(s, slots)
    ensures SlotInv(Publish(s, h, w).0, slots)
  {
    assert Publish(s, h, w).0.pool.watermarks.Keys == s.pool.watermarks.Keys;
  }

  lemma SealOpKeepsSlots(s: State, h: Handle, tokens: seq<Token>, refused: bool, hash: seq<Token> -> Chunk, slots: nat)
    requires SlotInv(s, slots)
    ensures SlotInv(Seal(s, h, tokens, refused, hash).0, slots)
  {
    if h in s.handles && s.handles[h].IngestH? {
      if |tokens| < CHUNK_TOKENS {
        ForgetKeepsSlots(s, h, slots);
      } else {
        SealKeepsSlots(s, h, [s.handles[h].ns] + Chunkify(tokens, hash), refused, slots);
      }
    }
  }

  lemma ReleaseKeepsSlots(s: State, h: Handle, slots: nat)
    requires SlotInv(s, slots)
    ensures SlotInv(Release(s, h).0, slots)
  {
    if h in s.handles {
      if s.handles[h].IngestH? { ForgetKeepsSlots(s, h, slots); } else { ReadRelease(s, h); }
    }
  }

  lemma ActKeepsSlots(s: State, op: Op, slotBytes: nat, hash: seq<Token> -> Chunk, slots: nat)
    requires SlotInv(s, slots)
    ensures SlotInv(Act(s, op, slotBytes, hash), slots)
  {
    match op
    case OpReserve(locator, bytes, ns) => ReserveKeepsSlots(s, locator, bytes, ns, slotBytes, slots);
    case OpPublish(h, w) => PublishKeepsSlots(s, h, w, slots);
    case OpSeal(h, tokens, refused) => SealOpKeepsSlots(s, h, tokens, refused, hash, slots);
    case OpSealByChunkPath(h, path, refused) =>
      if h in s.handles && s.handles[h].IngestH? { SealKeepsSlots(s, h, path, refused, slots); }
    case OpLookup(tokens, ns) => LookupKeepsSlots(s, tokens, ns, hash, slots);
    case OpRelease(h) => ReleaseKeepsSlots(s, h, slots);
    case OpDramEvict(key) => assert SlotInv(s.(index := OnDramEvict(s.index, key)), slots);
    case OpSweep => assert SlotInv(s.(index := Sweep(s.index)), slots);
  }

  lemma {:induction false} ExecKeepsSlots(s: State, ops: seq<Op>, slotBytes: nat, hash: seq<Token> -> Chunk, slots: nat)
    requires SlotInv(s, slots)
    ensures SlotInv(Exec(s, ops, slotBytes, hash), slots)
    decreases |ops|
  {
    if ops != [] {
      ActKeepsSlots(s, ops[0], slotBytes, hash, slots);
      ExecKeepsSlots(Act(s, ops[0], slotBytes, hash), ops[1..], slotBytes, hash, slots);
    }
  }

  lemma InitOk(slots: nat)
    ensures SlotInv(Init(slots), slots)
  {
    var p := Init(slots).pool;
    assert Covered(p.free, p.active, slots) by {
      forall x: Slot ensures x < slots <==> x in p.free || x in p.active.Values {
        if x < slots { assert p.free[x] == x; }
      }
    }
    assert p.watermarks.Keys == p.active.Keys;
    assert Owners(Init(slots).handles) == {};
  }

  // In every run: a slot is free or held, never both; held slots match live ingest handles one to one; and
  // every reservation that is no longer live has been returned exactly once.
  lemma SlotsMatchHandles(ops: seq<Op>, slotBytes: nat, hash: seq<Token> -> Chunk, slots: nat)
    ensures var s := Exec(Init(slots), ops, slotBytes, hash); PoolOk(s.pool, slots) && Owned(s)
  {
    InitOk(slots);
    ExecKeepsSlots(Init(slots), ops, slotBytes, hash, slots);
  }

  ghost predicate Dead(s: State, h: Handle) {
    h < s.nextHandle && h !in s.handles
  }

  lemma {:induction false} DeadStaysDead(s: State, ops: seq<Op>, slotBytes: nat, hash: seq<Token> -> Chunk, h: Handle)
    requires Dead(s, h)
    ensures Dead(Exec(s, ops, slotBytes, hash), h)
    decreases |ops|
  {
    if ops != [] { DeadStaysDead(Act(s, ops[0], slotBytes, hash), ops[1..], slotBytes, hash, h); }
  }

  // After every run, a handle that is released or sealed is dead, and in every continuation each use of a
  // dead handle is refused without effect.
  lemma DeadHandleRefused(before: seq<Op>, after: seq<Op>, slotBytes: nat, hash: seq<Token> -> Chunk, slots: nat,
                          h: Handle, end: Op, tokens: seq<Token>, path: Path, refused: bool, watermark: nat)
    requires var s := Exec(Init(slots), before, slotBytes, hash);
      h in s.handles && (end == OpRelease(h)
                         || (s.handles[h].IngestH? && (end.OpSeal? || end.OpSealByChunkPath?) && end.h == h))
    ensures var s := Exec(Init(slots), before, slotBytes, hash);
      var t := Exec(Act(s, end, slotBytes, hash), after, slotBytes, hash);
      && Release(t, h) == (t, INVAL) && Publish(t, h, watermark) == (t, INVAL)
      && Seal(t, h, tokens, refused, hash) == (t, INVAL) && SealByChunkPath(t, h, path, refused) == (t, NOT_FOUND)
  {
    var s := Exec(Init(slots), before, slotBytes, hash);
    SlotsMatchHandles(before, slotBytes, hash, slots);
    DeadStaysDead(Act(s, end, slotBytes, hash), after, slotBytes, hash, h);
  }

  // ----- Refcounts -------------------------------------------------------

  function ReadersOf(handles: map<Handle, HandleState>, l: Leaf): set<Handle> {
    set h | h in handles && handles[h].ReadH? && handles[h].leaf == l
  }

  predicate Counted(s: State, l: Leaf) {
    l < |s.index.leaves| ==>
      var n := |ReadersOf(s.handles, l)|;
      if s.index.leaves[l].refcount == 0 then n == 0 else s.index.leaves[l].refcount == 1 + n
  }

  // The index holds each leaf at one path, and no claimed leaf.
  ghost predicate ArtOk(ix: Index) {
    && (forall p | p in ix.art :: p != [] && ix.art[p] < |ix.leaves| && ix.leaves[ix.art[p]].refcount > 0)
    && (forall p, q | p in ix.art && q in ix.art && p != q :: ix.art[p] != ix.art[q])
  }

  ghost predicate KnownLeaves(s: State) {
    forall h | h in s.handles :: h < s.nextHandle && (s.handles[h].ReadH? ==> s.handles[h].leaf < |s.index.leaves|)
  }

  ghost predicate CountInv(s: State) {
    ArtOk(s.index) && KnownLeaves(s) && forall l :: Counted(s, l)
  }

  lemma ReadersAdd(handles: map<Handle, HandleState>, h: Handle, x: HandleState, l: Leaf)
    requires h !in handles
    ensures |ReadersOf(handles[h := x], l)| == |ReadersOf(handles, l)| + if x.ReadH? && x.leaf == l then 1 else 0
  {
    assert ReadersOf(handles[h := x], l) == ReadersOf(handles, l) + if x.ReadH? && x.leaf == l then {h} else {};
  }

  lemma ReadersDrop(handles: map<Handle, HandleState>, h: Handle, l: Leaf)
    requires h in handles
    ensures |ReadersOf(handles - {h}, l)|
      == |ReadersOf(handles, l)| - if handles[h].ReadH? && handles[h].leaf == l then 1 else 0
  {
    assert ReadersOf(handles - {h}, l) == ReadersOf(handles, l) - {h};
    assert h in ReadersOf(handles, l) <==> handles[h].ReadH? && handles[h].leaf == l;
  }

  lemma LookupCounts(s: State, tokens: seq<Token>, ns: Chunk, hash: seq<Token> -> Chunk)
    requires CountInv(s)
    ensures CountInv(Lookup(s, tokens, ns, hash).0)
  {
    var t := Lookup(s, tokens, ns, hash).0;
    if t.nextHandle != s.nextHandle {
      forall l ensures Counted(t, l) {
        assert Counted(s, l);
        ReadersAdd(s.handles, s.nextHandle, t.handles[s.nextHandle], l);
      }
    }
  }

  lemma ReleaseCounts(s: State, h: Handle)
    requires CountInv(s)
    ensures CountInv(Release(s, h).0)
  {
    if h in s.handles {
      var t := Release(s, h).0;
      forall l ensures Counted(t, l) {
        assert Counted(s, l);
        ReadersDrop(s.handles, h, l);
      }
      if s.handles[h].ReadH? {
        assert h in ReadersOf(s.handles, s.handles[h].leaf);
        assert Counted(s, s.handles[h].leaf);
      }
    }
  }

  lemma ForgetCounts(s: State, h: Handle, ih: Ingest)
    requires CountInv(s) && h in s.handles && s.handles[h].IngestH?
    ensures CountInv(Forget(s, h, ih))
  {
    forall l ensures Counted(Forget(s, h, ih), l) {
      assert Counted(s, l);
      ReadersDrop(s.handles, h, l);
    }
  }

  lemma CommitCounts(s: State, st: HandleState, bytes: nat, path: Path, refused: bool)
    requires CountInv(s)
    ensures CountInv(s.(index := Committed(s.index, st, bytes, path, refused)))
  {
    var t := s.(index := Committed(s.index, st, bytes, path, refused));
    forall l ensures Counted(t, l) {
      assert Counted(s, l);
      if l == |s.index.leaves| { assert ReadersOf(s.handles, l) == {}; }
    }
  }

  lemma TryEvictKeeps(ix: Index, path: Path)
    requires ArtOk(ix)
    ensures ArtOk(TryEvictNow(ix, path))
    ensures |TryEvictNow(ix, path).leaves| == |ix.leaves|
    ensures forall l | 0 <= l < |ix.leaves| ::
      var n := ix.leaves[l].refcount; var m := TryEvictNow(ix, path).leaves[l].refcount; m == n || (n == 1 && m == 0)
  {
  }

  // An eviction only ever takes an unread leaf's refcount from one to zero.
  ghost predicate OnlyClaims(ix: Index, iy: Index) {
    && |ix.leaves| == |iy.leaves|
    && forall l | 0 <= l < |ix.leaves| ::
         iy.leaves[l].refcount == ix.leaves[l].refcount || (ix.leaves[l].refcount == 1 && iy.leaves[l].refcount == 0)
  }

  lemma {:induction false} SweepKeeps(ix: Index, work: seq<Deferred>)
    requires ArtOk(ix)
    ensures ArtOk(SweepIndex(ix, work)) && OnlyClaims(ix, SweepIndex(ix, work))
    decreases |work|
  {
    if work != [] {
      var iy := if Current(ix, work[0]) then TryEvictNow(ix, work[0].path) else ix;
      TryEvictKeeps(ix, work[0].path);
      assert OnlyClaims(ix, iy);
      SweepKeeps(iy, work[1..]);
      var iz := SweepIndex(iy, work[1..]);
      forall l | 0 <= l < |ix.leaves|
        ensures iz.leaves[l].refcount == ix.leaves[l].refcount
          || (ix.leaves[l].refcount == 1 && iz.leaves[l].refcount == 0) {}
    }
  }

  lemma ClaimsCount(s: State, iy: Index)
    requires CountInv(s) && ArtOk(iy) && OnlyClaims(s.index, iy)
    ensures CountInv(s.(index := iy))
  {
    forall l ensures Counted(s.(index := iy), l) { assert Counted(s, l); }
  }

  lemma ActCounts(s: State, op: Op, slotBytes: nat, hash: seq<Token> -> Chunk)
    requires CountInv(s)
    ensures CountInv(Act(s, op, slotBytes, hash))
  {
    match op
    case OpReserve(locator, bytes, ns) => ReserveCounts(s, locator, bytes, ns, slotBytes);
    case OpPublish(h, w) => assert forall l :: Counted(s, l) ==> Counted(Publish(s, h, w).0, l);
    case OpSeal(h, tokens, refused) =>
      if h in s.handles && s.handles[h].IngestH? {
        if |tokens| < CHUNK_TOKENS { ForgetCounts(s, h, s.handles[h].ingest); }
        else { SealCounts(s, h, [s.handles[h].ns] + Chunkify(tokens, hash), refused); }
      }
    case OpSealByChunkPath(h, path, refused) =>
      if h in s.handles && s.handles[h].IngestH? { SealCounts(s, h, path, refused); }
    case OpLookup(tokens, ns) => LookupCounts(s, tokens, ns, hash);
    case OpRelease(h) => ReleaseCounts(s, h);
    case OpDramEvict(key) => DramEvictCounts(s, key);
    case OpSweep =>
      SweepKeeps(s.index, s.index.deferred);
      ClaimsCount(s, Sweep(s.index));
  }

  lemma ReserveCounts(s: State, locator: Locator, bytes: nat, ns: Chunk, slotBytes: nat)
    requires CountInv(s)
    ensures CountInv(Reserve(s, locator, bytes, ns, slotBytes).0)
  {
    var t := Reserve(s, locator, bytes, ns, slotBytes).0;
    forall l ensures Counted(t, l) {
      assert Counted(s, l);
      if t.nextHandle != s.nextHandle { ReadersAdd(s.handles, s.nextHandle, t.handles[s.nextHandle], l); }
    }
  }

  lemma SealCounts(s: State, h: Handle, path: Path, refused: bool)
    requires CountInv(s) && h in s.handles && s.handles[h].IngestH?
    ensures CountInv(SealCommit(s, h, path, refused).0)
  {
    var st := s.handles[h];
    var bytes := Watermark(s.pool, st.ingest);
    CommitCounts(s, st, bytes, path, refused);
    ForgetCounts(s.(index := Committed(s.index, st, bytes, path, refused)), h, st.ingest);
  }

  lemma DramEvictCounts(s: State, key: Key)
    requires CountInv(s)
    ensures CountInv(s.(index := OnDramEvict(s.index, key)))
  {
    if key in s.index.evictIndex {
      var rest := s.index.(evictIndex := s.index.evictIndex - {key});
      TryEvictKeeps(rest, s.index.evictIndex[key]);
    }
    ClaimsCount(s, OnDramEvict(s.index, key));
  }

  lemma {:induction false} ExecCounts(s: State, ops: seq<Op>, slotBytes: nat, hash: seq<Token> -> Chunk)
    requires CountInv(s)
    ensures CountInv(Exec(s, ops, slotBytes, hash))
    decreases |ops|
  {
    if ops != [] {
      ActCounts(s, ops[0], slotBytes, hash);
      ExecCounts(Act(s, ops[0], slotBytes, hash), ops[1..], slotBytes, hash);
    }
  }

  // In every run an indexed leaf's refcount is one plus its read handles, and an evicted leaf has none.
  lemma RefcountsCountHandles(ops: seq<Op>, slotBytes: nat, hash: seq<Token> -> Chunk, slots: nat)
    ensures CountInv(Exec(Init(slots), ops, slotBytes, hash))
  {
    ExecCounts(Init(slots), ops, slotBytes, hash);
  }

  // ----- The sweeper -----------------------------------------------------

  // The entry's own leaf is still in the index and someone still reads it.
  predicate StillRead(ix: Index, e: Deferred) {
    Current(ix, e) && e.leaf < |ix.leaves| && ix.leaves[e.leaf].refcount > 1
  }

  function KeepRead(ix: Index, work: seq<Deferred>): seq<Deferred> {
    if work == [] then [] else (if StillRead(ix, work[0]) then [work[0]] else []) + KeepRead(ix, work[1..])
  }

  lemma EvictKeepsStillRead(ix: Index, path: Path, e: Deferred)
    requires ArtOk(ix)
    ensures StillRead(TryEvictNow(ix, path), e) == StillRead(ix, e)
  {
    if Evictable(ix, path) && e.path != path && e.path in ix.art { assert ix.art[e.path] != ix.art[path]; }
  }

  lemma {:induction false} KeepReadStable(ix: Index, path: Path, work: seq<Deferred>)
    requires ArtOk(ix)
    ensures KeepRead(TryEvictNow(ix, path), work) == KeepRead(ix, work)
  {
    if work != [] {
      EvictKeepsStillRead(ix, path, work[0]);
      KeepReadStable(ix, path, work[1..]);
    }
  }

  // One pass keeps, in order, exactly the entries whose own leaf is still there and still read.
  lemma {:induction false} SweepKeepsExactly(ix: Index, work: seq<Deferred>)
    requires ArtOk(ix)
    ensures SweepPending(ix, work) == KeepRead(ix, work)
    decreases |work|
  {
    if work != [] {
      if Current(ix, work[0]) {
        TryEvictKeeps(ix, work[0].path);
        KeepReadStable(ix, work[0].path, work[1..]);
        SweepKeepsExactly(TryEvictNow(ix, work[0].path), work[1..]);
      } else {
        SweepKeepsExactly(ix, work[1..]);
      }
    }
  }

  // A pass takes out of the index exactly the paths of deferred entries whose own leaf is unread.
  lemma {:induction false} SweepRemovesExactly(ix: Index, work: seq<Deferred>, path: Path)
    requires ArtOk(ix)
    ensures var out := SweepIndex(ix, work).art;
      && (path in out <==> path in ix.art && !(Evictable(ix, path) && Deferred(path, ix.art[path]) in work))
      && (path in out ==> out[path] == ix.art[path])
    decreases |work|
  {
    if work != [] {
      var iy := if Current(ix, work[0]) then TryEvictNow(ix, work[0].path) else ix;
      TryEvictKeeps(ix, work[0].path);
      SweepRemovesExactly(iy, work[1..], path);
      assert work == [work[0]] + work[1..];
      if path in ix.art && path != work[0].path && work[0].path in ix.art { assert ix.art[path] != ix.art[work[0].path]; }
    }
  }

  lemma {:induction false} NobodyReads(ix: Index, work: seq<Deferred>)
    requires forall l | 0 <= l < |ix.leaves| :: ix.leaves[l].refcount <= 1
    ensures KeepRead(ix, work) == []
  {
    if work != [] { NobodyReads(ix, work[1..]); }
  }

  // After every run, one sweep pass with no read handle left empties the deferred queue.
  lemma SweepEmptiesQueue(ops: seq<Op>, slotBytes: nat, hash: seq<Token> -> Chunk, slots: nat)
    requires forall h | h in Exec(Init(slots), ops, slotBytes, hash).handles ::
      Exec(Init(slots), ops, slotBytes, hash).handles[h].IngestH?
    ensures Sweep(Exec(Init(slots), ops, slotBytes, hash).index).deferred == []
  {
    var s := Exec(Init(slots), ops, slotBytes, hash);
    RefcountsCountHandles(ops, slotBytes, hash, slots);
    SweepKeepsExactly(s.index, s.index.deferred);
    forall l | 0 <= l < |s.index.leaves| ensures s.index.leaves[l].refcount <= 1 {
      assert Counted(s, l);
      assert ReadersOf(s.handles, l) == {};
    }
    NobodyReads(s.index, s.index.deferred);
  }

  // ----- Seal then Lookup ------------------------------------------------

  lemma {:induction false} ChunkifyPrefix(tokens: seq<Token>, more: seq<Token>, hash: seq<Token> -> Chunk)
    ensures Chunkify(tokens, hash) <= Chunkify(tokens + more, hash)
    ensures |Chunkify(tokens, hash)| == |tokens| / CHUNK_TOKENS
    decreases |tokens|
  {
    if |tokens| >= CHUNK_TOKENS {
      assert (tokens + more)[..CHUNK_TOKENS] == tokens[..CHUNK_TOKENS];
      assert (tokens + more)[CHUNK_TOKENS..] == tokens[CHUNK_TOKENS..] + more;
      ChunkifyPrefix(tokens[CHUNK_TOKENS..], more, hash);
    }
  }

  // After every run: once a prompt is sealed, a lookup of any extension of it in the same namespace hits,
  // and matches at least every whole chunk of it.
  lemma SealThenLookup(ops: seq<Op>, slotBytes: nat, hash: seq<Token> -> Chunk, slots: nat,
                       h: Handle, tokens: seq<Token>, more: seq<Token>)
    requires var s := Exec(Init(slots), ops, slotBytes, hash); h in s.handles && s.handles[h].IngestH?
    requires |tokens| >= CHUNK_TOKENS
    ensures var s := Exec(Init(slots), ops, slotBytes, hash);
      var (t, rc) := Seal(s, h, tokens, false, hash);
      var (_, found, matched) := Lookup(t, tokens + more, s.handles[h].ns, hash);
      rc == OK && found == OK && matched >= |tokens| / CHUNK_TOKENS * CHUNK_TOKENS
  {
    var s := Exec(Init(slots), ops, slotBytes, hash);
    RefcountsCountHandles(ops, slotBytes, hash, slots);
    var ns := s.handles[h].ns;
    var path := [ns] + Chunkify(tokens, hash);
    SealCounts(s, h, path, false);
    ChunkifyPrefix(tokens, more, hash);
    var t := Seal(s, h, tokens, false, hash).0;
    var q := [ns] + Chunkify(tokens + more, hash);
    assert q[..|path|] == path;
    assert path in t.index.art;
  }
}

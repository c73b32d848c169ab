/** The headless node as the source writes it: tables updated in place, one operation at a time. */
module HeadlessNode {
  import opened NodeModel
  import opened NodeSafety

  class HeadlessNode {
    const slots: nat
    const slotBytes: nat
    const hash: seq<Token> -> Chunk
    // pinned tier, buffer pool, watermarks
    var freeStack: seq<Slot>
    var active: map<Ingest, Slot>
    var nextIngest: nat
    var watermarks: map<Ingest, nat>
    var released: seq<Ingest>
    // prefix index and eviction
    var art: map<Path, Leaf>
    var leaves: seq<LeafData>
    var evictIndex: map<Key, Path>
    var deferredEvicts: seq<Deferred>
    var events: seq<Event>
    // handle table
    var handles: map<Handle, HandleState>
    var nextHandle: nat
    // the operations so far
    ghost var ops: seq<Op>

    function PoolState(): Pool
      reads this
    {
      Pool(freeStack, active, nextIngest, watermarks, released)
    }

    function IndexState(): Index
      reads this
    {
      Index(art, leaves, evictIndex, deferredEvicts, events)
    }

    function State(): State
      reads this
    {
      NodeModel.State(PoolState(), IndexState(), handles, nextHandle)
    }

    // The tables are what the operations so far make of an empty node.
    ghost predicate Valid()
      reads this
    {
      State() == Exec(Init(slots), ops, slotBytes, hash)
    }

    // Every leaf the index names exists.
    ghost predicate Bounded()
      reads this
    {
      forall p | p in art :: art[p] < |leaves|
    }

    constructor (slots: nat, slotBytes: nat, hash: seq<Token> -> Chunk)
      ensures Valid() && ops == [] && this.slots == slots && this.slotBytes == slotBytes && this.hash == hash
    {
      this.slots, this.slotBytes, this.hash, ops := slots, slotBytes, hash, [];
      freeStack, active, nextIngest, watermarks, released := AllSlots(slots), map[], 1, map[], [];
      art, leaves, evictIndex, deferredEvicts, events := map[], [], map[], [], [];
      handles, nextHandle := map[], 1;
    }

    ghost method Log(op: Op, before: State)
      requires before == Exec(Init(slots), ops, slotBytes, hash) && State() == Act(before, op, slotBytes, hash)
      modifies this`ops
      ensures Valid() && ops == old(ops) + [op]
    {
      ExecSnoc(Init(slots), ops, op, slotBytes, hash);
      ops := ops + [op];
    }

    // ----- buffer pool ---------------------------------------------------

    method PoolReserve() returns (ih: Ingest)
      requires freeStack != []
      modifies this`freeStack, this`active, this`nextIngest, this`watermarks
      ensures PoolState() == ReserveSlot(old(PoolState())) && ih == old(nextIngest)
    {
      var k := |freeStack| - 1;
      var slot := freeStack[k];
      freeStack := freeStack[..k];
      ih := nextIngest;
      nextIngest := nextIngest + 1;
      active := active[ih := slot];
      watermarks := watermarks[ih := 0];
    }

    method DropAndRelease(ih: Ingest)
      modifies this`freeStack, this`active, this`watermarks, this`released
      ensures PoolState() == DropSlot(old(PoolState()), ih)
    {
      watermarks := watermarks - {ih};
      if ih in active {
        var slot := active[ih];
        active := active - {ih};
        freeStack := freeStack + [slot];
        released := released + [ih];
      }
    }

    // ----- operations ----------------------------------------------------

    method Reserve(locator: Locator, bytes: nat, ns: Chunk) returns (rc: int, handle: Handle)
      requires Valid()
      modifies this`freeStack, this`active, this`nextIngest, this`watermarks, this`released, this`handles,
               this`nextHandle, this`ops
      ensures Valid() && ops == old(ops) + [OpReserve(locator, bytes, ns)]
      ensures (State(), rc) == NodeModel.Reserve(old(State()), locator, bytes, ns, slotBytes)
      ensures rc == OK ==> handle in handles && handle !in old(handles) && handles[handle].IngestH?
    {
      ghost var before := State();
      assert nextHandle !in handles by { SlotsMatchHandles(ops, slotBytes, hash, slots); }
      rc, handle := INVAL, 0;
      if bytes != 0 {
        rc := NOMEM;
        if freeStack != [] {
          var ih := PoolReserve();
          if slotBytes < bytes {
            DropAndRelease(ih);
          } else {
            rc, handle := OK, nextHandle;
            nextHandle := nextHandle + 1;
            handles := handles[handle := IngestH(locator, ih, ns)];
          }
        }
      }
      Log(OpReserve(locator, bytes, ns), before);
    }

    // A watermark never goes back.
    method Publish(handle: Handle, watermark: nat) returns (rc: int)
      requires Valid()
      modifies this`watermarks, this`ops
      ensures Valid() && ops == old(ops) + [OpPublish(handle, watermark)]
      ensures (State(), rc) == NodeModel.Publish(old(State()), handle, watermark)
      ensures forall ih | ih in old(watermarks) :: ih in watermarks && watermarks[ih] >= old(watermarks)[ih]
    {
      ghost var before := State();
      rc := INVAL;
      if handle in handles && handles[handle].IngestH? {
        var ih := handles[handle].ingest;
        if ih in watermarks && watermark > watermarks[ih] {
          watermarks := watermarks[ih := watermark];
        }
        rc := OK;
      }
      Log(OpPublish(handle, watermark), before);
    }

    // The index side of a seal.
    method Commit(st: HandleState, watermark: nat, path: Path, refused: bool) returns (rc: int)
      modifies this`art, this`leaves, this`evictIndex, this`events
      ensures IndexState() == Committed(old(IndexState()), st, watermark, path, refused)
      ensures rc == if refused || path == [] then INTERNAL else OK
    {
      evictIndex := evictIndex[st.locator.key := path];
      if refused || path == [] {
        return INTERNAL;
      }
      art := art[path := |leaves|];
      leaves := leaves + [LeafData(st.locator, watermark, 1)];
      events := events + [Add(st.locator)];
      return OK;
    }

    method SealCommit(handle: Handle, path: Path, refused: bool) returns (rc: int)
      requires handle in handles && handles[handle].IngestH?
      modifies this`freeStack, this`active, this`watermarks, this`released, this`handles,
               this`art, this`leaves, this`evictIndex, this`events
      ensures (State(), rc) == NodeModel.SealCommit(old(State()), handle, path, refused)
    {
      var st := handles[handle];
      var watermark := if st.ingest in watermarks then watermarks[st.ingest] else 0;
      rc := Commit(st, watermark, path, refused);
      DropAndRelease(st.ingest);
      handles := handles - {handle};
    }

    method Seal(handle: Handle, tokens: seq<Token>, refused: bool) returns (rc: int)
      requires Valid()
      modifies this`freeStack, this`active, this`watermarks, this`released, this`handles,
               this`art, this`leaves, this`evictIndex, this`events, this`ops
      ensures Valid() && ops == old(ops) + [OpSeal(handle, tokens, refused)]
      ensures (State(), rc) == NodeModel.Seal(old(State()), handle, tokens, refused, hash)
    {
      ghost var before := State();
      rc := INVAL;
      if handle in handles && handles[handle].IngestH? {
        if |tokens| < CHUNK_TOKENS {
          DropAndRelease(handles[handle].ingest);
          handles := handles - {handle};
        } else {
          rc := SealCommit(handle, [handles[handle].ns] + Chunkify(tokens, hash), refused);
        }
      }
      Log(OpSeal(handle, tokens, refused), before);
    }

    method SealByChunkPath(handle: Handle, path: Path, refused: bool) returns (rc: int)
      requires Valid()
      modifies this`freeStack, this`active, this`watermarks, this`released, this`handles,
               this`art, this`leaves, this`evictIndex, this`events, this`ops
      ensures Valid() && ops == old(ops) + [OpSealByChunkPath(handle, path, refused)]
      ensures (State(), rc) == NodeModel.SealByChunkPath(old(State()), handle, path, refused)
    {
      ghost var before := State();
      if handle !in handles {
        rc := NOT_FOUND;
      } else if !handles[handle].IngestH? {
        rc := INVAL;
      } else {
        rc := SealCommit(handle, path, refused);
      }
      Log(OpSealByChunkPath(handle, path, refused), before);
    }

    // The walk down the index: remember the deepest stored prefix seen.
    method Walk(path: Path) returns (n: nat)
      ensures n <= |path| && (n > 0 ==> path[..n] in art)
      ensures forall m | n < m <= |path| :: path[..m] !in art
      ensures n == Longest(art, path)
    {
      n := 0;
      var i := 0;
      while i < |path|
        invariant 0 <= i <= |path| && n <= i && (n > 0 ==> path[..n] in art)
        invariant forall m | n < m <= i :: path[..m] !in art
      {
        i := i + 1;
        if path[..i] in art {
          n := i;
        }
      }
      LongestUnique(art, path, n);
    }

    method RegisterReader(l: Leaf) returns (handle: Handle)
      requires l < |leaves|
      modifies this`leaves, this`handles, this`nextHandle
      ensures handle == old(nextHandle) && nextHandle == handle + 1
      ensures IndexState() == SetCount(old(IndexState()), l, old(leaves)[l].refcount + 1)
      ensures handles == old(handles)[handle := ReadH(old(leaves)[l].locator, l)]
    {
      var leaf := leaves[l];
      leaves := leaves[l := leaf.(refcount := leaf.refcount + 1)];
      handle := nextHandle;
      nextHandle := nextHandle + 1;
      handles := handles[handle := ReadH(leaf.locator, l)];
    }

    method Lookup(tokens: seq<Token>, ns: Chunk) returns (rc: int, handle: Handle, matched: nat)
      requires Valid()
      modifies this`leaves, this`handles, this`nextHandle, this`ops
      ensures Valid() && ops == old(ops) + [OpLookup(tokens, ns)]
      ensures (State(), rc, matched) == NodeModel.Lookup(old(State()), tokens, ns, hash)
      ensures rc == OK ==> handle in handles && handle !in old(handles) && handles[handle].ReadH?
    {
      ghost var before := State();
      assert nextHandle !in handles by { SlotsMatchHandles(ops, slotBytes, hash, slots); }
      assert Bounded() by { RefcountsCountHandles(ops, slotBytes, hash, slots); }
      rc, handle, matched := INVAL, 0, 0;
      if tokens != [] {
        var path := [ns] + Chunkify(tokens, hash);
        var n := Walk(path);
        rc := NOT_FOUND;
        if n > 1 && leaves[art[path[..n]]].refcount != 0 {
          handle := RegisterReader(art[path[..n]]);
          rc, matched := OK, (n - 1) * CHUNK_TOKENS;
        }
      }
      Log(OpLookup(tokens, ns), before);
    }

    method Release(handle: Handle) returns (rc: int)
      requires Valid()
      modifies this`freeStack, this`active, this`watermarks, this`released, this`handles, this`leaves, this`ops
      ensures Valid() && ops == old(ops) + [OpRelease(handle)]
      ensures (State(), rc) == NodeModel.Release(old(State()), handle)
    {
      ghost var before := State();
      rc := INVAL;
      if handle in handles {
        var st := handles[handle];
        handles := handles - {handle};
        rc := OK;
        match st
        case IngestH(_, ih, _) => DropAndRelease(ih);
        case ReadH(_, l) => DropReader(l);
      }
      Log(OpRelease(handle), before);
    }

    method DropReader(l: Leaf)
      modifies this`leaves
      ensures leaves == if l < |old(leaves)| && old(leaves)[l].refcount > 0
        then SetCount(old(IndexState()), l, old(leaves)[l].refcount - 1).leaves else old(leaves)
    {
      if l < |leaves| && leaves[l].refcount > 0 {
        leaves := leaves[l := leaves[l].(refcount := leaves[l].refcount - 1)];
      }
    }

    // ----- eviction ------------------------------------------------------

    method TryEvictNow(path: Path) returns (evicted: bool)
      requires Bounded()
      modifies this`art, this`leaves, this`events
      ensures Bounded() && IndexState() == NodeModel.TryEvictNow(old(IndexState()), path)
      ensures evicted == Evictable(old(IndexState()), path)
    {
      if path !in art {
        return false;
      }
      var l := art[path];
      if leaves[l].refcount != 1 {
        return false;
      }
      var locator := leaves[l].locator;
      leaves := leaves[l := leaves[l].(refcount := 0)];
      art := art - {path};
      events := events + [Evict(locator)];
      return true;
    }

    method OnDramEvict(key: Key)
      requires Valid()
      modifies this`art, this`leaves, this`events, this`evictIndex, this`deferredEvicts, this`ops
      ensures Valid() && ops == old(ops) + [OpDramEvict(key)]
      ensures IndexState() == NodeModel.OnDramEvict(old(IndexState()), key)
    {
      ghost var before := State();
      assert Bounded() by { RefcountsCountHandles(ops, slotBytes, hash, slots); }
      if key in evictIndex {
        var path := evictIndex[key];
        evictIndex := evictIndex - {key};
        if path != [] {
          EvictOrDefer(path);
        }
      }
      Log(OpDramEvict(key), before);
    }

    method EvictOrDefer(path: Path)
      requires Bounded()
      modifies this`art, this`leaves, this`events, this`deferredEvicts
      ensures var ix := old(IndexState());
        IndexState() ==
          if Evictable(ix, path) then NodeModel.TryEvictNow(ix, path)
          else if path in ix.art then ix.(deferred := ix.deferred + [Deferred(path, ix.art[path])])
          else ix
    {
      var evicted := TryEvictNow(path);
      if !evicted && path in art {
        deferredEvicts := deferredEvicts + [Deferred(path, art[path])];
      }
    }

    // Retry every entry of a work list; what could not be evicted is returned.
    method Retry(work: seq<Deferred>) returns (pending: seq<Deferred>)
      requires Bounded()
      modifies this`art, this`leaves, this`events
      ensures IndexState() == SweepIndex(old(IndexState()), work)
      ensures pending == SweepPending(old(IndexState()), work)
    {
      pending := [];
      var i := 0;
      while i < |work|
        invariant 0 <= i <= |work| && Bounded()
        invariant SweepIndex(IndexState(), work[i..]) == SweepIndex(old(IndexState()), work)
        invariant pending + SweepPending(IndexState(), work[i..]) == SweepPending(old(IndexState()), work)
      {
        var e := work[i];
        assert work[i..][0] == e && work[i..][1..] == work[i + 1..];
        if e.path in art && art[e.path] == e.leaf {
          var evicted := TryEvictNow(e.path);
          if !evicted {
            pending := pending + [e];
          }
        }
        i := i + 1;
      }
    }

    // Swap the queue out, retry each entry, put back what could not be evicted.
    method RetryQueue()
      requires Bounded()
      modifies this`art, this`leaves, this`events, this`deferredEvicts
      ensures IndexState() == Sweep(old(IndexState()))
    {
      var work := deferredEvicts;
      deferredEvicts := [];
      QueueIsCarried(old(IndexState()), work, []);
      var pending := Retry(work);
      deferredEvicts := deferredEvicts + pending;
    }

    // One turn of the sweeper keeps exactly the entries whose own leaf is still there and still read.
    method SweepPass()
      requires Valid()
      modifies this`art, this`leaves, this`events, this`deferredEvicts, this`ops
      ensures Valid() && ops == old(ops) + [OpSweep]
      ensures IndexState() == Sweep(old(IndexState()))
      ensures deferredEvicts == KeepRead(old(IndexState()), old(deferredEvicts))
    {
      ghost var before := State();
      assert Bounded() && SweepPending(before.index, before.index.deferred) == KeepRead(before.index, before.index.deferred) by {
        RefcountsCountHandles(ops, slotBytes, hash, slots);
        SweepKeepsExactly(before.index, before.index.deferred);
      }
      RetryQueue();
      Log(OpSweep, before);
    }
  }

  lemma {:induction false} LongestUnique(art: map<Path, Leaf>, path: Path, n: nat)
    requires n <= |path| && (n > 0 ==> path[..n] in art) && forall m | n < m <= |path| :: path[..m] !in art
    ensures n == Longest(art, path)
    decreases |path|
  {
    if path != [] {
      assert path[..|path|] == path;
      if path !in art {
        var init := path[..|path| - 1];
        assert forall m | 0 <= m < |path| :: init[..m] == path[..m];
        LongestUnique(art, init, n);
      }
    }
  }

  lemma {:induction false} ExecSnoc(s: State, ops: seq<Op>, op: Op, slotBytes: nat, hash: seq<Token> -> Chunk)
    ensures Exec(s, ops + [op], slotBytes, hash) == Act(Exec(s, ops, slotBytes, hash), op, slotBytes, hash)
    decreases |ops|
  {
    if ops == [] {
      assert [op][1..] == [];
    } else {
      assert (ops + [op])[1..] == ops[1..] + [op];
      ExecSnoc(Act(s, ops[0], slotBytes, hash), ops[1..], op, slotBytes, hash);
    }
  }

  // A pass does not read the queue it has swapped out.
  lemma {:induction false} QueueIsCarried(ix: Index, work: seq<Deferred>, queue: seq<Deferred>)
    ensures SweepIndex(ix.(deferred := queue), work) == SweepIndex(ix, work).(deferred := queue)
    ensures SweepPending(ix.(deferred := queue), work) == SweepPending(ix, work)
    decreases |work|
  {
    if work != [] {
      var iy := if Current(ix, work[0]) then NodeModel.TryEvictNow(ix, work[0].path) else ix;
      QueueIsCarried(iy, work[1..], queue);
    }
  }
}

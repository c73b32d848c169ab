/**
 The single-threaded behaviour of the headless node: ingest handles and their pinned slots,
 the prefix index with its refcounts, and refcount-deferred eviction.

 The prefix index is a map from chunk paths to leaves, numbered in order of creation. Hashes
 are an arbitrary function of the tokens; an index insert may be refused (`refused`), as an
 empty path always is. Evictions that DRAM staging triggers are operations of their own.
 */
module NodeModel {
  import opened Bytes

  type Token = nat
  type Chunk = nat
  type Path = seq<Chunk>
  type Slot = nat
  type Ingest = nat
  type Handle = nat
  type Leaf = nat
  type Key = nat

  const CHUNK_TOKENS := 16

  const OK := 0
  const INVAL := -1
  const NOMEM := -2
  const NOT_FOUND := -3
  const INTERNAL := -99

  datatype Locator = Locator(id: nat, key: Key)
  datatype LeafData = LeafData(locator: Locator, bytes: nat, refcount: nat)
  datatype HandleState = IngestH(locator: Locator, ingest: Ingest, ns: Chunk) | ReadH(locator: Locator, leaf: Leaf)
  datatype Deferred = Deferred(path: Path, leaf: Leaf)
  datatype Event = Add(locator: Locator) | Evict(locator: Locator)

  // The mutable buffer pool over the pinned tier, and the watermarks. `released` logs every return of a slot.
  datatype Pool = Pool(free: seq<Slot>, active: map<Ingest, Slot>, next: nat, watermarks: map<Ingest, nat>,
                       released: seq<Ingest>)

  datatype Index = Index(art: map<Path, Leaf>, leaves: seq<LeafData>, evictIndex: map<Key, Path>,
                         deferred: seq<Deferred>, events: seq<Event>)

  datatype State = State(pool: Pool, index: Index, handles: map<Handle, HandleState>, nextHandle: nat)

  // ----- Pinned slots ----------------------------------------------------

  function ReserveSlot(p: Pool): Pool
    requires p.free != []
  {
    var k := |p.free| - 1;
    p.(free := p.free[..k], active := p.active[p.next := p.free[k]], next := p.next + 1,
       watermarks := p.watermarks[p.next := 0])
  }

  function DropSlot(p: Pool, ih: Ingest): Pool {
    var q := p.(watermarks := p.watermarks - {ih});
    if ih !in p.active then q
    else q.(free := p.free + [p.active[ih]], active := p.active - {ih}, released := p.released + [ih])
  }

  // No slot is free twice, held twice, or both free and held.
  ghost predicate Apart(free: seq<Slot>, active: map<Ingest, Slot>) {
    && (forall i, j | 0 <= i < j < |free| :: free[i] != free[j])
    && (forall a, b | a in active && b in active && a != b :: active[a] != active[b])
    && (forall a | a in active :: active[a] !in free)
  }

  // Every reservation ever made is live or has been returned, exactly once.
  ghost predicate ReturnedOnce(released: seq<Ingest>, active: map<Ingest, Slot>, next: nat) {
    && (forall i, j | 0 <= i < j < |released| :: released[i] != released[j])
    && (forall ih: Ingest :: 1 <= ih < next <==> ih in released || ih in active)
    && (forall ih | ih in active :: ih !in released)
  }

  // Every slot is free or held by exactly one reservation; every reservation is live or returned exactly once.
  ghost predicate PoolOk(p: Pool, slots: nat) {
    && p.next >= 1 && p.watermarks.Keys == p.active.Keys
    && Apart(p.free, p.active) && Covered(p.free, p.active, slots) && ReturnedOnce(p.released, p.active, p.next)
  }

  // Every slot below `slots` is free or held.
  ghost predicate Covered(free: seq<Slot>, active: map<Ingest, Slot>, slots: nat) {
    forall x: Slot :: x < slots <==> x in free || x in active.Values
  }

  lemma CoverMoves(free: seq<Slot>, active: map<Ingest, Slot>, ih: Ingest, slot: Slot, slots: nat)
    requires ih !in active
    ensures Covered(free + [slot], active, slots) <==> Covered(free, active[ih := slot], slots)
  {
    var more := active[ih := slot];
    forall x: Slot ensures x in free + [slot] || x in active.Values <==> x in free || x in more.Values {
      if x in active.Values { var a :| a in active && active[a] == x; assert more[a] == x; }
      if x in more.Values { var a :| a in more && more[a] == x; assert a != ih ==> active[a] == x; }
      assert more[ih] == slot;
    }
  }

  lemma ReserveSlotOk(p: Pool, slots: nat)
    requires PoolOk(p, slots) && p.free != []
    ensures PoolOk(ReserveSlot(p), slots)
  {
    var q := ReserveSlot(p);
    var k := |p.free| - 1;
    assert p.next !in p.active;
    assert p.free == q.free + [p.free[k]];
    CoverMoves(q.free, p.active, p.next, p.free[k], slots);
  }

  lemma DropSlotOk(p: Pool, slots: nat, ih: Ingest)
    requires PoolOk(p, slots) && ih in p.active
    ensures PoolOk(DropSlot(p, ih), slots)
  {
    var q := DropSlot(p, ih);
    CoverMoves(p.free, q.active, ih, p.active[ih], slots);
    assert q.active[ih := p.active[ih]] == p.active;
  }

  // ----- The index -------------------------------------------------------

  function Insert(ix: Index, path: Path, leaf: LeafData): Index {
    ix.(art := ix.art[path := |ix.leaves|], leaves := ix.leaves + [leaf], events := ix.events + [Add(leaf.locator)])
  }

  function SetCount(ix: Index, l: Leaf, n: nat): Index
    requires l < |ix.leaves|
  {
    ix.(leaves := ix.leaves[l := ix.leaves[l].(refcount := n)])
  }

  predicate Evictable(ix: Index, path: Path) {
    path in ix.art && ix.art[path] < |ix.leaves| && ix.leaves[ix.art[path]].refcount == 1
  }

  // Claim, remove and publish, as one step.
  function TryEvictNow(ix: Index, path: Path): Index {
    if !Evictable(ix, path) then ix
    else
      var l := ix.art[path];
      SetCount(ix, l, 0).(art := ix.art - {path}, events := ix.events + [Evict(ix.leaves[l].locator)])
  }

  function OnDramEvict(ix: Index, key: Key): Index {
    if key !in ix.evictIndex then ix
    else
      var path := ix.evictIndex[key];
      var rest := ix.(evictIndex := ix.evictIndex - {key});
      if path == [] then rest
      else if Evictable(rest, path) then TryEvictNow(rest, path)
      else if path in ix.art then rest.(deferred := rest.deferred + [Deferred(path, ix.art[path])])
      else rest
  }

  // The entry's own leaf is still there.
  predicate Current(ix: Index, e: Deferred) {
    e.path in ix.art && ix.art[e.path] == e.leaf
  }

  // One pass over the work list: replaced leaves are dropped, unread ones evicted, the rest kept.
  function SweepIndex(ix: Index, work: seq<Deferred>): Index
    decreases |work|
  {
    if work == [] then ix
    else SweepIndex(if Current(ix, work[0]) then TryEvictNow(ix, work[0].path) else ix, work[1..])
  }

  function SweepPending(ix: Index, work: seq<Deferred>): seq<Deferred>
    decreases |work|
  {
    if work == [] then []
    else if !Current(ix, work[0]) then SweepPending(ix, work[1..])
    else
      (if Evictable(ix, work[0].path) then [] else [work[0]])
      + SweepPending(TryEvictNow(ix, work[0].path), work[1..])
  }

  function Sweep(ix: Index): Index {
    var swept := SweepIndex(ix, ix.deferred);
    swept.(deferred := SweepPending(ix, ix.deferred))
  }

  // ----- Chunk paths -----------------------------------------------------

  function Chunkify(tokens: seq<Token>, hash: seq<Token> -> Chunk): Path {
    if |tokens| < CHUNK_TOKENS then [] else [hash(tokens[..CHUNK_TOKENS])] + Chunkify(tokens[CHUNK_TOKENS..], hash)
  }

  // The longest stored prefix of a path, by length; zero when there is none.
  function Longest(art: map<Path, Leaf>, path: Path): (n: nat)
    ensures n <= |path| && (n > 0 ==> path[..n] in art)
    ensures forall m | n < m <= |path| :: path[..m] !in art
  {
    if path == [] then 0
    else if path in art then assert path[..|path|] == path; |path|
    else
      var init := path[..|path| - 1];
      var n := Longest(art, init);
      assert init[..n] == path[..n];
      assert forall m | 0 <= m < |path| :: init[..m] == path[..m];
      assert path[..|path|] == path;
      n
  }

  // ----- Operations ------------------------------------------------------

  function Reserve(s: State, locator: Locator, bytes: nat, ns: Chunk, slotBytes: nat): (State, int) {
    if bytes == 0 then (s, INVAL)
    else if s.pool.free == [] then (s, NOMEM)
    else if slotBytes < bytes then (s.(pool := DropSlot(ReserveSlot(s.pool), s.pool.next)), NOMEM)
    else
      (s.(pool := ReserveSlot(s.pool), handles := s.handles[s.nextHandle := IngestH(locator, s.pool.next, ns)],
          nextHandle := s.nextHandle + 1), OK)
  }

  function Publish(s: State, h: Handle, watermark: nat): (State, int) {
    if h !in s.handles || !s.handles[h].IngestH? then (s, INVAL)
    else
      var ih := s.handles[h].ingest;
      if ih in s.pool.watermarks && watermark > s.pool.watermarks[ih]
      then (s.(pool := s.pool.(watermarks := s.pool.watermarks[ih := watermark])), OK)
      else (s, OK)
  }

  function Watermark(p: Pool, ih: Ingest): nat {
    if ih in p.watermarks then p.watermarks[ih] else 0
  }

  // The index after the commit of one sealed slot.
  function Committed(ix: Index, st: HandleState, bytes: nat, path: Path, refused: bool): Index {
    var noted := ix.(evictIndex := ix.evictIndex[st.locator.key := path]);
    if refused || path == [] then noted else Insert(noted, path, LeafData(st.locator, bytes, 1))
  }

  // The cleanup tail every exit of a seal runs through.
  function Forget(s: State, h: Handle, ih: Ingest): State {
    s.(pool := DropSlot(s.pool, ih), handles := s.handles - {h})
  }

  function SealCommit(s: State, h: Handle, path: Path, refused: bool): (State, int)
    requires h in s.handles && s.handles[h].IngestH?
  {
    var st := s.handles[h];
    (Forget(s.(index := Committed(s.index, st, Watermark(s.pool, st.ingest), path, refused)), h, st.ingest),
     if refused || path == [] then INTERNAL else OK)
  }

  function Seal(s: State, h: Handle, tokens: seq<Token>, refused: bool, hash: seq<Token> -> Chunk): (State, int) {
    if h !in s.handles || !s.handles[h].IngestH? then (s, INVAL)
    else if |tokens| < CHUNK_TOKENS then (Forget(s, h, s.handles[h].ingest), INVAL)
    else SealCommit(s, h, [s.handles[h].ns] + Chunkify(tokens, hash), refused)
  }

  function SealByChunkPath(s: State, h: Handle, path: Path, refused: bool): (State, int) {
    if h !in s.handles then (s, NOT_FOUND)
    else if !s.handles[h].IngestH? then (s, INVAL)
    else SealCommit(s, h, path, refused)
  }

  // A hit names its leaf by the number of chunks matched, the namespace not counted.
  function Lookup(s: State, tokens: seq<Token>, ns: Chunk, hash: seq<Token> -> Chunk): (State, int, nat) {
    if tokens == [] then (s, INVAL, 0)
    else
      var path := [ns] + Chunkify(tokens, hash);
      var n := Longest(s.index.art, path);
      if n <= 1 then (s, NOT_FOUND, 0)
      else
        var l := s.index.art[path[..n]];
        if l >= |s.index.leaves| || s.index.leaves[l].refcount == 0 then (s, NOT_FOUND, 0)
        else
          var leaf := s.index.leaves[l];
          (s.(index := SetCount(s.index, l, leaf.refcount + 1),
              handles := s.handles[s.nextHandle := ReadH(leaf.locator, l)], nextHandle := s.nextHandle + 1),
           OK, (n - 1) * CHUNK_TOKENS)
  }

  function Release(s: State, h: Handle): (State, int) {
    if h !in s.handles then (s, INVAL)
    else
      match s.handles[h]
      case IngestH(_, ih, _) => (Forget(s, h, ih), OK)
      case ReadH(_, l) =>
        var dropped := s.(handles := s.handles - {h});
        if l < |s.index.leaves| && s.index.leaves[l].refcount > 0
        then (dropped.(index := SetCount(s.index, l, s.index.leaves[l].refcount - 1)), OK)
        else (dropped, OK)
  }

  // ----- Runs ------------------------------------------------------------

  datatype Op =
    | OpReserve(locator: Locator, bytes: nat, ns: Chunk)
    | OpPublish(h: Handle, watermark: nat)
    | OpSeal(h: Handle, tokens: seq<Token>, refused: bool)
    | OpSealByChunkPath(h: Handle, path: Path, refused: bool)
    | OpLookup(tokens: seq<Token>, ns: Chunk)
    | OpRelease(h: Handle)
    | OpDramEvict(key: Key)
    | OpSweep

  function Act(s: State, op: Op, slotBytes: nat, hash: seq<Token> -> Chunk): State {
    match op
    case OpReserve(locator, bytes, ns) => Reserve(s, locator, bytes, ns, slotBytes).0
    case OpPublish(h, w) => Publish(s, h, w).0
    case OpSeal(h, tokens, refused) => Seal(s, h, tokens, refused, hash).0
    case OpSealByChunkPath(h, path, refused) => SealByChunkPath(s, h, path, refused).0
    case OpLookup(tokens, ns) => Lookup(s, tokens, ns, hash).0
    case OpRelease(h) => Release(s, h).0
    case OpDramEvict(key) => s.(index := OnDramEvict(s.index, key))
    case OpSweep => s.(index := Sweep(s.index))
  }

  // What an operation seals, if anything, an index that refuses the insert included.
  function Sealing(s: State, op: Op, hash: seq<Token> -> Chunk): Option<(Path, Key)> {
    if (op.OpSeal? || op.OpSealByChunkPath?) && op.h in s.handles && s.handles[op.h].IngestH? then
      var st := s.handles[op.h];
      if op.OpSealByChunkPath? then Some((op.path, st.locator.key))
      else if |op.tokens| < CHUNK_TOKENS then None
      else Some(([st.ns] + Chunkify(op.tokens, hash), st.locator.key))
    else None
  }

  function Exec(s: State, ops: seq<Op>, slotBytes: nat, hash: seq<Token> -> Chunk): State
    decreases |ops|
  {
    if ops == [] then s else Exec(Act(s, ops[0], slotBytes, hash), ops[1..], slotBytes, hash)
  }

  function AllSlots(n: nat): seq<Slot> {
    seq(n, i => i)
  }

  function Init(slots: nat): State {
    State(Pool(AllSlots(slots), map[], 1, map[], []), Index(map[], [], map[], [], []), map[], 1)
  }
}

/**
 What a seal records and what a lookup answers, told from the history of the run: the reservation, the
 watermarks published through its handle, and the prompts sealed so far.
 */
module NodeHistory {
  import opened NodeModel
  import opened NodeSafety

  // ----- Chunk paths -------------------------------------------------------

  // The i-th whole chunk of a prompt.
  function Piece(tokens: seq<Token>, i: nat): seq<Token>
    requires i < |tokens| / 16
  {
    tokens[16 * i..16 * i + 16]
  }

  // The path of a prompt: its namespace, then one chunk for each whole 16 tokens, the hash of those tokens.
  ghost predicate ChunkPath(path: Path, ns: Chunk, tokens: seq<Token>, hash: seq<Token> -> Chunk) {
    && |path| == 1 + |tokens| / 16 && path[0] == ns
    && forall i | 0 <= i < |tokens| / 16 :: path[1 + i] == hash(Piece(tokens, i))
  }

  lemma {:induction false} ChunkifyAt(tokens: seq<Token>, hash: seq<Token> -> Chunk, i: nat)
    requires i < |tokens| / 16
    ensures |Chunkify(tokens, hash)| == |tokens| / 16 && Chunkify(tokens, hash)[i] == hash(Piece(tokens, i))
    decreases |tokens|
  {
    ChunkifyPrefix(tokens, [], hash);
    if i > 0 {
      var rest := tokens[16..];
      ChunkifyAt(rest, hash, i - 1);
      assert Piece(rest, i - 1) == Piece(tokens, i);
    }
  }

  lemma PromptPath(ns: Chunk, tokens: seq<Token>, hash: seq<Token> -> Chunk)
    ensures ChunkPath([ns] + Chunkify(tokens, hash), ns, tokens, hash)
  {
    ChunkifyPrefix(tokens, [], hash);
    forall i | 0 <= i < |tokens| / 16 ensures ([ns] + Chunkify(tokens, hash))[1 + i] == hash(Piece(tokens, i)) {
      ChunkifyAt(tokens, hash, i);
    }
  }

  // Whether a prompt has this path is decided by nothing but namespace and whole chunks.
  lemma PathUnique(p: Path, q: Path, ns: Chunk, tokens: seq<Token>, hash: seq<Token> -> Chunk)
    requires ChunkPath(p, ns, tokens, hash) && ChunkPath(q, ns, tokens, hash)
    ensures p == q
  {
    forall j | 0 <= j < |p| ensures p[j] == q[j] {
      if j > 0 { assert p[1 + (j - 1)] == hash(Piece(tokens, j - 1)); }
    }
  }

  // ----- Watermarks --------------------------------------------------------

  // The greatest value published through h in these operations, or `from` when none is greater.
  ghost predicate Greatest(ops: seq<Op>, h: Handle, from: nat, w: nat) {
    && from <= w && (w == from || OpPublish(h, w) in ops)
    && forall op | op in ops && op.OpPublish? && op.h == h :: op.watermark <= w
  }

  lemma GreatestMore(op: Op, rest: seq<Op>, h: Handle, from: nat, mid: nat, w: nat)
    requires Greatest([op], h, from, mid) && Greatest(rest, h, mid, w)
    ensures Greatest([op] + rest, h, from, w)
  {
  }

  // The handle is live with the state it was reserved with, and its watermark is w.
  ghost predicate At(s: State, h: Handle, st: HandleState, w: nat) {
    h in s.handles && s.handles[h] == st && st.IngestH? && Watermark(s.pool, st.ingest) == w
  }

  // Any operation leaves another handle's reservation, and so its watermark, alone.
  lemma StepAt(s: State, op: Op, slotBytes: nat, hash: seq<Token> -> Chunk, slots: nat, h: Handle, st: HandleState, w: nat)
    requires SlotInv(s, slots) && At(s, h, st, w) && h in Act(s, op, slotBytes, hash).handles
    ensures var v := if op.OpPublish? && op.h == h && op.watermark > w then op.watermark else w;
      At(Act(s, op, slotBytes, hash), h, st, v) && Greatest([op], h, w, v)
  {
    assert st.ingest in Owners(s.handles);
    FreshIngest(s, slots);
  }

  lemma {:induction false} WatermarkAlong(s: State, ops: seq<Op>, slotBytes: nat, hash: seq<Token> -> Chunk, slots: nat,
                                          h: Handle, st: HandleState, w: nat) returns (v: nat)
    requires SlotInv(s, slots) && At(s, h, st, w) && h in Exec(s, ops, slotBytes, hash).handles
    ensures At(Exec(s, ops, slotBytes, hash), h, st, v) && Greatest(ops, h, w, v)
    decreases |ops|
  {
    if ops == [] {
      v := w;
    } else {
      var t := Act(s, ops[0], slotBytes, hash);
      ActKeepsSlots(s, ops[0], slotBytes, hash, slots);
      HandlesIssued(s, ops[0], slotBytes, hash, h);
      if h !in t.handles { DeadStaysDead(t, ops[1..], slotBytes, hash, h); }
      StepAt(s, ops[0], slotBytes, hash, slots, h, st, w);
      var mid := Watermark(t.pool, st.ingest);
      v := WatermarkAlong(t, ops[1..], slotBytes, hash, slots, h, st, mid);
      GreatestMore(ops[0], ops[1..], h, w, mid, v);
      assert ops == [ops[0]] + ops[1..];
    }
  }

  lemma HandlesIssued(s: State, op: Op, slotBytes: nat, hash: seq<Token> -> Chunk, h: Handle)
    requires h < s.nextHandle
    ensures h < Act(s, op, slotBytes, hash).nextHandle
  {
  }

  // ----- What a reservation and a seal record --------------------------------

  lemma GivenBack(p: Pool)
    requires p.free != [] && p.next !in p.active && p.watermarks.Keys == p.active.Keys
    ensures var q := DropSlot(ReserveSlot(p), p.next); q.active == p.active && q.watermarks == p.watermarks
  {
    var r := ReserveSlot(p);
    assert r.active - {p.next} == p.active;
    assert r.watermarks - {p.next} == p.watermarks;
  }

  lemma RefusedReserve(s: State, locator: Locator, bytes: nat, ns: Chunk, slotBytes: nat)
    requires s.pool.next !in s.pool.active && s.pool.watermarks.Keys == s.pool.active.Keys
    requires Reserve(s, locator, bytes, ns, slotBytes).1 != OK
    ensures var t := Reserve(s, locator, bytes, ns, slotBytes).0;
      t.handles == s.handles && t.pool.active == s.pool.active && t.pool.watermarks == s.pool.watermarks
  {
    if bytes > 0 && s.pool.free != [] { GivenBack(s.pool); }
  }

  // After every run, when Reserve succeeds and with what answer it fails; a failure changes nothing a caller sees.
  lemma ReserveAnswers(ops: seq<Op>, locator: Locator, bytes: nat, ns: Chunk, slotBytes: nat, hash: seq<Token> -> Chunk, slots: nat)
    ensures var s := Exec(Init(slots), ops, slotBytes, hash); var rc := Reserve(s, locator, bytes, ns, slotBytes).1;
      && (rc == OK <==> bytes > 0 && s.pool.free != [] && bytes <= slotBytes)
      && (rc == INVAL <==> bytes == 0)
      && (rc == NOMEM <==> bytes > 0 && (s.pool.free == [] || bytes > slotBytes))
    ensures var s := Exec(Init(slots), ops, slotBytes, hash); var (t, rc) := Reserve(s, locator, bytes, ns, slotBytes);
      && t.index == s.index
      && (rc != OK ==> t.handles == s.handles && t.pool.active == s.pool.active && t.pool.watermarks == s.pool.watermarks)
  {
    var s := Exec(Init(slots), ops, slotBytes, hash);
    InitOk(slots);
    ExecKeepsSlots(Init(slots), ops, slotBytes, hash, slots);
    FreshIngest(s, slots);
    if Reserve(s, locator, bytes, ns, slotBytes).1 != OK { RefusedReserve(s, locator, bytes, ns, slotBytes); }
  }

  // The handle a reservation got, later in the run.
  ghost predicate Holds(before: seq<Op>, locator: Locator, bytes: nat, ns: Chunk, after: seq<Op>, slotBytes: nat,
                        hash: seq<Token> -> Chunk, slots: nat) {
    var s := Exec(Init(slots), before, slotBytes, hash);
    && Reserve(s, locator, bytes, ns, slotBytes).1 == OK
    && s.nextHandle in Exec(Act(s, OpReserve(locator, bytes, ns), slotBytes, hash), after, slotBytes, hash).handles
  }

  // In every run a live reservation keeps its locator and namespace, and its watermark is the greatest value published
  // through its handle since, zero if there was none.
  lemma WatermarkIsGreatest(before: seq<Op>, locator: Locator, bytes: nat, ns: Chunk, after: seq<Op>, slotBytes: nat,
                            hash: seq<Token> -> Chunk, slots: nat)
    requires Holds(before, locator, bytes, ns, after, slotBytes, hash, slots)
    ensures var s := Exec(Init(slots), before, slotBytes, hash);
      var t := Exec(Act(s, OpReserve(locator, bytes, ns), slotBytes, hash), after, slotBytes, hash);
      var st := t.handles[s.nextHandle];
      && st.IngestH? && st.locator == locator && st.ns == ns
      && Greatest(after, s.nextHandle, 0, Watermark(t.pool, st.ingest))
  {
    var s := Exec(Init(slots), before, slotBytes, hash);
    var op := OpReserve(locator, bytes, ns);
    InitOk(slots);
    ExecKeepsSlots(Init(slots), before, slotBytes, hash, slots);
    FreshIngest(s, slots);
    var st := IngestH(locator, s.pool.next, ns);
    ActKeepsSlots(s, op, slotBytes, hash, slots);
    assert At(Act(s, op, slotBytes, hash), s.nextHandle, st, 0);
    var v := WatermarkAlong(Act(s, op, slotBytes, hash), after, slotBytes, hash, slots, s.nextHandle, st, 0);
  }

  // The index with one new leaf at a path, its event published, and the rest as it was.
  ghost predicate OneMore(ix: Index, iy: Index, path: Path, leaf: LeafData) {
    && iy.leaves == ix.leaves + [leaf] && path in iy.art && iy.art[path] == |ix.leaves|
    && iy.art - {path} == ix.art - {path} && iy.events == ix.events + [Add(leaf.locator)]
    && leaf.locator.key in iy.evictIndex && iy.evictIndex[leaf.locator.key] == path
    && iy.evictIndex - {leaf.locator.key} == ix.evictIndex - {leaf.locator.key} && iy.deferred == ix.deferred
  }

  lemma CommitIsOneMore(ix: Index, st: HandleState, bytes: nat, path: Path)
    requires path != []
    ensures OneMore(ix, Committed(ix, st, bytes, path, false), path, LeafData(st.locator, bytes, 1))
  {
    var iy := Committed(ix, st, bytes, path, false);
    assert iy.art - {path} == ix.art - {path};
    assert iy.evictIndex - {st.locator.key} == ix.evictIndex - {st.locator.key};
  }

  // In every run an accepted Seal indexes, at the path of its prompt in the reservation's namespace, one new leaf with
  // the reservation's locator and exactly the bytes published, and announces it.
  lemma SealRecords(before: seq<Op>, locator: Locator, bytes: nat, ns: Chunk, after: seq<Op>, tokens: seq<Token>,
                    slotBytes: nat, hash: seq<Token> -> Chunk, slots: nat, path: Path)
    requires Holds(before, locator, bytes, ns, after, slotBytes, hash, slots)
    requires |tokens| >= 16 && ChunkPath(path, ns, tokens, hash)
    ensures var s := Exec(Init(slots), before, slotBytes, hash); var h := s.nextHandle;
      var t := Exec(Act(s, OpReserve(locator, bytes, ns), slotBytes, hash), after, slotBytes, hash);
      var (u, rc) := Seal(t, h, tokens, false, hash);
      rc == OK && exists w: nat :: Greatest(after, h, 0, w) && OneMore(t.index, u.index, path, LeafData(locator, w, 1))
  {
    var s := Exec(Init(slots), before, slotBytes, hash);
    var t := Exec(Act(s, OpReserve(locator, bytes, ns), slotBytes, hash), after, slotBytes, hash);
    WatermarkIsGreatest(before, locator, bytes, ns, after, slotBytes, hash, slots);
    var st := t.handles[s.nextHandle];
    PromptPath(ns, tokens, hash);
    PathUnique(path, [ns] + Chunkify(tokens, hash), ns, tokens, hash);
    CommitIsOneMore(t.index, st, Watermark(t.pool, st.ingest), path);
  }

  // The same for a Seal by chunk path, at any path but the empty one.
  lemma SealByPathRecords(before: seq<Op>, locator: Locator, bytes: nat, ns: Chunk, after: seq<Op>, path: Path,
                          slotBytes: nat, hash: seq<Token> -> Chunk, slots: nat)
    requires Holds(before, locator, bytes, ns, after, slotBytes, hash, slots) && path != []
    ensures var s := Exec(Init(slots), before, slotBytes, hash); var h := s.nextHandle;
      var t := Exec(Act(s, OpReserve(locator, bytes, ns), slotBytes, hash), after, slotBytes, hash);
      var (u, rc) := SealByChunkPath(t, h, path, false);
      rc == OK && exists w: nat :: Greatest(after, h, 0, w) && OneMore(t.index, u.index, path, LeafData(locator, w, 1))
  {
    var s := Exec(Init(slots), before, slotBytes, hash);
    var t := Exec(Act(s, OpReserve(locator, bytes, ns), slotBytes, hash), after, slotBytes, hash);
    WatermarkIsGreatest(before, locator, bytes, ns, after, slotBytes, hash, slots);
    var st := t.handles[s.nextHandle];
    CommitIsOneMore(t.index, st, Watermark(t.pool, st.ingest), path);
  }

  // Nothing indexed, queued or announced; a refused seal still overwrites the evict index.
  predicate NothingNew(ix: Index, iy: Index) {
    iy.art == ix.art && iy.leaves == ix.leaves && iy.events == ix.events && iy.deferred == ix.deferred
  }

  // A Seal of fewer than 16 tokens, one the index refuses and one at an empty path index and announce nothing.
  lemma FailedSealRecordsNothing(s: State, h: Handle, tokens: seq<Token>, path: Path, refused: bool, hash: seq<Token> -> Chunk)
    requires h in s.handles && s.handles[h].IngestH? && (|tokens| < 16 || refused)
    ensures var (u, rc) := Seal(s, h, tokens, refused, hash);
      rc == (if |tokens| < 16 then INVAL else INTERNAL) && NothingNew(s.index, u.index)
    ensures refused || path == [] ==>
      var (u, rc) := SealByChunkPath(s, h, path, refused); rc == INTERNAL && NothingNew(s.index, u.index)
  {
  }

  // ----- Answers and what is given back --------------------------------------

  // What each call answers for a handle that is unknown, of a reader, or of a reservation.
  lemma AnswerCodes(s: State, h: Handle, w: nat, tokens: seq<Token>, path: Path, refused: bool, hash: seq<Token> -> Chunk)
    ensures Release(s, h).1 == if h in s.handles then OK else INVAL
    ensures Publish(s, h, w).1 == if h in s.handles && s.handles[h].IngestH? then OK else INVAL
    ensures h !in s.handles ==> Seal(s, h, tokens, refused, hash) == (s, INVAL)
    ensures h !in s.handles ==> SealByChunkPath(s, h, path, refused) == (s, NOT_FOUND)
    ensures h in s.handles && s.handles[h].ReadH? ==>
      Seal(s, h, tokens, refused, hash) == (s, INVAL) && SealByChunkPath(s, h, path, refused) == (s, INVAL)
  {
  }

  // The reservation's slot is back on the free stack and its watermark and handle are gone.
  predicate GaveBack(s: State, t: State, h: Handle)
    requires h in s.handles && s.handles[h].IngestH? && s.handles[h].ingest in s.pool.active
  {
    var ih := s.handles[h].ingest;
    && t.handles == s.handles - {h} && t.pool.active == s.pool.active - {ih}
    && t.pool.free == s.pool.free + [s.pool.active[ih]] && t.pool.watermarks == s.pool.watermarks - {ih}
  }

  // In every run the end of a reservation, by Release or by any Seal, accepted or not, gives its slot back and forgets
  // its handle and watermark; Release leaves the index alone.
  lemma EndGivesBack(ops: seq<Op>, slotBytes: nat, hash: seq<Token> -> Chunk, slots: nat, h: Handle, tokens: seq<Token>,
                     path: Path, refused: bool)
    requires var s := Exec(Init(slots), ops, slotBytes, hash); h in s.handles && s.handles[h].IngestH?
    ensures var s := Exec(Init(slots), ops, slotBytes, hash);
      && s.handles[h].ingest in s.pool.active
      && GaveBack(s, Release(s, h).0, h) && Release(s, h).0.index == s.index
      && GaveBack(s, Seal(s, h, tokens, refused, hash).0, h) && GaveBack(s, SealByChunkPath(s, h, path, refused).0, h)
  {
    var s := Exec(Init(slots), ops, slotBytes, hash);
    InitOk(slots);
    ExecKeepsSlots(Init(slots), ops, slotBytes, hash, slots);
    assert s.handles[h].ingest in Owners(s.handles);
  }

  // In every run a reader's Release forgets its handle and gives up exactly its hold on its leaf.
  lemma ReaderGivesUp(ops: seq<Op>, slotBytes: nat, hash: seq<Token> -> Chunk, slots: nat, h: Handle)
    requires var s := Exec(Init(slots), ops, slotBytes, hash); h in s.handles && s.handles[h].ReadH?
    ensures var s := Exec(Init(slots), ops, slotBytes, hash); var l := s.handles[h].leaf; var t := Release(s, h).0;
      && l < |s.index.leaves| && s.index.leaves[l].refcount > 1
      && t == s.(handles := s.handles - {h},
                 index := s.index.(leaves := s.index.leaves[l := s.index.leaves[l].(refcount := s.index.leaves[l].refcount - 1)]))
  {
    var s := Exec(Init(slots), ops, slotBytes, hash);
    RefcountsCountHandles(ops, slotBytes, hash, slots);
    assert Counted(s, s.handles[h].leaf) && h in ReadersOf(s.handles, s.handles[h].leaf);
  }
}

/**
 What a lookup finds, told from the prompts sealed so far: the latest accepted seal of exactly the tokens it
 matched, in its own namespace.
 */
module NodeLookups {
  import opened NodeModel
  import opened NodeSafety
  import opened NodeHistory
  import opened NodeReaders

  // An accepted Seal of a prompt.
  datatype Prompt = Prompt(ns: Chunk, tokens: seq<Token>, locator: Locator, bytes: nat)

  predicate Accepted(s: State, op: Op) {
    op.OpSeal? && op.h in s.handles && s.handles[op.h].IngestH? && |op.tokens| >= 16 && !op.refused
  }

  function Entry(s: State, op: Op): Prompt
    requires Accepted(s, op)
  {
    var st := s.handles[op.h];
    Prompt(st.ns, op.tokens, st.locator, if st.ingest in s.pool.watermarks then s.pool.watermarks[st.ingest] else 0)
  }

  // A run that seals by prompt, never by chunk path.
  ghost predicate PromptsOnly(ops: seq<Op>) {
    forall op | op in ops :: !op.OpSealByChunkPath?
  }

  // The prompts sealed along a run.
  function Prompts(s: State, ops: seq<Op>, slotBytes: nat, hash: seq<Token> -> Chunk): seq<Prompt>
    decreases |ops|
  {
    if ops == [] then []
    else (if Accepted(s, ops[0]) then [Entry(s, ops[0])] else []) + Prompts(Act(s, ops[0], slotBytes, hash), ops[1..], slotBytes, hash)
  }

  // The i-th prompt is the last one sealed at this path.
  ghost predicate LastAt(log: seq<Prompt>, i: nat, path: Path, hash: seq<Token> -> Chunk) {
    && i < |log| && ChunkPath(path, log[i].ns, log[i].tokens, hash)
    && forall j | i < j < |log| :: !ChunkPath(path, log[j].ns, log[j].tokens, hash)
  }

  // The leaf is the one the i-th prompt was sealed as.
  predicate Of(leaf: LeafData, p: Prompt) {
    leaf.locator == p.locator && leaf.bytes == p.bytes
  }

  ghost predicate LeafIs(log: seq<Prompt>, path: Path, leaf: LeafData, hash: seq<Token> -> Chunk) {
    exists i: nat :: LastAt(log, i, path, hash) && Of(leaf, log[i])
  }

  // Every indexed leaf is the last prompt sealed at its path.
  ghost predicate AllLast(ix: Index, log: seq<Prompt>, hash: seq<Token> -> Chunk) {
    forall p | p in ix.art :: ix.art[p] < |ix.leaves| && LeafIs(log, p, ix.leaves[ix.art[p]], hash)
  }

  // ----- Every operation keeps it --------------------------------------------

  // Nothing new is indexed, and no leaf changes what it records.
  ghost predicate OnlyLess(ix: Index, iy: Index) {
    && |ix.leaves| == |iy.leaves|
    && (forall l | 0 <= l < |ix.leaves| :: iy.leaves[l].locator == ix.leaves[l].locator && iy.leaves[l].bytes == ix.leaves[l].bytes)
    && (forall p | p in iy.art :: p in ix.art && iy.art[p] == ix.art[p])
  }

  lemma LeafLike(log: seq<Prompt>, path: Path, leaf: LeafData, other: LeafData, hash: seq<Token> -> Chunk)
    requires LeafIs(log, path, leaf, hash) && other.locator == leaf.locator && other.bytes == leaf.bytes
    ensures LeafIs(log, path, other, hash)
  {
    var i: nat :| LastAt(log, i, path, hash) && Of(leaf, log[i]);
    assert Of(other, log[i]);
  }

  lemma LessKeeps(ix: Index, iy: Index, log: seq<Prompt>, hash: seq<Token> -> Chunk)
    requires AllLast(ix, log, hash) && OnlyLess(ix, iy)
    ensures AllLast(iy, log, hash)
  {
    forall p | p in iy.art ensures iy.art[p] < |iy.leaves| && LeafIs(log, p, iy.leaves[iy.art[p]], hash) {
      LeafLike(log, p, ix.leaves[ix.art[p]], iy.leaves[iy.art[p]], hash);
    }
  }

  lemma {:induction false} SweepLess(ix: Index, work: seq<Deferred>)
    ensures OnlyLess(ix, SweepIndex(ix, work))
    decreases |work|
  {
    if work != [] {
      var iy := if Current(ix, work[0]) then TryEvictNow(ix, work[0].path) else ix;
      SweepLess(iy, work[1..]);
      assert OnlyLess(ix, iy);
    }
  }

  lemma LastStays(log: seq<Prompt>, e: Prompt, i: nat, p: Path, hash: seq<Token> -> Chunk)
    requires LastAt(log, i, p, hash) && !ChunkPath(p, e.ns, e.tokens, hash)
    ensures LastAt(log + [e], i, p, hash)
  {
    forall j | i < j < |log + [e]| ensures !ChunkPath(p, (log + [e])[j].ns, (log + [e])[j].tokens, hash) {
      if j < |log| { assert (log + [e])[j] == log[j]; }
    }
  }

  lemma LeafLater(log: seq<Prompt>, e: Prompt, p: Path, leaf: LeafData, hash: seq<Token> -> Chunk)
    requires LeafIs(log, p, leaf, hash) && !ChunkPath(p, e.ns, e.tokens, hash)
    ensures LeafIs(log + [e], p, leaf, hash)
  {
    var i: nat :| LastAt(log, i, p, hash) && Of(leaf, log[i]);
    LastStays(log, e, i, p, hash);
    assert (log + [e])[i] == log[i];
  }

  lemma LeafNow(log: seq<Prompt>, e: Prompt, path: Path, hash: seq<Token> -> Chunk)
    requires ChunkPath(path, e.ns, e.tokens, hash)
    ensures LeafIs(log + [e], path, LeafData(e.locator, e.bytes, 1), hash)
  {
    assert (log + [e])[|log|] == e;
    assert LastAt(log + [e], |log|, path, hash) && Of(LeafData(e.locator, e.bytes, 1), (log + [e])[|log|]);
  }

  lemma SealAllLast(ix: Index, iy: Index, log: seq<Prompt>, e: Prompt, path: Path, hash: seq<Token> -> Chunk)
    requires AllLast(ix, log, hash) && ChunkPath(path, e.ns, e.tokens, hash)
    requires OneMore(ix, iy, path, LeafData(e.locator, e.bytes, 1))
    ensures AllLast(iy, log + [e], hash)
  {
    forall p | p in iy.art ensures iy.art[p] < |iy.leaves| && LeafIs(log + [e], p, iy.leaves[iy.art[p]], hash) {
      if p == path {
        LeafNow(log, e, path, hash);
      } else {
        assert p in iy.art - {path} && (ix.art - {path})[p] == iy.art[p];
        if ChunkPath(p, e.ns, e.tokens, hash) { PathUnique(p, path, e.ns, e.tokens, hash); }
        LeafLater(log, e, p, ix.leaves[ix.art[p]], hash);
      }
    }
  }

  lemma ActAllLast(s: State, op: Op, log: seq<Prompt>, slotBytes: nat, hash: seq<Token> -> Chunk)
    requires AllLast(s.index, log, hash) && !op.OpSealByChunkPath?
    ensures AllLast(Act(s, op, slotBytes, hash).index, log + if Accepted(s, op) then [Entry(s, op)] else [], hash)
  {
    var ix, iy := s.index, Act(s, op, slotBytes, hash).index;
    assert log + [] == log;
    if Accepted(s, op) {
      var st := s.handles[op.h];
      var path := [st.ns] + Chunkify(op.tokens, hash);
      PromptPath(st.ns, op.tokens, hash);
      CommitIsOneMore(ix, st, Watermark(s.pool, st.ingest), path);
      SealAllLast(ix, iy, log, Entry(s, op), path, hash);
    } else if op.OpSweep? {
      SweepLess(ix, ix.deferred);
      LessKeeps(ix, iy, log, hash);
    } else {
      OtherLess(s, op, slotBytes, hash);
      LessKeeps(ix, iy, log, hash);
    }
  }

  lemma OtherLess(s: State, op: Op, slotBytes: nat, hash: seq<Token> -> Chunk)
    requires !op.OpSealByChunkPath? && !Accepted(s, op) && !op.OpSweep?
    ensures OnlyLess(s.index, Act(s, op, slotBytes, hash).index)
  {
  }

  lemma {:induction false} ExecAllLast(s: State, ops: seq<Op>, log: seq<Prompt>, slotBytes: nat, hash: seq<Token> -> Chunk)
    requires AllLast(s.index, log, hash) && PromptsOnly(ops)
    ensures AllLast(Exec(s, ops, slotBytes, hash).index, log + Prompts(s, ops, slotBytes, hash), hash)
    decreases |ops|
  {
    if ops == [] {
      assert log + [] == log;
    } else {
      var t := Act(s, ops[0], slotBytes, hash);
      var one, rest := (if Accepted(s, ops[0]) then [Entry(s, ops[0])] else []), Prompts(t, ops[1..], slotBytes, hash);
      assert AllLast(t.index, log + one, hash) by { ActAllLast(s, ops[0], log, slotBytes, hash); }
      assert forall op | op in ops[1..] :: op in ops;
      ExecAllLast(t, ops[1..], log + one, slotBytes, hash);
      assert (log + one) + rest == log + (one + rest);
    }
  }

  // ----- What a lookup answers -------------------------------------------------

  ghost predicate Injective(hash: seq<Token> -> Chunk) {
    forall a: seq<Token>, b: seq<Token> | |a| == 16 && |b| == 16 && hash(a) == hash(b) :: a == b
  }

  // The prompt's whole chunks are exactly these tokens.
  predicate WholeChunks(p: Prompt, tokens: seq<Token>) {
    |tokens| % 16 == 0 && |tokens| <= |p.tokens| < |tokens| + 16 && p.tokens[..|tokens|] == tokens
  }

  // Two prompts at one path have the same whole chunks.
  lemma SamePath(path: Path, ns: Chunk, a: seq<Token>, m: Chunk, b: seq<Token>, hash: seq<Token> -> Chunk)
    requires Injective(hash) && ChunkPath(path, ns, a, hash) && ChunkPath(path, m, b, hash)
    ensures ns == m && |a| / 16 == |b| / 16 && a[..|a| / 16 * 16] == b[..|a| / 16 * 16]
  {
    var n := |a| / 16;
    forall i | 0 <= i < n * 16 ensures a[i] == b[i] {
      var c := i / 16;
      assert hash(Piece(a, c)) == path[1 + c] == hash(Piece(b, c));
      assert a[i] == Piece(a, c)[i - 16 * c] && b[i] == Piece(b, c)[i - 16 * c];
    }
  }

  lemma PrefixPath(path: Path, ns: Chunk, tokens: seq<Token>, hash: seq<Token> -> Chunk, m: nat)
    requires ChunkPath(path, ns, tokens, hash) && m <= |tokens| / 16
    ensures ChunkPath(path[..1 + m], ns, tokens[..16 * m], hash)
  {
    var cut := tokens[..16 * m];
    forall i | 0 <= i < |cut| / 16 ensures path[..1 + m][1 + i] == hash(Piece(cut, i)) {
      assert Piece(cut, i) == Piece(tokens, i);
    }
  }

  // The i-th prompt of the log is the last one of this namespace whose whole chunks are these tokens.
  ghost predicate LastOf(log: seq<Prompt>, i: nat, ns: Chunk, tokens: seq<Token>) {
    && i < |log| && log[i].ns == ns && WholeChunks(log[i], tokens)
    && forall j | i < j < |log| :: !(log[j].ns == ns && WholeChunks(log[j], tokens))
  }

  lemma LastIsLast(log: seq<Prompt>, i: nat, path: Path, ns: Chunk, tokens: seq<Token>, hash: seq<Token> -> Chunk)
    requires Injective(hash) && LastAt(log, i, path, hash) && |tokens| % 16 == 0 && ChunkPath(path, ns, tokens, hash)
    ensures LastOf(log, i, ns, tokens)
  {
    assert tokens[..|tokens| / 16 * 16] == tokens;
    SamePath(path, ns, tokens, log[i].ns, log[i].tokens, hash);
    forall j | i < j < |log| ensures !(log[j].ns == ns && WholeChunks(log[j], tokens)) {
      if log[j].ns == ns && WholeChunks(log[j], tokens) {
        SameChunks(path, ns, tokens, log[j].tokens, hash);
      }
    }
  }

  lemma SameChunks(path: Path, ns: Chunk, a: seq<Token>, b: seq<Token>, hash: seq<Token> -> Chunk)
    requires ChunkPath(path, ns, a, hash) && |a| % 16 == 0 && |a| <= |b| < |a| + 16 && b[..|a|] == a
    ensures ChunkPath(path, ns, b, hash)
  {
    forall i | 0 <= i < |b| / 16 ensures path[1 + i] == hash(Piece(b, i)) {
      assert Piece(b, i) == b[..|a|][16 * i..16 * i + 16] == Piece(a, i);
    }
  }

  // The answer of a lookup: what it registers names the last prompt of its namespace whose whole chunks are exactly the
  // tokens matched.
  ghost predicate Names(log: seq<Prompt>, t: State, h: Handle, ns: Chunk, tokens: seq<Token>, i: nat) {
    && LastOf(log, i, ns, tokens) && h in t.handles && t.handles[h].ReadH? && t.handles[h].locator == log[i].locator
    && t.handles[h].leaf < |t.index.leaves| && Of(t.index.leaves[t.handles[h].leaf], log[i])
  }

  // The path found by a hit: indexed, and that of the tokens matched.
  lemma HitFinds(s: State, hash: seq<Token> -> Chunk, tokens: seq<Token>, ns: Chunk) returns (p: Path)
    requires Lookup(s, tokens, ns, hash).1 == OK
    ensures var (t, _, matched) := Lookup(s, tokens, ns, hash);
      && 0 < matched <= |tokens| && matched % 16 == 0 && p in s.index.art && ChunkPath(p, ns, tokens[..matched], hash)
      && s.index.art[p] < |s.index.leaves| && |t.index.leaves| == |s.index.leaves|
      && s.nextHandle in t.handles && t.handles[s.nextHandle] == ReadH(s.index.leaves[s.index.art[p]].locator, s.index.art[p])
      && t.index.leaves[s.index.art[p]].locator == s.index.leaves[s.index.art[p]].locator
      && t.index.leaves[s.index.art[p]].bytes == s.index.leaves[s.index.art[p]].bytes
  {
    var path := [ns] + Chunkify(tokens, hash);
    var n := Longest(s.index.art, path);
    p := path[..n];
    PromptPath(ns, tokens, hash);
    PrefixPath(path, ns, tokens, hash, n - 1);
    assert 16 * (n - 1) <= |tokens|;
  }

  lemma HitNames(s: State, log: seq<Prompt>, hash: seq<Token> -> Chunk, tokens: seq<Token>, ns: Chunk) returns (i: nat)
    requires Injective(hash) && AllLast(s.index, log, hash) && Lookup(s, tokens, ns, hash).1 == OK
    ensures var (t, _, matched) := Lookup(s, tokens, ns, hash);
      0 < matched <= |tokens| && Names(log, t, s.nextHandle, ns, tokens[..matched], i)
  {
    var p := HitFinds(s, hash, tokens, ns);
    i := LeafNames(log, p, s.index.leaves[s.index.art[p]], ns, tokens[..Lookup(s, tokens, ns, hash).2], hash);
  }

  lemma LeafNames(log: seq<Prompt>, p: Path, leaf: LeafData, ns: Chunk, tokens: seq<Token>, hash: seq<Token> -> Chunk)
    returns (i: nat)
    requires Injective(hash) && LeafIs(log, p, leaf, hash) && |tokens| % 16 == 0 && ChunkPath(p, ns, tokens, hash)
    ensures LastOf(log, i, ns, tokens) && Of(leaf, log[i])
  {
    i :| LastAt(log, i, p, hash) && Of(leaf, log[i]);
    LastIsLast(log, i, p, ns, tokens, hash);
  }

  // The lookup hits and names the last prompt of its namespace whose whole chunks are exactly the tokens matched, or it
  // misses and changes nothing.
  ghost predicate AnswersRight(ops: seq<Op>, slotBytes: nat, hash: seq<Token> -> Chunk, slots: nat, tokens: seq<Token>, ns: Chunk) {
    var s := Exec(Init(slots), ops, slotBytes, hash);
    var (t, rc, matched) := Lookup(s, tokens, ns, hash);
    if rc == OK then
      && 0 < matched <= |tokens|
      && exists i: nat :: Names(Prompts(Init(slots), ops, slotBytes, hash), t, s.nextHandle, ns, tokens[..matched], i)
    else t == s && matched == 0 && rc == if tokens == [] then INVAL else NOT_FOUND
  }

  lemma LookupIsSound(ops: seq<Op>, slotBytes: nat, hash: seq<Token> -> Chunk, slots: nat, tokens: seq<Token>, ns: Chunk)
    requires Injective(hash) && PromptsOnly(ops)
    ensures AnswersRight(ops, slotBytes, hash, slots, tokens, ns)
  {
    var s := Exec(Init(slots), ops, slotBytes, hash);
    var log := Prompts(Init(slots), ops, slotBytes, hash);
    assert [] + log == log;
    ExecAllLast(Init(slots), ops, [], slotBytes, hash);
    if Lookup(s, tokens, ns, hash).1 == OK { var i := HitNames(s, log, hash, tokens, ns); }
  }

  // Reserve a slot and seal a prompt.
  function SealOne(tokens: seq<Token>): seq<Op> {
    [OpReserve(Locator(0, 0), 1, 0), OpSeal(1, tokens, false)]
  }

  lemma SealOneLogs(tokens: seq<Token>, slotBytes: nat, hash: seq<Token> -> Chunk, slots: nat)
    requires slots >= 1 && slotBytes >= 1 && |tokens| >= 16
    ensures var log := Prompts(Init(slots), SealOne(tokens), slotBytes, hash); |log| == 1 && log[0].tokens == tokens
  {
    var ops := SealOne(tokens);
    var s1 := Act(Init(slots), ops[0], slotBytes, hash);
    assert s1.handles[1] == IngestH(Locator(0, 0), 1, 0);
    assert ops[1..] == [ops[1]] && ops[1..][1..] == [];
    assert Prompts(s1, [ops[1]], slotBytes, hash) == [Entry(s1, ops[1])] + Prompts(Act(s1, ops[1], slotBytes, hash), [], slotBytes, hash);
  }

  // Two chunks that hash alike: a prompt of the one is found by a lookup of the other.
  lemma CollisionHits(a: seq<Token>, b: seq<Token>, slotBytes: nat, hash: seq<Token> -> Chunk, slots: nat)
    requires slots >= 1 && slotBytes >= 1 && |a| == 16 && |b| == 16 && hash(a) == hash(b) && a != b
    ensures !AnswersRight(SealOne(a), slotBytes, hash, slots, b, 0)
  {
    var s := Exec(Init(slots), SealOne(a), slotBytes, hash);
    ReserveThenSeal(Init(slots), Locator(0, 0), a, slotBytes, hash);
    SealOneLogs(a, slotBytes, hash, slots);
    assert a[..16] == a && b[..16] == b;
    assert Chunkify(a, hash) == [hash(a)] + Chunkify(a[16..], hash) && Chunkify(b, hash) == [hash(b)] + Chunkify(b[16..], hash);
    LookupOwn(s, b, slotBytes, hash, 0);
    assert Lookup(s, b, 0, hash).1 == OK && Lookup(s, b, 0, hash).2 == 16 by {
      var path := [0] + Chunkify(b, hash);
      assert path[..|path|] == path && path in s.index.art;
    }
  }

  // Over all runs of reserves, publishes, seals of prompts, lookups, releases and evictions: every lookup answers right if
  // and only if no two chunks hash alike.
  lemma LookupSoundIff(slotBytes: nat, hash: seq<Token> -> Chunk, slots: nat)
    requires slots >= 1 && slotBytes >= 1
    ensures (forall ops, tokens, ns | PromptsOnly(ops) ::
               AnswersRight(ops, slotBytes, hash, slots, tokens, ns))
      <==> Injective(hash)
  {
    if Injective(hash) {
      forall ops, tokens, ns | PromptsOnly(ops)
        ensures AnswersRight(ops, slotBytes, hash, slots, tokens, ns)
      {
        LookupIsSound(ops, slotBytes, hash, slots, tokens, ns);
      }
    } else {
      var a: seq<Token>, b: seq<Token> :| |a| == 16 && |b| == 16 && hash(a) == hash(b) && a != b;
      CollisionHits(a, b, slotBytes, hash, slots);
    }
  }

  // After every run, whatever of a prompt is indexed is found: a lookup matches at least as many tokens as any indexed
  // prefix of its prompt has.
  lemma LookupIsComplete(ops: seq<Op>, slotBytes: nat, hash: seq<Token> -> Chunk, slots: nat, tokens: seq<Token>, ns: Chunk,
                         m: nat, path: Path)
    requires 0 < m <= |tokens| / 16 && ChunkPath(path, ns, tokens[..16 * m], hash)
    requires path in Exec(Init(slots), ops, slotBytes, hash).index.art
    ensures var (_, rc, matched) := Lookup(Exec(Init(slots), ops, slotBytes, hash), tokens, ns, hash);
      rc == OK && matched >= 16 * m
  {
    var s := Exec(Init(slots), ops, slotBytes, hash);
    RefcountsCountHandles(ops, slotBytes, hash, slots);
    var full := [ns] + Chunkify(tokens, hash);
    PromptPath(ns, tokens, hash);
    PrefixPath(full, ns, tokens, hash, m);
    PathUnique(path, full[..1 + m], ns, tokens[..16 * m], hash);
  }
}

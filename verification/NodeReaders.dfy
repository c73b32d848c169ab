/**
 Whether a leaf under a live read handle stays in the index. A Seal of its path replaces it there and
 retires it, although Release will go on using it through the handle.
 */
module NodeReaders {
  import opened NodeModel
  import opened NodeSafety

  ghost predicate Indexed(art: map<Path, Leaf>, l: Leaf) {
    exists p :: p in art && art[p] == l
  }

  predicate IsRead(handles: map<Handle, HandleState>, l: Leaf) {
    exists h :: h in handles && handles[h].ReadH? && handles[h].leaf == l
  }

  // Every leaf under a read handle is in the index.
  ghost predicate ReadersIndexed(s: State) {
    forall h | h in s.handles && s.handles[h].ReadH? :: Indexed(s.index.art, s.handles[h].leaf)
  }

  // A Seal that the index accepts, of a path whose leaf is being read.
  predicate Replaces(s: State, op: Op, hash: seq<Token> -> Chunk) {
    && Sealing(s, op, hash).Some? && !op.refused
    && var path := Sealing(s, op, hash).value.0; path in s.index.art && IsRead(s.handles, s.index.art[path])
  }

  // ----- One operation -----------------------------------------------------

  lemma SealIff(s: State, op: Op, slotBytes: nat, hash: seq<Token> -> Chunk)
    requires CountInv(s) && ReadersIndexed(s) && Sealing(s, op, hash).Some?
    ensures ReadersIndexed(Act(s, op, slotBytes, hash)) <==> !Replaces(s, op, hash)
  {
    var path, t := Sealing(s, op, hash).value.0, Act(s, op, slotBytes, hash);
    assert forall h | h in t.handles :: h in s.handles && t.handles[h] == s.handles[h];
    if Replaces(s, op, hash) {
      var h :| h in s.handles && s.handles[h].ReadH? && s.handles[h].leaf == s.index.art[path];
      assert h in t.handles && !Indexed(t.index.art, s.handles[h].leaf);
    } else {
      forall h | h in t.handles && t.handles[h].ReadH? ensures Indexed(t.index.art, t.handles[h].leaf) {
        var p :| p in s.index.art && s.index.art[p] == s.handles[h].leaf;
        assert p in t.index.art && t.index.art[p] == s.handles[h].leaf;
      }
    }
  }

  // Evictions take no leaf that is being read.
  lemma ReadStays(s: State, h: Handle, ix: Index)
    requires CountInv(s) && h in s.handles && s.handles[h].ReadH? && Indexed(s.index.art, s.handles[h].leaf)
    requires forall p | p in s.index.art && !Evictable(s.index, p) :: p in ix.art && ix.art[p] == s.index.art[p]
    ensures Indexed(ix.art, s.handles[h].leaf)
  {
    var l := s.handles[h].leaf;
    var p :| p in s.index.art && s.index.art[p] == l;
    assert Counted(s, l) && h in ReadersOf(s.handles, l);
    assert p in ix.art && ix.art[p] == l;
  }

  lemma EvictionStays(s: State, op: Op, slotBytes: nat, hash: seq<Token> -> Chunk)
    requires CountInv(s) && ReadersIndexed(s) && (op.OpDramEvict? || op.OpSweep?)
    ensures ReadersIndexed(Act(s, op, slotBytes, hash))
  {
    var ix := Act(s, op, slotBytes, hash).index;
    forall p | p in s.index.art && !Evictable(s.index, p) ensures p in ix.art && ix.art[p] == s.index.art[p] {
      if op.OpSweep? { SweepRemovesExactly(s.index, s.index.deferred, p); }
    }
    forall h | h in s.handles && s.handles[h].ReadH? ensures Indexed(ix.art, s.handles[h].leaf) { ReadStays(s, h, ix); }
  }

  lemma OtherStays(s: State, op: Op, slotBytes: nat, hash: seq<Token> -> Chunk)
    requires ReadersIndexed(s) && Sealing(s, op, hash).None? && !op.OpDramEvict? && !op.OpSweep?
    ensures ReadersIndexed(Act(s, op, slotBytes, hash))
  {
    assert Act(s, op, slotBytes, hash).index.art == s.index.art;
  }

  // One operation keeps every read leaf indexed if and only if it is no accepted Seal of a path whose leaf is being read.
  lemma StepIff(s: State, op: Op, slotBytes: nat, hash: seq<Token> -> Chunk)
    requires CountInv(s) && ReadersIndexed(s)
    ensures ReadersIndexed(Act(s, op, slotBytes, hash)) <==> !Replaces(s, op, hash)
  {
    if Sealing(s, op, hash).Some? {
      SealIff(s, op, slotBytes, hash);
    } else if op.OpDramEvict? || op.OpSweep? {
      EvictionStays(s, op, slotBytes, hash);
    } else {
      OtherStays(s, op, slotBytes, hash);
    }
  }

  // ----- Whole runs --------------------------------------------------------

  ghost predicate AlwaysIndexed(s: State, ops: seq<Op>, slotBytes: nat, hash: seq<Token> -> Chunk)
    decreases |ops|
  {
    ReadersIndexed(s) && (ops == [] || AlwaysIndexed(Act(s, ops[0], slotBytes, hash), ops[1..], slotBytes, hash))
  }

  ghost predicate NeverReplaces(s: State, ops: seq<Op>, slotBytes: nat, hash: seq<Token> -> Chunk)
    decreases |ops|
  {
    ops == [] ||
      (!Replaces(s, ops[0], hash) && NeverReplaces(Act(s, ops[0], slotBytes, hash), ops[1..], slotBytes, hash))
  }

  lemma {:induction false} AlwaysIff(s: State, ops: seq<Op>, slotBytes: nat, hash: seq<Token> -> Chunk)
    requires CountInv(s) && ReadersIndexed(s)
    ensures AlwaysIndexed(s, ops, slotBytes, hash) <==> NeverReplaces(s, ops, slotBytes, hash)
    decreases |ops|
  {
    if ops != [] {
      StepIff(s, ops[0], slotBytes, hash);
      if !Replaces(s, ops[0], hash) {
        ActCounts(s, ops[0], slotBytes, hash);
        AlwaysIff(Act(s, ops[0], slotBytes, hash), ops[1..], slotBytes, hash);
      }
    }
  }

  // A run keeps every read leaf in the index throughout if and only if it never seals a path whose leaf is being read.
  lemma ReadLeavesStayIff(ops: seq<Op>, slotBytes: nat, hash: seq<Token> -> Chunk, slots: nat)
    ensures AlwaysIndexed(Init(slots), ops, slotBytes, hash) <==> NeverReplaces(Init(slots), ops, slotBytes, hash)
  {
    AlwaysIff(Init(slots), ops, slotBytes, hash);
  }

  // ----- Sealing a prompt again while it is read ---------------------------

  // Reserve and seal a prompt, look it up, reserve and seal it again.
  function SealTwice(locator: Locator, tokens: seq<Token>): seq<Op> {
    [OpReserve(locator, 1, 0), OpSeal(1, tokens, false), OpLookup(tokens, 0), OpReserve(locator, 1, 0), OpSeal(3, tokens, false)]
  }

  lemma Then(s: State, op: Op, rest: seq<Op>, slotBytes: nat, hash: seq<Token> -> Chunk)
    ensures Exec(s, [op] + rest, slotBytes, hash) == Exec(Act(s, op, slotBytes, hash), rest, slotBytes, hash)
  {
    assert ([op] + rest)[1..] == rest;
  }

  lemma {:induction false} ExecConcat(s: State, a: seq<Op>, b: seq<Op>, slotBytes: nat, hash: seq<Token> -> Chunk)
    ensures Exec(s, a + b, slotBytes, hash) == Exec(Exec(s, a, slotBytes, hash), b, slotBytes, hash)
    decreases |a|
  {
    if a == [] {
      assert a + b == b;
    } else {
      assert (a + b)[1..] == a[1..] + b;
      ExecConcat(Act(s, a[0], slotBytes, hash), a[1..], b, slotBytes, hash);
    }
  }

  lemma ReserveThenSeal(s: State, locator: Locator, tokens: seq<Token>, slotBytes: nat, hash: seq<Token> -> Chunk)
    requires s.pool.free != [] && slotBytes >= 1 && |tokens| >= CHUNK_TOKENS && s.pool.next !in s.pool.active
    ensures var t := Exec(s, [OpReserve(locator, 1, 0), OpSeal(s.nextHandle, tokens, false)], slotBytes, hash);
      && t.index.art == s.index.art[[0] + Chunkify(tokens, hash) := |s.index.leaves|]
      && |t.index.leaves| == |s.index.leaves| + 1 && t.index.leaves[|s.index.leaves|].refcount == 1
      && t.handles == s.handles - {s.nextHandle} && t.nextHandle == s.nextHandle + 1
      && t.pool.free != [] && t.pool.next == s.pool.next + 1 && t.pool.active == s.pool.active
  {
    var a, b := OpReserve(locator, 1, 0), OpSeal(s.nextHandle, tokens, false);
    var s1 := Act(s, a, slotBytes, hash);
    assert s1.handles[s.nextHandle] == IngestH(locator, s.pool.next, 0);
    Then(s, a, [b], slotBytes, hash);
    Then(s1, b, [], slotBytes, hash);
    assert [a] + [b] == [a, b] && [b] + [] == [b];
  }

  lemma LookupOwn(s: State, tokens: seq<Token>, slotBytes: nat, hash: seq<Token> -> Chunk, l: Leaf)
    requires |tokens| >= CHUNK_TOKENS && s.index.art == map[[0] + Chunkify(tokens, hash) := l]
    requires l < |s.index.leaves| && s.index.leaves[l].refcount == 1
    ensures var t := Act(s, OpLookup(tokens, 0), slotBytes, hash);
      && t.pool == s.pool && t.index.art == s.index.art && |t.index.leaves| == |s.index.leaves|
      && t.nextHandle == s.nextHandle + 1
      && t.handles == s.handles[s.nextHandle := ReadH(s.index.leaves[l].locator, l)]
  {
    var path := [0] + Chunkify(tokens, hash);
    assert path[..|path|] == path;
    assert Longest(s.index.art, path) == |path|;
  }

  // Sealing any prompt, reading it and sealing it again leaves the read handle on a leaf that is out of the index.
  lemma SealTwiceStrandsReader(locator: Locator, tokens: seq<Token>, slotBytes: nat, hash: seq<Token> -> Chunk, slots: nat)
    requires slots >= 1 && slotBytes >= 1 && |tokens| >= CHUNK_TOKENS
    ensures var s := Exec(Init(slots), SealTwice(locator, tokens), slotBytes, hash);
      2 in s.handles && s.handles[2].ReadH? && !Indexed(s.index.art, s.handles[2].leaf)
  {
    var first, read := [OpReserve(locator, 1, 0), OpSeal(1, tokens, false)], OpLookup(tokens, 0);
    var again := [OpReserve(locator, 1, 0), OpSeal(3, tokens, false)];
    var s2 := Exec(Init(slots), first, slotBytes, hash);
    ReserveThenSeal(Init(slots), locator, tokens, slotBytes, hash);
    assert s2.index.art == map[[0] + Chunkify(tokens, hash) := 0];
    LookupOwn(s2, tokens, slotBytes, hash, 0);
    var s3 := Act(s2, read, slotBytes, hash);
    ReserveThenSeal(s3, locator, tokens, slotBytes, hash);
    Then(s2, read, again, slotBytes, hash);
    ExecConcat(Init(slots), first, [read] + again, slotBytes, hash);
    assert SealTwice(locator, tokens) == first + ([read] + again);
  }
}

/**
 Whose leaf a DRAM eviction takes. DRAM evicts a content key; the node maps that key to the path sealed
 under it and evicts, or defers, whatever leaf the path holds by then.
 */
module NodeEvictKeys {
  import opened Bytes
  import opened NodeModel

  // Which content keys may be sealed at which paths.
  type Allowed = (Path, Key) -> bool

  ghost predicate Seals(s: State, ops: seq<Op>, allowed: Allowed, slotBytes: nat, hash: seq<Token> -> Chunk)
    decreases |ops|
  {
    ops == [] ||
      (&& (Sealing(s, ops[0], hash).Some? ==> allowed(Sealing(s, ops[0], hash).value.0, Sealing(s, ops[0], hash).value.1))
       && Seals(Act(s, ops[0], slotBytes, hash), ops[1..], allowed, slotBytes, hash))
  }

  ghost predicate OneKey(allowed: Allowed) {
    forall p: Path, j: Key, k: Key | p != [] && allowed(p, j) && allowed(p, k) :: j == k
  }

  // The leaf an eviction of `k` takes.
  function Victim(ix: Index, k: Key): Option<Leaf> {
    if k in ix.evictIndex && ix.evictIndex[k] != [] && ix.evictIndex[k] in ix.art
    then Some(ix.art[ix.evictIndex[k]]) else None
  }

  predicate OwnVictim(ix: Index, k: Key) {
    Victim(ix, k).Some? ==>
      Victim(ix, k).value < |ix.leaves| && ix.leaves[Victim(ix, k).value].locator.key == k
  }

  // An eviction removes or defers its victim and nothing else.
  lemma EvictionTakesVictim(ix: Index, k: Key)
    ensures var r := OnDramEvict(ix, k);
      match Victim(ix, k)
      case None => r == ix.(evictIndex := ix.evictIndex - {k})
      case Some(l) =>
        var path := ix.evictIndex[k];
        if Evictable(ix, path) then
          r.art == ix.art - {path} && r.deferred == ix.deferred && r.events == ix.events + [Evict(ix.leaves[l].locator)]
        else
          r.art == ix.art && r.deferred == ix.deferred + [Deferred(path, l)] && r.events == ix.events
  {
    if k !in ix.evictIndex { assert ix.evictIndex - {k} == ix.evictIndex; }
  }

  // ----- One key per path is enough --------------------------------------

  ghost predicate Paired(ix: Index, allowed: Allowed) {
    && (forall p | p in ix.art :: p != [] && ix.art[p] < |ix.leaves| && allowed(p, ix.leaves[ix.art[p]].locator.key))
    && (forall k | k in ix.evictIndex && ix.evictIndex[k] != [] :: allowed(ix.evictIndex[k], k))
  }

  // Nothing new is indexed, and no leaf changes its locator.
  ghost predicate Shrinks(ix: Index, iy: Index) {
    && |ix.leaves| == |iy.leaves|
    && (forall l | 0 <= l < |ix.leaves| :: iy.leaves[l].locator == ix.leaves[l].locator)
    && (forall p | p in iy.art :: p in ix.art && iy.art[p] == ix.art[p])
    && (forall k | k in iy.evictIndex :: k in ix.evictIndex && iy.evictIndex[k] == ix.evictIndex[k])
  }

  lemma ShrinkKeeps(ix: Index, iy: Index, allowed: Allowed)
    requires Paired(ix, allowed) && Shrinks(ix, iy)
    ensures Paired(iy, allowed)
  {
  }

  lemma {:induction false} SweepShrinks(ix: Index, work: seq<Deferred>)
    ensures Shrinks(ix, SweepIndex(ix, work))
    decreases |work|
  {
    if work != [] {
      var iy := if Current(ix, work[0]) then TryEvictNow(ix, work[0].path) else ix;
      SweepShrinks(iy, work[1..]);
      assert Shrinks(ix, iy);
    }
  }

  lemma CommitPairs(ix: Index, st: HandleState, bytes: nat, path: Path, refused: bool, allowed: Allowed)
    requires Paired(ix, allowed) && allowed(path, st.locator.key)
    ensures Paired(Committed(ix, st, bytes, path, refused), allowed)
  {
  }

  lemma ActPairs(s: State, op: Op, allowed: Allowed, slotBytes: nat, hash: seq<Token> -> Chunk)
    requires Paired(s.index, allowed)
    requires Sealing(s, op, hash).Some? ==> allowed(Sealing(s, op, hash).value.0, Sealing(s, op, hash).value.1)
    ensures Paired(Act(s, op, slotBytes, hash).index, allowed)
  {
    var t := Act(s, op, slotBytes, hash);
    if Sealing(s, op, hash).Some? {
      var st := s.handles[op.h];
      CommitPairs(s.index, st, Watermark(s.pool, st.ingest), Sealing(s, op, hash).value.0, op.refused, allowed);
    } else if op.OpSweep? {
      SweepShrinks(s.index, s.index.deferred);
      ShrinkKeeps(s.index, t.index, allowed);
    } else {
      assert Shrinks(s.index, t.index);
      ShrinkKeeps(s.index, t.index, allowed);
    }
  }

  lemma {:induction false} ExecPairs(s: State, ops: seq<Op>, allowed: Allowed, slotBytes: nat, hash: seq<Token> -> Chunk)
    requires Paired(s.index, allowed) && Seals(s, ops, allowed, slotBytes, hash)
    ensures Paired(Exec(s, ops, slotBytes, hash).index, allowed)
    decreases |ops|
  {
    if ops != [] {
      ActPairs(s, ops[0], allowed, slotBytes, hash);
      ExecPairs(Act(s, ops[0], slotBytes, hash), ops[1..], allowed, slotBytes, hash);
    }
  }

  // ----- Two keys at one path --------------------------------------------

  // Reserve a slot for `locator` and seal it at `path`.
  function SealAs(h: Handle, locator: Locator, path: Path): seq<Op> {
    [OpReserve(locator, 1, 0), OpSealByChunkPath(h, path, false)]
  }

  lemma SealAsDoes(s: State, locator: Locator, path: Path, slotBytes: nat, hash: seq<Token> -> Chunk)
    requires s.pool.free != [] && slotBytes >= 1 && path != []
    ensures var t := Exec(s, SealAs(s.nextHandle, locator, path), slotBytes, hash);
      && t.index.art == s.index.art[path := |s.index.leaves|]
      && |t.index.leaves| == |s.index.leaves| + 1 && t.index.leaves[|s.index.leaves|].locator == locator
      && t.index.evictIndex == s.index.evictIndex[locator.key := path]
      && t.pool.free != [] && t.nextHandle == s.nextHandle + 1
  {
    var ops := SealAs(s.nextHandle, locator, path);
    var s1 := Act(s, ops[0], slotBytes, hash);
    var s2 := Act(s1, ops[1], slotBytes, hash);
    assert s1.index == s.index && s1.handles[s.nextHandle] == IngestH(locator, s.pool.next, 0);
    assert Exec(s, ops, slotBytes, hash) == Exec(s1, ops[1..], slotBytes, hash) == Exec(s2, [], slotBytes, hash);
  }

  lemma SealAsSeals(s: State, locator: Locator, path: Path, rest: seq<Op>, allowed: Allowed, slotBytes: nat,
                    hash: seq<Token> -> Chunk)
    requires s.pool.free != [] && slotBytes >= 1 && allowed(path, locator.key)
    requires Seals(Exec(s, SealAs(s.nextHandle, locator, path), slotBytes, hash), rest, allowed, slotBytes, hash)
    ensures Seals(s, SealAs(s.nextHandle, locator, path) + rest, allowed, slotBytes, hash)
    ensures Exec(s, SealAs(s.nextHandle, locator, path) + rest, slotBytes, hash)
      == Exec(Exec(s, SealAs(s.nextHandle, locator, path), slotBytes, hash), rest, slotBytes, hash)
  {
    var two := SealAs(s.nextHandle, locator, path);
    var ops := two + rest;
    var s1 := Act(s, two[0], slotBytes, hash);
    var s2 := Act(s1, two[1], slotBytes, hash);
    assert s1.handles[s.nextHandle] == IngestH(locator, s.pool.next, 0);
    assert ops[1..] == [two[1]] + rest && ops[1..][1..] == rest;
    assert Exec(s, two, slotBytes, hash) == Exec(s1, two[1..], slotBytes, hash) == Exec(s2, [], slotBytes, hash);
    assert Seals(s1, ops[1..], allowed, slotBytes, hash);
  }

  // Sealing one path under j and then under k leaves both keys pointing at it: evicting j takes k's leaf.
  lemma TwoKeysShareAPath(slots: nat, slotBytes: nat, hash: seq<Token> -> Chunk, allowed: Allowed,
                          path: Path, j: Key, k: Key) returns (ops: seq<Op>)
    requires slots >= 1 && slotBytes >= 1 && path != [] && j != k && allowed(path, j) && allowed(path, k)
    ensures Seals(Init(slots), ops, allowed, slotBytes, hash)
    ensures !OwnVictim(Exec(Init(slots), ops, slotBytes, hash).index, j)
  {
    var s := Init(slots);
    var a, b := Locator(0, j), Locator(1, k);
    var t := Exec(s, SealAs(1, a, path), slotBytes, hash);
    SealAsDoes(s, a, path, slotBytes, hash);
    var last := SealAs(2, b, path);
    SealAsDoes(t, b, path, slotBytes, hash);
    assert last + [] == last;
    SealAsSeals(t, b, path, [], allowed, slotBytes, hash);
    SealAsSeals(s, a, path, last, allowed, slotBytes, hash);
    ops := SealAs(1, a, path) + last;
    var u := Exec(t, last, slotBytes, hash);
    assert Victim(u.index, j) == Some(1) && u.index.leaves[1].locator == b;
  }

  // In every run whose seals are allowed, a DRAM eviction of a key takes only a leaf sealed under that key, if and
  // only if no path may be sealed under two keys.
  lemma EvictsOwnLeafIff(slots: nat, slotBytes: nat, hash: seq<Token> -> Chunk, allowed: Allowed)
    requires slots >= 1 && slotBytes >= 1
    ensures (forall ops, k | Seals(Init(slots), ops, allowed, slotBytes, hash) ::
               OwnVictim(Exec(Init(slots), ops, slotBytes, hash).index, k))
      <==> OneKey(allowed)
  {
    if OneKey(allowed) {
      forall ops, k | Seals(Init(slots), ops, allowed, slotBytes, hash)
        ensures OwnVictim(Exec(Init(slots), ops, slotBytes, hash).index, k)
      {
        ExecPairs(Init(slots), ops, allowed, slotBytes, hash);
      }
    } else {
      var p: Path, j: Key, k: Key :| p != [] && allowed(p, j) && allowed(p, k) && j != k;
      var ops := TwoKeysShareAPath(slots, slotBytes, hash, allowed, p, j, k);
    }
  }
}

/** The save accumulator and the load splitter, as the classes that mutate their dictionaries. */
module LayerBuffers {
  import opened Bytes
  import opened EtcdTypes
  import opened LayerModel

  type RequestId = string
  type Token = int

  // Python's sorted() on a set of names.
  method Sorted(names: set<Name>) returns (l: seq<Name>)
    ensures l == SortedNames(names)
  {
    l := [];
    var rest := names;
    while rest != {}
      invariant SortedNames(names) == l + SortedNames(rest)
      decreases rest
    {
      LeastExists(rest);
      var m :| IsLeast(m, rest);
      LeTotal(m, Least(rest));
      l := l + [m];
      rest := rest - {m};
    }
  }

  // ----- drain_all against its documentation -----------------------------

  datatype Buffers = Buffers(layers: map<RequestId, Layers>, tokens: map<RequestId, seq<Token>>)

  // A request that drain_request can commit.
  predicate Complete(b: Buffers, rid: RequestId) {
    rid in b.layers && b.layers[rid] != map[] && rid in b.tokens && b.tokens[rid] != []
  }

  // What committing a complete request yields.
  ghost function Commit(b: Buffers, rid: RequestId, registered: seq<Name>): (seq<Token>, seq<byte>)
    requires Complete(b, rid)
  {
    var layers := b.layers[rid];
    EffectiveMembers(registered, layers.Keys);
    (b.tokens[rid], Join(layers, EffectiveOrder(registered, layers.Keys)))
  }

  // The blob is the join of all the layers, the registered ones in registered order, then the others by name.
  ghost predicate Joins(blob: seq<byte>, layers: Layers, registered: seq<Name>) {
    var eff := EffectiveOrder(registered, layers.Keys);
    (forall n | n in eff :: n in layers) && blob == Join(layers, eff)
  }

  // Which requests a drain commits, what it returns for them, and what it leaves.
  lemma DrainMeans(b: Buffers, rid: RequestId, registered: seq<Name>)
    ensures Complete(b, rid) <==> rid in b.layers && |b.layers[rid]| > 0 && rid in b.tokens && |b.tokens[rid]| > 0
    ensures Complete(b, rid) ==>
      Commit(b, rid, registered).0 == b.tokens[rid] && Joins(Commit(b, rid, registered).1, b.layers[rid], registered)
    ensures AfterDrain(b, rid).layers == b.layers - {rid} && AfterDrain(b, rid).tokens == b.tokens - {rid}
  {
    if rid in b.layers { EffectiveMembers(registered, b.layers[rid].Keys); }
  }

  // `out` holds exactly the complete requests among `rids`, each with its commit.
  ghost predicate Commits(out: map<RequestId, (seq<Token>, seq<byte>)>, b: Buffers, rids: set<RequestId>,
                          registered: seq<Name>) {
    && (forall rid :: rid in out <==> rid in rids && Complete(b, rid))
    && (forall rid | rid in out :: Complete(b, rid) && out[rid] == Commit(b, rid, registered))
  }

  // drain_request pops both sides before it looks at them.
  function AfterDrain(b: Buffers, rid: RequestId): Buffers {
    Buffers(b.layers - {rid}, b.tokens - {rid})
  }

  function AfterDrains(b: Buffers, rids: seq<RequestId>): Buffers
    decreases |rids|
  {
    if rids == [] then b else AfterDrains(AfterDrain(b, rids[0]), rids[1..])
  }

  lemma {:induction false} DrainsRemove(b: Buffers, rids: seq<RequestId>)
    ensures AfterDrains(b, rids).layers == b.layers - set r | r in rids
    ensures AfterDrains(b, rids).tokens == b.tokens - set r | r in rids
    decreases |rids|
  {
    if rids != [] {
      DrainsRemove(AfterDrain(b, rids[0]), rids[1..]);
      assert (set r | r in rids) == {rids[0]} + set r | r in rids[1..];
    }
  }

  // The documented promise, that requests missing a side stay buffered, holds exactly when there are none.
  lemma RetainsIncompleteIff(b: Buffers, order: seq<RequestId>)
    requires Lists(order, b.layers.Keys)
    ensures (forall rid | rid in b.layers && !Complete(b, rid) :: rid in AfterDrains(b, order).layers)
      <==> forall rid | rid in b.layers :: Complete(b, rid)
  {
    DrainsRemove(b, order);
    assert forall rid | rid in b.layers :: rid in order;
  }

  lemma DrainAllForgetsUnbound()
    ensures var b := Buffers(map["r" := map["l0" := [1]]], map[]);
      !Complete(b, "r") && AfterDrains(b, ["r"]).layers == map[]
  {
    DrainsRemove(Buffers(map["r" := map["l0" := [1]]], map[]), ["r"]);
  }

  // The results of draining `rids` one after another.
  ghost function Drained(b: Buffers, rids: seq<RequestId>, registered: seq<Name>): map<RequestId, (seq<Token>, seq<byte>)> {
    if rids == [] then map[]
    else
      var rid := rids[|rids| - 1];
      var out := Drained(b, rids[..|rids| - 1], registered);
      if Complete(b, rid) then out[rid := Commit(b, rid, registered)] else out
  }

  lemma {:induction false} DrainedCommits(b: Buffers, rids: seq<RequestId>, registered: seq<Name>)
    ensures Commits(Drained(b, rids, registered), b, (set r | r in rids), registered)
  {
    if rids != [] {
      var k := |rids| - 1;
      DrainedCommits(b, rids[..k], registered);
      assert rids == rids[..k] + [rids[k]];
    }
  }

  // A request not drained yet is as it was.
  lemma Undrained(b: Buffers, rids: seq<RequestId>, rid: RequestId, registered: seq<Name>)
    requires rid !in rids
    ensures Complete(AfterDrains(b, rids), rid) <==> Complete(b, rid)
    ensures Complete(b, rid) ==> Commit(AfterDrains(b, rids), rid, registered) == Commit(b, rid, registered)
  {
    DrainsRemove(b, rids);
  }

  lemma {:induction false} DrainsSnoc(b: Buffers, rids: seq<RequestId>, rid: RequestId)
    ensures AfterDrains(b, rids + [rid]) == AfterDrain(AfterDrains(b, rids), rid)
    decreases |rids|
  {
    if rids == [] {
      assert [rid][1..] == [];
    } else {
      assert (rids + [rid])[1..] == rids[1..] + [rid];
      DrainsSnoc(AfterDrain(b, rids[0]), rids[1..], rid);
    }
  }

  lemma DrainsEverything(b: Buffers, order: seq<RequestId>)
    requires Lists(order, b.layers.Keys)
    ensures AfterDrains(b, order) == Buffers(map[], b.tokens - b.layers.Keys) && (set r | r in order) == b.layers.Keys
  {
    DrainsRemove(b, order);
    assert (set r | r in order) == b.layers.Keys;
  }

  class LayerAccumulator {
    var layerOrder: seq<Name>
    var buf: map<RequestId, Layers>
    var tokens: map<RequestId, seq<Token>>

    constructor ()
      ensures layerOrder == [] && State() == Buffers(map[], map[])
    {
      layerOrder, buf, tokens := [], map[], map[];
    }

    function State(): Buffers
      reads this
    {
      Buffers(buf, tokens)
    }

    method RegisterLayerOrder(names: seq<Name>)
      modifies this`layerOrder
      ensures layerOrder == names
    {
      layerOrder := names;
    }

    method BindRequest(rid: RequestId, ids: seq<Token>)
      modifies this`tokens
      ensures tokens == old(tokens)[rid := ids]
    {
      tokens := tokens[rid := ids];
    }

    // The buffer of `rid` follows the arrivals; no other request changes, and an empty payload is dropped.
    method Accumulate(rid: RequestId, name: Name, bytes: seq<byte>, ghost arrivals: seq<Arrival>)
      requires (if rid in buf then buf[rid] else map[]) == Buffered(arrivals)
      modifies this`buf
      ensures (if rid in buf then buf[rid] else map[]) == Buffered(arrivals + [Arrival(name, bytes)])
      ensures buf - {rid} == old(buf) - {rid} && (bytes == [] ==> buf == old(buf))
    {
      assert (arrivals + [Arrival(name, bytes)])[..|arrivals|] == arrivals;
      if bytes == [] {
        return;
      }
      var layers := if rid in buf then buf[rid] else map[];
      buf := buf[rid := layers[name := bytes]];
    }

    method DrainRequest(rid: RequestId) returns (r: Option<(seq<Token>, seq<byte>)>)
      modifies this`buf, this`tokens
      ensures State() == AfterDrain(old(State()), rid)
      ensures r.Some? <==> Complete(old(State()), rid)
      ensures r.Some? ==> r.value == Commit(old(State()), rid, layerOrder)
    {
      var st := State();
      buf, tokens := buf - {rid}, tokens - {rid};
      if !Complete(st, rid) {
        return None;
      }
      var layers := st.layers[rid];
      var leftover := Sorted(layers.Keys - set n | n in layerOrder);
      var order := Present(layerOrder, layers.Keys) + leftover;
      EffectiveMembers(layerOrder, layers.Keys);
      return Some((st.tokens[rid], Join(layers, order)));
    }

    // Returns exactly the complete requests, and empties the buffer of complete and incomplete alike.
    method DrainAll() returns (out: map<RequestId, (seq<Token>, seq<byte>)>)
      modifies this`buf, this`tokens
      ensures buf == map[] && tokens == old(tokens) - old(buf).Keys
      ensures Commits(out, old(State()), old(buf).Keys, layerOrder)
    {
      ghost var st := State();
      var order := IterationOrder(buf.Keys);
      out := map[];
      var i := 0;
      while i < |order|
        invariant 0 <= i <= |order|
        invariant State() == AfterDrains(st, order[..i]) && out == Drained(st, order[..i], layerOrder)
      {
        var rid := order[i];
        Undrained(st, order[..i], rid, layerOrder);
        DrainsSnoc(st, order[..i], rid);
        assert order[..i + 1] == order[..i] + [rid];
        var r := DrainRequest(rid);
        if r.Some? {
          out := out[rid := r.value];
        }
        i := i + 1;
      }
      assert order[..i] == order;
      DrainsEverything(st, order);
      DrainedCommits(st, order, layerOrder);
    }

    method Clear()
      modifies this`buf, this`tokens
      ensures State() == Buffers(map[], map[])
    {
      buf, tokens := map[], map[];
    }
  }

  // ----- The load side ---------------------------------------------------

  type Dests = map<RequestId, map<Name, array<byte>>>

  predicate Served(dests: Dests, rid: RequestId, layer: Name) {
    rid in dests && layer in dests[rid]
  }

  function CountServed(order: seq<RequestId>, dests: Dests, layer: Name): nat {
    if order == [] then 0
    else CountServed(order[..|order| - 1], dests, layer) + if Served(dests, order[|order| - 1], layer) then 1 else 0
  }

  lemma {:induction false} CountIsSize(order: seq<RequestId>, dests: Dests, layer: Name)
    requires forall j, k | 0 <= j < k < |order| :: order[j] != order[k]
    ensures CountServed(order, dests, layer) == |set rid | rid in order && rid in dests && layer in dests[rid]|
    decreases |order|
  {
    if order != [] {
      var k := |order| - 1;
      var rid := order[k];
      CountIsSize(order[..k], dests, layer);
      var before := set r | r in order[..k] && r in dests && layer in dests[r];
      assert order == order[..k] + [rid] && rid !in order[..k];
      assert (set r | r in order && r in dests && layer in dests[r])
        == before + if rid in dests && layer in dests[rid] then {rid} else {};
    }
  }

  // What buffer `a` holds after the requests of `order` have been served: requests that share a buffer
  // overwrite each other in that order.
  function Written(was: seq<byte>, a: array<byte>, order: seq<RequestId>, blobs: map<RequestId, seq<byte>>,
                   dests: Dests, layer: Name, n: nat, i: nat): seq<byte>
    requires i < n && forall r | r in order :: r in blobs
  {
    if order == [] then was
    else
      var k := |order| - 1;
      var before := Written(was, a, order[..k], blobs, dests, layer, n, i);
      if Served(dests, order[k], layer) && dests[order[k]][layer] == a
      then WriteInto(Slice(blobs[order[k]], n, i), before)
      else before
  }

  // A buffer that one request alone owns gets that request's slice.
  lemma {:induction false} WrittenOnce(was: seq<byte>, a: array<byte>, order: seq<RequestId>,
                                       blobs: map<RequestId, seq<byte>>, dests: Dests, layer: Name, n: nat, i: nat,
                                       rid: RequestId)
    requires i < n && forall r | r in order :: r in blobs
    requires forall j, k | 0 <= j < k < |order| :: order[j] != order[k]
    requires Served(dests, rid, layer) && dests[rid][layer] == a
    requires forall r | r in order && r != rid && Served(dests, r, layer) :: dests[r][layer] != a
    ensures Written(was, a, order, blobs, dests, layer, n, i)
      == if rid in order then WriteInto(Slice(blobs[rid], n, i), was) else was
    decreases |order|
  {
    if order != [] {
      var k := |order| - 1;
      assert forall r | r in order[..k] :: r in order;
      WrittenOnce(was, a, order[..k], blobs, dests, layer, n, i, rid);
      assert order == order[..k] + [order[k]] && order[k] !in order[..k];
    }
  }

  method CopyPrefix(src: seq<byte>, dst: array<byte>)
    modifies dst
    ensures dst[..] == WriteInto(src, old(dst[..]))
  {
    var write := if |src| < dst.Length then |src| else dst.Length;
    var k := 0;
    while k < write
      invariant 0 <= k <= write
      invariant forall j | 0 <= j < k :: dst[j] == src[j]
      invariant forall j | k <= j < dst.Length :: dst[j] == old(dst[j])
    {
      dst[k] := src[k];
      k := k + 1;
    }
    PrefixWritten(src, old(dst[..]), dst[..]);
  }

  lemma PrefixWritten(src: seq<byte>, was: seq<byte>, now: seq<byte>)
    requires |now| == |was|
    requires forall j | 0 <= j < |now| :: now[j] == if j < |src| then src[j] else was[j]
    ensures now == WriteInto(src, was)
  {
  }

  method IndexOf(order: seq<Name>, name: Name) returns (i: nat)
    requires name in order
    ensures i < |order| && order[i] == name && name !in order[..i]
  {
    i := 0;
    while order[i] != name
      invariant i < |order| && name !in order[..i]
      decreases |order| - i
    {
      i := i + 1;
    }
  }

  class LayerSplitter {
    var layerOrder: seq<Name>
    var blob: map<RequestId, seq<byte>>
    var dests: Dests

    constructor ()
      ensures layerOrder == [] && blob == map[] && dests == map[]
    {
      layerOrder, blob, dests := [], map[], map[];
    }

    method RegisterLayerOrder(names: seq<Name>)
      modifies this`layerOrder
      ensures layerOrder == names
    {
      layerOrder := names;
    }

    method StageLoad(rid: RequestId, fetched: seq<byte>, destinations: map<Name, array<byte>>)
      modifies this`blob, this`dests
      ensures blob == old(blob)[rid := fetched] && dests == old(dests)[rid := destinations]
    {
      blob, dests := blob[rid := fetched], dests[rid := destinations];
    }

    ghost function Targets(layer: Name): set<array<byte>>
      reads this
    {
      set rid | rid in blob && Served(dests, rid, layer) :: dests[rid][layer]
    }

    // Serves every staged request that lists the layer, in the dictionary's iteration order.
    method DrainLayer(layer: Name) returns (served: nat, ghost order: seq<RequestId>, ghost i: nat)
      modifies Targets(layer)
      ensures layer !in layerOrder ==> served == 0 && forall a | a in Targets(layer) :: a[..] == old(a[..])
      ensures layer in layerOrder ==>
        && Lists(order, blob.Keys) && served == CountServed(order, dests, layer)
        && served == |set rid | rid in blob && rid in dests && layer in dests[rid]|
        && i < |layerOrder| && layerOrder[i] == layer && layer !in layerOrder[..i]
      ensures layer in layerOrder ==> forall a | a in Targets(layer) ::
        a[..] == Written(old(a[..]), a, order, blob, dests, layer, |layerOrder|, i)
    {
      served, order, i := 0, [], 0;
      if layer !in layerOrder {
        return;
      }
      var idx := IndexOf(layerOrder, layer);
      var rids := IterationOrder(blob.Keys);
      order, i := rids, idx;
      var n := |layerOrder|;
      var k := 0;
      while k < |rids|
        invariant 0 <= k <= |rids|
        invariant served == CountServed(rids[..k], dests, layer)
        invariant forall a | a in Targets(layer) :: a[..] == Written(old(a[..]), a, rids[..k], blob, dests, layer, n, idx)
      {
        var rid := rids[k];
        assert rids[..k + 1][..k] == rids[..k];
        if rid in dests && layer in dests[rid] {
          CopyPrefix(Slice(blob[rid], n, idx), dests[rid][layer]);
          served := served + 1;
        }
        k := k + 1;
      }
      assert rids[..k] == rids;
      CountIsSize(rids, dests, layer);
      assert (set rid | rid in rids && rid in dests && layer in dests[rid])
        == set rid | rid in blob && rid in dests && layer in dests[rid];
    }

    method FinishRequest(rid: RequestId)
      modifies this`blob, this`dests
      ensures blob == old(blob) - {rid} && dests == old(dests) - {rid}
    {
      blob, dests := blob - {rid}, dests - {rid};
    }
  }
}

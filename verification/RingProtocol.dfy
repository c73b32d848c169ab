/**
 The shared-memory MPMC ring as an interleaving of atomic steps.

 Any number of threads run `try_push` and `try_pop`.  One `Action` of one thread
 is one shared-memory access: a cursor load, a stamp load, a compare-and-swap, the
 copy of one payload byte, or the publishing store of a stamp.  A schedule is a
 sequence of (thread, action) pairs, so a theorem about `Exec(Init(n, b), schedule)`
 for every `schedule` speaks about every interleaving.
 Positions are unbounded and memory is sequentially consistent.
 */
module RingProtocol {
  import opened Bytes
  import opened Wrapping

  type Tid = nat

  // Where a thread stands inside try_push / try_pop, with its locals.
  datatype Pc =
    | Idle
    | PushSeq(payload: seq<byte>, pos: nat)             // about to load the slot's stamp
    | PushCas(payload: seq<byte>, pos: nat)             // loaded stamp == pos, about to CAS head
    | PushReload(payload: seq<byte>)                    // stamp ahead of pos, about to reload head
    | PushCopy(payload: seq<byte>, pos: nat, n: nat)    // owns the slot, n bytes copied
    | PopSeq(pos: nat)
    | PopCas(pos: nat)
    | PopReload
    | PopCopy(pos: nat, out: seq<byte>)                 // owns the slot, |out| bytes read

  datatype Ring = Ring(
    slotBytes: nat,
    head: nat,
    tail: nat,
    stamps: seq<nat>,
    slots: seq<seq<byte>>,
    pcs: map<Tid, Pc>,
    // History: what ticket t was pushed with, which pushes have published, what pops returned.
    pushed: seq<seq<byte>>,
    filled: set<nat>,
    popped: map<nat, seq<byte>>)
  {
    function Slot(pos: nat): (i: nat)
      requires |stamps| > 0
      ensures i < |stamps|
    {
      Wrap(pos, |stamps|)
    }

    function At(t: Tid): Pc {
      if t in pcs then pcs[t] else Idle
    }

    function Goto(t: Tid, pc: Pc): Ring {
      this.(pcs := pcs[t := pc])
    }
  }

  datatype Action = StartPush(payload: seq<byte>) | StartPop | Advance(spurious: bool)

  function Init(n: nat, slotBytes: nat): Ring {
    Ring(slotBytes, 0, 0, seq(n, k => k), seq(n, k => seq(slotBytes, j => 0)), map[], [], {}, map[])
  }

  ghost predicate Shape(s: Ring) {
    && |s.stamps| == |s.slots| > 0
    && forall i :: 0 <= i < |s.slots| ==> |s.slots[i]| == s.slotBytes
  }

  // A producer's CAS succeeds: it takes ticket `head`.
  function ClaimPush(s: Ring, t: Tid, payload: seq<byte>): Ring {
    s.Goto(t, PushCopy(payload, s.head, 0)).(head := s.head + 1, pushed := s.pushed + [payload])
  }

  function CopyIn(s: Ring, t: Tid, payload: seq<byte>, pos: nat, n: nat): Ring
    requires Shape(s) && n < |payload| && n < s.slotBytes
  {
    var i := s.Slot(pos);
    s.Goto(t, PushCopy(payload, pos, n + 1)).(slots := s.slots[i := s.slots[i][n := payload[n]]])
  }

  function Publish(s: Ring, t: Tid, pos: nat): Ring
    requires Shape(s)
  {
    s.Goto(t, Idle).(stamps := s.stamps[s.Slot(pos) := pos + 1], filled := s.filled + {pos})
  }

  // A consumer's CAS succeeds: it takes ticket `tail`.
  function ClaimPop(s: Ring, t: Tid): Ring {
    s.Goto(t, PopCopy(s.tail, [])).(tail := s.tail + 1)
  }

  function CopyOut(s: Ring, t: Tid, pos: nat, out: seq<byte>): Ring
    requires Shape(s) && |out| < s.slotBytes
  {
    s.Goto(t, PopCopy(pos, out + [s.slots[s.Slot(pos)][|out|]]))
  }

  function Recycle(s: Ring, t: Tid, pos: nat, out: seq<byte>): Ring
    requires Shape(s)
  {
    s.Goto(t, Idle).(stamps := s.stamps[s.Slot(pos) := pos + |s.stamps|], popped := s.popped[pos := out])
  }

  // One atomic step of thread t; a disabled action changes nothing.
  function Act(s: Ring, t: Tid, a: Action): (r: Ring)
    requires Shape(s)
    ensures Shape(r) && |r.stamps| == |s.stamps| && r.slotBytes == s.slotBytes
  {
    match a
    case StartPush(payload) =>
      if s.At(t) != Idle || |payload| > s.slotBytes then s else s.Goto(t, PushSeq(payload, s.head))
    case StartPop =>
      if s.At(t) != Idle then s else s.Goto(t, PopSeq(s.tail))
    case Advance(spurious) =>
      match s.At(t)
      case Idle => s
      case PushSeq(payload, pos) =>
        var v := s.stamps[s.Slot(pos)];
        if v == pos then s.Goto(t, PushCas(payload, pos))
        else if v < pos then s.Goto(t, Idle)
        else s.Goto(t, PushReload(payload))
      case PushReload(payload) => s.Goto(t, PushSeq(payload, s.head))
      case PushCas(payload, pos) =>
        if spurious || s.head != pos then s.Goto(t, PushSeq(payload, s.head)) else ClaimPush(s, t, payload)
      case PushCopy(payload, pos, n) =>
        if n < |payload| && n < s.slotBytes then CopyIn(s, t, payload, pos, n) else Publish(s, t, pos)
      case PopSeq(pos) =>
        var v := s.stamps[s.Slot(pos)];
        if v == pos + 1 then s.Goto(t, PopCas(pos))
        else if v < pos + 1 then s.Goto(t, Idle)
        else s.Goto(t, PopReload)
      case PopReload => s.Goto(t, PopSeq(s.tail))
      case PopCas(pos) =>
        if spurious || s.tail != pos then s.Goto(t, PopSeq(s.tail)) else ClaimPop(s, t)
      case PopCopy(pos, out) =>
        if |out| < s.slotBytes then CopyOut(s, t, pos, out) else Recycle(s, t, pos, out)
  }

  function Exec(s: Ring, schedule: seq<(Tid, Action)>): (r: Ring)
    requires Shape(s)
    ensures Shape(r)
    decreases |schedule|
  {
    if schedule == [] then s
    else Exec(Act(s, schedule[0].0, schedule[0].1), schedule[1..])
  }

  // ----- The invariant ---------------------------------------------------

  // Slot i waits for the producer of ticket v.
  ghost predicate FreeFor(s: Ring, i: nat, v: nat)
    requires Shape(s) && i < |s.slots|
  {
    && Wrap(v, |s.stamps|) == i
    && s.tail <= v < s.tail + |s.stamps|
    && s.head <= v + |s.stamps|
    && v !in s.filled
    && (v >= |s.stamps| ==> v - |s.stamps| in s.popped)
  }

  // Slot i holds the published payload of ticket p, not yet released.
  ghost predicate HoldsTicket(s: Ring, i: nat, p: nat)
    requires Shape(s) && i < |s.slots|
  {
    && Wrap(p, |s.stamps|) == i
    && p < s.head <= p + |s.stamps|
    && p < s.tail + |s.stamps|
    && p in s.filled
    && p !in s.popped
    && p < |s.pushed| && s.pushed[p] <= s.slots[i]
  }

  ghost predicate SlotOk(s: Ring, i: nat)
    requires Shape(s) && i < |s.slots|
  {
    || FreeFor(s, i, s.stamps[i])
    || (s.stamps[i] > 0 && HoldsTicket(s, i, s.stamps[i] - 1))
  }

  ghost predicate PcOk(s: Ring, pc: Pc)
    requires Shape(s)
  {
    match pc
    case Idle => true
    case PushSeq(payload, pos) => |payload| <= s.slotBytes && pos <= s.head
    case PushReload(payload) => |payload| <= s.slotBytes
    case PushCas(payload, pos) => |payload| <= s.slotBytes && s.stamps[s.Slot(pos)] >= pos && pos <= s.head
    case PushCopy(payload, pos, n) =>
      && n <= |payload| <= s.slotBytes
      && pos < s.head && pos < |s.pushed| && s.pushed[pos] == payload
      && s.stamps[s.Slot(pos)] == pos
      && payload[..n] == s.slots[s.Slot(pos)][..n]
    case PopSeq(pos) => pos <= s.tail
    case PopReload => true
    case PopCas(pos) => s.stamps[s.Slot(pos)] >= pos + 1 && pos <= s.tail
    case PopCopy(pos, out) =>
      && pos < s.tail
      && s.stamps[s.Slot(pos)] == pos + 1
      && |out| <= s.slotBytes && out == s.slots[s.Slot(pos)][..|out|]
  }

  ghost predicate SlotsOk(s: Ring)
    requires Shape(s)
  {
    forall i | 0 <= i < |s.slots| :: SlotOk(s, i)
  }

  ghost predicate PcsOk(s: Ring)
    requires Shape(s)
  {
    forall t | t in s.pcs :: PcOk(s, s.pcs[t])
  }

  ghost predicate Producing(s: Ring, t: Tid, ticket: nat) {
    t in s.pcs && s.pcs[t].PushCopy? && s.pcs[t].pos == ticket
  }

  ghost predicate Consuming(s: Ring, t: Tid, ticket: nat) {
    t in s.pcs && s.pcs[t].PopCopy? && s.pcs[t].pos == ticket
  }

  // No ticket has two owners, and no ticket is lost: it is finished or being copied.
  ghost predicate TicketsOk(s: Ring) {
    && (forall t, u, k :: Producing(s, t, k) && Producing(s, u, k) ==> t == u)
    && (forall t, u, k :: Consuming(s, t, k) && Consuming(s, u, k) ==> t == u)
    && (forall k | 0 <= k < s.head :: k in s.filled || exists t :: Producing(s, t, k))
    && (forall k | 0 <= k < s.tail :: k in s.popped || exists t :: Consuming(s, t, k))
  }

  ghost predicate HistoryOk(s: Ring)
    requires Shape(s)
  {
    && |s.pushed| == s.head
    && (forall k :: 0 <= k < |s.pushed| ==> |s.pushed[k]| <= s.slotBytes)
    && (forall k :: k in s.filled ==> k < s.head && s.stamps[s.Slot(k)] >= k + 1)
    && (forall k :: k in s.popped ==>
          k < s.tail && k < |s.pushed| && |s.popped[k]| == s.slotBytes && s.pushed[k] <= s.popped[k])
  }

  ghost predicate Inv(s: Ring) {
    && Shape(s) && |s.stamps| >= 2
    && s.tail <= s.head <= s.tail + |s.stamps|
    && SlotsOk(s) && PcsOk(s) && TicketsOk(s) && HistoryOk(s)
  }

  // ----- What a successful claim may rely on -----------------------------

  // The stamp a producer read before its CAS is still current when the CAS succeeds.
  lemma PushClaimIsFresh(s: Ring, t: Tid)
    requires Inv(s) && s.At(t).PushCas? && s.head == s.At(t).pos
    ensures s.stamps[s.Slot(s.head)] == s.head
  {
    var n, pos := |s.stamps|, s.head;
    var i := s.Slot(pos);
    var v := s.stamps[i];
    assert SlotOk(s, i);
    if FreeFor(s, i, v) {
      if pos < v { SameSlotGap(pos, v, n); }
    } else {
      SameSlotGap(v - 1, pos, n);
    }
  }

  lemma PopClaimIsFresh(s: Ring, t: Tid)
    requires Inv(s) && s.At(t).PopCas? && s.tail == s.At(t).pos
    ensures s.stamps[s.Slot(s.tail)] == s.tail + 1
  {
    var n, pos := |s.stamps|, s.tail;
    var i := s.Slot(pos);
    var v := s.stamps[i];
    assert SlotOk(s, i);
    if FreeFor(s, i, v) {
      SameSlotGap(pos, v, n);
    } else if pos < v - 1 {
      SameSlotGap(pos, v - 1, n);
    }
  }

  // Between its CAS and its stamp store a thread owns its slot alone.
  lemma OwnersAreExclusive(s: Ring, t: Tid, u: Tid)
    requires Inv(s) && t != u
    requires s.At(t).PushCopy? || s.At(t).PopCopy?
    requires s.At(u).PushCopy? || s.At(u).PopCopy?
    ensures s.Slot(s.At(t).pos) != s.Slot(s.At(u).pos)
  {
    var p, q := s.At(t).pos, s.At(u).pos;
    assert PcOk(s, s.pcs[t]) && PcOk(s, s.pcs[u]);
    if s.At(t).PushCopy? && s.At(u).PushCopy? {
      assert Producing(s, t, p) && Producing(s, u, q);
    } else if s.At(t).PopCopy? && s.At(u).PopCopy? {
      assert Consuming(s, t, p) && Consuming(s, u, q);
    } else {
      NextSlotDiffers(p, |s.stamps|);
      NextSlotDiffers(q, |s.stamps|);
    }
  }

  // ----- Every step keeps the invariant ----------------------------------

  ghost predicate Owner(pc: Pc) {
    pc.PushCopy? || pc.PopCopy?
  }

  // Ownership of tickets survives a step of t that finishes or keeps what t
  // owned and takes only tickets nobody had.
  lemma TicketsCarry(s: Ring, s': Ring, t: Tid)
    requires TicketsOk(s) && t in s'.pcs && s'.pcs == s.pcs[t := s'.pcs[t]]
    requires s.head <= s'.head && s.filled <= s'.filled
    requires s.tail <= s'.tail && s.popped.Keys <= s'.popped.Keys
    requires forall u: Tid, k: nat :: Producing(s, u, k) ==> k < s.head
    requires forall u: Tid, k: nat :: Consuming(s, u, k) ==> k < s.tail
    requires forall k: nat :: Producing(s, t, k) ==> Producing(s', t, k) || k in s'.filled
    requires forall k: nat :: Consuming(s, t, k) ==> Consuming(s', t, k) || k in s'.popped
    requires forall k: nat :: Producing(s', t, k) ==> Producing(s, t, k) || k >= s.head
    requires forall k: nat :: Consuming(s', t, k) ==> Consuming(s, t, k) || k >= s.tail
    requires forall k: nat | s.head <= k < s'.head :: Producing(s', t, k)
    requires forall k: nat | s.tail <= k < s'.tail :: Consuming(s', t, k)
    ensures TicketsOk(s')
  {
    assert forall u: Tid, k: nat | u != t :: Producing(s', u, k) == Producing(s, u, k);
    assert forall u: Tid, k: nat | u != t :: Consuming(s', u, k) == Consuming(s, u, k);
    forall k: nat | k < s'.head && k !in s'.filled ensures exists u :: Producing(s', u, k) {
      var u := t;
      if k < s.head { u :| Producing(s, u, k); }
      assert Producing(s', u, k);
    }
    forall k: nat | k < s'.tail && k !in s'.popped ensures exists u :: Consuming(s', u, k) {
      var u := t;
      if k < s.tail { u :| Consuming(s, u, k); }
      assert Consuming(s', u, k);
    }
  }

  lemma OwnedBelow(s: Ring)
    requires Shape(s) && PcsOk(s)
    ensures forall u: Tid, k: nat :: Producing(s, u, k) ==> k < s.head
    ensures forall u: Tid, k: nat :: Consuming(s, u, k) ==> k < s.tail
  {
    forall u: Tid, k: nat | Producing(s, u, k) ensures k < s.head { assert PcOk(s, s.pcs[u]); }
    forall u: Tid, k: nat | Consuming(s, u, k) ensures k < s.tail { assert PcOk(s, s.pcs[u]); }
  }

  // A slot whose stamp and bytes did not change still waits for, or holds, the same ticket.
  lemma SlotCarries(s: Ring, s': Ring, i: nat)
    requires Shape(s) && Shape(s') && |s'.stamps| == |s.stamps| && i < |s.stamps| && SlotOk(s, i)
    requires s'.stamps[i] == s.stamps[i] && (s'.slots[i] == s.slots[i] || FreeFor(s, i, s.stamps[i]))
    requires s.pushed <= s'.pushed && s.head <= s'.head && s.tail <= s'.tail
    requires s.filled <= s'.filled && s.popped.Keys <= s'.popped.Keys
    requires FreeFor(s, i, s.stamps[i]) ==>
      s'.tail <= s.stamps[i] && s'.head <= s.stamps[i] + |s.stamps| && s.stamps[i] !in s'.filled
    requires s.stamps[i] > 0 && HoldsTicket(s, i, s.stamps[i] - 1) ==>
      s'.head <= s.stamps[i] - 1 + |s.stamps| && s.stamps[i] - 1 !in s'.popped
    ensures SlotOk(s', i)
  {
    if FreeFor(s, i, s.stamps[i]) {
      assert FreeFor(s', i, s.stamps[i]);
    } else {
      assert HoldsTicket(s', i, s.stamps[i] - 1);
    }
  }

  lemma StampOfProducer(s: Ring, pos: nat)
    requires Inv(s) && s.stamps[s.Slot(pos)] == pos
    ensures FreeFor(s, s.Slot(pos), pos)
  {
    assert SlotOk(s, s.Slot(pos));
    if pos > 0 { NextSlotDiffers(pos - 1, |s.stamps|); }
  }

  lemma StampOfConsumer(s: Ring, pos: nat)
    requires Inv(s) && s.stamps[s.Slot(pos)] == pos + 1
    ensures HoldsTicket(s, s.Slot(pos), pos)
  {
    assert SlotOk(s, s.Slot(pos));
    NextSlotDiffers(pos, |s.stamps|);
  }

  lemma LocalKeeps(s: Ring, t: Tid, pc: Pc)
    requires Inv(s) && !Owner(s.At(t)) && !Owner(pc) && PcOk(s, pc)
    ensures Inv(s.Goto(t, pc))
  {
    var s' := s.Goto(t, pc);
    forall i | 0 <= i < |s.slots| ensures SlotOk(s', i) { SlotCarries(s, s', i); }
    forall u | u in s'.pcs ensures PcOk(s', s'.pcs[u]) { if u != t { assert PcOk(s, s.pcs[u]); } }
    OwnedBelow(s);
    TicketsCarry(s, s', t);
  }

  lemma ClaimPushSlot(s: Ring, t: Tid, payload: seq<byte>, i: nat)
    requires Shape(s) && |s.stamps| >= 2 && i < |s.stamps| && SlotOk(s, i) && |s.pushed| == s.head
    requires FreeFor(s, s.Slot(s.head), s.head) && s.stamps[s.Slot(s.head)] == s.head
    ensures SlotOk(ClaimPush(s, t, payload), i)
  {
    var n := |s.stamps|;
    assert Wrap(s.stamps[i] + n, n) == Wrap(s.stamps[i], n);
    assert s.stamps[i] > 0 ==> Wrap(s.stamps[i] - 1 + n, n) == Wrap(s.stamps[i] - 1, n);
    SlotCarries(s, ClaimPush(s, t, payload), i);
  }

  lemma ClaimPushSlots(s: Ring, t: Tid, payload: seq<byte>)
    requires Inv(s) && s.stamps[s.Slot(s.head)] == s.head
    ensures SlotsOk(ClaimPush(s, t, payload)) && s.head < s.tail + |s.stamps|
  {
    StampOfProducer(s, s.head);
    forall i | 0 <= i < |s.slots| ensures SlotOk(ClaimPush(s, t, payload), i) {
      assert SlotOk(s, i);
      ClaimPushSlot(s, t, payload, i);
    }
  }

  lemma ClaimPushKeeps(s: Ring, t: Tid)
    requires Inv(s) && s.At(t).PushCas? && s.head == s.At(t).pos
    ensures Inv(ClaimPush(s, t, s.At(t).payload))
  {
    var s' := ClaimPush(s, t, s.At(t).payload);
    PushClaimIsFresh(s, t);
    ClaimPushSlots(s, t, s.At(t).payload);
    forall u | u in s'.pcs ensures PcOk(s', s'.pcs[u]) { if u in s.pcs { assert PcOk(s, s.pcs[u]); } }
    OwnedBelow(s);
    TicketsCarry(s, s', t);
  }

  lemma ClaimPopSlot(s: Ring, t: Tid, i: nat)
    requires Shape(s) && |s.stamps| >= 2 && i < |s.stamps| && SlotOk(s, i)
    requires HoldsTicket(s, s.Slot(s.tail), s.tail) && s.stamps[s.Slot(s.tail)] == s.tail + 1
    ensures SlotOk(ClaimPop(s, t), i)
  {
    SlotCarries(s, ClaimPop(s, t), i);
  }

  lemma ClaimPopSlots(s: Ring, t: Tid)
    requires Inv(s) && s.stamps[s.Slot(s.tail)] == s.tail + 1
    ensures SlotsOk(ClaimPop(s, t)) && s.tail < s.head
  {
    StampOfConsumer(s, s.tail);
    forall i | 0 <= i < |s.slots| ensures SlotOk(ClaimPop(s, t), i) {
      assert SlotOk(s, i);
      ClaimPopSlot(s, t, i);
    }
  }

  lemma ClaimPopKeeps(s: Ring, t: Tid)
    requires Inv(s) && s.At(t).PopCas? && s.tail == s.At(t).pos
    ensures Inv(ClaimPop(s, t))
  {
    var s' := ClaimPop(s, t);
    PopClaimIsFresh(s, t);
    ClaimPopSlots(s, t);
    forall u | u in s'.pcs ensures PcOk(s', s'.pcs[u]) { if u in s.pcs { assert PcOk(s, s.pcs[u]); } }
    OwnedBelow(s);
    TicketsCarry(s, s', t);
  }

  lemma CopyInSlots(s: Ring, t: Tid, payload: seq<byte>, pos: nat, n: nat)
    requires Inv(s) && s.At(t) == PushCopy(payload, pos, n) && n < |payload| && n < s.slotBytes
    ensures SlotsOk(CopyIn(s, t, payload, pos, n))
  {
    assert PcOk(s, s.pcs[t]);
    StampOfProducer(s, pos);
    forall i | 0 <= i < |s.slots| ensures SlotOk(CopyIn(s, t, payload, pos, n), i) {
      assert SlotOk(s, i);
      SlotCarries(s, CopyIn(s, t, payload, pos, n), i);
    }
  }

  lemma CopyInPcs(s: Ring, t: Tid, payload: seq<byte>, pos: nat, n: nat)
    requires Inv(s) && s.At(t) == PushCopy(payload, pos, n) && n < |payload| && n < s.slotBytes
    ensures PcsOk(CopyIn(s, t, payload, pos, n))
  {
    var s' := CopyIn(s, t, payload, pos, n);
    var j := s.Slot(pos);
    assert PcOk(s, s.pcs[t]);
    assert s'.slots[j][..n + 1] == s.slots[j][..n] + [payload[n]];
    forall u | u in s'.pcs ensures PcOk(s', s'.pcs[u]) {
      if u != t {
        assert PcOk(s, s.pcs[u]);
        if Owner(s.pcs[u]) { OwnersAreExclusive(s, t, u); }
      }
    }
  }

  lemma CopyInKeeps(s: Ring, t: Tid, payload: seq<byte>, pos: nat, n: nat)
    requires Inv(s) && s.At(t) == PushCopy(payload, pos, n) && n < |payload| && n < s.slotBytes
    ensures Inv(CopyIn(s, t, payload, pos, n))
  {
    CopyInSlots(s, t, payload, pos, n);
    CopyInPcs(s, t, payload, pos, n);
    OwnedBelow(s);
    TicketsCarry(s, CopyIn(s, t, payload, pos, n), t);
  }

  lemma CopyOutKeeps(s: Ring, t: Tid, pos: nat, out: seq<byte>)
    requires Inv(s) && s.At(t) == PopCopy(pos, out) && |out| < s.slotBytes
    ensures Inv(CopyOut(s, t, pos, out))
  {
    var s' := CopyOut(s, t, pos, out);
    assert PcOk(s, s.pcs[t]);
    assert SlotsOk(s') by {
      forall i | 0 <= i < |s.slots| ensures SlotOk(s', i) { SlotCarries(s, s', i); }
    }
    assert PcsOk(s') by {
      forall u | u in s'.pcs ensures PcOk(s', s'.pcs[u]) { if u != t { assert PcOk(s, s.pcs[u]); } }
    }
    assert TicketsOk(s') by {
      OwnedBelow(s);
      TicketsCarry(s, s', t);
    }
  }

  // Raising the stamp of a slot t owned disturbs no other thread.
  lemma StampRaised(s: Ring, s': Ring, t: Tid)
    requires Inv(s) && Shape(s') && Owner(s.At(t)) && s'.pcs == s.pcs[t := Idle]
    requires |s'.stamps| == |s.stamps| && s'.slotBytes == s.slotBytes && s'.slots == s.slots
    requires s'.head == s.head && s'.tail == s.tail && s'.pushed == s.pushed
    requires forall i :: 0 <= i < |s.stamps| ==>
      if i == s.Slot(s.At(t).pos) then s'.stamps[i] > s.stamps[i] else s'.stamps[i] == s.stamps[i]
    ensures PcsOk(s')
  {
    forall u | u in s'.pcs ensures PcOk(s', s'.pcs[u]) {
      if u != t {
        assert PcOk(s, s.pcs[u]);
        if Owner(s.pcs[u]) { OwnersAreExclusive(s, t, u); }
      }
    }
  }

  lemma PublishSlots(s: Ring, t: Tid, payload: seq<byte>, pos: nat, n: nat)
    requires Inv(s) && s.At(t) == PushCopy(payload, pos, n) && n >= |payload|
    ensures SlotsOk(Publish(s, t, pos))
  {
    var s' := Publish(s, t, pos);
    var j := s.Slot(pos);
    assert PcOk(s, s.pcs[t]);
    StampOfProducer(s, pos);
    assert payload == s.slots[j][..|payload|];
    assert HoldsTicket(s', j, pos);
    forall i | 0 <= i < |s.slots| ensures SlotOk(s', i) {
      if i != j { PublishOther(s, t, pos, i); }
    }
  }

  lemma PublishOther(s: Ring, t: Tid, pos: nat, i: nat)
    requires Inv(s) && i < |s.slots| && i != s.Slot(pos)
    ensures SlotOk(Publish(s, t, pos), i)
  {
    assert SlotOk(s, i);
    SlotCarries(s, Publish(s, t, pos), i);
  }

  lemma PublishKeeps(s: Ring, t: Tid, payload: seq<byte>, pos: nat, n: nat)
    requires Inv(s) && s.At(t) == PushCopy(payload, pos, n) && n >= |payload|
    ensures Inv(Publish(s, t, pos))
  {
    assert PcOk(s, s.pcs[t]);
    PublishSlots(s, t, payload, pos, n);
    StampRaised(s, Publish(s, t, pos), t);
    OwnedBelow(s);
    TicketsCarry(s, Publish(s, t, pos), t);
  }

  lemma RecycledIsFree(s: Ring, t: Tid, pos: nat, out: seq<byte>)
    requires Shape(s) && HoldsTicket(s, s.Slot(pos), pos)
    requires pos < s.tail <= s.head && pos + |s.stamps| !in s.filled
    ensures FreeFor(Recycle(s, t, pos, out), s.Slot(pos), pos + |s.stamps|)
  {
    var n := |s.stamps|;
    assert Wrap(pos + n, n) == Wrap(pos, n);
  }

  lemma RecycledSlot(s: Ring, t: Tid, pos: nat, out: seq<byte>)
    requires Inv(s) && s.At(t) == PopCopy(pos, out) && |out| >= s.slotBytes
    ensures SlotOk(Recycle(s, t, pos, out), s.Slot(pos))
    ensures s.pushed[pos] <= out
  {
    assert PcOk(s, s.pcs[t]);
    StampOfConsumer(s, pos);
    assert out == s.slots[s.Slot(pos)];
    RecycledIsFree(s, t, pos, out);
  }

  lemma RecycleOther(s: Ring, t: Tid, pos: nat, out: seq<byte>, i: nat)
    requires Inv(s) && i < |s.slots| && i != s.Slot(pos)
    ensures SlotOk(Recycle(s, t, pos, out), i)
  {
    assert SlotOk(s, i);
    SlotCarries(s, Recycle(s, t, pos, out), i);
  }

  lemma RecycleSlots(s: Ring, t: Tid, pos: nat, out: seq<byte>)
    requires Inv(s) && s.At(t) == PopCopy(pos, out) && |out| >= s.slotBytes
    ensures SlotsOk(Recycle(s, t, pos, out))
  {
    RecycledSlot(s, t, pos, out);
    forall i | 0 <= i < |s.slots| ensures SlotOk(Recycle(s, t, pos, out), i) {
      if i != s.Slot(pos) { RecycleOther(s, t, pos, out, i); }
    }
  }

  lemma RecycleKeeps(s: Ring, t: Tid, pos: nat, out: seq<byte>)
    requires Inv(s) && s.At(t) == PopCopy(pos, out) && |out| >= s.slotBytes
    ensures Inv(Recycle(s, t, pos, out))
  {
    var s' := Recycle(s, t, pos, out);
    assert PcOk(s, s.pcs[t]);
    assert SlotsOk(s') by { RecycleSlots(s, t, pos, out); }
    assert PcsOk(s') by { StampRaised(s, s', t); }
    assert TicketsOk(s') by {
      OwnedBelow(s);
      TicketsCarry(s, s', t);
    }
    assert HistoryOk(s') by { RecycledSlot(s, t, pos, out); }
  }

  lemma PushStepKeeps(s: Ring, t: Tid, spurious: bool)
    requires Inv(s)
    requires s.At(t).PushSeq? || s.At(t).PushReload? || s.At(t).PushCas? || s.At(t).PushCopy?
    ensures Inv(Act(s, t, Advance(spurious)))
  {
    assert PcOk(s, s.pcs[t]);
    match s.At(t)
    case PushSeq(payload, pos) =>
      if s.stamps[s.Slot(pos)] == pos {
        LocalKeeps(s, t, PushCas(payload, pos));
      } else if s.stamps[s.Slot(pos)] < pos {
        LocalKeeps(s, t, Idle);
      } else {
        LocalKeeps(s, t, PushReload(payload));
      }
    case PushReload(payload) => LocalKeeps(s, t, PushSeq(payload, s.head));
    case PushCas(payload, pos) =>
      if spurious || s.head != pos { LocalKeeps(s, t, PushSeq(payload, s.head)); } else { ClaimPushKeeps(s, t); }
    case PushCopy(payload, pos, n) =>
      if n < |payload| { CopyInKeeps(s, t, payload, pos, n); } else { PublishKeeps(s, t, payload, pos, n); }
  }

  lemma PopStepKeeps(s: Ring, t: Tid, spurious: bool)
    requires Inv(s)
    requires s.At(t).PopSeq? || s.At(t).PopReload? || s.At(t).PopCas? || s.At(t).PopCopy?
    ensures Inv(Act(s, t, Advance(spurious)))
  {
    assert PcOk(s, s.pcs[t]);
    match s.At(t)
    case PopSeq(pos) =>
      if s.stamps[s.Slot(pos)] == pos + 1 {
        LocalKeeps(s, t, PopCas(pos));
      } else if s.stamps[s.Slot(pos)] < pos + 1 {
        LocalKeeps(s, t, Idle);
      } else {
        LocalKeeps(s, t, PopReload);
      }
    case PopReload => LocalKeeps(s, t, PopSeq(s.tail));
    case PopCas(pos) =>
      if spurious || s.tail != pos { LocalKeeps(s, t, PopSeq(s.tail)); } else { ClaimPopKeeps(s, t); }
    case PopCopy(pos, out) =>
      if |out| < s.slotBytes { CopyOutKeeps(s, t, pos, out); } else { RecycleKeeps(s, t, pos, out); }
  }

  lemma ActKeeps(s: Ring, t: Tid, a: Action)
    requires Inv(s)
    ensures Inv(Act(s, t, a))
  {
    match a
    case StartPush(payload) =>
      if s.At(t) == Idle && |payload| <= s.slotBytes { LocalKeeps(s, t, PushSeq(payload, s.head)); }
    case StartPop =>
      if s.At(t) == Idle { LocalKeeps(s, t, PopSeq(s.tail)); }
    case Advance(spurious) =>
      if s.At(t).PushSeq? || s.At(t).PushReload? || s.At(t).PushCas? || s.At(t).PushCopy? {
        PushStepKeeps(s, t, spurious);
      } else if s.At(t) != Idle {
        PopStepKeeps(s, t, spurious);
      }
  }

  lemma InitHolds(n: nat, slotBytes: nat)
    requires n >= 2
    ensures Inv(Init(n, slotBytes))
  {
    var s := Init(n, slotBytes);
    forall i | 0 <= i < n ensures SlotOk(s, i) {
      assert FreeFor(s, i, i);
    }
  }

  lemma {:induction false} ExecKeeps(s: Ring, schedule: seq<(Tid, Action)>)
    requires Inv(s)
    ensures Inv(Exec(s, schedule))
    decreases |schedule|
  {
    if schedule != [] {
      ActKeeps(s, schedule[0].0, schedule[0].1);
      ExecKeeps(Act(s, schedule[0].0, schedule[0].1), schedule[1..]);
    }
  }
}

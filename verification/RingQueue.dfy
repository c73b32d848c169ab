/**
 The ring used by one thread at a time: a bounded FIFO.

 `SqCq` keeps the source's cursors, stamps and slots and its CAS retry loops;
 `spurious` says how often a weak compare-and-swap fails for no reason.  The ghost
 field `queue` holds the payloads pushed and not yet popped, oldest first.
 */
module RingQueue {
  import opened Bytes
  import opened Wrapping

  // Stamps and slots carry exactly `queue`, at positions tail, tail + 1, ...
  ghost predicate Carries(stamps: seq<nat>, slots: seq<seq<byte>>, slotBytes: nat, tail: nat, queue: seq<seq<byte>>) {
    && |stamps| == |slots| >= 2
    && |queue| <= |stamps|
    && (forall i | 0 <= i < |slots| :: |slots[i]| == slotBytes)
    && AllFull(stamps, slots, tail, queue) && AllFree(stamps, tail, |queue|)
  }

  ghost predicate AllFull(stamps: seq<nat>, slots: seq<seq<byte>>, tail: nat, queue: seq<seq<byte>>)
    requires |stamps| == |slots| > 0
  {
    forall k | 0 <= k < |queue| :: FullAt(stamps, slots, tail + k, queue[k])
  }

  ghost predicate AllFree(stamps: seq<nat>, tail: nat, used: nat)
    requires |stamps| > 0
  {
    forall pos | tail + used <= pos < tail + |stamps| :: FreeAt(stamps, pos)
  }

  ghost predicate FullAt(stamps: seq<nat>, slots: seq<seq<byte>>, pos: nat, payload: seq<byte>)
    requires |stamps| == |slots| > 0
  {
    stamps[Wrap(pos, |stamps|)] == pos + 1 && payload <= slots[Wrap(pos, |stamps|)]
  }

  ghost predicate FreeAt(stamps: seq<nat>, pos: nat)
    requires |stamps| > 0
  {
    stamps[Wrap(pos, |stamps|)] == pos
  }

  // The position of the current lap that shares a slot with an old one.
  lemma {:induction false} CurrentLap(pos: nat, tail: nat, n: nat) returns (q: nat)
    requires n > 0 && pos < tail
    ensures tail <= q < tail + n && pos + n <= q && Wrap(q, n) == Wrap(pos, n)
    decreases tail - pos
  {
    q := pos + n;
    if q < tail { q := CurrentLap(pos + n, tail, n); }
  }

  // What a stamp says about a position up to head, even one read some time ago.
  lemma PushStamp(stamps: seq<nat>, slots: seq<seq<byte>>, slotBytes: nat, tail: nat, queue: seq<seq<byte>>, pos: nat)
    requires Carries(stamps, slots, slotBytes, tail, queue) && pos <= tail + |queue|
    ensures var s := stamps[Wrap(pos, |stamps|)];
      if pos < tail then s > pos
      else if pos < tail + |queue| then s == pos + 1
      else if |queue| < |stamps| then s == pos else s < pos
  {
    var n := |stamps|;
    if pos < tail {
      var q := CurrentLap(pos, tail, n);
      if q < tail + |queue| { assert FullAt(stamps, slots, tail + (q - tail), queue[q - tail]); }
      else { assert FreeAt(stamps, q); }
    } else if pos < tail + |queue| {
      assert FullAt(stamps, slots, tail + (pos - tail), queue[pos - tail]);
    } else if |queue| < n {
      assert FreeAt(stamps, pos);
    } else {
      assert Wrap(tail + n, n) == Wrap(tail, n);
      assert FullAt(stamps, slots, tail + 0, queue[0]);
    }
  }

  lemma PopStamp(stamps: seq<nat>, slots: seq<seq<byte>>, slotBytes: nat, tail: nat, queue: seq<seq<byte>>, pos: nat)
    requires Carries(stamps, slots, slotBytes, tail, queue) && pos <= tail
    ensures var s := stamps[Wrap(pos, |stamps|)];
      if pos < tail then s > pos + 1 else if queue == [] then s < pos + 1
      else s == pos + 1 && queue[0] <= slots[Wrap(pos, |stamps|)]
  {
    var q := pos;
    if pos < tail { q := CurrentLap(pos, tail, |stamps|); }
    if q < tail + |queue| {
      assert FullAt(stamps, slots, tail + (q - tail), queue[q - tail]);
    } else {
      assert FreeAt(stamps, q);
    }
  }

  lemma DistinctPositions(p: nat, q: nat, n: nat)
    requires n > 0 && p < q < p + n
    ensures Wrap(p, n) != Wrap(q, n)
  {
    if Wrap(p, n) == Wrap(q, n) { SameSlotGap(p, q, n); }
  }

  lemma PushCarries(stamps: seq<nat>, slots: seq<seq<byte>>, slotBytes: nat, tail: nat, queue: seq<seq<byte>>,
                    payload: seq<byte>, slot: seq<byte>)
    requires Carries(stamps, slots, slotBytes, tail, queue) && |queue| < |stamps|
    requires |slot| == slotBytes && payload <= slot
    ensures var i := Wrap(tail + |queue|, |stamps|);
      Carries(stamps[i := tail + |queue| + 1], slots[i := slot], slotBytes, tail, queue + [payload])
  {
    var n, head := |stamps|, tail + |queue|;
    var i := Wrap(head, n);
    var stamps', slots', queue' := stamps[i := head + 1], slots[i := slot], queue + [payload];
    forall k | 0 <= k < |queue'| ensures FullAt(stamps', slots', tail + k, queue'[k]) {
      if k < |queue| {
        assert FullAt(stamps, slots, tail + k, queue[k]);
        DistinctPositions(tail + k, head, n);
      }
    }
    forall pos | tail + |queue'| <= pos < tail + n ensures FreeAt(stamps', pos) {
      assert FreeAt(stamps, pos);
      DistinctPositions(head, pos, n);
    }
  }

  lemma PopKeepsFull(stamps: seq<nat>, slots: seq<seq<byte>>, tail: nat, pos: nat, payload: seq<byte>)
    requires |stamps| == |slots| > 0 && tail < pos < tail + |stamps| && FullAt(stamps, slots, pos, payload)
    ensures FullAt(stamps[Wrap(tail, |stamps|) := tail + |stamps|], slots, pos, payload)
  {
    DistinctPositions(tail, pos, |stamps|);
  }

  lemma PopKeepsFree(stamps: seq<nat>, tail: nat, pos: nat)
    requires |stamps| > 0 && tail < pos <= tail + |stamps|
    requires pos < tail + |stamps| ==> FreeAt(stamps, pos)
    ensures FreeAt(stamps[Wrap(tail, |stamps|) := tail + |stamps|], pos)
  {
    if pos < tail + |stamps| {
      DistinctPositions(tail, pos, |stamps|);
    } else {
      assert Wrap(pos, |stamps|) == Wrap(tail, |stamps|);
    }
  }

  lemma PopFull(stamps: seq<nat>, slots: seq<seq<byte>>, tail: nat, queue: seq<seq<byte>>)
    requires |stamps| == |slots| > 0 && 0 < |queue| <= |stamps| && AllFull(stamps, slots, tail, queue)
    ensures AllFull(stamps[Wrap(tail, |stamps|) := tail + |stamps|], slots, tail + 1, queue[1..])
  {
    var stamps' := stamps[Wrap(tail, |stamps|) := tail + |stamps|];
    forall k | 0 <= k < |queue[1..]| ensures FullAt(stamps', slots, tail + 1 + k, queue[1..][k]) {
      assert FullAt(stamps, slots, tail + (k + 1), queue[k + 1]);
      PopKeepsFull(stamps, slots, tail, tail + (k + 1), queue[k + 1]);
    }
  }

  lemma PopFree(stamps: seq<nat>, tail: nat, used: nat)
    requires 0 < used <= |stamps| && AllFree(stamps, tail, used)
    ensures AllFree(stamps[Wrap(tail, |stamps|) := tail + |stamps|], tail + 1, used - 1)
  {
    var stamps' := stamps[Wrap(tail, |stamps|) := tail + |stamps|];
    forall pos | tail + used <= pos < tail + 1 + |stamps| ensures FreeAt(stamps', pos) {
      assert pos < tail + |stamps| ==> FreeAt(stamps, pos);
      PopKeepsFree(stamps, tail, pos);
    }
  }

  lemma PopCarries(stamps: seq<nat>, slots: seq<seq<byte>>, slotBytes: nat, tail: nat, queue: seq<seq<byte>>)
    requires Carries(stamps, slots, slotBytes, tail, queue) && queue != []
    ensures Carries(stamps[Wrap(tail, |stamps|) := tail + |stamps|], slots, slotBytes, tail + 1, queue[1..])
  {
    PopFull(stamps, slots, tail, queue);
    PopFree(stamps, tail, |queue|);
  }

  class SqCq {
    const slotBytes: nat
    const mask: nat
    const stamps: array<nat>
    const slots: array<seq<byte>>
    var head: nat
    var tail: nat
    ghost var queue: seq<seq<byte>>

    ghost predicate Valid()
      reads this, stamps, slots
    {
      && stamps.Length == mask + 1
      && head == tail + |queue|
      && Carries(stamps[..], slots[..], slotBytes, tail, queue)
    }

    // Create, for any positive slot count; from two slots on the ring is an empty queue.
    constructor (slotCount: nat, bytes: nat)
      requires slotCount >= 1
      ensures slotCount >= 2 ==> Valid()
      ensures fresh(stamps) && fresh(slots) && slotBytes == bytes && stamps.Length == slotCount && queue == []
      ensures head == 0 && tail == 0 && forall k | 0 <= k < slotCount :: stamps[k] == k
    {
      slotBytes := bytes;
      mask := slotCount - 1;
      stamps := new nat[slotCount](k => k);
      slots := new seq<byte>[slotCount](k => seq(bytes, j => 0));
      head, tail, queue := 0, 0, [];
      new;
      forall pos | 0 <= pos < slotCount ensures FreeAt(stamps[..], pos) {
        assert stamps[pos] == pos;
      }
    }

    // The claimed head slot gets the payload over its old bytes, then its stamp.
    method Fill(payload: seq<byte>)
      requires Valid() && |payload| <= slotBytes && |queue| < stamps.Length
      modifies this`head, this`queue, stamps, slots
      ensures Valid() && queue == old(queue) + [payload]
    {
      ghost var was: seq<nat> := stamps[..];
      ghost var bytes := slots[..];
      var i := Wrap(head, mask + 1);
      var slot := payload + slots[i][|payload|..];
      PushCarries(was, bytes, slotBytes, tail, queue, payload, slot);
      slots[i] := slot;
      stamps[i] := head + 1;
      assert stamps[..] == was[i := head + 1] && slots[..] == bytes[i := slot];
      head := head + 1;
      queue := queue + [payload];
    }

    // The claimed tail slot is copied out and its stamp recycled.
    method Take() returns (out: seq<byte>)
      requires Valid() && queue != []
      modifies this`tail, this`queue, stamps
      ensures Valid() && queue == old(queue)[1..] && |out| == slotBytes && old(queue)[0] <= out
    {
      PopStamp(stamps[..], slots[..], slotBytes, tail, queue, tail);
      ghost var was: seq<nat> := stamps[..];
      var i := Wrap(tail, mask + 1);
      out := slots[i];
      PopCarries(was, slots[..], slotBytes, tail, queue);
      stamps[i] := tail + mask + 1;
      assert stamps[..] == was[i := tail + mask + 1];
      tail := tail + 1;
      queue := queue[1..];
    }

    method TryPush(payload: seq<byte>, spurious: nat) returns (ok: bool)
      requires Valid()
      modifies this`head, this`queue, stamps, slots
      ensures Valid()
      ensures ok <==> |payload| <= slotBytes && |old(queue)| < stamps.Length
      ensures queue == if ok then old(queue) + [payload] else old(queue)
    {
      if |payload| > slotBytes { return false; }
      var retries, pos := spurious, head;
      while true
        invariant head == old(head) && queue == old(queue)
        invariant stamps[..] == old(stamps[..]) && slots[..] == old(slots[..])
        invariant tail <= pos <= head
        decreases retries, head - pos
      {
        PushStamp(stamps[..], slots[..], slotBytes, tail, queue, pos);
        var i := Wrap(pos, mask + 1);
        var s := stamps[i];
        if s == pos {
          if retries == 0 {
            Fill(payload);
            return true;
          }
          retries, pos := retries - 1, head;
        } else if s < pos {
          return false;
        } else {
          pos := head;
        }
      }
    }

    method TryPop(spurious: nat) returns (ok: bool, out: seq<byte>)
      requires Valid()
      modifies this`tail, this`queue, stamps
      ensures Valid()
      ensures ok <==> old(queue) != []
      ensures ok ==> |out| == slotBytes && old(queue)[0] <= out && queue == old(queue)[1..]
      ensures !ok ==> queue == old(queue)
    {
      var retries, pos := spurious, tail;
      while true
        invariant tail == old(tail) && queue == old(queue) && stamps[..] == old(stamps[..])
        invariant 0 <= pos <= tail
        decreases retries, tail - pos
      {
        PopStamp(stamps[..], slots[..], slotBytes, tail, queue, pos);
        var i := Wrap(pos, mask + 1);
        var s := stamps[i];
        if s == pos + 1 {
          if retries == 0 {
            out := Take();
            return true, out;
          }
          retries, pos := retries - 1, tail;
        } else if s < pos + 1 {
          return false, [];
        } else {
          pos := tail;
        }
      }
    }
  }
}

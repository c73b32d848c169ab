/** What the ring guarantees in every interleaving, and why it needs two slots. */
module RingSafety {
  import opened Bytes
  import opened Wrapping
  import opened RingProtocol

  // A published payload nobody has claimed yet is still intact in its slot.
  ghost predicate NothingOverwritten(s: Ring)
    requires Shape(s)
  {
    forall k: nat :: k in s.filled && s.tail <= k ==> k < |s.pushed| && s.pushed[k] <= s.slots[s.Slot(k)]
  }

  // Every finished pop returned the payload pushed under the same ticket.
  ghost predicate PopsMatchPushes(s: Ring) {
    forall k: nat :: k in s.popped ==> k < |s.pushed| && s.pushed[k] <= s.popped[k]
  }

  lemma PublishedTicketIntact(s: Ring, k: nat)
    requires Inv(s) && k in s.filled && s.tail <= k
    ensures HoldsTicket(s, s.Slot(k), k)
  {
    var n, i := |s.stamps|, s.Slot(k);
    assert SlotOk(s, i);
    var v := s.stamps[i];
    assert v >= k + 1;
    if FreeFor(s, i, v) {
      SameSlotGap(k, v, n);
    } else if k < v - 1 {
      SameSlotGap(k, v - 1, n);
    }
  }

  lemma RingIsSafe(n: nat, slotBytes: nat, schedule: seq<(Tid, Action)>)
    requires n >= 2
    ensures var s := Exec(Init(n, slotBytes), schedule);
      && s.tail <= s.head <= s.tail + |s.stamps|
      && NothingOverwritten(s)
      && PopsMatchPushes(s)
      && (forall t, u | t != u && Owner(s.At(t)) && Owner(s.At(u)) :: s.Slot(s.At(t).pos) != s.Slot(s.At(u).pos))
      && (forall t: Tid | s.At(t).PopCopy? :: s.At(t).pos !in s.popped)
  {
    var s := Exec(Init(n, slotBytes), schedule);
    InitHolds(n, slotBytes);
    ExecKeeps(Init(n, slotBytes), schedule);
    forall k: nat | k in s.filled && s.tail <= k ensures k < |s.pushed| && s.pushed[k] <= s.slots[s.Slot(k)] {
      PublishedTicketIntact(s, k);
    }
    forall t, u | t != u && Owner(s.At(t)) && Owner(s.At(u)) ensures s.Slot(s.At(t).pos) != s.Slot(s.At(u).pos) {
      OwnersAreExclusive(s, t, u);
    }
    forall t: Tid | s.At(t).PopCopy? ensures s.At(t).pos !in s.popped {
      assert PcOk(s, s.pcs[t]);
      StampOfConsumer(s, s.At(t).pos);
    }
  }

  // With every thread idle, exactly tickets 0..head were published and exactly
  // tickets 0..tail were delivered: nothing is lost and nothing is duplicated.
  lemma NothingLost(n: nat, slotBytes: nat, schedule: seq<(Tid, Action)>)
    requires n >= 2
    requires forall t: Tid :: Exec(Init(n, slotBytes), schedule).At(t) == Idle
    ensures var s := Exec(Init(n, slotBytes), schedule);
      && (forall k: nat :: k in s.filled <==> k < s.head)
      && (forall k: nat :: k in s.popped <==> k < s.tail)
      && |s.pushed| == s.head
      && (forall k | s.tail <= k < s.head :: s.pushed[k] <= s.slots[s.Slot(k)])
  {
    var s := Exec(Init(n, slotBytes), schedule);
    InitHolds(n, slotBytes);
    ExecKeeps(Init(n, slotBytes), schedule);
    forall t: Tid, k: nat ensures !Producing(s, t, k) && !Consuming(s, t, k) {
      assert s.At(t) == Idle;
    }
    forall k | s.tail <= k < s.head ensures s.pushed[k] <= s.slots[s.Slot(k)] {
      PublishedTicketIntact(s, k);
    }
  }

  function Before(v: nat): nat {
    if v == 0 then 0 else v - 1
  }

  lemma SlotGap(a: nat, b: nat, n: nat)
    requires n > 0
    ensures Wrap(a, n) == Wrap(b, n) ==> a == b || a + n <= b || b + n <= a
  {
    if Wrap(a, n) == Wrap(b, n) {
      if a < b { SameSlotGap(a, b, n); } else if b < a { SameSlotGap(b, a, n); }
    }
  }

  lemma StampBehindPush(s: Ring, pos: nat)
    requires Shape(s) && |s.stamps| >= 2 && s.tail <= s.head && pos <= s.head && SlotOk(s, s.Slot(pos))
    requires forall k | k in s.popped :: k < s.tail
    ensures s.stamps[s.Slot(pos)] < pos
      <==> pos == s.head && s.head >= |s.stamps| && s.head - |s.stamps| !in s.popped
  {
    var n, i := |s.stamps|, s.Slot(pos);
    var v := s.stamps[i];
    if FreeFor(s, i, v) { SlotGap(v, pos, n); } else { SlotGap(Before(v), pos, n); }
  }

  lemma StampBehindPop(s: Ring, pos: nat)
    requires Shape(s) && |s.stamps| >= 2 && pos <= s.tail <= s.head && SlotOk(s, s.Slot(pos))
    requires forall k | k in s.filled :: s.stamps[s.Slot(k)] >= k + 1
    ensures s.stamps[s.Slot(pos)] < pos + 1 <==> pos == s.tail && s.tail !in s.filled
  {
    var n, i := |s.stamps|, s.Slot(pos);
    var v := s.stamps[i];
    if FreeFor(s, i, v) { SlotGap(v, pos, n); } else { SlotGap(Before(v), pos, n); }
  }

  // Exactly when a push or a pop gives up, in terms of tickets at the moment of its stamp load.
  lemma PushFailsIffFull(s: Ring, t: Tid)
    requires Inv(s) && s.At(t).PushSeq?
    ensures Act(s, t, Advance(false)).At(t) == Idle
      <==> s.At(t).pos == s.head && s.head >= |s.stamps| && s.head - |s.stamps| !in s.popped
  {
    assert PcOk(s, s.pcs[t]) && SlotOk(s, s.Slot(s.At(t).pos));
    StampBehindPush(s, s.At(t).pos);
  }

  lemma PopFailsIffEmpty(s: Ring, t: Tid)
    requires Inv(s) && s.At(t).PopSeq?
    ensures Act(s, t, Advance(false)).At(t) == Idle <==> s.At(t).pos == s.tail && s.tail !in s.filled
  {
    assert PcOk(s, s.pcs[t]) && SlotOk(s, s.Slot(s.At(t).pos));
    StampBehindPop(s, s.At(t).pos);
  }

  lemma HistoryGrowsBy(s: Ring, t: Tid, a: Action)
    requires Shape(s) && (s.At(t).PopCopy? ==> s.At(t).pos !in s.popped)
    ensures var r := Act(s, t, a);
      && s.pushed <= r.pushed && s.filled <= r.filled && s.tail <= r.tail && s.head <= r.head
      && (forall k :: k in s.popped ==> k in r.popped && r.popped[k] == s.popped[k])
  {
  }

  lemma HistoryStep(s: Ring, t: Tid, a: Action)
    requires Inv(s)
    ensures var r := Act(s, t, a);
      && s.pushed <= r.pushed && s.filled <= r.filled && s.tail <= r.tail && s.head <= r.head
      && (forall k :: k in s.popped ==> k in r.popped && r.popped[k] == s.popped[k])
  {
    if s.At(t).PopCopy? {
      assert PcOk(s, s.pcs[t]);
      StampOfConsumer(s, s.At(t).pos);
    }
    HistoryGrowsBy(s, t, a);
  }

  // Tickets, publications and deliveries are never revoked or changed later, so a push
  // that published before another began has the smaller ticket.
  lemma {:induction false} HistoryGrows(s: Ring, schedule: seq<(Tid, Action)>)
    requires Inv(s)
    ensures var r := Exec(s, schedule);
      && s.pushed <= r.pushed && s.filled <= r.filled && s.tail <= r.tail && s.head <= r.head
      && (forall k :: k in s.popped ==> k in r.popped && r.popped[k] == s.popped[k])
      && (forall k: nat :: k in s.filled ==> k < s.head)
    decreases |schedule|
  {
    if schedule != [] {
      ActKeeps(s, schedule[0].0, schedule[0].1);
      HistoryStep(s, schedule[0].0, schedule[0].1);
      HistoryGrows(Act(s, schedule[0].0, schedule[0].1), schedule[1..]);
    }
  }

  // ----- One slot is not enough ------------------------------------------

  // The schedule on which one thread pushes a one-byte payload to completion.
  function PushOnce(b: byte): seq<(Tid, Action)> {
    [(0, StartPush([b])), (0, Advance(false)), (0, Advance(false)), (0, Advance(false)), (0, Advance(false))]
  }

  lemma ExecPushOnce(s: Ring, b: byte)
    requires Shape(s) && s.slotBytes >= 1 && s.At(0) == Idle && s.stamps[s.Slot(s.head)] == s.head
    ensures var r := Exec(s, PushOnce(b)); var i := s.Slot(s.head);
      && r.At(0) == Idle && r.head == s.head + 1 && r.tail == s.tail && r.slotBytes == s.slotBytes
      && r.stamps == s.stamps[i := s.head + 1] && |r.slots| == |s.slots| && r.slots[i][0] == b
      && r.pushed == s.pushed + [[b]] && r.filled == s.filled + {s.head}
  {
    var p := PushOnce(b);
    var s1 := Act(s, 0, p[0].1);
    var s2 := Act(s1, 0, p[1].1);
    var s3 := Act(s2, 0, p[2].1);
    var s4 := Act(s3, 0, p[3].1);
    var s5 := Act(s4, 0, p[4].1);
    assert p[1..][1..] == p[2..] && p[2..][1..] == p[3..] && p[3..][1..] == p[4..] && |p[4..]| == 1;
    assert Exec(s4, p[4..]) == s5;
    assert Exec(s3, p[3..]) == s5;
    assert Exec(s2, p[2..]) == s5;
    assert Exec(s1, p[1..]) == s5;
  }

  // On a ring of one slot, which Create accepts, a second push overwrites the first.
  lemma OneSlotOverwrites(slotBytes: nat)
    requires slotBytes >= 1
    ensures !NothingOverwritten(Exec(Init(1, slotBytes), PushOnce(1) + PushOnce(2)))
  {
    var s := Init(1, slotBytes);
    ExecPushOnce(s, 1);
    var r := Exec(s, PushOnce(1));
    ExecPushOnce(r, 2);
    ExecConcat(s, PushOnce(1), PushOnce(2));
    var f := Exec(r, PushOnce(2));
    assert 0 in f.filled && f.tail == 0 && f.pushed[0] == [1] && f.slots[0][0] == 2;
  }

  lemma {:induction false} ExecConcat(s: Ring, a: seq<(Tid, Action)>, b: seq<(Tid, Action)>)
    requires Shape(s)
    ensures Exec(s, a + b) == Exec(Exec(s, a), b)
    decreases |a|
  {
    if a == [] {
      assert a + b == b;
    } else {
      assert (a + b)[1..] == a[1..] + b;
      ExecConcat(Act(s, a[0].0, a[0].1), a[1..], b);
    }
  }

  // The ring never loses a published payload exactly when it has at least two slots.
  lemma SafeIffTwoSlots(n: nat, slotBytes: nat)
    requires n >= 1 && slotBytes >= 1
    ensures (forall schedule :: NothingOverwritten(Exec(Init(n, slotBytes), schedule))) <==> n >= 2
  {
    if n >= 2 {
      forall schedule ensures NothingOverwritten(Exec(Init(n, slotBytes), schedule)) {
        RingIsSafe(n, slotBytes, schedule);
      }
    } else {
      OneSlotOverwrites(slotBytes);
    }
  }
}

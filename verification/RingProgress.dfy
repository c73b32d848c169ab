/**
 That the ring does its work: what is pushed was given to a push, and in every reachable state in which no
 other call is under way a push succeeds unless the ring is full, and a pop unless it is empty.
 */
module RingProgress {
  import opened Bytes
  import opened RingProtocol
  import opened RingSafety

  type Schedule = seq<(Tid, Action)>

  // ----- Nothing is pushed that was not given --------------------------------

  ghost predicate Given(schedule: Schedule, payload: seq<byte>) {
    exists j :: 0 <= j < |schedule| && schedule[j].1 == StartPush(payload)
  }

  predicate Carries(pc: Pc) {
    pc.PushSeq? || pc.PushCas? || pc.PushReload? || pc.PushCopy?
  }

  // Every payload in the history and in a thread's hands was given to a push.
  ghost predicate AllGiven(s: Ring, schedule: Schedule) {
    && (forall k | 0 <= k < |s.pushed| :: Given(schedule, s.pushed[k]))
    && (forall t | t in s.pcs && Carries(s.pcs[t]) :: Given(schedule, s.pcs[t].payload))
  }

  lemma GivenLater(schedule: Schedule, n: nat, payload: seq<byte>)
    requires n <= |schedule| && Given(schedule[..n], payload)
    ensures Given(schedule, payload)
  {
    var j :| 0 <= j < n && schedule[..n][j].1 == StartPush(payload);
    assert schedule[j].1 == StartPush(payload);
  }

  // The pushes so far grew by nothing, or by what the thread had in hand; its hands hold what they held, or what a push
  // was called with.
  ghost predicate Brings(s: Ring, r: Ring, t: Tid, a: Action) {
    && (r.pushed == s.pushed || (Carries(s.At(t)) && r.pushed == s.pushed + [s.At(t).payload]))
    && (Carries(r.At(t)) ==>
          (a.StartPush? && r.At(t).payload == a.payload) || (Carries(s.At(t)) && r.At(t).payload == s.At(t).payload))
    && (forall u: Tid | u != t :: r.At(u) == s.At(u))
  }

  lemma AdvanceBrings(s: Ring, t: Tid, spurious: bool)
    requires Shape(s)
    ensures Brings(s, Act(s, t, Advance(spurious)), t, Advance(spurious))
  {
    match s.At(t)
    case PushCas(payload, pos) =>
    case PushCopy(payload, pos, n) =>
    case PopCas(pos) =>
    case PopCopy(pos, out) =>
    case _ =>
  }

  lemma StepBrings(s: Ring, t: Tid, a: Action)
    requires Shape(s)
    ensures Brings(s, Act(s, t, a), t, a)
  {
    if a.Advance? { AdvanceBrings(s, t, a.spurious); }
  }

  lemma StepGiven(s: Ring, t: Tid, a: Action, before: Schedule)
    requires Shape(s) && AllGiven(s, before)
    ensures AllGiven(Act(s, t, a), before + [(t, a)])
  {
    var r, after := Act(s, t, a), before + [(t, a)];
    assert after[..|before|] == before && after[|before|] == (t, a);
    StepBrings(s, t, a);
    forall p | Given(before, p) ensures Given(after, p) { GivenLater(after, |before|, p); }
    if a.StartPush? { assert Given(after, a.payload); }
    forall u | u in r.pcs && Carries(r.pcs[u]) ensures Given(after, r.pcs[u].payload) {
      assert r.At(u) == r.pcs[u];
      if u != t { assert u in s.pcs && s.pcs[u] == r.pcs[u]; }
    }
  }

  lemma {:induction false} RunGiven(s: Ring, before: Schedule, schedule: Schedule)
    requires Shape(s) && AllGiven(s, before)
    ensures AllGiven(Exec(s, schedule), before + schedule)
    decreases |schedule|
  {
    if schedule == [] {
      assert before + schedule == before;
    } else {
      StepGiven(s, schedule[0].0, schedule[0].1, before);
      RunGiven(Act(s, schedule[0].0, schedule[0].1), before + [schedule[0]], schedule[1..]);
      assert before + [schedule[0]] + schedule[1..] == before + schedule;
    }
  }

  // In every interleaving the payload of every ticket is one that some push of the schedule was called with.
  lemma PushesWereGiven(n: nat, slotBytes: nat, schedule: Schedule, k: nat)
    requires n >= 1 && k < |Exec(Init(n, slotBytes), schedule).pushed|
    ensures Given(schedule, Exec(Init(n, slotBytes), schedule).pushed[k])
  {
    RunGiven(Init(n, slotBytes), [], schedule);
    assert [] + schedule == schedule;
  }

  // ----- A call by itself ------------------------------------------------------

  ghost predicate Quiet(s: Ring) {
    forall t: Tid :: s.At(t) == Idle
  }

  function Turns(t: Tid, k: nat): Schedule {
    if k == 0 then [] else [(t, Advance(false))] + Turns(t, k - 1)
  }

  lemma OneTurn(s: Ring, t: Tid, k: nat)
    requires Shape(s) && k > 0
    ensures Exec(s, Turns(t, k)) == Exec(Act(s, t, Advance(false)), Turns(t, k - 1))
  {
    assert Turns(t, k)[1..] == Turns(t, k - 1);
  }

  // Only thread t moved, and neither cursors nor what was pushed changed.
  ghost predicate OnlyMoved(s: Ring, r: Ring, t: Tid) {
    && r.head == s.head && r.tail == s.tail && r.pushed == s.pushed
    && (forall u: Tid | u != t :: r.At(u) == s.At(u))
  }

  lemma {:induction false} FinishPush(s: Ring, t: Tid, payload: seq<byte>, pos: nat, n: nat)
    requires Shape(s) && s.At(t) == PushCopy(payload, pos, n) && n <= |payload| <= s.slotBytes
    ensures var r := Exec(s, Turns(t, |payload| - n + 1));
      OnlyMoved(s, r, t) && r.At(t) == Idle && r.filled == s.filled + {pos} && r.popped == s.popped
    decreases |payload| - n
  {
    OneTurn(s, t, |payload| - n + 1);
    if n < |payload| {
      FinishPush(Act(s, t, Advance(false)), t, payload, pos, n + 1);
    }
  }

  lemma {:induction false} FinishPop(s: Ring, t: Tid, pos: nat, out: seq<byte>)
    requires Shape(s) && s.At(t) == PopCopy(pos, out) && |out| <= s.slotBytes
    ensures var r := Exec(s, Turns(t, s.slotBytes - |out| + 1));
      OnlyMoved(s, r, t) && r.At(t) == Idle && r.filled == s.filled && r.popped.Keys == s.popped.Keys + {pos}
    decreases s.slotBytes - |out|
  {
    OneTurn(s, t, s.slotBytes - |out| + 1);
    if |out| < s.slotBytes {
      FinishPop(Act(s, t, Advance(false)), t, pos, out + [s.slots[s.Slot(pos)][|out|]]);
    }
  }

  // What the stamps of head and tail say when no call is under way.
  lemma QuietStamps(n: nat, slotBytes: nat, schedule: Schedule)
    requires n >= 2 && Quiet(Exec(Init(n, slotBytes), schedule))
    ensures var s := Exec(Init(n, slotBytes), schedule);
      && |s.stamps| == n && s.slotBytes == slotBytes && s.tail <= s.head <= s.tail + n
      && (s.head < s.tail + n ==> s.stamps[s.Slot(s.head)] == s.head)
      && (s.head == s.tail + n ==> s.stamps[s.Slot(s.head)] < s.head)
      && (s.tail < s.head ==> s.stamps[s.Slot(s.tail)] == s.tail + 1)
      && (s.tail == s.head ==> s.stamps[s.Slot(s.tail)] < s.tail + 1)
  {
    var s := Exec(Init(n, slotBytes), schedule);
    InitHolds(n, slotBytes);
    ExecKeeps(Init(n, slotBytes), schedule);
    SameSize(Init(n, slotBytes), schedule);
    NothingLost(n, slotBytes, schedule);
    assert SlotOk(s, s.Slot(s.head)) && SlotOk(s, s.Slot(s.tail));
    StampBehindPush(s, s.head);
    StampBehindPop(s, s.tail);
    var v := s.stamps[s.Slot(s.head)];
    if FreeFor(s, s.Slot(s.head), v) { SlotGap(v, s.head, n); } else { SlotGap(v - 1, s.head, n); }
    if s.tail < s.head { PublishedTicketIntact(s, s.tail); StampOfFilled(s, s.tail); }
  }

  lemma StampOfFilled(s: Ring, k: nat)
    requires Inv(s) && k in s.filled && s.tail <= k
    ensures s.stamps[s.Slot(k)] == k + 1
  {
    var v, i := s.stamps[s.Slot(k)], s.Slot(k);
    assert SlotOk(s, i) && v >= k + 1;
    if FreeFor(s, i, v) { SlotGap(v, k, |s.stamps|); } else { SlotGap(v - 1, k, |s.stamps|); }
  }

  lemma {:induction false} SameSize(s: Ring, schedule: Schedule)
    requires Shape(s)
    ensures |Exec(s, schedule).stamps| == |s.stamps| && Exec(s, schedule).slotBytes == s.slotBytes
    decreases |schedule|
  {
    if schedule != [] { SameSize(Act(s, schedule[0].0, schedule[0].1), schedule[1..]); }
  }

  lemma {:induction false} IdleTurns(s: Ring, t: Tid, k: nat)
    requires Shape(s) && s.At(t) == Idle
    ensures Exec(s, Turns(t, k)) == s
    decreases k
  {
    if k > 0 {
      OneTurn(s, t, k);
      IdleTurns(s, t, k - 1);
    }
  }

  function PushCall(t: Tid, payload: seq<byte>): Schedule {
    [(t, StartPush(payload))] + Turns(t, |payload| + 3)
  }

  function PopCall(t: Tid, slotBytes: nat): Schedule {
    [(t, StartPop)] + Turns(t, slotBytes + 3)
  }

  // Everything but the place of thread t is as it was.
  ghost predicate SameRing(s: Ring, r: Ring, t: Tid) {
    OnlyMoved(s, r, t) && r.filled == s.filled && r.popped == s.popped
  }

  // The three steps to a claimed ticket.
  lemma PushClaims(s: Ring, t: Tid, payload: seq<byte>)
    requires Shape(s) && s.At(t) == Idle && |payload| <= s.slotBytes && s.stamps[s.Slot(s.head)] == s.head
    ensures var r := Act(Act(Act(s, t, StartPush(payload)), t, Advance(false)), t, Advance(false));
      r == s.(pcs := s.pcs[t := PushCopy(payload, s.head, 0)], head := s.head + 1, pushed := s.pushed + [payload])
  {
    var s1 := Act(s, t, StartPush(payload));
    assert s1 == s.(pcs := s.pcs[t := PushSeq(payload, s.head)]);
    var s2 := Act(s1, t, Advance(false));
    assert s2 == s.(pcs := s.pcs[t := PushSeq(payload, s.head)][t := PushCas(payload, s.head)]);
    assert s2.pcs == s.pcs[t := PushCas(payload, s.head)];
    assert s2.pcs[t := PushCopy(payload, s.head, 0)] == s.pcs[t := PushCopy(payload, s.head, 0)];
  }

  lemma PushTurns(s: Ring, t: Tid, payload: seq<byte>)
    requires Shape(s)
    ensures Exec(s, PushCall(t, payload))
      == Exec(Act(Act(Act(s, t, StartPush(payload)), t, Advance(false)), t, Advance(false)), Turns(t, |payload| + 1))
  {
    assert PushCall(t, payload)[1..] == Turns(t, |payload| + 3);
    var s1 := Act(s, t, StartPush(payload));
    OneTurn(s1, t, |payload| + 3);
    OneTurn(Act(s1, t, Advance(false)), t, |payload| + 2);
  }

  lemma PushRuns(s: Ring, t: Tid, payload: seq<byte>)
    requires Shape(s) && s.At(t) == Idle && |payload| <= s.slotBytes && s.stamps[s.Slot(s.head)] == s.head
    ensures var r := Exec(s, PushCall(t, payload));
      && r.At(t) == Idle && (forall u: Tid | u != t :: r.At(u) == s.At(u)) && r.tail == s.tail && r.popped == s.popped
      && r.head == s.head + 1 && r.pushed == s.pushed + [payload] && r.filled == s.filled + {s.head}
  {
    PushTurns(s, t, payload);
    PushClaims(s, t, payload);
    var r := s.(pcs := s.pcs[t := PushCopy(payload, s.head, 0)], head := s.head + 1, pushed := s.pushed + [payload]);
    FinishPush(r, t, payload, s.head, 0);
  }

  lemma PushGivesUp(s: Ring, t: Tid, payload: seq<byte>)
    requires Shape(s) && s.At(t) == Idle && |payload| <= s.slotBytes && s.stamps[s.Slot(s.head)] < s.head
    ensures SameRing(s, Exec(s, PushCall(t, payload)), t) && Exec(s, PushCall(t, payload)).At(t) == Idle
  {
    assert PushCall(t, payload)[1..] == Turns(t, |payload| + 3);
    var s1 := Act(s, t, StartPush(payload));
    OneTurn(s1, t, |payload| + 3);
    IdleTurns(Act(s1, t, Advance(false)), t, |payload| + 2);
  }

  // After every interleaving that leaves no call under way: a push of a payload that fits gets the next ticket and
  // publishes exactly that payload under it, unless the ring is full, and then it changes nothing.
  lemma PushSucceedsIff(n: nat, slotBytes: nat, schedule: Schedule, t: Tid, payload: seq<byte>)
    requires n >= 2 && Quiet(Exec(Init(n, slotBytes), schedule)) && |payload| <= slotBytes
    ensures var s := Exec(Init(n, slotBytes), schedule); var r := Exec(s, PushCall(t, payload));
      Quiet(r) && r.tail == s.tail && r.popped == s.popped
      && (if s.head < s.tail + n then
            r.head == s.head + 1 && r.pushed == s.pushed + [payload] && r.filled == s.filled + {s.head}
          else r.head == s.head && r.pushed == s.pushed && r.filled == s.filled)
  {
    var s := Exec(Init(n, slotBytes), schedule);
    QuietStamps(n, slotBytes, schedule);
    if s.head < s.tail + n { PushRuns(s, t, payload); } else { PushGivesUp(s, t, payload); }
  }

  lemma PopClaims(s: Ring, t: Tid)
    requires Shape(s) && s.At(t) == Idle && s.stamps[s.Slot(s.tail)] == s.tail + 1
    ensures var r := Act(Act(Act(s, t, StartPop), t, Advance(false)), t, Advance(false));
      r == s.(pcs := s.pcs[t := PopCopy(s.tail, [])], tail := s.tail + 1)
  {
    var s1 := Act(s, t, StartPop);
    assert s1 == s.(pcs := s.pcs[t := PopSeq(s.tail)]);
    var s2 := Act(s1, t, Advance(false));
    assert s2 == s.(pcs := s.pcs[t := PopSeq(s.tail)][t := PopCas(s.tail)]);
    assert s2.pcs == s.pcs[t := PopCas(s.tail)];
    assert s2.pcs[t := PopCopy(s.tail, [])] == s.pcs[t := PopCopy(s.tail, [])];
  }

  lemma PopTurns(s: Ring, t: Tid)
    requires Shape(s)
    ensures Exec(s, PopCall(t, s.slotBytes))
      == Exec(Act(Act(Act(s, t, StartPop), t, Advance(false)), t, Advance(false)), Turns(t, s.slotBytes + 1))
  {
    assert PopCall(t, s.slotBytes)[1..] == Turns(t, s.slotBytes + 3);
    var s1 := Act(s, t, StartPop);
    OneTurn(s1, t, s.slotBytes + 3);
    OneTurn(Act(s1, t, Advance(false)), t, s.slotBytes + 2);
  }

  lemma PopRuns(s: Ring, t: Tid)
    requires Shape(s) && s.At(t) == Idle && s.stamps[s.Slot(s.tail)] == s.tail + 1
    ensures var r := Exec(s, PopCall(t, s.slotBytes));
      && r.At(t) == Idle && (forall u: Tid | u != t :: r.At(u) == s.At(u)) && r.head == s.head && r.pushed == s.pushed
      && r.filled == s.filled && r.tail == s.tail + 1 && r.popped.Keys == s.popped.Keys + {s.tail}
  {
    PopTurns(s, t);
    PopClaims(s, t);
    FinishPop(s.(pcs := s.pcs[t := PopCopy(s.tail, [])], tail := s.tail + 1), t, s.tail, []);
  }

  lemma PopGivesUp(s: Ring, t: Tid)
    requires Shape(s) && s.At(t) == Idle && s.stamps[s.Slot(s.tail)] < s.tail + 1
    ensures var r := Exec(s, PopCall(t, s.slotBytes)); SameRing(s, r, t) && r.At(t) == Idle
  {
    assert PopCall(t, s.slotBytes)[1..] == Turns(t, s.slotBytes + 3);
    var s1 := Act(s, t, StartPop);
    OneTurn(s1, t, s.slotBytes + 3);
    IdleTurns(Act(s1, t, Advance(false)), t, s.slotBytes + 2);
  }

  // A pop then takes the oldest ticket and returns a slot that begins with its payload, unless the ring is empty, and
  // then it changes nothing.
  lemma PopSucceedsIff(n: nat, slotBytes: nat, schedule: Schedule, t: Tid)
    requires n >= 2 && Quiet(Exec(Init(n, slotBytes), schedule))
    ensures var s := Exec(Init(n, slotBytes), schedule); var r := Exec(s, PopCall(t, slotBytes));
      Quiet(r) && r.head == s.head && r.pushed == s.pushed && r.filled == s.filled
      && (if s.tail < s.head then
            && r.tail == s.tail + 1 && s.tail !in s.popped && s.tail in r.popped
            && |r.popped[s.tail]| == slotBytes && s.tail < |s.pushed| && s.pushed[s.tail] <= r.popped[s.tail]
          else r.tail == s.tail && r.popped == s.popped)
  {
    var s := Exec(Init(n, slotBytes), schedule);
    QuietStamps(n, slotBytes, schedule);
    NothingLost(n, slotBytes, schedule);
    if s.tail < s.head {
      PopRuns(s, t);
      Reachable(n, slotBytes, schedule, PopCall(t, slotBytes));
    } else {
      PopGivesUp(s, t);
    }
  }

  lemma Reachable(n: nat, slotBytes: nat, schedule: Schedule, more: Schedule)
    requires n >= 2
    ensures var r := Exec(Exec(Init(n, slotBytes), schedule), more); Inv(r) && r.slotBytes == slotBytes
  {
    InitHolds(n, slotBytes);
    ExecKeeps(Init(n, slotBytes), schedule);
    ExecKeeps(Exec(Init(n, slotBytes), schedule), more);
    SameSize(Init(n, slotBytes), schedule);
    SameSize(Exec(Init(n, slotBytes), schedule), more);
  }
}

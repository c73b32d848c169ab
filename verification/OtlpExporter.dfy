/**
 The OTLP span exporter: callers append to a queue, one worker thread posts it in batches,
 and `Flush` waits on two sequence numbers. The protocol is a machine whose steps are the
 critical sections of the code; a schedule interleaves them in any order.

 `posted` and `exported` are histories. A post whose HTTP request fails still counts as
 posted: the exporter swallows the error and never retries.
 */
module OtlpProtocol {
  type Span = nat
  type Thread = nat

  // The worker between critical sections.
  datatype Worker = Waiting | Posting(batch: seq<Span>, seqTaken: nat) | Acking(seqTaken: nat) | Exited

  datatype State = State(
    queue: seq<Span>, enqueued: nat, flushed: nat, stop: bool, worker: Worker,
    flushers: map<Thread, nat>,  // waiting Flush calls and their targets
    exported: seq<Span>, posted: seq<Span>, exitedAt: nat)

  datatype Action =
    | Export(span: Span)
    | Take
    | Post
    | Ack
    | FlushStart(t: Thread)
    | FlushReturn(t: Thread)
    | Stop

  const INIT := State([], 0, 0, false, Waiting, map[], [], [], 0)

  function Min(a: nat, b: nat): nat {
    if a < b then a else b
  }

  // The waiting worker wakes on the condition or on a timeout, so it may take at any moment.
  function TakeStep(s: State, maxBatch: nat): State {
    if s.queue == [] && s.stop then s.(worker := Exited, exitedAt := |s.exported|)
    else
      var take := Min(|s.queue|, maxBatch);
      var rest := s.queue[take..];
      s.(queue := rest, worker := Posting(s.queue[..take], if s.enqueued >= |rest| then s.enqueued - |rest| else 0))
  }

  function MayReturn(s: State, t: Thread): bool {
    t in s.flushers && (s.flushed >= s.flushers[t] || s.stop)
  }

  function Act(s: State, a: Action, maxBatch: nat): State {
    match a
    case Export(span) =>
      s.(queue := s.queue + [span], enqueued := s.enqueued + 1, exported := s.exported + [span])
    case Take => if s.worker.Waiting? then TakeStep(s, maxBatch) else s
    case Post =>
      if s.worker.Posting? then s.(worker := Acking(s.worker.seqTaken), posted := s.posted + s.worker.batch) else s
    case Ack =>
      if s.worker.Acking? then
        s.(worker := Waiting, flushed := if s.flushed < s.worker.seqTaken then s.worker.seqTaken else s.flushed)
      else s
    case FlushStart(t) => if t in s.flushers then s else s.(flushers := s.flushers[t := s.enqueued])
    case FlushReturn(t) => if MayReturn(s, t) then s.(flushers := s.flushers - {t}) else s
    case Stop => s.(stop := true)
  }

  function Exec(s: State, sched: seq<Action>, maxBatch: nat): State
    decreases |sched|
  {
    if sched == [] then s else Exec(Act(s, sched[0], maxBatch), sched[1..], maxBatch)
  }

  function InFlight(s: State): seq<Span> {
    if s.worker.Posting? then s.worker.batch else []
  }

  ghost predicate Inv(s: State) {
    && s.exported == s.posted + InFlight(s) + s.queue
    && s.enqueued == |s.exported|
    && (s.worker.Posting? || s.worker.Acking? ==> s.worker.seqTaken == |s.posted| + |InFlight(s)|)
    && s.flushed <= |s.posted|
    && (s.worker.Waiting? || s.worker.Exited? ==> s.flushed == |s.posted|)
    && (s.worker.Exited? ==> s.stop && s.exitedAt <= |s.exported| && s.posted == s.exported[..s.exitedAt])
    && forall t | t in s.flushers :: s.flushers[t] <= s.enqueued
  }

  // A waiting worker that takes has the oldest spans in hand, as many as there are up to the batch size, and leaves the
  // rest; it exits only when stopped with nothing queued.
  lemma TakesOldest(s: State, maxBatch: nat)
    requires s.worker.Waiting?
    ensures var t := Act(s, Take, maxBatch);
      if s.queue == [] && s.stop then t.worker.Exited? && t.queue == []
      else
        && t.worker.Posting? && t.worker.batch + t.queue == s.queue
        && |t.worker.batch| == (if |s.queue| < maxBatch then |s.queue| else maxBatch)
  {
  }

  // A Flush waits for what had been exported when it began, and leaves exactly when that is flushed or the exporter stops.
  lemma FlushSteps(sched: seq<Action>, maxBatch: nat, t: Thread)
    ensures var s := Exec(INIT, sched, maxBatch);
      t !in s.flushers ==> Act(s, FlushStart(t), maxBatch) == s.(flushers := s.flushers[t := |s.exported|])
    ensures var s := Exec(INIT, sched, maxBatch); var done := t in s.flushers && (s.stop || s.flushers[t] <= s.flushed);
      Act(s, FlushReturn(t), maxBatch) == if done then s.(flushers := s.flushers - {t}) else s
  {
    ExecKeeps(INIT, sched, maxBatch);
  }

  lemma TakeKeeps(s: State, maxBatch: nat)
    requires Inv(s) && s.worker.Waiting?
    ensures Inv(TakeStep(s, maxBatch))
  {
    var t := TakeStep(s, maxBatch);
    if !t.worker.Exited? {
      assert s.queue == InFlight(t) + t.queue;
      assert t.exported == t.posted + InFlight(t) + t.queue;
    }
  }

  lemma PostKeeps(s: State)
    requires Inv(s) && s.worker.Posting?
    ensures Inv(s.(worker := Acking(s.worker.seqTaken), posted := s.posted + s.worker.batch))
  {
  }

  lemma ExportKeeps(s: State, span: Span)
    requires Inv(s)
    ensures Inv(s.(queue := s.queue + [span], enqueued := s.enqueued + 1, exported := s.exported + [span]))
  {
    assert s.exported + [span] == s.posted + InFlight(s) + (s.queue + [span]);
  }

  lemma ActKeeps(s: State, a: Action, maxBatch: nat)
    requires Inv(s)
    ensures Inv(Act(s, a, maxBatch))
    ensures s.exported <= Act(s, a, maxBatch).exported && s.posted <= Act(s, a, maxBatch).posted
  {
    match a
    case Export(span) => ExportKeeps(s, span);
    case Take => if s.worker.Waiting? { TakeKeeps(s, maxBatch); }
    case Post => if s.worker.Posting? { PostKeeps(s); }
    case Ack =>
    case FlushStart(_) =>
    case FlushReturn(_) =>
    case Stop =>
  }

  lemma {:induction false} ExecKeeps(s: State, sched: seq<Action>, maxBatch: nat)
    requires Inv(s)
    ensures Inv(Exec(s, sched, maxBatch))
    ensures s.exported <= Exec(s, sched, maxBatch).exported
    decreases |sched|
  {
    if sched != [] {
      ActKeeps(s, sched[0], maxBatch);
      ExecKeeps(Act(s, sched[0], maxBatch), sched[1..], maxBatch);
    }
  }

  // In every run the posted spans, the batch in flight and the queue are, in order, exactly the spans
  // exported: each is posted at most once, in order. The flush counter never overtakes the posts.
  lemma PostedInOrderOnce(sched: seq<Action>, maxBatch: nat)
    ensures var s := Exec(INIT, sched, maxBatch);
      && s.exported == s.posted + InFlight(s) + s.queue
      && s.flushed <= |s.posted| && s.enqueued == |s.exported|
  {
    ExecKeeps(INIT, sched, maxBatch);
  }

  // The worker exits only with an empty queue, having posted everything exported by then.
  lemma ExitsDrained(sched: seq<Action>, maxBatch: nat)
    requires !Exec(INIT, sched, maxBatch).worker.Exited?
    requires Act(Exec(INIT, sched, maxBatch), Take, maxBatch).worker.Exited?
    ensures var s := Exec(INIT, sched, maxBatch); s.stop && s.queue == [] && s.posted == s.exported
  {
    ExecKeeps(INIT, sched, maxBatch);
  }

  // ----- Flush -----------------------------------------------------------

  ghost predicate Targets(s: State, t: Thread, n: nat) {
    |s.exported| >= n && (t in s.flushers ==> s.flushers[t] >= n)
  }

  lemma {:induction false} TargetsHold(s: State, sched: seq<Action>, maxBatch: nat, t: Thread, n: nat)
    requires Inv(s) && Targets(s, t, n)
    ensures Targets(Exec(s, sched, maxBatch), t, n)
    decreases |sched|
  {
    if sched != [] {
      ActKeeps(s, sched[0], maxBatch);
      TargetsHold(Act(s, sched[0], maxBatch), sched[1..], maxBatch, t, n);
    }
  }

  lemma {:induction false} ExecConcat(s: State, a: seq<Action>, b: seq<Action>, maxBatch: nat)
    ensures Exec(s, a + b, maxBatch) == Exec(Exec(s, a, maxBatch), b, maxBatch)
    decreases |a|
  {
    if a == [] {
      assert a + b == b;
    } else {
      assert (a + b)[1..] == a[1..] + b;
      ExecConcat(Act(s, a[0], maxBatch), a[1..], b, maxBatch);
    }
  }

  // A Flush begun after run `before` that can return after any further run `during`, with stop not set,
  // finds every span exported before it began already posted.
  lemma FlushMeansPosted(before: seq<Action>, during: seq<Action>, maxBatch: nat, t: Thread)
    requires t !in Exec(INIT, before, maxBatch).flushers
    requires var s := Exec(INIT, before + [FlushStart(t)] + during, maxBatch); MayReturn(s, t) && !s.stop
    ensures Exec(INIT, before, maxBatch).exported <= Exec(INIT, before + [FlushStart(t)] + during, maxBatch).posted
  {
    var s0 := Exec(INIT, before, maxBatch);
    var s1 := Act(s0, FlushStart(t), maxBatch);
    var s2 := Exec(s1, during, maxBatch);
    ExecKeeps(INIT, before, maxBatch);
    ExecConcat(INIT, before + [FlushStart(t)], during, maxBatch);
    ExecConcat(INIT, before, [FlushStart(t)], maxBatch);
    assert Exec(s0, [FlushStart(t)], maxBatch) == Exec(s1, [FlushStart(t)][1..], maxBatch);
    ActKeeps(s0, FlushStart(t), maxBatch);
    ExecKeeps(s1, during, maxBatch);
    TargetsHold(s1, during, maxBatch, t, |s0.exported|);
    assert s2.posted == s2.exported[..|s2.posted|];
  }

  // Whatever happens next, a Flush begun now finds everything exported so far posted when it may return.
  ghost predicate FlushIsSure(before: seq<Action>, maxBatch: nat, t: Thread) {
    forall during :: MayReturn(Exec(INIT, before + [FlushStart(t)] + during, maxBatch), t) ==>
      Exec(INIT, before, maxBatch).exported <= Exec(INIT, before + [FlushStart(t)] + during, maxBatch).posted
  }

  // The stop flag releases a Flush early. After every run, a Flush begun then is sure to find everything exported
  // before it posted, in every continuation, if and only if everything is posted already.
  lemma FlushSureIff(before: seq<Action>, maxBatch: nat, t: Thread)
    requires t !in Exec(INIT, before, maxBatch).flushers
    ensures FlushIsSure(before, maxBatch, t)
      <==> Exec(INIT, before, maxBatch).posted == Exec(INIT, before, maxBatch).exported
  {
    var s := Exec(INIT, before, maxBatch);
    ExecKeeps(INIT, before, maxBatch);
    if s.posted == s.exported {
      forall during ensures s.exported <= Exec(INIT, before + [FlushStart(t)] + during, maxBatch).posted {
        PostedGrows(before, [FlushStart(t)] + during, maxBatch);
        assert before + ([FlushStart(t)] + during) == before + [FlushStart(t)] + during;
      }
    } else {
      StopAtOnce(before, maxBatch, t);
      assert !(s.exported <= s.posted);
    }
  }

  lemma StopAtOnce(before: seq<Action>, maxBatch: nat, t: Thread)
    requires t !in Exec(INIT, before, maxBatch).flushers
    ensures var u := Exec(INIT, before + [FlushStart(t)] + [Stop], maxBatch);
      MayReturn(u, t) && u.posted == Exec(INIT, before, maxBatch).posted
  {
    var s := Exec(INIT, before, maxBatch);
    var s1 := Act(s, FlushStart(t), maxBatch);
    ExecConcat(INIT, before + [FlushStart(t)], [Stop], maxBatch);
    ExecConcat(INIT, before, [FlushStart(t)], maxBatch);
    assert Exec(s, [FlushStart(t)], maxBatch) == Exec(s1, [FlushStart(t)][1..], maxBatch);
    assert Exec(s1, [Stop], maxBatch) == Exec(Act(s1, Stop, maxBatch), [Stop][1..], maxBatch);
  }

  lemma {:induction false} PostsStay(s: State, sched: seq<Action>, maxBatch: nat)
    requires Inv(s)
    ensures s.posted <= Exec(s, sched, maxBatch).posted
    decreases |sched|
  {
    if sched != [] {
      ActKeeps(s, sched[0], maxBatch);
      PostsStay(Act(s, sched[0], maxBatch), sched[1..], maxBatch);
    }
  }

  lemma PostedGrows(before: seq<Action>, after: seq<Action>, maxBatch: nat)
    ensures Exec(INIT, before, maxBatch).posted <= Exec(INIT, before + after, maxBatch).posted
  {
    ExecKeeps(INIT, before, maxBatch);
    ExecConcat(INIT, before, after, maxBatch);
    PostsStay(Exec(INIT, before, maxBatch), after, maxBatch);
  }

  // ----- Progress of the worker ------------------------------------------

  // The worker's next critical section.
  function Next(s: State): Action {
    match s.worker
    case Posting(_, _) => Post
    case Acking(_) => Ack
    case _ => Take
  }

  // `n` worker steps with every other thread still.
  function Work(s: State, n: nat, maxBatch: nat): State
    decreases n
  {
    if n == 0 then s else Work(Act(s, Next(s), maxBatch), n - 1, maxBatch)
  }

  // Steps that are enough for the worker to post all it can see and come to rest.
  function Enough(s: State): nat {
    3 * |s.queue| + (match s.worker case Posting(_, _) => 3 case Acking(_) => 2 case Waiting => 1 case Exited => 0)
  }

  lemma {:induction false} WorkDrains(s: State, maxBatch: nat)
    requires Inv(s) && s.stop && maxBatch > 0 && (s.worker.Exited? ==> s.queue == [])
    ensures Work(s, Enough(s), maxBatch).worker.Exited?
    ensures Work(s, Enough(s), maxBatch).posted == s.exported
    decreases Enough(s)
  {
    if s.worker.Exited? {
      assert s.posted == s.exported;
    } else {
      var t := Act(s, Next(s), maxBatch);
      ActKeeps(s, Next(s), maxBatch);
      assert t.exported == s.exported && t.stop;
      if t.worker.Exited? {
        assert Work(s, 1, maxBatch) == Work(t, 0, maxBatch);
      } else {
        assert Enough(t) < Enough(s);
        WorkDrains(t, maxBatch);
        WorkSplits(t, Enough(t), Enough(s) - 1 - Enough(t), maxBatch);
        RestsAfter(Work(t, Enough(t), maxBatch), Enough(s) - 1 - Enough(t), maxBatch);
      }
    }
  }

  lemma {:induction false} WorkSplits(s: State, m: nat, n: nat, maxBatch: nat)
    ensures Work(s, m + n, maxBatch) == Work(Work(s, m, maxBatch), n, maxBatch)
    decreases m
  {
    if m > 0 { WorkSplits(Act(s, Next(s), maxBatch), m - 1, n, maxBatch); }
  }

  lemma {:induction false} RestsAfter(s: State, n: nat, maxBatch: nat)
    requires s.worker.Exited?
    ensures Work(s, n, maxBatch) == s
    decreases n
  {
    if n > 0 { RestsAfter(s, n - 1, maxBatch); }
  }

  // With a batch size of zero the worker takes nothing, so a non-empty queue keeps it alive for ever.
  lemma {:induction false} ZeroBatchSpins(s: State, n: nat)
    requires s.queue != [] && !s.worker.Exited?
    ensures Work(s, n, 0).queue == s.queue && !Work(s, n, 0).worker.Exited?
    decreases n
  {
    if n > 0 { ZeroBatchSpins(Act(s, Next(s), 0), n - 1); }
  }

  // Shutdown: from every reachable state with stop set and the worker alive, the worker ends by itself,
  // with every span posted, exactly when the batch size is positive or nothing is queued.
  lemma ShutdownDrainsIff(sched: seq<Action>, maxBatch: nat)
    requires var s := Exec(INIT, sched, maxBatch); s.stop && !s.worker.Exited?
    ensures var s := Exec(INIT, sched, maxBatch);
      (maxBatch > 0 || s.queue == []) <==>
      exists n: nat :: Work(s, n, maxBatch).worker.Exited? && Work(s, n, maxBatch).posted == s.exported
  {
    var s := Exec(INIT, sched, maxBatch);
    ExecKeeps(INIT, sched, maxBatch);
    if maxBatch > 0 {
      WorkDrains(s, maxBatch);
    } else if s.queue == [] {
      IdleDrains(s);
    } else {
      forall n: nat ensures !Work(s, n, maxBatch).worker.Exited? { ZeroBatchSpins(s, n); }
    }
  }

  lemma IdleDrains(s: State)
    requires Inv(s) && s.stop && s.queue == [] && !s.worker.Exited?
    ensures Work(s, Enough(s), 0).worker.Exited? && Work(s, Enough(s), 0).posted == s.exported
  {
    var t := Act(s, Next(s), 0);
    ActKeeps(s, Next(s), 0);
    if !s.worker.Waiting? {
      var u := Act(t, Next(t), 0);
      ActKeeps(t, Next(t), 0);
      assert Work(s, 2, 0) == Work(t, 1, 0) == Work(u, 0, 0);
      if s.worker.Posting? {
        ActKeeps(u, Next(u), 0);
        assert Work(s, 3, 0) == Work(t, 2, 0) == Work(u, 1, 0) == Work(Act(u, Next(u), 0), 0, 0);
      }
    } else {
      assert Work(s, 1, 0) == Work(t, 0, 0);
    }
  }

  lemma {:induction false} WorkReturnsFlush(s: State, maxBatch: nat, t: Thread)
    requires Inv(s) && !s.stop && maxBatch > 0 && t in s.flushers
    ensures exists n: nat :: MayReturn(Work(s, n, maxBatch), t)
    decreases Enough(s)
  {
    if s.worker.Waiting? && s.queue == [] {
      assert MayReturn(Work(s, 0, maxBatch), t);
    } else {
      var u := Act(s, Next(s), maxBatch);
      ActKeeps(s, Next(s), maxBatch);
      assert Enough(u) < Enough(s);
      WorkReturnsFlush(u, maxBatch, t);
      var n: nat :| MayReturn(Work(u, n, maxBatch), t);
      assert Work(s, n + 1, maxBatch) == Work(u, n, maxBatch);
    }
  }

  ghost predicate NothingSent(s: State) {
    s.posted == [] && InFlight(s) == []
  }

  lemma {:induction false} ZeroBatchSendsNothing(s: State, sched: seq<Action>)
    requires NothingSent(s)
    ensures NothingSent(Exec(s, sched, 0))
    decreases |sched|
  {
    if sched != [] { ZeroBatchSendsNothing(Act(s, sched[0], 0), sched[1..]); }
  }

  lemma {:induction false} ZeroBatchHoldsFlush(s: State, n: nat, t: Thread)
    requires Inv(s) && NothingSent(s) && !s.stop && t in s.flushers && s.flushers[t] > 0
    ensures !MayReturn(Work(s, n, 0), t)
    decreases n
  {
    if n > 0 {
      ActKeeps(s, Next(s), 0);
      ZeroBatchHoldsFlush(Act(s, Next(s), 0), n - 1, t);
    }
  }

  // Without stop, the worker alone brings a waiting Flush to its return exactly when the batch size is
  // positive or nothing had been exported when the Flush began.
  lemma FlushReturnsIff(sched: seq<Action>, maxBatch: nat, t: Thread)
    requires var s := Exec(INIT, sched, maxBatch); !s.stop && t in s.flushers
    ensures var s := Exec(INIT, sched, maxBatch);
      (maxBatch > 0 || s.flushers[t] == 0) <==> exists n: nat :: MayReturn(Work(s, n, maxBatch), t)
  {
    var s := Exec(INIT, sched, maxBatch);
    ExecKeeps(INIT, sched, maxBatch);
    if maxBatch > 0 {
      WorkReturnsFlush(s, maxBatch, t);
    } else if s.flushers[t] == 0 {
      assert MayReturn(Work(s, 0, maxBatch), t);
    } else {
      ZeroBatchSendsNothing(INIT, sched);
      forall n: nat ensures !MayReturn(Work(s, n, maxBatch), t) { ZeroBatchHoldsFlush(s, n, t); }
    }
  }
}

/** The exporter's state and critical sections as the source writes them. */
module OtlpExporter {
  import opened OtlpProtocol

  class OtlpHttpExporter {
    const maxBatch: nat
    var queue: seq<Span>
    var enqueuedSeq: nat
    var flushedSeq: nat
    var stop: bool
    var posted: seq<Span>  // what the collector has been sent

    // Between two rounds of the worker.
    ghost predicate Valid()
      reads this
    {
      flushedSeq == |posted| && enqueuedSeq == |posted| + |queue|
    }

    constructor (maxBatch: nat)
      ensures Valid() && this.maxBatch == maxBatch && queue == [] && posted == [] && !stop
    {
      this.maxBatch := maxBatch;
      queue, enqueuedSeq, flushedSeq, stop, posted := [], 0, 0, false, [];
    }

    method Export(span: Span)
      requires Valid()
      modifies this`queue, this`enqueuedSeq
      ensures Valid() && posted + queue == old(posted + queue) + [span]
    {
      queue := queue + [span];
      enqueuedSeq := enqueuedSeq + 1;
    }

    // One round of the worker loop: take a batch, post it, acknowledge it.
    method WorkOnce() returns (exit: bool)
      requires Valid()
      modifies this`queue, this`posted, this`flushedSeq
      ensures Valid() && posted + queue == old(posted + queue)
      ensures exit <==> old(queue) == [] && stop
      ensures exit ==> queue == []
      ensures !exit ==> |posted| == |old(posted)| + if |old(queue)| < maxBatch then |old(queue)| else maxBatch
      ensures old(posted) <= posted
      ensures maxBatch == 0 ==> posted == old(posted) && queue == old(queue)
    {
      if queue == [] && stop {
        return true;
      }
      ghost var before := posted + queue;
      var take := Min(|queue|, maxBatch);
      var batch := queue[..take];
      queue := queue[take..];
      var seqTaken := enqueuedSeq - |queue|;
      if batch != [] {
        posted := posted + batch;
      }
      assert posted + queue == before;
      flushedSeq := if flushedSeq < seqTaken then seqTaken else flushedSeq;
      return false;
    }

    // The destructor sets stop and joins the worker, here watched for `rounds` rounds. It ends with everything
    // posted within one round more than there are spans queued; with a batch size of zero and a non-empty queue
    // it never ends and posts nothing.
    method Shutdown(rounds: nat) returns (exited: bool)
      requires Valid()
      modifies this
      ensures Valid() && stop && posted + queue == old(posted + queue)
      ensures exited ==> queue == [] && posted == old(posted + queue) && flushedSeq == enqueuedSeq
      ensures maxBatch > 0 && rounds > |old(queue)| ==> exited
      ensures maxBatch == 0 && old(queue) != [] ==> !exited && posted == old(posted) && queue == old(queue)
    {
      stop := true;
      exited := false;
      var left := rounds;
      while !exited && left > 0
        invariant Valid() && stop && posted + queue == old(posted + queue)
        invariant exited ==> queue == []
        invariant maxBatch > 0 && !exited && rounds > |old(queue)| ==> left > |queue|
        invariant maxBatch == 0 && old(queue) != [] ==> !exited && posted == old(posted) && queue == old(queue)
        decreases left
      {
        exited := WorkOnce();
        left := left - 1;
      }
    }
  }
}

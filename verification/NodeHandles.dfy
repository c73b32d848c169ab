/**
 Reserve, Seal and Release of any number of threads racing on the handle table and the pinned slots.

 Each step is one critical section: popping or pushing the pinned tier's free stack, entering or erasing
 a pool entry, reading or writing the handle table. A Seal copies the handle's state first and erases the
 handle last; a Release erases it first; the pool's sweeper may take any entry at any time and gives the
 slots back later. Watermarks are left out: no step here depends on them.

 `place`, `owner`, `ingestOf`, `handleOf`, `eraser` and `sealer` are history: where each slot is, who
 answers for each reservation, which handle was registered for which reservation, and which thread last
 returned a handle's slot or committed it on the way to erasing it.
 */
module NodeHandles {
  import opened Bytes

  type Slot = nat
  type Ingest = nat
  type Handle = nat
  type Thread = nat

  datatype Pc =
    | Idle
    | Popped(slot: Slot)                                      // Reserve: slot in hand, no pool entry yet
    | Reserved(ih: Ingest)                                    // Reserve: pool entry made, no handle yet
    | Sealing(h: Handle, ih: Ingest)                          // Seal: state copied, nothing committed yet
    | Cleaning(from: Option<Handle>, ih: Ingest)              // about to erase the pool entry
    | Returning(from: Option<Handle>, ih: Ingest, slot: Slot) // pool entry erased, slot in hand
    | Erasing(h: Handle, ih: Ingest)                          // Seal: about to erase the handle

  datatype Place = FreeAt(i: nat) | HeldBy(ih: Ingest) | Hand(t: Thread) | Swept(i: nat)

  datatype Owner = Registering(t: Thread) | Table(h: Handle) | Leaving(t: Thread) | Gone

  // The free stack, the pool's entries, and the slots the sweeper has taken out and given back.
  datatype Pool = Pool(free: seq<Slot>, active: map<Ingest, Slot>, swept: seq<Slot>, returned: nat, place: seq<Place>)

  // `released` logs every erased pool entry, `expired` the ones the sweeper erased.
  datatype Ledger = Ledger(next: nat, released: seq<Ingest>, expired: set<Ingest>, owner: map<Ingest, Owner>)

  datatype Handles = Handles(
    live: map<Handle, Ingest>, next: nat, commits: seq<Handle>,
    ingestOf: map<Handle, Ingest>, handleOf: map<Ingest, Handle>, eraser: map<Handle, Thread>, sealer: map<Handle, Thread>)

  datatype State = State(pool: Pool, ledger: Ledger, handles: Handles, threads: map<Thread, Pc>)

  datatype Action =
    | Pop(t: Thread)
    | Enter(t: Thread)
    | Register(t: Thread)
    | Refuse(t: Thread)                    // the slot is too small for the request
    | SealBegin(t: Thread, h: Handle)
    | SealCommit(t: Thread)                // the index insert is accepted and its event published
    | SealFail(t: Thread)                  // fewer tokens than a chunk, or the index refuses the insert: nothing committed
    | ReleaseBegin(t: Thread, h: Handle)
    | Unpool(t: Thread)
    | Push(t: Thread)
    | Erase(t: Thread)
    | Expire(ih: Ingest)                   // the sweeper erases one overdue pool entry
    | GiveBack                             // the sweeper pushes its next slot

  function Init(slots: nat): State {
    State(Pool(seq(slots, (i: nat) => i), map[], [], 0, seq(slots, (i: nat) => FreeAt(i))), Ledger(1, [], {}, map[]),
          Handles(map[], 1, [], map[], map[], map[], map[]), map[])
  }

  function At(threads: map<Thread, Pc>, t: Thread): Pc {
    if t in threads then threads[t] else Idle
  }

  // ----- Steps of the pool ------------------------------------------------

  function SetPlace(place: seq<Place>, slot: Slot, p: Place): seq<Place> {
    if slot < |place| then place[slot := p] else place
  }

  function PoolPop(p: Pool, t: Thread): Pool
    requires p.free != []
  {
    var k := |p.free| - 1;
    p.(free := p.free[..k], place := SetPlace(p.place, p.free[k], Hand(t)))
  }

  function PoolEnter(p: Pool, ih: Ingest, slot: Slot): Pool {
    p.(active := p.active[ih := slot], place := SetPlace(p.place, slot, HeldBy(ih)))
  }

  function PoolErase(p: Pool, ih: Ingest, t: Thread): Pool
    requires ih in p.active
  {
    p.(active := p.active - {ih}, place := SetPlace(p.place, p.active[ih], Hand(t)))
  }

  function PoolPush(p: Pool, slot: Slot): Pool {
    p.(free := p.free + [slot], place := SetPlace(p.place, slot, FreeAt(|p.free|)))
  }

  function PoolSweep(p: Pool, ih: Ingest): Pool
    requires ih in p.active
  {
    p.(active := p.active - {ih}, swept := p.swept + [p.active[ih]],
       place := SetPlace(p.place, p.active[ih], Swept(|p.swept|)))
  }

  function PoolGiveBack(p: Pool): Pool
    requires p.returned < |p.swept|
  {
    var slot := p.swept[p.returned];
    p.(free := p.free + [slot], returned := p.returned + 1, place := SetPlace(p.place, slot, FreeAt(|p.free|)))
  }

  // ----- Steps of the node ------------------------------------------------

  // Once the slot is back: a Seal still has its handle to erase.
  function After(from: Option<Handle>, ih: Ingest): Pc {
    if from.Some? then Erasing(from.value, ih) else Idle
  }

  function Own(l: Ledger, ih: Ingest, o: Owner): Ledger {
    l.(owner := l.owner[ih := o])
  }

  function RegisterStep(s: State, t: Thread, ih: Ingest): State {
    var h := s.handles.next;
    s.(handles := s.handles.(live := s.handles.live[h := ih], next := h + 1,
                             ingestOf := s.handles.ingestOf[h := ih], handleOf := s.handles.handleOf[ih := h]),
       ledger := Own(s.ledger, ih, Table(h)), threads := s.threads[t := Idle])
  }

  function UnpoolStep(s: State, t: Thread, from: Option<Handle>, ih: Ingest): State {
    var ledger := if from.None? then Own(s.ledger, ih, Gone) else s.ledger;
    if ih !in s.pool.active then s.(ledger := ledger, threads := s.threads[t := After(from, ih)])
    else
      State(PoolErase(s.pool, ih, t), ledger.(released := ledger.released + [ih]),
            if from.Some? then s.handles.(eraser := s.handles.eraser[from.value := t]) else s.handles,
            s.threads[t := Returning(from, ih, s.pool.active[ih])])
  }

  function EraseStep(s: State, t: Thread, h: Handle): State {
    s.(handles := s.handles.(live := s.handles.live - {h}),
       ledger := if h in s.handles.live then Own(s.ledger, s.handles.live[h], Gone) else s.ledger,
       threads := s.threads[t := Idle])
  }

  function Act(s: State, a: Action): State {
    match a
    case Pop(t) =>
      if At(s.threads, t).Idle? && s.pool.free != [] then
        s.(pool := PoolPop(s.pool, t), threads := s.threads[t := Popped(s.pool.free[|s.pool.free| - 1])])
      else s
    case Enter(t) =>
      (match At(s.threads, t)
       case Popped(slot) =>
         var ih := s.ledger.next;
         s.(pool := PoolEnter(s.pool, ih, slot), ledger := Own(s.ledger, ih, Registering(t)).(next := ih + 1),
            threads := s.threads[t := Reserved(ih)])
       case _ => s)
    case Register(t) =>
      (match At(s.threads, t) case Reserved(ih) => RegisterStep(s, t, ih) case _ => s)
    case Refuse(t) =>
      (match At(s.threads, t)
       case Reserved(ih) => s.(ledger := Own(s.ledger, ih, Leaving(t)), threads := s.threads[t := Cleaning(None, ih)])
       case _ => s)
    case SealBegin(t, h) =>
      if At(s.threads, t).Idle? && h in s.handles.live then s.(threads := s.threads[t := Sealing(h, s.handles.live[h])])
      else s
    case SealCommit(t) =>
      (match At(s.threads, t)
       case Sealing(h, ih) =>
         s.(handles := s.handles.(commits := s.handles.commits + [h], sealer := s.handles.sealer[h := t]),
            threads := s.threads[t := Cleaning(Some(h), ih)])
       case _ => s)
    case SealFail(t) =>
      (match At(s.threads, t) case Sealing(h, ih) => s.(threads := s.threads[t := Cleaning(Some(h), ih)]) case _ => s)
    case ReleaseBegin(t, h) =>
      if At(s.threads, t).Idle? && h in s.handles.live then
        var ih := s.handles.live[h];
        s.(handles := s.handles.(live := s.handles.live - {h}), ledger := Own(s.ledger, ih, Leaving(t)),
           threads := s.threads[t := Cleaning(None, ih)])
      else s
    case Unpool(t) =>
      (match At(s.threads, t) case Cleaning(from, ih) => UnpoolStep(s, t, from, ih) case _ => s)
    case Push(t) =>
      (match At(s.threads, t)
       case Returning(from, ih, slot) => s.(pool := PoolPush(s.pool, slot), threads := s.threads[t := After(from, ih)])
       case _ => s)
    case Erase(t) =>
      (match At(s.threads, t) case Erasing(h, _) => EraseStep(s, t, h) case _ => s)
    case Expire(ih) =>
      if ih in s.pool.active then
        s.(pool := PoolSweep(s.pool, ih),
           ledger := s.ledger.(released := s.ledger.released + [ih], expired := s.ledger.expired + {ih}))
      else s
    case GiveBack =>
      if s.pool.returned < |s.pool.swept| then s.(pool := PoolGiveBack(s.pool)) else s
  }

  function Exec(s: State, sched: seq<Action>): State
    decreases |sched|
  {
    if sched == [] then s else Exec(Act(s, sched[0]), sched[1..])
  }

  // ----- Where every slot is ---------------------------------------------

  function InHand(pc: Pc): Option<Slot> {
    match pc
    case Popped(slot) => Some(slot)
    case Returning(_, _, slot) => Some(slot)
    case _ => None
  }

  // The slot that a place holds.
  function Holds(p: Pool, threads: map<Thread, Pc>, at: Place): Option<Slot> {
    match at
    case FreeAt(i) => if i < |p.free| then Some(p.free[i]) else None
    case HeldBy(ih) => if ih in p.active then Some(p.active[ih]) else None
    case Hand(t) => InHand(At(threads, t))
    case Swept(i) => if p.returned <= i < |p.swept| then Some(p.swept[i]) else None
  }

  // Every place holds what `place` says it holds, and every slot is where `place` says.
  ghost predicate SlotsOk(p: Pool, threads: map<Thread, Pc>) {
    && p.returned <= |p.swept|
    && (forall at :: Holds(p, threads, at).Some? ==>
          Holds(p, threads, at).value < |p.place| && p.place[Holds(p, threads, at).value] == at)
    && (forall x: Slot | x < |p.place| :: Holds(p, threads, p.place[x]) == Some(x))
  }

  // ----- Every step keeps the slots ---------------------------------------

  // Moving one slot from one place to another keeps the account of the slots.
  lemma Moves(p: Pool, before: map<Thread, Pc>, q: Pool, after: map<Thread, Pc>, x: Slot, from: Place, to: Place)
    requires SlotsOk(p, before) && Holds(p, before, from) == Some(x) && Holds(p, before, to) == None
    requires q.place == SetPlace(p.place, x, to) && q.returned <= |q.swept|
    requires Holds(q, after, from) == None && Holds(q, after, to) == Some(x)
    requires forall at | at != from && at != to :: Holds(q, after, at) == Holds(p, before, at)
    ensures SlotsOk(q, after) && |q.place| == |p.place|
  {
  }

  lemma PopSlots(p: Pool, threads: map<Thread, Pc>, t: Thread)
    requires SlotsOk(p, threads) && At(threads, t).Idle? && p.free != []
    ensures SlotsOk(PoolPop(p, t), threads[t := Popped(p.free[|p.free| - 1])])
    ensures |PoolPop(p, t).place| == |p.place|
  {
    var k := |p.free| - 1;
    Moves(p, threads, PoolPop(p, t), threads[t := Popped(p.free[k])], p.free[k], FreeAt(k), Hand(t));
  }

  lemma EnterSlots(p: Pool, threads: map<Thread, Pc>, t: Thread, ih: Ingest, slot: Slot)
    requires SlotsOk(p, threads) && At(threads, t) == Popped(slot) && ih !in p.active
    ensures SlotsOk(PoolEnter(p, ih, slot), threads[t := Reserved(ih)]) && |PoolEnter(p, ih, slot).place| == |p.place|
  {
    Moves(p, threads, PoolEnter(p, ih, slot), threads[t := Reserved(ih)], slot, Hand(t), HeldBy(ih));
  }

  lemma EraseSlots(p: Pool, threads: map<Thread, Pc>, t: Thread, ih: Ingest, pc: Pc)
    requires SlotsOk(p, threads) && InHand(At(threads, t)).None? && ih in p.active && InHand(pc) == Some(p.active[ih])
    ensures SlotsOk(PoolErase(p, ih, t), threads[t := pc]) && |PoolErase(p, ih, t).place| == |p.place|
  {
    Moves(p, threads, PoolErase(p, ih, t), threads[t := pc], p.active[ih], HeldBy(ih), Hand(t));
  }

  lemma PushSlots(p: Pool, threads: map<Thread, Pc>, t: Thread, slot: Slot, pc: Pc)
    requires SlotsOk(p, threads) && InHand(At(threads, t)) == Some(slot) && InHand(pc).None?
    ensures SlotsOk(PoolPush(p, slot), threads[t := pc]) && |PoolPush(p, slot).place| == |p.place|
  {
    Moves(p, threads, PoolPush(p, slot), threads[t := pc], slot, Hand(t), FreeAt(|p.free|));
  }

  lemma SweepSlots(p: Pool, threads: map<Thread, Pc>, ih: Ingest)
    requires SlotsOk(p, threads) && ih in p.active
    ensures SlotsOk(PoolSweep(p, ih), threads) && |PoolSweep(p, ih).place| == |p.place|
  {
    Moves(p, threads, PoolSweep(p, ih), threads, p.active[ih], HeldBy(ih), Swept(|p.swept|));
  }

  lemma GiveBackSlots(p: Pool, threads: map<Thread, Pc>)
    requires SlotsOk(p, threads) && p.returned < |p.swept|
    ensures SlotsOk(PoolGiveBack(p), threads) && |PoolGiveBack(p).place| == |p.place|
  {
    Moves(p, threads, PoolGiveBack(p), threads, p.swept[p.returned], Swept(p.returned), FreeAt(|p.free|));
  }

  lemma StepSlots(p: Pool, threads: map<Thread, Pc>, t: Thread, pc: Pc)
    requires SlotsOk(p, threads) && InHand(At(threads, t)).None? && InHand(pc).None?
    ensures SlotsOk(p, threads[t := pc])
  {
    var u := threads[t := pc];
    forall at ensures Holds(p, u, at) == Holds(p, threads, at) {
      assert at.Hand? && at.t != t ==> At(u, at.t) == At(threads, at.t);
    }
    forall x: Slot | x < |p.place| ensures Holds(p, u, p.place[x]) == Some(x) {
      assert Holds(p, threads, p.place[x]) == Some(x);
    }
  }

  lemma ActSlots(s: State, a: Action)
    requires SlotsOk(s.pool, s.threads) && s.ledger.next !in s.pool.active
    ensures SlotsOk(Act(s, a).pool, Act(s, a).threads) && |Act(s, a).pool.place| == |s.pool.place|
  {
    if a.Expire? {
      if a.ih in s.pool.active { SweepSlots(s.pool, s.threads, a.ih); }
    } else if a.GiveBack? {
      if s.pool.returned < |s.pool.swept| { GiveBackSlots(s.pool, s.threads); }
    } else {
      ThreadSlots(s, a);
    }
  }

  lemma ThreadSlots(s: State, a: Action)
    requires SlotsOk(s.pool, s.threads) && s.ledger.next !in s.pool.active && !a.Expire? && !a.GiveBack?
    ensures SlotsOk(Act(s, a).pool, Act(s, a).threads) && |Act(s, a).pool.place| == |s.pool.place|
  {
    var u, pc := Act(s, a), At(s.threads, a.t);
    if u == s {
    } else if a.Pop? {
      PopSlots(s.pool, s.threads, a.t);
    } else if a.Enter? {
      EnterSlots(s.pool, s.threads, a.t, s.ledger.next, pc.slot);
    } else if a.Unpool? && pc.ih in s.pool.active {
      EraseSlots(s.pool, s.threads, a.t, pc.ih, u.threads[a.t]);
    } else if a.Push? {
      PushSlots(s.pool, s.threads, a.t, pc.slot, u.threads[a.t]);
    } else {
      StepSlots(s.pool, s.threads, a.t, u.threads[a.t]);
    }
  }

  // ----- Who answers for every reservation -------------------------------

  // A Seal of h past the return of its slot, with the handle still to erase.
  predicate Finishing(pc: Pc, h: Handle) {
    (pc.Returning? && pc.from == Some(h)) || (pc.Erasing? && pc.h == h)
  }

  // A Seal of h past its commit.
  predicate Cleanup(pc: Pc, h: Handle) {
    Finishing(pc, h) || (pc.Cleaning? && pc.from == Some(h))
  }

  // Handle h was registered for reservation ih.
  ghost predicate Names(ingestOf: map<Handle, Ingest>, h: Handle, ih: Ingest) {
    h in ingestOf && ingestOf[h] == ih
  }

  ghost predicate Has(owner: map<Ingest, Owner>, ih: Ingest, o: Owner) {
    ih in owner && owner[ih] == o
  }

  ghost predicate PcOk(active: map<Ingest, Slot>, owner: map<Ingest, Owner>, ingestOf: map<Handle, Ingest>, t: Thread, pc: Pc) {
    match pc
    case Reserved(ih) => Has(owner, ih, Registering(t))
    case Sealing(h, ih) => Names(ingestOf, h, ih)
    case Cleaning(None, ih) => Has(owner, ih, Leaving(t))
    case Cleaning(Some(h), ih) => Names(ingestOf, h, ih)
    case Returning(Some(h), ih, _) => ih !in active && Names(ingestOf, h, ih)
    case Erasing(h, ih) => ih !in active && Names(ingestOf, h, ih)
    case _ => true
  }

  // What the owner of a reservation must be.
  ghost predicate OwnerOk(active: map<Ingest, Slot>, handleOf: map<Ingest, Handle>, live: map<Handle, Ingest>,
                          threads: map<Thread, Pc>, ih: Ingest, o: Owner) {
    match o
    case Registering(t) => At(threads, t) == Reserved(ih) && ih !in handleOf
    case Table(h) => h in live && live[h] == ih
    case Leaving(t) => At(threads, t) == Cleaning(None, ih)
    case Gone => ih !in active
  }

  // A live handle whose slot is gone lost it to the sweeper, or to a Seal that is about to erase the handle.
  ghost predicate HandleOk(active: map<Ingest, Slot>, expired: set<Ingest>, owner: map<Ingest, Owner>,
                           ingestOf: map<Handle, Ingest>, eraser: map<Handle, Thread>, threads: map<Thread, Pc>,
                           h: Handle, ih: Ingest) {
    && Has(owner, ih, Table(h)) && Names(ingestOf, h, ih)
    && (ih !in active && ih !in expired ==> h in eraser && Finishing(At(threads, eraser[h]), h))
  }

  // A committed handle still in the table has a committer on its way to erase it.
  ghost predicate CommitOk(ingestOf: map<Handle, Ingest>, sealer: map<Handle, Thread>, live: map<Handle, Ingest>,
                           threads: map<Thread, Pc>, h: Handle) {
    h in ingestOf && h in sealer && (h in live ==> Cleanup(At(threads, sealer[h]), h))
  }

  ghost predicate Pcs(active: map<Ingest, Slot>, owner: map<Ingest, Owner>, ingestOf: map<Handle, Ingest>,
                      threads: map<Thread, Pc>) {
    forall t | t in threads :: PcOk(active, owner, ingestOf, t, threads[t])
  }

  ghost predicate Owners(active: map<Ingest, Slot>, handleOf: map<Ingest, Handle>, live: map<Handle, Ingest>,
                         owner: map<Ingest, Owner>, threads: map<Thread, Pc>) {
    forall ih | ih in owner :: OwnerOk(active, handleOf, live, threads, ih, owner[ih])
  }

  ghost predicate Live(active: map<Ingest, Slot>, expired: set<Ingest>, owner: map<Ingest, Owner>,
                       ingestOf: map<Handle, Ingest>, live: map<Handle, Ingest>, eraser: map<Handle, Thread>,
                       threads: map<Thread, Pc>) {
    forall h | h in live :: HandleOk(active, expired, owner, ingestOf, eraser, threads, h, live[h])
  }

  ghost predicate Commits(commits: seq<Handle>, ingestOf: map<Handle, Ingest>, sealer: map<Handle, Thread>,
                          live: map<Handle, Ingest>, threads: map<Thread, Pc>) {
    forall h | h in commits :: CommitOk(ingestOf, sealer, live, threads, h)
  }

  // Registrations are permanent and one to one.
  ghost predicate Registered(next: nat, nextHandle: nat, ingestOf: map<Handle, Ingest>, handleOf: map<Ingest, Handle>) {
    && nextHandle >= 1
    && (forall h | h in ingestOf :: 1 <= h < nextHandle && 1 <= ingestOf[h] < next
          && ingestOf[h] in handleOf && handleOf[ingestOf[h]] == h)
    && (forall ih | ih in handleOf :: Names(ingestOf, handleOf[ih], ih))
  }

  // Each reservation ever made is in the pool or was erased from it, once; before it has a handle, only by the sweeper.
  ghost predicate Issued(active: map<Ingest, Slot>, owner: map<Ingest, Owner>, next: nat, released: seq<Ingest>,
                         expired: set<Ingest>) {
    && next >= 1
    && (forall ih :: ih in owner <==> 1 <= ih < next)
    && (forall ih | ih in active :: ih in owner && ih !in released)
    && (forall ih | ih in owner && ih !in active :: ih in released)
    && (forall ih | ih in released :: ih in owner)
    && (forall i, j | 0 <= i < j < |released| :: released[i] != released[j])
    && (forall ih | ih in expired :: ih in released)
    && (forall ih | ih in owner && owner[ih].Registering? :: ih in active || ih in expired)
  }

  ghost predicate Owned(active: map<Ingest, Slot>, l: Ledger, hs: Handles, threads: map<Thread, Pc>) {
    && Issued(active, l.owner, l.next, l.released, l.expired)
    && Registered(l.next, hs.next, hs.ingestOf, hs.handleOf)
    && Pcs(active, l.owner, hs.ingestOf, threads)
    && Owners(active, hs.handleOf, hs.live, l.owner, threads)
    && Live(active, l.expired, l.owner, hs.ingestOf, hs.live, hs.eraser, threads)
    && Commits(hs.commits, hs.ingestOf, hs.sealer, hs.live, threads)
  }

  ghost predicate Inv(s: State) {
    SlotsOk(s.pool, s.threads) && Owned(s.pool.active, s.ledger, s.handles, s.threads)
  }

  lemma InitOk(slots: nat)
    ensures Inv(Init(slots)) && |Init(slots).pool.place| == slots
  {
  }

  // ----- What each part needs of a step -----------------------------------

  ghost predicate Extends<K, V>(m: map<K, V>, n: map<K, V>) {
    forall k | k in m :: k in n && n[k] == m[k]
  }

  // Thread t may give reservation ih a new owner: it is new, t's own, or a live handle's.
  predicate Mine(owner: map<Ingest, Owner>, ih: Ingest, t: Thread) {
    ih in owner ==> owner[ih].Table? || owner[ih] == Registering(t) || owner[ih] == Leaving(t)
  }

  lemma PcsReown(active: map<Ingest, Slot>, owner: map<Ingest, Owner>, ingestOf: map<Handle, Ingest>,
                 threads: map<Thread, Pc>, ingestOf': map<Handle, Ingest>, ih: Ingest, o: Owner, t: Thread, pc: Pc)
    requires Pcs(active, owner, ingestOf, threads) && Extends(ingestOf, ingestOf') && Mine(owner, ih, t)
    requires PcOk(active, owner[ih := o], ingestOf', t, pc)
    ensures Pcs(active, owner[ih := o], ingestOf', threads[t := pc])
  {
  }

  lemma PcsMove(active: map<Ingest, Slot>, owner: map<Ingest, Owner>, ingestOf: map<Handle, Ingest>,
                threads: map<Thread, Pc>, t: Thread, pc: Pc)
    requires Pcs(active, owner, ingestOf, threads) && PcOk(active, owner, ingestOf, t, pc)
    ensures Pcs(active, owner, ingestOf, threads[t := pc])
  {
  }

  // t answers for no reservation but ih.
  predicate AnswersOnly(pc: Pc, ih: Ingest) {
    (pc.Reserved? ==> pc.ih == ih) && (pc.Cleaning? && pc.from.None? ==> pc.ih == ih)
  }

  lemma OwnersReown(active: map<Ingest, Slot>, handleOf: map<Ingest, Handle>, live: map<Handle, Ingest>,
                    owner: map<Ingest, Owner>, threads: map<Thread, Pc>, handleOf': map<Ingest, Handle>,
                    live': map<Handle, Ingest>, ih: Ingest, o: Owner, t: Thread, pc: Pc)
    requires Owners(active, handleOf, live, owner, threads) && AnswersOnly(At(threads, t), ih)
    requires forall h | h in live && live[h] != ih :: h in live' && live'[h] == live[h]
    requires forall i | i in handleOf' :: i in handleOf || i == ih
    requires OwnerOk(active, handleOf', live', threads[t := pc], ih, o)
    ensures Owners(active, handleOf', live', owner[ih := o], threads[t := pc])
  {
  }

  lemma OwnersMove(active: map<Ingest, Slot>, handleOf: map<Ingest, Handle>, live: map<Handle, Ingest>,
                   owner: map<Ingest, Owner>, threads: map<Thread, Pc>, t: Thread, pc: Pc)
    requires Owners(active, handleOf, live, owner, threads)
    requires !At(threads, t).Reserved? && (At(threads, t).Cleaning? ==> At(threads, t).from.Some?)
    ensures Owners(active, handleOf, live, owner, threads[t := pc])
  {
  }

  lemma LiveMove(active: map<Ingest, Slot>, expired: set<Ingest>, owner: map<Ingest, Owner>,
                 ingestOf: map<Handle, Ingest>, live: map<Handle, Ingest>, eraser: map<Handle, Thread>,
                 threads: map<Thread, Pc>, t: Thread, pc: Pc)
    requires Live(active, expired, owner, ingestOf, live, eraser, threads)
    requires forall h | h in live && Finishing(At(threads, t), h) :: Finishing(pc, h)
    ensures Live(active, expired, owner, ingestOf, live, eraser, threads[t := pc])
  {
  }

  lemma CommitsStep(commits: seq<Handle>, ingestOf: map<Handle, Ingest>, sealer: map<Handle, Thread>,
                    live: map<Handle, Ingest>, threads: map<Thread, Pc>, live': map<Handle, Ingest>, t: Thread, pc: Pc)
    requires Commits(commits, ingestOf, sealer, live, threads) && live'.Keys <= live.Keys
    requires forall h | h in live' && Cleanup(At(threads, t), h) :: Cleanup(pc, h)
    ensures Commits(commits, ingestOf, sealer, live', threads[t := pc])
  {
  }

  lemma IssuedDrop(active: map<Ingest, Slot>, owner: map<Ingest, Owner>, next: nat, released: seq<Ingest>,
                   expired: set<Ingest>, ih: Ingest, expired': set<Ingest>)
    requires Issued(active, owner, next, released, expired) && ih in owner && ih in active
    requires expired <= expired' <= expired + {ih} && (owner[ih].Registering? ==> ih in expired')
    ensures Issued(active - {ih}, owner, next, released + [ih], expired')
  {
  }

  // Erasing a pool entry breaks nothing that threads and owners promise.
  lemma DropKeeps(active: map<Ingest, Slot>, owner: map<Ingest, Owner>, ingestOf: map<Handle, Ingest>,
                  handleOf: map<Ingest, Handle>, live: map<Handle, Ingest>, threads: map<Thread, Pc>, ih: Ingest)
    requires Pcs(active, owner, ingestOf, threads) && Owners(active, handleOf, live, owner, threads)
    ensures Pcs(active - {ih}, owner, ingestOf, threads) && Owners(active - {ih}, handleOf, live, owner, threads)
  {
  }

  lemma LiveErase(active: map<Ingest, Slot>, expired: set<Ingest>, owner: map<Ingest, Owner>,
                  ingestOf: map<Handle, Ingest>, live: map<Handle, Ingest>, eraser: map<Handle, Thread>,
                  threads: map<Thread, Pc>, t: Thread, h: Handle, ih: Ingest, pc: Pc)
    requires Live(active, expired, owner, ingestOf, live, eraser, threads)
    requires At(threads, t) == Cleaning(Some(h), ih) && Finishing(pc, h)
    requires forall g | g in live && live[g] == ih :: g == h
    ensures Live(active - {ih}, expired, owner, ingestOf, live, eraser[h := t], threads[t := pc])
  {
  }

  lemma LiveLeave(active: map<Ingest, Slot>, expired: set<Ingest>, owner: map<Ingest, Owner>,
                  ingestOf: map<Handle, Ingest>, live: map<Handle, Ingest>, eraser: map<Handle, Thread>,
                  threads: map<Thread, Pc>, t: Thread, ih: Ingest, pc: Pc)
    requires Live(active, expired, owner, ingestOf, live, eraser, threads)
    requires At(threads, t) == Cleaning(None, ih) && Has(owner, ih, Leaving(t))
    ensures Live(active - {ih}, expired, owner[ih := Gone], ingestOf, live, eraser, threads[t := pc])
  {
  }

  // ----- Every step keeps who answers for what ----------------------------

  lemma MoveKeeps(active: map<Ingest, Slot>, l: Ledger, hs: Handles, threads: map<Thread, Pc>, t: Thread, pc: Pc)
    requires Owned(active, l, hs, threads) && PcOk(active, l.owner, hs.ingestOf, t, pc)
    requires !At(threads, t).Reserved? && (At(threads, t).Cleaning? ==> At(threads, t).from.Some?)
    requires forall h | h in hs.live && Finishing(At(threads, t), h) :: Finishing(pc, h)
    requires forall h | h in hs.live && Cleanup(At(threads, t), h) :: Cleanup(pc, h)
    ensures Owned(active, l, hs, threads[t := pc])
  {
    PcsMove(active, l.owner, hs.ingestOf, threads, t, pc);
    OwnersMove(active, hs.handleOf, hs.live, l.owner, threads, t, pc);
    LiveMove(active, l.expired, l.owner, hs.ingestOf, hs.live, hs.eraser, threads, t, pc);
    CommitsStep(hs.commits, hs.ingestOf, hs.sealer, hs.live, threads, hs.live, t, pc);
  }

  // The handle table once reservation ih changes hands: its handle, if it has one, is gone.
  function LiveBut(live: map<Handle, Ingest>, owner: map<Ingest, Owner>, ih: Ingest): map<Handle, Ingest> {
    if ih in owner && owner[ih].Table? then live - {owner[ih].h} else live
  }

  lemma LiveReown(active: map<Ingest, Slot>, expired: set<Ingest>, owner: map<Ingest, Owner>,
                  ingestOf: map<Handle, Ingest>, live: map<Handle, Ingest>, eraser: map<Handle, Thread>,
                  threads: map<Thread, Pc>, ih: Ingest, o: Owner, t: Thread, pc: Pc)
    requires Live(active, expired, owner, ingestOf, live, eraser, threads)
    requires forall h | h in LiveBut(live, owner, ih) :: !Finishing(At(threads, t), h)
    ensures Live(active, expired, owner[ih := o], ingestOf, LiveBut(live, owner, ih), eraser, threads[t := pc])
  {
  }

  lemma OwnersLose(active: map<Ingest, Slot>, handleOf: map<Ingest, Handle>, live: map<Handle, Ingest>,
                   owner: map<Ingest, Owner>, threads: map<Thread, Pc>, ih: Ingest, o: Owner, t: Thread, pc: Pc)
    requires Owners(active, handleOf, live, owner, threads) && AnswersOnly(At(threads, t), ih)
    requires OwnerOk(active, handleOf, LiveBut(live, owner, ih), threads[t := pc], ih, o)
    ensures Owners(active, handleOf, LiveBut(live, owner, ih), owner[ih := o], threads[t := pc])
  {
    assert ih in owner ==> OwnerOk(active, handleOf, live, threads, ih, owner[ih]);
    OwnersReown(active, handleOf, live, owner, threads, handleOf, LiveBut(live, owner, ih), ih, o, t, pc);
  }

  lemma IssuedReown(active: map<Ingest, Slot>, owner: map<Ingest, Owner>, next: nat, released: seq<Ingest>,
                    expired: set<Ingest>, ih: Ingest, o: Owner)
    requires Issued(active, owner, next, released, expired) && ih in owner && !o.Registering?
    ensures Issued(active, owner[ih := o], next, released, expired)
  {
  }

  // Giving reservation ih a new owner.
  lemma ReownKeeps(active: map<Ingest, Slot>, l: Ledger, hs: Handles, threads: map<Thread, Pc>, ih: Ingest, o: Owner,
                   live: map<Handle, Ingest>, t: Thread, pc: Pc)
    requires Owned(active, l, hs, threads) && ih in l.owner && Mine(l.owner, ih, t) && AnswersOnly(At(threads, t), ih)
    requires !o.Registering? && live == LiveBut(hs.live, l.owner, ih)
    requires PcOk(active, l.owner[ih := o], hs.ingestOf, t, pc)
    requires OwnerOk(active, hs.handleOf, live, threads[t := pc], ih, o)
    requires forall h | h in live :: !Cleanup(At(threads, t), h)
    ensures Owned(active, Own(l, ih, o), hs.(live := live), threads[t := pc])
  {
    IssuedReown(active, l.owner, l.next, l.released, l.expired, ih, o);
    PcsReown(active, l.owner, hs.ingestOf, threads, hs.ingestOf, ih, o, t, pc);
    OwnersLose(active, hs.handleOf, hs.live, l.owner, threads, ih, o, t, pc);
    LiveReown(active, l.expired, l.owner, hs.ingestOf, hs.live, hs.eraser, threads, ih, o, t, pc);
    CommitsStep(hs.commits, hs.ingestOf, hs.sealer, hs.live, threads, live, t, pc);
  }

  lemma IssuedGrow(active: map<Ingest, Slot>, owner: map<Ingest, Owner>, next: nat, released: seq<Ingest>,
                   expired: set<Ingest>, slot: Slot, t: Thread)
    requires Issued(active, owner, next, released, expired)
    ensures Issued(active[next := slot], owner[next := Registering(t)], next + 1, released, expired)
  {
  }

  lemma PcsGrow(active: map<Ingest, Slot>, owner: map<Ingest, Owner>, ingestOf: map<Handle, Ingest>,
                threads: map<Thread, Pc>, ih: Ingest, slot: Slot)
    requires Pcs(active, owner, ingestOf, threads) && (forall h | h in ingestOf :: ingestOf[h] != ih)
    ensures Pcs(active[ih := slot], owner, ingestOf, threads)
  {
  }

  lemma OwnersGrow(active: map<Ingest, Slot>, handleOf: map<Ingest, Handle>, live: map<Handle, Ingest>,
                   owner: map<Ingest, Owner>, threads: map<Thread, Pc>, ih: Ingest, slot: Slot)
    requires Owners(active, handleOf, live, owner, threads) && ih !in owner
    ensures Owners(active[ih := slot], handleOf, live, owner, threads)
  {
  }

  lemma LiveRefill(active: map<Ingest, Slot>, expired: set<Ingest>, owner: map<Ingest, Owner>,
                   ingestOf: map<Handle, Ingest>, live: map<Handle, Ingest>, eraser: map<Handle, Thread>,
                   threads: map<Thread, Pc>, ih: Ingest, slot: Slot)
    requires Live(active, expired, owner, ingestOf, live, eraser, threads)
    ensures Live(active[ih := slot], expired, owner, ingestOf, live, eraser, threads)
  {
  }

  lemma EnterKeeps(active: map<Ingest, Slot>, l: Ledger, hs: Handles, threads: map<Thread, Pc>, t: Thread, slot: Slot)
    requires Owned(active, l, hs, threads) && At(threads, t) == Popped(slot)
    ensures Owned(active[l.next := slot], Own(l, l.next, Registering(t)).(next := l.next + 1), hs, threads[t := Reserved(l.next)])
  {
    var ih, o, pc := l.next, Registering(t), Reserved(l.next);
    assert ih !in hs.handleOf && ih !in l.owner;
    IssuedGrow(active, l.owner, ih, l.released, l.expired, slot, t);
    PcsGrow(active, l.owner, hs.ingestOf, threads, ih, slot);
    PcsReown(active[ih := slot], l.owner, hs.ingestOf, threads, hs.ingestOf, ih, o, t, pc);
    OwnersGrow(active, hs.handleOf, hs.live, l.owner, threads, ih, slot);
    OwnersLose(active[ih := slot], hs.handleOf, hs.live, l.owner, threads, ih, o, t, pc);
    LiveRefill(active, l.expired, l.owner, hs.ingestOf, hs.live, hs.eraser, threads, ih, slot);
    LiveReown(active[ih := slot], l.expired, l.owner, hs.ingestOf, hs.live, hs.eraser, threads, ih, o, t, pc);
    CommitsStep(hs.commits, hs.ingestOf, hs.sealer, hs.live, threads, hs.live, t, pc);
  }

  lemma LiveGrow(active: map<Ingest, Slot>, expired: set<Ingest>, owner: map<Ingest, Owner>,
                 ingestOf: map<Handle, Ingest>, live: map<Handle, Ingest>, eraser: map<Handle, Thread>,
                 threads: map<Thread, Pc>, t: Thread, h: Handle, ih: Ingest)
    requires Live(active, expired, owner, ingestOf, live, eraser, threads)
    requires At(threads, t) == Reserved(ih) && Has(owner, ih, Registering(t)) && (ih in active || ih in expired)
    requires h !in ingestOf
    ensures Live(active, expired, owner[ih := Table(h)], ingestOf[h := ih], live[h := ih], eraser, threads[t := Idle])
  {
  }

  lemma OwnersGain(active: map<Ingest, Slot>, handleOf: map<Ingest, Handle>, live: map<Handle, Ingest>,
                   owner: map<Ingest, Owner>, threads: map<Thread, Pc>, t: Thread, h: Handle, ih: Ingest)
    requires Owners(active, handleOf, live, owner, threads) && At(threads, t) == Reserved(ih) && h !in live
    ensures Owners(active, handleOf[ih := h], live[h := ih], owner[ih := Table(h)], threads[t := Idle])
  {
    OwnersReown(active, handleOf, live, owner, threads, handleOf[ih := h], live[h := ih], ih, Table(h), t, Idle);
  }

  lemma CommitsGrow(commits: seq<Handle>, ingestOf: map<Handle, Ingest>, sealer: map<Handle, Thread>,
                    live: map<Handle, Ingest>, threads: map<Thread, Pc>, t: Thread, h: Handle, ih: Ingest)
    requires Commits(commits, ingestOf, sealer, live, threads) && At(threads, t) == Reserved(ih) && h !in ingestOf
    ensures Commits(commits, ingestOf[h := ih], sealer, live[h := ih], threads[t := Idle])
  {
  }

  lemma Unregistered(active: map<Ingest, Slot>, l: Ledger, hs: Handles, threads: map<Thread, Pc>, t: Thread, ih: Ingest)
    requires Owned(active, l, hs, threads) && At(threads, t) == Reserved(ih)
    ensures Has(l.owner, ih, Registering(t)) && (ih in active || ih in l.expired)
    ensures hs.next !in hs.live && hs.next !in hs.ingestOf && ih !in hs.handleOf
    ensures Registered(l.next, hs.next + 1, hs.ingestOf[hs.next := ih], hs.handleOf[ih := hs.next])
  {
    assert PcOk(active, l.owner, hs.ingestOf, t, threads[t]);
    assert OwnerOk(active, hs.handleOf, hs.live, threads, ih, l.owner[ih]);
  }

  lemma RegisterKeeps(s: State, t: Thread, ih: Ingest)
    requires Owned(s.pool.active, s.ledger, s.handles, s.threads) && At(s.threads, t) == Reserved(ih)
    ensures var u := RegisterStep(s, t, ih); Owned(u.pool.active, u.ledger, u.handles, u.threads)
  {
    var u, h := RegisterStep(s, t, ih), s.handles.next;
    var active, l, hs, threads := s.pool.active, s.ledger, s.handles, s.threads;
    Unregistered(active, l, hs, threads, t, ih);
    IssuedReown(active, l.owner, l.next, l.released, l.expired, ih, Table(h));
    PcsReown(active, l.owner, hs.ingestOf, threads, u.handles.ingestOf, ih, Table(h), t, Idle);
    OwnersGain(active, hs.handleOf, hs.live, l.owner, threads, t, h, ih);
    LiveGrow(active, l.expired, l.owner, hs.ingestOf, hs.live, hs.eraser, threads, t, h, ih);
    CommitsGrow(hs.commits, hs.ingestOf, hs.sealer, hs.live, threads, t, h, ih);
  }

  lemma CommitKeeps(active: map<Ingest, Slot>, l: Ledger, hs: Handles, threads: map<Thread, Pc>, t: Thread, h: Handle, ih: Ingest)
    requires Owned(active, l, hs, threads) && At(threads, t) == Sealing(h, ih)
    ensures Owned(active, l, hs.(commits := hs.commits + [h], sealer := hs.sealer[h := t]), threads[t := Cleaning(Some(h), ih)])
  {
    assert PcOk(active, l.owner, hs.ingestOf, t, threads[t]);
    MoveKeeps(active, l, hs, threads, t, Cleaning(Some(h), ih));
  }

  // A Seal returns its slot: of the live handles, only its own had that reservation.
  lemma SealUnpoolKeeps(active: map<Ingest, Slot>, l: Ledger, hs: Handles, threads: map<Thread, Pc>, t: Thread, h: Handle,
                        ih: Ingest, slot: Slot)
    requires Owned(active, l, hs, threads) && At(threads, t) == Cleaning(Some(h), ih) && ih in active
    ensures Owned(active - {ih}, l.(released := l.released + [ih]), hs.(eraser := hs.eraser[h := t]),
                  threads[t := Returning(Some(h), ih, slot)])
  {
    var pc := Returning(Some(h), ih, slot);
    assert PcOk(active, l.owner, hs.ingestOf, t, threads[t]);
    assert !l.owner[ih].Registering? by { assert OwnerOk(active, hs.handleOf, hs.live, threads, ih, l.owner[ih]); }
    assert forall g | g in hs.live && hs.live[g] == ih :: Names(hs.ingestOf, g, ih);
    IssuedDrop(active, l.owner, l.next, l.released, l.expired, ih, l.expired);
    DropKeeps(active, l.owner, hs.ingestOf, hs.handleOf, hs.live, threads, ih);
    PcsMove(active - {ih}, l.owner, hs.ingestOf, threads, t, pc);
    OwnersMove(active - {ih}, hs.handleOf, hs.live, l.owner, threads, t, pc);
    LiveErase(active, l.expired, l.owner, hs.ingestOf, hs.live, hs.eraser, threads, t, h, ih, pc);
    CommitsStep(hs.commits, hs.ingestOf, hs.sealer, hs.live, threads, hs.live, t, pc);
  }

  // A Release or a refused Reserve returns its slot: no live handle had that reservation.
  lemma ReleaseUnpoolKeeps(active: map<Ingest, Slot>, l: Ledger, hs: Handles, threads: map<Thread, Pc>, t: Thread,
                           ih: Ingest, slot: Slot)
    requires Owned(active, l, hs, threads) && At(threads, t) == Cleaning(None, ih) && ih in active
    ensures Owned(active - {ih}, Own(l, ih, Gone).(released := l.released + [ih]), hs,
                  threads[t := Returning(None, ih, slot)])
  {
    var pc := Returning(None, ih, slot);
    assert PcOk(active, l.owner, hs.ingestOf, t, threads[t]);
    IssuedDrop(active, l.owner, l.next, l.released, l.expired, ih, l.expired);
    IssuedReown(active - {ih}, l.owner, l.next, l.released + [ih], l.expired, ih, Gone);
    DropKeeps(active, l.owner, hs.ingestOf, hs.handleOf, hs.live, threads, ih);
    PcsReown(active - {ih}, l.owner, hs.ingestOf, threads, hs.ingestOf, ih, Gone, t, pc);
    OwnersLose(active - {ih}, hs.handleOf, hs.live, l.owner, threads, ih, Gone, t, pc);
    LiveLeave(active, l.expired, l.owner, hs.ingestOf, hs.live, hs.eraser, threads, t, ih, pc);
    CommitsStep(hs.commits, hs.ingestOf, hs.sealer, hs.live, threads, hs.live, t, pc);
  }

  lemma UnpoolKeeps(s: State, t: Thread, from: Option<Handle>, ih: Ingest)
    requires Owned(s.pool.active, s.ledger, s.handles, s.threads) && At(s.threads, t) == Cleaning(from, ih)
    ensures var u := UnpoolStep(s, t, from, ih); Owned(u.pool.active, u.ledger, u.handles, u.threads)
  {
    var active, l, hs, threads := s.pool.active, s.ledger, s.handles, s.threads;
    if ih in active && from.Some? {
      SealUnpoolKeeps(active, l, hs, threads, t, from.value, ih, active[ih]);
    } else if ih in active {
      ReleaseUnpoolKeeps(active, l, hs, threads, t, ih, active[ih]);
    } else {
      assert PcOk(active, l.owner, hs.ingestOf, t, threads[t]);
      if from.Some? {
        MoveKeeps(active, l, hs, threads, t, After(from, ih));
      } else {
        ReownKeeps(active, l, hs, threads, ih, Gone, hs.live, t, Idle);
      }
    }
  }

  lemma ReleaseKeeps(active: map<Ingest, Slot>, l: Ledger, hs: Handles, threads: map<Thread, Pc>, t: Thread, h: Handle)
    requires Owned(active, l, hs, threads) && At(threads, t).Idle? && h in hs.live
    ensures Owned(active, Own(l, hs.live[h], Leaving(t)), hs.(live := hs.live - {h}), threads[t := Cleaning(None, hs.live[h])])
  {
    var ih := hs.live[h];
    assert Has(l.owner, ih, Table(h));
    ReownKeeps(active, l, hs, threads, ih, Leaving(t), hs.live - {h}, t, Cleaning(None, ih));
  }

  lemma EraseKeeps(s: State, t: Thread, h: Handle, ih: Ingest)
    requires Owned(s.pool.active, s.ledger, s.handles, s.threads) && At(s.threads, t) == Erasing(h, ih)
    ensures var u := EraseStep(s, t, h); Owned(u.pool.active, u.ledger, u.handles, u.threads)
  {
    var active, l, hs, threads := s.pool.active, s.ledger, s.handles, s.threads;
    assert PcOk(active, l.owner, hs.ingestOf, t, threads[t]);
    if h in hs.live {
      assert HandleOk(active, l.expired, l.owner, hs.ingestOf, hs.eraser, threads, h, hs.live[h]);
      ReownKeeps(active, l, hs, threads, ih, Gone, hs.live - {h}, t, Idle);
    } else {
      assert hs.live - {h} == hs.live;
      MoveKeeps(active, l, hs, threads, t, Idle);
    }
  }

  lemma ExpireKeeps(active: map<Ingest, Slot>, l: Ledger, hs: Handles, threads: map<Thread, Pc>, ih: Ingest)
    requires Owned(active, l, hs, threads) && ih in active
    ensures Owned(active - {ih}, l.(released := l.released + [ih], expired := l.expired + {ih}), hs, threads)
  {
    IssuedDrop(active, l.owner, l.next, l.released, l.expired, ih, l.expired + {ih});
    DropKeeps(active, l.owner, hs.ingestOf, hs.handleOf, hs.live, threads, ih);
    assert Live(active - {ih}, l.expired + {ih}, l.owner, hs.ingestOf, hs.live, hs.eraser, threads);
  }

  lemma MovesKeep(s: State, a: Action)
    requires Owned(s.pool.active, s.ledger, s.handles, s.threads)
    requires a.Pop? || a.SealBegin? || a.SealFail? || a.Push?
    ensures var u := Act(s, a); Owned(u.pool.active, u.ledger, u.handles, u.threads)
  {
    var u := Act(s, a);
    if u != s {
      assert a.SealBegin? ==> Names(s.handles.ingestOf, a.h, s.handles.live[a.h]);
      assert a.t in s.threads ==> PcOk(s.pool.active, s.ledger.owner, s.handles.ingestOf, a.t, s.threads[a.t]);
      MoveKeeps(s.pool.active, s.ledger, s.handles, s.threads, a.t, u.threads[a.t]);
    }
  }

  lemma ActOwned(s: State, a: Action)
    requires Owned(s.pool.active, s.ledger, s.handles, s.threads)
    ensures var u := Act(s, a); Owned(u.pool.active, u.ledger, u.handles, u.threads)
  {
    var active, l, hs, threads := s.pool.active, s.ledger, s.handles, s.threads;
    match a
    case Enter(t) => if At(threads, t).Popped? { EnterKeeps(active, l, hs, threads, t, At(threads, t).slot); }
    case Register(t) => if At(threads, t).Reserved? { RegisterKeeps(s, t, At(threads, t).ih); }
    case Refuse(t) => RefuseKeeps(s, t);
    case SealCommit(t) =>
      if At(threads, t).Sealing? { CommitKeeps(active, l, hs, threads, t, At(threads, t).h, At(threads, t).ih); }
    case ReleaseBegin(t, h) =>
      if At(threads, t).Idle? && h in hs.live { ReleaseKeeps(active, l, hs, threads, t, h); }
    case Unpool(t) => if At(threads, t).Cleaning? { UnpoolKeeps(s, t, At(threads, t).from, At(threads, t).ih); }
    case Erase(t) => if At(threads, t).Erasing? { EraseKeeps(s, t, At(threads, t).h, At(threads, t).ih); }
    case Expire(ih) => if ih in active { ExpireKeeps(active, l, hs, threads, ih); }
    case GiveBack =>
    case _ => MovesKeep(s, a);
  }

  lemma RefuseKeeps(s: State, t: Thread)
    requires Owned(s.pool.active, s.ledger, s.handles, s.threads)
    ensures var u := Act(s, Refuse(t)); Owned(u.pool.active, u.ledger, u.handles, u.threads)
  {
    if At(s.threads, t).Reserved? {
      var ih := At(s.threads, t).ih;
      assert PcOk(s.pool.active, s.ledger.owner, s.handles.ingestOf, t, s.threads[t]);
      ReownKeeps(s.pool.active, s.ledger, s.handles, s.threads, ih, Leaving(t), s.handles.live, t, Cleaning(None, ih));
    }
  }

  // Every step of every thread and of the sweeper keeps the invariant.
  lemma ActKeeps(s: State, a: Action)
    requires Inv(s)
    ensures Inv(Act(s, a)) && |Act(s, a).pool.place| == |s.pool.place|
  {
    ActSlots(s, a);
    ActOwned(s, a);
  }

  lemma {:induction false} ExecKeeps(s: State, sched: seq<Action>)
    requires Inv(s)
    ensures Inv(Exec(s, sched)) && |Exec(s, sched).pool.place| == |s.pool.place|
    decreases |sched|
  {
    if sched != [] {
      ActKeeps(s, sched[0]);
      ExecKeeps(Act(s, sched[0]), sched[1..]);
    }
  }
}

/**
 Which records clients may append for the durable state plane to stay coherent: exactly those with one
 value per key. Two values of one key come apart in two ways. Two puts may append in one order and stage
 in the other; and, with puts that never overlap, a slow read may stage what it fetched before the newer
 put staged its own.
 */
module StateValues {
  import opened Bytes
  import opened WalFormat
  import opened StatePlane

  type Allowed = Rec -> bool

  // Appends only allowed records, each whole and synced or not at all.
  ghost predicate Appends(a: Action, allowed: Allowed) {
    && (a.Append? && Fits(a.rec) ==>
          allowed(a.rec) && (a.written == 0 || (a.written >= MIN_RECORD + |a.rec.blob| && a.fsynced)))
    && (a.Crash? && Fits(a.rec) ==> allowed(a.rec))
  }

  ghost predicate Run(sched: seq<Action>, allowed: Allowed) {
    forall i | 0 <= i < |sched| :: Appends(sched[i], allowed)
  }

  ghost predicate OneValue(allowed: Allowed) {
    forall x: Rec, y: Rec | Fits(x) && Fits(y) && allowed(x) && allowed(y) && x.key == y.key :: x.blob == y.blob
  }

  // Every entry resident in DRAM equals its copy in the durable bytes.
  ghost predicate ResidentDurable(s: State, crc: Crc) {
    && s.synced <= |s.file|
    && var onDisk := Replay(s.file[..s.synced], map[], crc).0;
       forall k | k in s.dram :: k in onDisk && onDisk[k] == s.dram[k]
  }

  // Every read of an acknowledged key returns the value acknowledged last.
  ghost predicate ReadsLatest(s: State) {
    forall k | k in s.acked :: Get(s, k) == Some(s.acked[k])
  }

  // ----- One value is enough ---------------------------------------------

  ghost function Chosen(allowed: Allowed, k: Key): seq<byte> {
    if exists r: Rec :: Fits(r) && allowed(r) && r.key == k
    then var r: Rec :| Fits(r) && allowed(r) && r.key == k; r.blob
    else []
  }

  lemma RunIsHonest(sched: seq<Action>, allowed: Allowed, value: Content)
    requires Run(sched, allowed) && OneValue(allowed) && forall k :: value(k) == Chosen(allowed, k)
    ensures forall i | 0 <= i < |sched| :: Honest(sched[i], value)
  {
    forall i | 0 <= i < |sched| ensures Honest(sched[i], value) {
      assert Appends(sched[i], allowed);
      if (sched[i].Append? || sched[i].Crash?) && Fits(sched[i].rec) { assert allowed(sched[i].rec); }
    }
  }

  lemma OneValueSuffices(sched: seq<Action>, allowed: Allowed, crc: Crc)
    requires Run(sched, allowed) && OneValue(allowed)
    ensures ResidentDurable(Exec(INIT, sched, crc), crc) && ReadsLatest(Exec(INIT, sched, crc))
  {
    var value: Content := k => Chosen(allowed, k);
    var s := Exec(INIT, sched, crc);
    RunIsHonest(sched, allowed, value);
    RunsKeep(sched, value, crc);
    forall k | k in s.dram ensures k in Replay(s.file[..s.synced], map[], crc).0
        && Replay(s.file[..s.synced], map[], crc).0[k] == s.dram[k] { ResidentIsDurable(sched, value, crc, k); }
    forall k | k in s.acked ensures Get(s, k) == Some(s.acked[k]) { AckedReadable(sched, value, crc, k); }
  }

  // ----- Two values come apart -------------------------------------------

  function Whole(t: Thread, r: Rec): Action {
    Append(t, r, MIN_RECORD + |r.blob|, true)
  }

  // DRAM holds one value of a key, the log and the last acknowledgement another.
  ghost predicate Apart(s: State, x: Rec, y: Rec, crc: Crc)
    requires Fits(x) && Fits(y)
  {
    && s.file == Encode(x, crc) + Encode(y, crc) && s.synced == |s.file|
    && x.key in s.dram && s.dram[x.key] == x.blob && y.key in s.acked && s.acked[y.key] == y.blob
  }

  lemma Appended(s: State, t: Thread, r: Rec, crc: Crc)
    requires Fits(r) && t !in s.staging && !s.doubtful
    ensures var u := Act(s, Whole(t, r), crc);
      && u.file == s.file + Encode(r, crc) && u.synced == |u.file| && u.dram == s.dram && !u.doubtful
      && u.staging == s.staging[t := Put(r.key, r.blob)]
      && u.index == s.index[r.key := r.blob] && u.acked == s.acked[r.key := r.blob]
  {
  }

  lemma Then(s: State, a: Action, rest: seq<Action>, crc: Crc)
    ensures Exec(s, [a] + rest, crc) == Exec(Act(s, a, crc), rest, crc)
  {
    assert ([a] + rest)[1..] == rest;
  }

  // Append x, append y, stage y, stage x.
  lemma CrossedPuts(x: Rec, y: Rec, crc: Crc)
    requires Fits(x) && Fits(y) && x.key == y.key
    ensures Apart(Exec(INIT, [Whole(0, x), Whole(1, y), Stage(1), Stage(0)], crc), x, y, crc)
  {
    var s1 := Act(INIT, Whole(0, x), crc);
    var s2 := Act(s1, Whole(1, y), crc);
    Appended(INIT, 0, x, crc);
    Appended(s1, 1, y, crc);
    assert s1.file == Encode(x, crc);
    var s3 := Act(s2, Stage(1), crc);
    var s4 := Act(s3, Stage(0), crc);
    assert Apart(s4, x, y, crc);
    var d := [Stage(0)];
    var c := [Stage(1)] + d;
    var b := [Whole(1, y)] + c;
    Then(INIT, Whole(0, x), b, crc);
    Then(s1, Whole(1, y), c, crc);
    Then(s2, Stage(1), d, crc);
    Then(s3, Stage(0), [], crc);
    assert [Whole(0, x)] + b == [Whole(0, x), Whole(1, y), Stage(1), Stage(0)];
  }

  function SlowRead(x: Rec, y: Rec): seq<Action> {
    [Whole(0, x), Stage(0), Evict(x.key), Fetch(2, x.key), Whole(0, y), Stage(0), Stage(2)]
  }

  // Put x, evict it, fetch it from the log, put y, and only then stage what was fetched: no two puts overlap.
  lemma SlowReadGoesStale(x: Rec, y: Rec, crc: Crc)
    requires Fits(x) && Fits(y) && x.key == y.key
    ensures Apart(Exec(INIT, SlowRead(x, y), crc), x, y, crc)
  {
    var k := x.key;
    var s1 := Act(INIT, Whole(0, x), crc);
    Appended(INIT, 0, x, crc);
    assert s1.file == Encode(x, crc);
    var s2 := Act(s1, Stage(0), crc);
    var s3 := Act(s2, Evict(k), crc);
    var s4 := Act(s3, Fetch(2, k), crc);
    assert s4.staging == map[2 := Put(k, x.blob)] && s4.file == s1.file;
    var s5 := Act(s4, Whole(0, y), crc);
    Appended(s4, 0, y, crc);
    SlowStage(s5, x, y, crc);
    var g := [Stage(2)];
    var f := [Stage(0)] + g;
    var e := [Whole(0, y)] + f;
    var d := [Fetch(2, k)] + e;
    var c := [Evict(k)] + d;
    var b := [Stage(0)] + c;
    Then(INIT, Whole(0, x), b, crc);
    Then(s1, Stage(0), c, crc);
    Then(s2, Evict(k), d, crc);
    Then(s3, Fetch(2, k), e, crc);
    Then(s4, Whole(0, y), f, crc);
    assert [Whole(0, x)] + b == SlowRead(x, y);
  }

  lemma SlowStage(s: State, x: Rec, y: Rec, crc: Crc)
    requires Fits(x) && Fits(y) && x.key == y.key
    requires s.staging == map[2 := Put(x.key, x.blob), 0 := Put(y.key, y.blob)]
    requires s.file == Encode(x, crc) + Encode(y, crc) && s.synced == |s.file|
    requires y.key in s.acked && s.acked[y.key] == y.blob
    ensures Apart(Exec(s, [Stage(0)] + [Stage(2)], crc), x, y, crc)
  {
    Then(s, Stage(0), [Stage(2)], crc);
    Then(Act(s, Stage(0), crc), Stage(2), [], crc);
    assert [Stage(2)] + [] == [Stage(2)];
  }

  lemma ReplayTwo(x: Rec, y: Rec, crc: Crc)
    requires Fits(x) && Fits(y)
    ensures Replay(Encode(x, crc) + Encode(y, crc), map[], crc).0 == map[x.key := x.blob][y.key := y.blob]
  {
    TwoRecordLog(x, y, crc);
    ReplayLog([x, y], [], map[], crc);
    assert Puts(map[], [x, y]) == Puts(map[x.key := x.blob], [x, y][1..]);
    assert Puts(map[x.key := x.blob], [y]) == Puts(map[x.key := x.blob][y.key := y.blob], [y][1..]);
  }

  lemma TwoRecordLog(x: Rec, y: Rec, crc: Crc)
    requires Fits(x) && Fits(y)
    ensures Log([x, y], crc) + [] == Encode(x, crc) + Encode(y, crc)
  {
    assert [x] + [y] == [x, y];
    LogConcat([x], [y], crc);
    LogOne(x, crc);
    LogOne(y, crc);
  }

  lemma ApartIsIncoherent(s: State, x: Rec, y: Rec, crc: Crc)
    requires Fits(x) && Fits(y) && x.key == y.key && x.blob != y.blob && Apart(s, x, y, crc)
    ensures !ResidentDurable(s, crc) && !ReadsLatest(s)
  {
    assert s.file[..s.synced] == Encode(x, crc) + Encode(y, crc);
    ReplayTwo(x, y, crc);
  }

  lemma TwoValuesBreak(allowed: Allowed, x: Rec, y: Rec, crc: Crc)
    requires Fits(x) && Fits(y) && allowed(x) && allowed(y) && x.key == y.key && x.blob != y.blob
    ensures exists sched :: Run(sched, allowed) && !ResidentDurable(Exec(INIT, sched, crc), crc)
    ensures exists sched :: Run(sched, allowed) && !ReadsLatest(Exec(INIT, sched, crc))
  {
    var sched := [Whole(0, x), Whole(1, y), Stage(1), Stage(0)];
    CrossedPuts(x, y, crc);
    ApartIsIncoherent(Exec(INIT, sched, crc), x, y, crc);
    assert Run(sched, allowed);
  }

  // Every run of all-or-nothing appends of allowed records keeps each DRAM entry equal to its durable copy
  // if and only if no two allowed records give one key two values.
  lemma ResidentDurableIff(allowed: Allowed, crc: Crc)
    ensures (forall sched | Run(sched, allowed) :: ResidentDurable(Exec(INIT, sched, crc), crc)) <==> OneValue(allowed)
  {
    if OneValue(allowed) {
      forall sched | Run(sched, allowed) ensures ResidentDurable(Exec(INIT, sched, crc), crc) {
        OneValueSuffices(sched, allowed, crc);
      }
    } else {
      var x: Rec, y: Rec :| Fits(x) && Fits(y) && allowed(x) && allowed(y) && x.key == y.key && x.blob != y.blob;
      TwoValuesBreak(allowed, x, y, crc);
    }
  }

  // Every such run answers each acknowledged key with the value acknowledged last under the same condition.
  lemma ReadsLatestIff(allowed: Allowed, crc: Crc)
    ensures (forall sched | Run(sched, allowed) :: ReadsLatest(Exec(INIT, sched, crc))) <==> OneValue(allowed)
  {
    if OneValue(allowed) {
      forall sched | Run(sched, allowed) ensures ReadsLatest(Exec(INIT, sched, crc)) {
        OneValueSuffices(sched, allowed, crc);
      }
    } else {
      var x: Rec, y: Rec :| Fits(x) && Fits(y) && allowed(x) && allowed(y) && x.key == y.key && x.blob != y.blob;
      TwoValuesBreak(allowed, x, y, crc);
    }
  }
}

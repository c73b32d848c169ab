/**
 The durable state plane: puts append to the log before they are staged in DRAM, reads fall back from
 DRAM to the log, DRAM may evict anything at any time. A crash keeps some prefix of the file and of the
 record being appended at that moment, at least everything made durable. Threads interleave between
 append, read and staging.

 A successful fsync makes the whole file durable, unless an earlier one failed since the log was opened:
 what that one covered stays in doubt, and so does everything behind it.
 */
module StatePlane {
  import opened Bytes
  import opened WalFormat

  type Thread = nat
  type Content = Key -> seq<byte>

  datatype State = State(
    file: seq<byte>,
    synced: nat,                      // bytes that are durable
    doubtful: bool,                   // an fsync has failed since the log was opened
    index: map<Key, seq<byte>>,       // the log's in-memory map
    dram: map<Key, seq<byte>>,
    staging: map<Thread, Put>,        // a value on its way into DRAM
    acked: map<Key, seq<byte>>,       // the last value of each key whose append succeeded
    recs: seq<Rec>)                   // records wholly written

  datatype Action =
    | Append(t: Thread, rec: Rec, written: nat, fsynced: bool)
    | Fetch(t: Thread, key: Key)
    | Stage(t: Thread)
    | Evict(key: Key)
    | Crash(rec: Rec, written: nat, cut: nat)  // while `rec` was being appended, `written` bytes of it

  const INIT := State([], 0, false, map[], map[], map[], map[], [])

  // How many whole records the first `cut` bytes of the log hold.
  function WholeIn(recs: seq<Rec>, cut: nat): (n: nat)
    ensures n <= |recs|
  {
    if recs == [] || MIN_RECORD + |recs[0].blob| > cut then 0
    else 1 + WholeIn(recs[1..], cut - (MIN_RECORD + |recs[0].blob|))
  }

  ghost function AppendStep(s: State, t: Thread, rec: Rec, written: nat, fsynced: bool, crc: Crc): State
    requires Fits(rec)
  {
    var image := Encode(rec, crc);
    if written < |image| then s.(file := s.file + image[..written])
    else
      var u := s.(file := s.file + image, recs := s.recs + [rec]);
      if !fsynced then u.(doubtful := true)
      else
        u.(synced := if s.doubtful then s.synced else |u.file|, index := s.index[rec.key := rec.blob],
           staging := s.staging[t := Put(rec.key, rec.blob)], acked := s.acked[rec.key := rec.blob])
  }

  // The file with the record in flight, as far as it got.
  ghost function InFlight(file: seq<byte>, rec: Rec, written: nat, crc: Crc): seq<byte> {
    if !Fits(rec) then file
    else if written < |Encode(rec, crc)| then file + Encode(rec, crc)[..written]
    else file + Encode(rec, crc)
  }

  function WithFlight(recs: seq<Rec>, rec: Rec): seq<Rec> {
    if Fits(rec) then recs + [rec] else recs
  }

  // What the disk kept is replayed, and its torn tail cut off; memory is lost.
  ghost function CrashStep(s: State, rec: Rec, written: nat, cut: nat, crc: Crc): State {
    var disk := InFlight(s.file, rec, written, crc);
    if !(s.synced <= cut <= |disk|) then s
    else
      var (index, good) := Replay(disk[..cut], map[], crc);
      var all := WithFlight(s.recs, rec);
      State(disk[..good], good, false, index, map[], map[], s.acked, all[..WholeIn(all, cut)])
  }

  ghost function Act(s: State, a: Action, crc: Crc): State {
    match a
    case Append(t, rec, written, fsynced) =>
      if t in s.staging || !Fits(rec) then s else AppendStep(s, t, rec, written, fsynced, crc)
    case Fetch(t, key) =>
      if t !in s.staging && key !in s.dram && key in s.index
      then s.(staging := s.staging[t := Put(key, s.index[key])]) else s
    case Stage(t) =>
      if t in s.staging
      then s.(dram := s.dram[s.staging[t].key := s.staging[t].blob], staging := s.staging - {t}) else s
    case Evict(key) => s.(dram := s.dram - {key})
    case Crash(rec, written, cut) => CrashStep(s, rec, written, cut, crc)
  }

  ghost function Exec(s: State, sched: seq<Action>, crc: Crc): State
    decreases |sched|
  {
    if sched == [] then s else Exec(Act(s, sched[0], crc), sched[1..], crc)
  }

  // What a read returns: DRAM first, then the log.
  function Get(s: State, key: Key): Option<seq<byte>> {
    if key in s.dram then Some(s.dram[key]) else if key in s.index then Some(s.index[key]) else None
  }

  // One value per key, and no failed append that leaves bytes behind.
  ghost predicate Honest(a: Action, value: Content) {
    && (a.Append? && Fits(a.rec) ==>
          a.rec.blob == value(a.rec.key) && (a.written == 0 || (a.written >= MIN_RECORD + |a.rec.blob| && a.fsynced)))
    && (a.Crash? && Fits(a.rec) ==> a.rec.blob == value(a.rec.key))
  }

  // ----- Logs of content-addressed records -------------------------------

  ghost predicate Addressed(recs: seq<Rec>, value: Content) {
    forall r | r in recs :: Fits(r) && r.blob == value(r.key)
  }

  predicate HasKey(recs: seq<Rec>, k: Key) {
    exists i | 0 <= i < |recs| :: recs[i].key == k
  }

  lemma {:induction false} PutsValue(m: map<Key, seq<byte>>, recs: seq<Rec>, value: Content, k: Key)
    requires Addressed(recs, value) && (k in m ==> m[k] == value(k))
    ensures k in Puts(m, recs) <==> k in m || HasKey(recs, k)
    ensures k in Puts(m, recs) ==> Puts(m, recs)[k] == value(k)
    decreases |recs|
  {
    if recs != [] {
      assert recs[0] in recs;
      PutsValue(m[recs[0].key := recs[0].blob], recs[1..], value, k);
      assert HasKey(recs, k) <==> recs[0].key == k || HasKey(recs[1..], k) by {
        if HasKey(recs[1..], k) {
          var i :| 0 <= i < |recs[1..]| && recs[1..][i].key == k;
          assert recs[i + 1].key == k;
        }
        if HasKey(recs, k) {
          var i :| 0 <= i < |recs| && recs[i].key == k;
          if i > 0 { assert recs[1..][i - 1].key == k; }
        }
      }
    }
  }

  lemma HasKeyGrows(recs: seq<Rec>, m: nat, n: nat, k: Key)
    requires m <= n <= |recs| && HasKey(recs[..m], k)
    ensures HasKey(recs[..n], k)
  {
    var i :| 0 <= i < |recs[..m]| && recs[..m][i].key == k;
    assert recs[..n][i].key == k;
  }

  lemma LogFirst(recs: seq<Rec>, crc: Crc)
    requires recs != [] && forall r | r in recs :: Fits(r)
    ensures Log(recs, crc) == Encode(recs[0], crc) + Log(recs[1..], crc)
  {
    assert recs == [recs[0]] + recs[1..];
    LogConcat([recs[0]], recs[1..], crc);
    LogOne(recs[0], crc);
  }

  lemma CutStep(recs: seq<Rec>, n: nat, cut: nat, crc: Crc, tail: seq<byte>)
    requires (forall r | r in recs :: Fits(r)) && 1 <= n <= |recs|
    requires (forall r | r in recs[1..] :: Fits(r)) && forall r | r in recs[1..][..n - 1] :: Fits(r)
    requires |Encode(recs[0], crc)| <= cut <= |Encode(recs[0], crc)| + |Log(recs[1..], crc)|
    requires Log(recs[1..], crc)[..cut - |Encode(recs[0], crc)|] == Log(recs[1..][..n - 1], crc) + tail
    ensures cut <= |Log(recs, crc)| && Log(recs, crc)[..cut] == Log(recs[..n], crc) + tail
  {
    var kept := recs[..n];
    assert kept[1..] == recs[1..][..n - 1] && kept[0] == recs[0];
    LogFirst(recs, crc);
    LogFirst(kept, crc);
    CutBehind(Encode(recs[0], crc), Log(recs[1..], crc), cut, Log(recs[1..][..n - 1], crc), tail);
  }

  // A cut log is its whole records and a torn tail.
  lemma {:induction false} CutLog(recs: seq<Rec>, cut: nat, crc: Crc) returns (tail: seq<byte>)
    requires (forall r | r in recs :: Fits(r)) && cut <= |Log(recs, crc)|
    ensures Log(recs, crc)[..cut] == Log(recs[..WholeIn(recs, cut)], crc) + tail && ParseOne(tail, crc).Torn?
    decreases |recs|
  {
    var n := WholeIn(recs, cut);
    tail := [];
    if recs == [] {
      assert recs[..n] == [] && Log(recs, crc) == [];
    } else if n == 0 {
      tail := CutFirst(recs, cut, crc);
    } else {
      LogFirst(recs, crc);
      tail := CutLog(recs[1..], cut - |Encode(recs[0], crc)|, crc);
      CutStep(recs, n, cut, crc, tail);
    }
  }

  lemma CutFirst(recs: seq<Rec>, cut: nat, crc: Crc) returns (tail: seq<byte>)
    requires (forall r | r in recs :: Fits(r)) && recs != [] && cut < |Encode(recs[0], crc)|
    ensures cut <= |Log(recs, crc)| && Log(recs, crc)[..cut] == Log(recs[..0], crc) + tail && ParseOne(tail, crc).Torn?
  {
    tail := Encode(recs[0], crc)[..cut];
    LogFirst(recs, crc);
    CutIsTorn(recs[0], crc, cut);
    assert Images(recs[..0], crc) == [];
    assert Log(recs[..0], crc) + tail == tail;
  }

  lemma CutBehind(e: seq<byte>, l: seq<byte>, cut: nat, kept: seq<byte>, tail: seq<byte>)
    requires |e| <= cut <= |e| + |l| && l[..cut - |e|] == kept + tail
    ensures (e + l)[..cut] == (e + kept) + tail
  {
    assert (e + l)[..cut] == e + l[..cut - |e|];
  }

  lemma {:induction false} WholeInAtLeast(recs: seq<Rec>, n: nat, cut: nat, crc: Crc)
    requires (forall r | r in recs :: Fits(r)) && n <= |recs| && |Log(recs[..n], crc)| <= cut
    ensures n <= WholeIn(recs, cut)
    decreases |recs|
  {
    if n > 0 {
      LogFirst(recs[..n], crc);
      assert recs[..n][1..] == recs[1..][..n - 1];
      WholeInAtLeast(recs[1..], n - 1, cut - |Encode(recs[0], crc)|, crc);
    }
  }

  lemma LogPrefix(recs: seq<Rec>, n: nat, crc: Crc)
    requires (forall r | r in recs :: Fits(r)) && n <= |recs|
    ensures Log(recs[..n], crc) <= Log(recs, crc)
  {
    assert recs == recs[..n] + recs[n..];
    LogConcat(recs[..n], recs[n..], crc);
  }

  // Recovery from any cut of a log of whole records.
  lemma Recovers(recs: seq<Rec>, cut: nat, crc: Crc)
    requires (forall r | r in recs :: Fits(r)) && cut <= |Log(recs, crc)|
    ensures var kept := recs[..WholeIn(recs, cut)];
      Replay(Log(recs, crc)[..cut], map[], crc) == (Puts(map[], kept), |Log(kept, crc)|)
      && Log(recs, crc)[..|Log(kept, crc)|] == Log(kept, crc)
  {
    var n := WholeIn(recs, cut);
    var tail := CutLog(recs, cut, crc);
    ReplayLog(recs[..n], tail, map[], crc);
    LogPrefix(recs, n, crc);
  }

  // ----- The invariant ---------------------------------------------------

  ghost predicate DiskOk(s: State, value: Content, crc: Crc) {
    !s.doubtful && Addressed(s.recs, value) && s.file == Log(s.recs, crc) && s.synced == |s.file|
  }

  // The key's one value, indexed, and with a record in the log.
  ghost predicate Backed(value: Content, index: map<Key, seq<byte>>, log: seq<Rec>, k: Key, v: seq<byte>) {
    v == value(k) && k in index && HasKey(log, k)
  }

  // Everything in memory is backed.
  ghost predicate MemoryOk(s: State, value: Content) {
    && (forall k | k in s.index :: Backed(value, s.index, s.recs, k, s.index[k]))
    && (forall k | k in s.dram :: Backed(value, s.index, s.recs, k, s.dram[k]))
    && (forall t | t in s.staging :: Backed(value, s.index, s.recs, s.staging[t].key, s.staging[t].blob))
    && (forall k | k in s.acked :: k in s.index && s.acked[k] == value(k))
  }

  ghost predicate Inv(s: State, value: Content, crc: Crc) {
    DiskOk(s, value, crc) && MemoryOk(s, value)
  }

  lemma Appended(recs: seq<Rec>, rec: Rec, crc: Crc)
    requires Fits(rec) && forall r | r in recs :: Fits(r)
    ensures forall r | r in recs + [rec] :: Fits(r)
    ensures Log(recs + [rec], crc) == Log(recs, crc) + Encode(rec, crc)
  {
    LogConcat(recs, [rec], crc);
    LogOne(rec, crc);
  }

  lemma AppendDisk(s: State, t: Thread, rec: Rec, written: nat, fsynced: bool, value: Content, crc: Crc)
    requires DiskOk(s, value, crc) && Fits(rec) && Honest(Append(t, rec, written, fsynced), value)
    ensures DiskOk(AppendStep(s, t, rec, written, fsynced, crc), value, crc)
  {
    Appended(s.recs, rec, crc);
    if written < |Encode(rec, crc)| { assert s.file + Encode(rec, crc)[..0] == s.file; }
  }

  lemma BackedGrows(value: Content, index: map<Key, seq<byte>>, log: seq<Rec>, k: Key, v: seq<byte>,
                    newIndex: map<Key, seq<byte>>, newLog: seq<Rec>)
    requires Backed(value, index, log, k, v) && k in newIndex && log <= newLog
    ensures Backed(value, newIndex, newLog, k, v)
  {
    assert newLog[..|log|] == log && newLog[..|newLog|] == newLog;
    HasKeyGrows(newLog, |log|, |newLog|, k);
  }

  lemma MemoryGrows(s: State, u: State, value: Content)
    requires MemoryOk(s, value) && s.recs <= u.recs
    requires u.index == s.index && u.dram == s.dram && u.staging == s.staging && u.acked == s.acked
    ensures MemoryOk(u, value)
  {
    forall k, v | Backed(value, s.index, s.recs, k, v) ensures Backed(value, s.index, u.recs, k, v) {
      BackedGrows(value, s.index, s.recs, k, v, s.index, u.recs);
    }
  }

  // The index gains a key that is backed.
  lemma IndexGrows(s: State, value: Content, key: Key)
    requires MemoryOk(s, value) && HasKey(s.recs, key)
    ensures MemoryOk(s.(index := s.index[key := value(key)], acked := s.acked[key := value(key)]), value)
  {
    var more := s.index[key := value(key)];
    forall k, v | Backed(value, s.index, s.recs, k, v) ensures Backed(value, more, s.recs, k, v) {
      BackedGrows(value, s.index, s.recs, k, v, more, s.recs);
    }
  }

  lemma FetchMemory(s: State, t: Thread, key: Key, value: Content)
    requires MemoryOk(s, value) && key in s.index
    ensures MemoryOk(s.(staging := s.staging[t := Put(key, s.index[key])]), value)
  {
  }

  // A record wholly written and synced.
  lemma AckedMemory(s: State, t: Thread, rec: Rec, value: Content)
    requires MemoryOk(s, value) && rec.blob == value(rec.key)
    ensures MemoryOk(s.(recs := s.recs + [rec], index := s.index[rec.key := rec.blob],
                        acked := s.acked[rec.key := rec.blob], staging := s.staging[t := Put(rec.key, rec.blob)]), value)
  {
    var grown := s.(recs := s.recs + [rec]);
    MemoryGrows(s, grown, value);
    assert grown.recs[|s.recs|].key == rec.key;
    IndexGrows(grown, value, rec.key);
    FetchMemory(grown.(index := s.index[rec.key := value(rec.key)], acked := s.acked[rec.key := value(rec.key)]),
                t, rec.key, value);
  }

  lemma AppendMemory(s: State, t: Thread, rec: Rec, written: nat, fsynced: bool, value: Content, crc: Crc)
    requires MemoryOk(s, value) && Fits(rec) && rec.blob == value(rec.key)
    ensures MemoryOk(AppendStep(s, t, rec, written, fsynced, crc), value)
  {
    var u := AppendStep(s, t, rec, written, fsynced, crc);
    if written < |Encode(rec, crc)| || !fsynced {
      MemoryGrows(s, u, value);
    } else {
      AckedMemory(s, t, rec, value);
      MemoryGrows(s.(recs := u.recs, index := u.index, acked := u.acked, staging := u.staging), u, value);
    }
  }

  // The crashed disk is a cut of the log with the record in flight appended whole.
  lemma FlightIsCut(recs: seq<Rec>, rec: Rec, written: nat, cut: nat, crc: Crc)
    requires (forall r | r in recs :: Fits(r)) && cut <= |InFlight(Log(recs, crc), rec, written, crc)|
    ensures forall r | r in WithFlight(recs, rec) :: Fits(r)
    ensures var disk := InFlight(Log(recs, crc), rec, written, crc); var log := Log(WithFlight(recs, rec), crc);
      disk <= log && cut <= |log| && disk[..cut] == log[..cut]
  {
    if Fits(rec) {
      Appended(recs, rec, crc);
      PrefixCut(Log(recs, crc), Encode(rec, crc), written, cut);
    }
  }

  lemma PrefixCut(log: seq<byte>, image: seq<byte>, written: nat, cut: nat)
    ensures var disk := log + if written < |image| then image[..written] else image;
      disk <= log + image && (cut <= |disk| ==> disk[..cut] == (log + image)[..cut])
  {
  }

  // What recovery finds on a cut that keeps at least the log itself: the log, perhaps with the record in flight.
  lemma RecoversFlight(recs: seq<Rec>, rec: Rec, written: nat, cut: nat, crc: Crc)
    requires forall r | r in recs :: Fits(r)
    requires |Log(recs, crc)| <= cut <= |InFlight(Log(recs, crc), rec, written, crc)|
    ensures var disk := InFlight(Log(recs, crc), rec, written, crc); var all := WithFlight(recs, rec);
      var kept := all[..WholeIn(all, cut)];
      && recs <= kept && (forall r | r in kept :: Fits(r) && r in all)
      && Replay(disk[..cut], map[], crc) == (Puts(map[], kept), |Log(kept, crc)|)
      && Log(kept, crc) <= disk
  {
    var disk, all := InFlight(Log(recs, crc), rec, written, crc), WithFlight(recs, rec);
    var n := WholeIn(all, cut);
    var kept := all[..n];
    assert forall r | r in kept :: r in all;
    FlightIsCut(recs, rec, written, cut, crc);
    assert all[..|recs|] == recs;
    WholeInAtLeast(all, |recs|, cut, crc);
    assert recs <= kept;
    Recovers(all, cut, crc);
    WithinCut(Log(kept, crc), Log(all, crc), disk, cut);
  }

  lemma WithinCut(kept: seq<byte>, log: seq<byte>, disk: seq<byte>, cut: nat)
    requires kept <= log && |kept| <= cut <= |disk| && disk <= log
    ensures kept <= disk
  {
  }

  lemma Recovered(s: State, rec: Rec, written: nat, cut: nat, value: Content, crc: Crc)
    requires DiskOk(s, value, crc) && (Fits(rec) ==> rec.blob == value(rec.key))
    requires s.synced <= cut <= |InFlight(s.file, rec, written, crc)|
    ensures var u := CrashStep(s, rec, written, cut, crc);
      DiskOk(u, value, crc) && s.recs <= u.recs && u.index == Puts(map[], u.recs)
  {
    RecoversFlight(s.recs, rec, written, cut, crc);
  }

  lemma CrashKeeps(s: State, rec: Rec, written: nat, cut: nat, value: Content, crc: Crc)
    requires Inv(s, value, crc) && Honest(Crash(rec, written, cut), value)
    ensures Inv(CrashStep(s, rec, written, cut, crc), value, crc)
  {
    if s.synced <= cut <= |InFlight(s.file, rec, written, crc)| {
      var u := CrashStep(s, rec, written, cut, crc);
      Recovered(s, rec, written, cut, value, crc);
      RecoveredMemory(s, u, value);
    }
  }

  lemma RecoveredMemory(s: State, u: State, value: Content)
    requires MemoryOk(s, value) && Addressed(u.recs, value) && s.recs <= u.recs && u.index == Puts(map[], u.recs)
    requires u.dram == map[] && u.staging == map[] && u.acked == s.acked
    ensures MemoryOk(u, value)
  {
    forall k | k in u.index ensures Backed(value, u.index, u.recs, k, u.index[k]) { PutsValue(map[], u.recs, value, k); }
    forall k | k in u.acked ensures k in u.index {
      BackedGrows(value, s.index, s.recs, k, s.index[k], s.index, u.recs);
      PutsValue(map[], u.recs, value, k);
    }
  }

  lemma StageMemory(s: State, t: Thread, value: Content)
    requires MemoryOk(s, value) && t in s.staging
    ensures MemoryOk(s.(dram := s.dram[s.staging[t].key := s.staging[t].blob], staging := s.staging - {t}), value)
  {
  }

  // A step that leaves the disk alone.
  lemma DiskUnmoved(s: State, u: State, value: Content, crc: Crc)
    requires Inv(s, value, crc) && MemoryOk(u, value)
    requires u.file == s.file && u.synced == s.synced && u.recs == s.recs && u.doubtful == s.doubtful
    ensures Inv(u, value, crc)
  {
  }

  lemma FetchKeeps(s: State, t: Thread, key: Key, value: Content, crc: Crc)
    requires Inv(s, value, crc) && t !in s.staging && key !in s.dram && key in s.index
    ensures Inv(s.(staging := s.staging[t := Put(key, s.index[key])]), value, crc)
  {
    FetchMemory(s, t, key, value);
    DiskUnmoved(s, s.(staging := s.staging[t := Put(key, s.index[key])]), value, crc);
  }

  lemma StageKeeps(s: State, t: Thread, value: Content, crc: Crc)
    requires Inv(s, value, crc) && t in s.staging
    ensures Inv(s.(dram := s.dram[s.staging[t].key := s.staging[t].blob], staging := s.staging - {t}), value, crc)
  {
    StageMemory(s, t, value);
    DiskUnmoved(s, s.(dram := s.dram[s.staging[t].key := s.staging[t].blob], staging := s.staging - {t}), value, crc);
  }

  lemma EvictMemory(s: State, key: Key, value: Content)
    requires MemoryOk(s, value)
    ensures MemoryOk(s.(dram := s.dram - {key}), value)
  {
  }

  lemma EvictKeeps(s: State, key: Key, value: Content, crc: Crc)
    requires Inv(s, value, crc)
    ensures Inv(s.(dram := s.dram - {key}), value, crc)
  {
    EvictMemory(s, key, value);
    DiskUnmoved(s, s.(dram := s.dram - {key}), value, crc);
  }

  lemma AppendKeeps(s: State, t: Thread, rec: Rec, written: nat, fsynced: bool, value: Content, crc: Crc)
    requires Inv(s, value, crc) && Honest(Append(t, rec, written, fsynced), value)
    ensures Inv(Act(s, Append(t, rec, written, fsynced), crc), value, crc)
  {
    if t !in s.staging && Fits(rec) {
      AppendDisk(s, t, rec, written, fsynced, value, crc);
      AppendMemory(s, t, rec, written, fsynced, value, crc);
    }
  }

  lemma ActKeeps(s: State, a: Action, value: Content, crc: Crc)
    requires Inv(s, value, crc) && Honest(a, value)
    ensures Inv(Act(s, a, crc), value, crc)
  {
    match a
    case Append(t, rec, written, fsynced) => AppendKeeps(s, t, rec, written, fsynced, value, crc);
    case Fetch(t, key) =>
      if t !in s.staging && key !in s.dram && key in s.index { FetchKeeps(s, t, key, value, crc); }
    case Stage(t) => if t in s.staging { StageKeeps(s, t, value, crc); }
    case Evict(key) => EvictKeeps(s, key, value, crc);
    case Crash(rec, written, cut) => CrashKeeps(s, rec, written, cut, value, crc);
  }

  lemma {:induction false} ExecKeeps(s: State, sched: seq<Action>, value: Content, crc: Crc)
    requires Inv(s, value, crc) && forall i | 0 <= i < |sched| :: Honest(sched[i], value)
    ensures Inv(Exec(s, sched, crc), value, crc)
    decreases |sched|
  {
    if sched != [] {
      ActKeeps(s, sched[0], value, crc);
      ExecKeeps(Act(s, sched[0], crc), sched[1..], value, crc);
    }
  }

  lemma ReadsAcked(s: State, value: Content, k: Key)
    requires MemoryOk(s, value) && k in s.acked
    ensures Get(s, k) == Some(value(k)) && s.acked[k] == value(k)
  {
  }

  lemma CrashForgetsNoAck(s: State, rec: Rec, written: nat, cut: nat, crc: Crc)
    ensures Act(s, Crash(rec, written, cut), crc).acked == s.acked
  {
  }

  lemma {:induction false} ExecSnoc(s: State, sched: seq<Action>, a: Action, crc: Crc)
    ensures Exec(s, sched + [a], crc) == Act(Exec(s, sched, crc), a, crc)
    decreases |sched|
  {
    if sched == [] {
      assert [a][1..] == [];
    } else {
      assert (sched + [a])[1..] == sched[1..] + [a];
      ExecSnoc(Act(s, sched[0], crc), sched[1..], a, crc);
    }
  }

  lemma ResidentOnDisk(s: State, value: Content, crc: Crc, k: Key)
    requires Inv(s, value, crc) && k in s.dram
    ensures var onDisk := Replay(s.file[..s.synced], map[], crc).0; k in onDisk && onDisk[k] == s.dram[k]
  {
    assert s.file[..s.synced] == Log(s.recs, crc) + [];
    ReplayLog(s.recs, [], map[], crc);
    PutsValue(map[], s.recs, value, k);
  }

  lemma RunsKeep(sched: seq<Action>, value: Content, crc: Crc)
    requires forall i | 0 <= i < |sched| :: Honest(sched[i], value)
    ensures Inv(Exec(INIT, sched, crc), value, crc)
  {
    InitInv(value, crc);
    ExecKeeps(INIT, sched, value, crc);
  }

  lemma AckedReadable(sched: seq<Action>, value: Content, crc: Crc, k: Key)
    requires forall i | 0 <= i < |sched| :: Honest(sched[i], value)
    requires k in Exec(INIT, sched, crc).acked
    ensures Get(Exec(INIT, sched, crc), k) == Some(value(k)) && Exec(INIT, sched, crc).acked[k] == value(k)
  {
    RunsKeep(sched, value, crc);
    ReadsAcked(Exec(INIT, sched, crc), value, k);
  }

  // In every run of puts, reads, evictions and crashes with one value per key and no failed append that leaves
  // bytes behind, a read of any key whose append ever succeeded returns its value, also right after one more crash,
  // whatever was being appended and whatever the disk kept of it.
  lemma AckedSurvives(sched: seq<Action>, value: Content, crc: Crc, k: Key, rec: Rec, written: nat, cut: nat)
    requires forall i | 0 <= i < |sched| :: Honest(sched[i], value)
    requires k in Exec(INIT, sched, crc).acked && (Fits(rec) ==> rec.blob == value(rec.key))
    ensures Get(Exec(INIT, sched, crc), k) == Some(value(k)) && Exec(INIT, sched, crc).acked[k] == value(k)
    ensures Get(Act(Exec(INIT, sched, crc), Crash(rec, written, cut), crc), k) == Some(value(k))
  {
    var crash := Crash(rec, written, cut);
    AckedReadable(sched, value, crc, k);
    ExecSnoc(INIT, sched, crash, crc);
    CrashForgetsNoAck(Exec(INIT, sched, crc), rec, written, cut, crc);
    AckedReadable(sched + [crash], value, crc, k);
  }

  // In every such run each entry resident in DRAM equals its copy in the durable bytes of the log.
  lemma ResidentIsDurable(sched: seq<Action>, value: Content, crc: Crc, k: Key)
    requires forall i | 0 <= i < |sched| :: Honest(sched[i], value)
    requires k in Exec(INIT, sched, crc).dram
    ensures var s := Exec(INIT, sched, crc);
      && s.synced <= |s.file|
      && var onDisk := Replay(s.file[..s.synced], map[], crc).0; k in onDisk && onDisk[k] == s.dram[k]
  {
    RunsKeep(sched, value, crc);
    ResidentOnDisk(Exec(INIT, sched, crc), value, crc, k);
  }

  lemma InitInv(value: Content, crc: Crc)
    ensures Inv(INIT, value, crc)
  {
    assert Images([], crc) == [];
  }

  lemma ShortThenWhole(x: Rec, w: nat, y: Rec, crc: Crc)
    requires Fits(x) && Fits(y) && w < |Encode(x, crc)|
    ensures var s := Exec(INIT, [Append(0, x, w, true), Append(0, y, |Encode(y, crc)|, true)], crc);
      s.file == AfterShort([], x, w, [y], crc) && s.synced == |s.file| && y.key in s.acked
  {
    var a, b := Append(0, x, w, true), Append(0, y, |Encode(y, crc)|, true);
    var s1 := Act(INIT, a, crc);
    assert s1.file == Encode(x, crc)[..w] && s1.staging == map[];
    assert Exec(INIT, [a, b], crc) == Exec(s1, [b], crc) == Exec(Act(s1, b, crc), [], crc);
    LogOne(y, crc);
    assert Images([], crc) == [];
  }

  // One append that stops part-way, at any byte, is enough to lose a later successful one: after the next
  // crash a key that was acknowledged reads as absent.
  lemma PartWriteLosesAcked(w: nat, crc: Crc)
    requires 0 < w < 0x8000_0000
    ensures var x, y := Sample(7, w + 1), Sample(8, 0);
      var s := Exec(INIT, [Append(0, x, w, true), Append(0, y, MIN_RECORD, true)], crc);
      y.key in s.acked && Get(Act(s, Crash(x, 0, s.synced), crc), y.key) == None
  {
    var x, y := Sample(7, w + 1), Sample(8, 0);
    ShortThenWhole(x, w, y, crc);
    ShortWriteLoses(w, crc);
    var s := Exec(INIT, [Append(0, x, w, true), Append(0, y, MIN_RECORD, true)], crc);
    assert InFlight(s.file, x, 0, crc) == s.file;
    assert s.file[..s.synced] == s.file;
  }

  // So is one append whose fsync fails.
  lemma FailedSyncLosesAcked(x: Rec, y: Rec, crc: Crc)
    requires Fits(x) && Fits(y)
    ensures var s := Exec(INIT, [Append(0, x, |Encode(x, crc)|, false), Append(0, y, |Encode(y, crc)|, true)], crc);
      y.key in s.acked && Get(Act(s, Crash(x, 0, 0), crc), y.key) == None
  {
    var a, b := Append(0, x, |Encode(x, crc)|, false), Append(0, y, |Encode(y, crc)|, true);
    var s1 := Act(INIT, a, crc);
    var s2 := Act(s1, b, crc);
    assert s1.doubtful && s1.synced == 0 && s1.staging == map[];
    assert Exec(INIT, [a, b], crc) == Exec(s1, [b], crc) == Exec(s2, [], crc);
    assert InFlight(s2.file, x, 0, crc) == s2.file;
    assert s2.file[..0] == [];
  }
}

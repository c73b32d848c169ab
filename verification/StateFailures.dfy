/**
 Which failed appends the durable state plane tolerates: those that leave nothing behind.
 */
module StateFailures {
  import opened Bytes
  import opened WalFormat
  import opened StatePlane

  // The lengths of failed writes that may occur.
  type Stray = nat -> bool

  // An append writes nothing, or one of the stray lengths, or everything; `syncFails` says whether its fsync may fail.
  ghost predicate Outcome(a: Action, value: Content, stray: Stray, syncFails: bool) {
    && (a.Append? && Fits(a.rec) ==>
          && a.rec.blob == value(a.rec.key)
          && (if a.written < MIN_RECORD + |a.rec.blob| then a.written == 0 || stray(a.written) else a.fsynced || syncFails))
    && (a.Crash? && Fits(a.rec) ==> a.rec.blob == value(a.rec.key))
  }

  ghost predicate Run(sched: seq<Action>, value: Content, stray: Stray, syncFails: bool) {
    forall i | 0 <= i < |sched| :: Outcome(sched[i], value, stray, syncFails)
  }

  // Every acknowledged put is read back, now and after a crash at this point.
  ghost predicate Survives(s: State, value: Content, crc: Crc) {
    forall k, crash: Action | k in s.acked && crash.Crash? && (Fits(crash.rec) ==> crash.rec.blob == value(crash.rec.key)) ::
      Get(s, k) == Some(s.acked[k]) && Get(Act(s, crash, crc), k) == Some(s.acked[k])
  }

  // Nothing but the file differs, and that may only have grown.
  ghost predicate Hidden(s: State, u: State) {
    && u.index == s.index && u.dram == s.dram && u.staging == s.staging && u.acked == s.acked && u.synced == s.synced
    && s.file <= u.file
  }

  lemma ShortAppendHidden(s: State, t: nat, rec: Rec, written: nat, fsynced: bool, crc: Crc)
    requires Fits(rec) && written < MIN_RECORD + |rec.blob|
    ensures Hidden(s, AppendStep(s, t, rec, written, fsynced, crc))
  {
  }

  lemma UnsyncedAppendHidden(s: State, t: nat, rec: Rec, written: nat, crc: Crc)
    requires Fits(rec) && written >= MIN_RECORD + |rec.blob|
    ensures Hidden(s, AppendStep(s, t, rec, written, false, crc))
  {
  }

  // An append that fails, in its write or in its sync, shows nowhere.
  lemma FailedAppendHidden(s: State, t: nat, rec: Rec, written: nat, fsynced: bool, crc: Crc)
    requires !(Fits(rec) && t !in s.staging && written >= MIN_RECORD + |rec.blob| && fsynced)
    ensures Hidden(s, Act(s, Append(t, rec, written, fsynced), crc))
    ensures forall k :: Get(Act(s, Append(t, rec, written, fsynced), crc), k) == Get(s, k)
  {
    if Fits(rec) && t !in s.staging {
      if written < MIN_RECORD + |rec.blob| {
        ShortAppendHidden(s, t, rec, written, fsynced, crc);
      } else {
        UnsyncedAppendHidden(s, t, rec, written, crc);
      }
    }
  }

  // An append that succeeds is acknowledged, on its way into DRAM, and read back at once unless DRAM holds the key already.
  lemma WholeAppendShows(s: State, t: nat, rec: Rec, crc: Crc)
    requires Fits(rec) && t !in s.staging
    ensures var u := Act(s, Append(t, rec, MIN_RECORD + |rec.blob|, true), crc);
      && u.file == s.file + Encode(rec, crc) && u.index == s.index[rec.key := rec.blob] && u.acked == s.acked[rec.key := rec.blob]
      && t in u.staging && u.staging[t].key == rec.key && u.staging[t].blob == rec.blob && u.dram == s.dram
      && (rec.key !in s.dram ==> Get(u, rec.key) == Some(rec.blob))
  {
  }

  // A crash loses memory and keeps a prefix of the file that the disk had reached, with everything durable in it.
  lemma CrashLosesMemory(s: State, rec: Rec, cut: nat, crc: Crc)
    requires s.synced <= cut <= |s.file|
    ensures var u := Act(s, Crash(rec, 0, cut), crc);
      && u.dram == map[] && u.staging == map[] && u.file <= s.file[..cut]
      && u.index == Replay(s.file[..cut], map[], crc).0 && !u.doubtful
  {
    assert InFlight(s.file, rec, 0, crc) == s.file;
  }

  lemma CleanSurvives(sched: seq<Action>, value: Content, stray: Stray, crc: Crc)
    requires Run(sched, value, stray, false) && (forall w | w > 0 :: !stray(w))
    ensures Survives(Exec(INIT, sched, crc), value, crc)
  {
    var s := Exec(INIT, sched, crc);
    assert forall i | 0 <= i < |sched| :: Honest(sched[i], value) by {
      forall i | 0 <= i < |sched| ensures Honest(sched[i], value) {
        assert Outcome(sched[i], value, stray, false);
      }
    }
    forall k, crash: Action | k in s.acked && crash.Crash? && (Fits(crash.rec) ==> crash.rec.blob == value(crash.rec.key))
      ensures Get(s, k) == Some(s.acked[k]) && Get(Act(s, crash, crc), k) == Some(s.acked[k])
    {
      AckedSurvives(sched, value, crc, k, crash.rec, crash.written, crash.cut);
    }
  }

  // The blobs of two records with different keys.
  function Pair(x: Rec, y: Rec): Content {
    k => if k == x.key then x.blob else y.blob
  }

  lemma Lost(s: State, value: Content, crc: Crc, k: Key, crash: Action)
    requires k in s.acked && crash.Crash? && crash.rec.blob == value(crash.rec.key) && Get(Act(s, crash, crc), k) == None
    ensures !Survives(s, value, crc)
  {
  }

  lemma TwoAppends(x: Rec, written: nat, fsynced: bool, y: Rec, stray: Stray, syncFails: bool)
    requires x.key != y.key
    requires if written < MIN_RECORD + |x.blob| then stray(written) else syncFails
    ensures Run([Append(0, x, written, fsynced), Append(0, y, MIN_RECORD + |y.blob|, true)], Pair(x, y), stray, syncFails)
  {
  }

  lemma FailedSyncBreaks(stray: Stray, crc: Crc) returns (value: Content, sched: seq<Action>)
    ensures Run(sched, value, stray, true) && !Survives(Exec(INIT, sched, crc), value, crc)
  {
    var x, y := Sample(7, 1), Sample(8, 0);
    value, sched := Pair(x, y), [Append(0, x, MIN_RECORD + |x.blob|, false), Append(0, y, MIN_RECORD + |y.blob|, true)];
    assert x.key[0] != y.key[0];
    TwoAppends(x, MIN_RECORD + |x.blob|, false, y, stray, true);
    FailedSyncLosesAcked(x, y, crc);
    Lost(Exec(INIT, sched, crc), value, crc, y.key, Crash(x, 0, 0));
  }

  lemma StrayBreaks(stray: Stray, syncFails: bool, crc: Crc, w: nat) returns (value: Content, sched: seq<Action>)
    requires 0 < w < 0x8000_0000 && stray(w)
    ensures Run(sched, value, stray, syncFails) && !Survives(Exec(INIT, sched, crc), value, crc)
  {
    var x, y := Sample(7, w + 1), Sample(8, 0);
    value, sched := Pair(x, y), [Append(0, x, w, true), Append(0, y, MIN_RECORD + |y.blob|, true)];
    assert x.key[0] != y.key[0];
    TwoAppends(x, w, true, y, stray, syncFails);
    PartWriteLosesAcked(w, crc);
    Lost(Exec(INIT, sched, crc), value, crc, y.key, Crash(x, 0, Exec(INIT, sched, crc).synced));
  }

  // Whatever the values, every acknowledged put survives every run and one more crash if and only if no fsync may fail
  // and no failed write may leave a byte.
  lemma SurvivesIff(stray: Stray, syncFails: bool, crc: Crc)
    requires forall w | stray(w) :: w < 0x8000_0000
    ensures (forall value: Content, sched | Run(sched, value, stray, syncFails) :: Survives(Exec(INIT, sched, crc), value, crc))
      <==> !syncFails && forall w | w > 0 :: !stray(w)
  {
    if syncFails {
      var value, sched := FailedSyncBreaks(stray, crc);
    } else if w: nat :| w > 0 && stray(w) {
      var value, sched := StrayBreaks(stray, syncFails, crc, w);
    } else {
      forall value: Content, sched | Run(sched, value, stray, syncFails) ensures Survives(Exec(INIT, sched, crc), value, crc) {
        CleanSurvives(sched, value, stray, crc);
      }
    }
  }
}

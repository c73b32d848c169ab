/**
 The state write-ahead log byte by byte: records, the replay loop of `Open`, torn tails, and what a short
 write leaves behind. The checksum is an arbitrary function of the record body.
 */
module WalFormat {
  import opened Bytes
  import opened Wire

  const KEY_LEN: nat := 16
  const ID_LEN: nat := 128
  const MIN_RECORD: nat := 157    // length, op, key, identity, blob length, checksum
  const MIN_BODY: nat := 149      // op, key, identity, blob length
  const OP_PUT: byte := 1

  type Key = seq<byte>
  type Crc = seq<byte> -> u32

  datatype Rec = Rec(key: Key, id: seq<byte>, blob: seq<byte>)

  // What fits in one record; `Append` refuses a longer blob.
  predicate Fits(r: Rec) {
    |r.key| == KEY_LEN && |r.id| == ID_LEN && MIN_RECORD + |r.blob| < 0x1_0000_0000
  }

  // The four little-endian bytes of `v`.
  function U32(v: u32): (b: seq<byte>)
    ensures |b| == 4 && GetLE(b) == v
  {
    Widths();
    GetPut(v, 4);
    PutLE(v, 4)
  }

  function Body(r: Rec): (b: seq<byte>)
    requires Fits(r)
    ensures |b| == MIN_BODY + |r.blob|
  {
    [OP_PUT] + r.key + r.id + U32(|r.blob|) + r.blob
  }

  function Encode(r: Rec, crc: Crc): (b: seq<byte>)
    requires Fits(r)
    ensures |b| == MIN_RECORD + |r.blob|
  {
    U32(MIN_RECORD + |r.blob|) + Body(r) + U32(crc(Body(r)))
  }

  // ----- Replay ----------------------------------------------------------

  datatype Put = Put(key: Key, blob: seq<byte>)
  datatype Parsed = Torn | Other(len: nat) | One(put: Put, len: nat)

  // One turn of the replay loop on the bytes from `off` on.
  function ParseBody(body: seq<byte>, len: nat): Parsed
    requires |body| >= MIN_BODY
  {
    if body[0] != OP_PUT then Other(len)
    else if GetLE(body[145..149]) != |body| - MIN_BODY then Torn
    else One(Put(body[1..17], body[149..]), len)
  }

  function ParseOne(buf: seq<byte>, crc: Crc): (p: Parsed)
    ensures !p.Torn? ==> MIN_RECORD <= p.len <= |buf|
  {
    if |buf| < 4 then Torn
    else
      var len := GetLE(buf[..4]);
      if len < MIN_RECORD || len > |buf| then Torn
      else
        var body := buf[4..len - 4];
        if crc(body) != GetLE(buf[len - 4..len]) then Torn
        else ParseBody(body, len)
  }

  function Store(m: map<Key, seq<byte>>, p: Parsed): map<Key, seq<byte>> {
    if p.One? then m[p.put.key := p.put.blob] else m
  }

  type Parser = seq<byte> -> Parsed

  function ParserFor(crc: Crc): Parser {
    buf => ParseOne(buf, crc)
  }

  ghost predicate Sane(parse: Parser) {
    forall buf :: !parse(buf).Torn? ==> 1 <= parse(buf).len <= |buf|
  }

  // The index after scanning, and the offset past the last good record.
  ghost function Scan(buf: seq<byte>, m: map<Key, seq<byte>>, parse: Parser): (r: (map<Key, seq<byte>>, nat))
    requires Sane(parse)
    ensures r.1 <= |buf|
    decreases |buf|
  {
    var p := parse(buf);
    if p.Torn? then (m, 0)
    else
      var (n, good) := Scan(buf[p.len..], Store(m, p), parse);
      (n, good + p.len)
  }

  ghost function Replay(buf: seq<byte>, m: map<Key, seq<byte>>, crc: Crc): (r: (map<Key, seq<byte>>, nat))
    ensures r.1 <= |buf|
  {
    Scan(buf, m, ParserFor(crc))
  }

  // ----- Whole images ----------------------------------------------------

  // Bytes that parse as one put, whatever follows them.
  datatype Image = Image(bytes: seq<byte>, put: Put)

  ghost predicate Whole(im: Image, parse: Parser) {
    forall rest: seq<byte> :: parse(im.bytes + rest) == One(im.put, |im.bytes|)
  }

  function Cat(ims: seq<Image>): seq<byte> {
    if ims == [] then [] else ims[0].bytes + Cat(ims[1..])
  }

  function PutAll(m: map<Key, seq<byte>>, ims: seq<Image>): map<Key, seq<byte>>
    decreases |ims|
  {
    if ims == [] then m else PutAll(m[ims[0].put.key := ims[0].put.blob], ims[1..])
  }

  lemma ScanStep(im: Image, rest: seq<byte>, m: map<Key, seq<byte>>, parse: Parser)
    requires Sane(parse) && Whole(im, parse)
    ensures var after := Scan(rest, m[im.put.key := im.put.blob], parse);
      Scan(im.bytes + rest, m, parse) == (after.0, after.1 + |im.bytes|)
  {
    assert (im.bytes + rest)[|im.bytes|..] == rest;
  }

  // Scanning whole images before a torn tail recovers exactly their puts and ends where they end.
  lemma {:induction false} ScanImages(ims: seq<Image>, tail: seq<byte>, m: map<Key, seq<byte>>, parse: Parser)
    requires Sane(parse) && (forall im | im in ims :: Whole(im, parse)) && parse(tail).Torn?
    ensures Scan(Cat(ims) + tail, m, parse) == (PutAll(m, ims), |Cat(ims)|)
    decreases |ims|
  {
    if ims == [] {
      assert Cat(ims) + tail == tail;
    } else {
      assert Cat(ims) + tail == ims[0].bytes + (Cat(ims[1..]) + tail);
      ScanStep(ims[0], Cat(ims[1..]) + tail, m, parse);
      ScanImages(ims[1..], tail, m[ims[0].put.key := ims[0].put.blob], parse);
    }
  }

  // ----- A log of whole records ------------------------------------------

  ghost function Images(recs: seq<Rec>, crc: Crc): (ims: seq<Image>)
    requires forall r | r in recs :: Fits(r)
    ensures |ims| == |recs| && forall i | 0 <= i < |recs| :: ims[i] == Image(Encode(recs[i], crc), Put(recs[i].key, recs[i].blob))
  {
    seq(|recs|, i requires 0 <= i < |recs| => Image(Encode(recs[i], crc), Put(recs[i].key, recs[i].blob)))
  }

  ghost function Log(recs: seq<Rec>, crc: Crc): seq<byte>
    requires forall r | r in recs :: Fits(r)
  {
    Cat(Images(recs, crc))
  }

  function Puts(m: map<Key, seq<byte>>, recs: seq<Rec>): map<Key, seq<byte>>
    decreases |recs|
  {
    if recs == [] then m else Puts(m[recs[0].key := recs[0].blob], recs[1..])
  }

  // A key is left with the blob of its last record, or as it was if it has none.
  lemma {:induction false} PutsLast(m: map<Key, seq<byte>>, recs: seq<Rec>, i: nat)
    requires i < |recs| && forall j | i < j < |recs| :: recs[j].key != recs[i].key
    ensures recs[i].key in Puts(m, recs) && Puts(m, recs)[recs[i].key] == recs[i].blob
    decreases |recs|
  {
    if i > 0 {
      PutsLast(m[recs[0].key := recs[0].blob], recs[1..], i - 1);
    } else {
      PutsOther(m[recs[0].key := recs[0].blob], recs[1..], recs[0].key);
    }
  }

  lemma {:induction false} PutsOther(m: map<Key, seq<byte>>, recs: seq<Rec>, k: Key)
    requires forall r | r in recs :: r.key != k
    ensures k in Puts(m, recs) <==> k in m
    ensures k in m ==> Puts(m, recs)[k] == m[k]
    decreases |recs|
  {
    if recs != [] { PutsOther(m[recs[0].key := recs[0].blob], recs[1..], k); }
  }

  lemma BodyFields(r: Rec)
    requires Fits(r)
    ensures var b := Body(r);
      |b| == MIN_BODY + |r.blob| && b[0] == OP_PUT && b[1..17] == r.key && b[149..] == r.blob && b[145..149] == U32(|r.blob|)
  {
    var b := Body(r);
    var head := [OP_PUT] + r.key + r.id;
    assert |head| == 145 && b == head + U32(|r.blob|) + r.blob;
    assert b[1..17] == r.key;
  }

  lemma ParseBodyEncoded(r: Rec, len: nat)
    requires Fits(r)
    ensures ParseBody(Body(r), len) == One(Put(r.key, r.blob), len)
  {
    BodyFields(r);
  }

  lemma Sections(r: Rec, crc: Crc, rest: seq<byte>)
    requires Fits(r)
    ensures var buf := Encode(r, crc) + rest; var len := MIN_RECORD + |r.blob|;
      buf[..4] == U32(len) && buf[4..len - 4] == Body(r) && buf[len - 4..len] == U32(crc(Body(r))) && buf[len..] == rest
  {
    var len := MIN_RECORD + |r.blob|;
    var buf := Encode(r, crc) + rest;
    assert buf == U32(len) + (Body(r) + (U32(crc(Body(r))) + rest));
  }

  // A whole record parses back to its own key and blob, whatever follows it.
  lemma ParseEncoded(r: Rec, crc: Crc, rest: seq<byte>)
    requires Fits(r)
    ensures ParseOne(Encode(r, crc) + rest, crc) == One(Put(r.key, r.blob), |Encode(r, crc)|)
    ensures (Encode(r, crc) + rest)[|Encode(r, crc)|..] == rest
  {
    Sections(r, crc, rest);
    ParseBodyEncoded(r, MIN_RECORD + |r.blob|);
  }

  // A record cut short at any byte is recognised as torn.
  lemma CutIsTorn(r: Rec, crc: Crc, w: nat)
    requires Fits(r) && w < |Encode(r, crc)|
    ensures ParseOne(Encode(r, crc)[..w], crc).Torn?
  {
    Sections(r, crc, []);
    if w >= 4 { assert Encode(r, crc)[..w][..4] == U32(MIN_RECORD + |r.blob|); }
  }

  lemma ImagesWhole(recs: seq<Rec>, crc: Crc)
    requires forall r | r in recs :: Fits(r)
    ensures forall im | im in Images(recs, crc) :: Whole(im, ParserFor(crc))
  {
    forall i | 0 <= i < |recs| ensures Whole(Images(recs, crc)[i], ParserFor(crc)) {
      assert recs[i] in recs;
      forall rest: seq<byte>
        ensures ParseOne(Encode(recs[i], crc) + rest, crc) == One(Put(recs[i].key, recs[i].blob), |Encode(recs[i], crc)|)
      {
        ParseEncoded(recs[i], crc, rest);
      }
    }
  }

  lemma {:induction false} PutsOfImages(m: map<Key, seq<byte>>, recs: seq<Rec>, ims: seq<Image>)
    requires |ims| == |recs| && forall i | 0 <= i < |recs| :: ims[i].put == Put(recs[i].key, recs[i].blob)
    ensures PutAll(m, ims) == Puts(m, recs)
    decreases |recs|
  {
    if recs != [] { PutsOfImages(m[recs[0].key := recs[0].blob], recs[1..], ims[1..]); }
  }

  // Replaying whole records before a torn tail recovers exactly the records and ends where they end.
  lemma ReplayLog(recs: seq<Rec>, tail: seq<byte>, m: map<Key, seq<byte>>, crc: Crc)
    requires (forall r | r in recs :: Fits(r)) && ParseOne(tail, crc).Torn?
    ensures Replay(Log(recs, crc) + tail, m, crc) == (Puts(m, recs), |Log(recs, crc)|)
  {
    ImagesWhole(recs, crc);
    ScanImages(Images(recs, crc), tail, m, ParserFor(crc));
    PutsOfImages(m, recs, Images(recs, crc));
  }

  // Crash recovery: whole records followed by any proper prefix of one more record replay to the whole
  // records alone, and the torn bytes are cut off.
  lemma RecoversEveryWholeRecord(recs: seq<Rec>, torn: Rec, w: nat, crc: Crc)
    requires (forall r | r in recs :: Fits(r)) && Fits(torn) && w < |Encode(torn, crc)|
    ensures var buf := Log(recs, crc) + Encode(torn, crc)[..w];
      Replay(buf, map[], crc) == (Puts(map[], recs), |Log(recs, crc)|) && buf[..|Log(recs, crc)|] == Log(recs, crc)
  {
    CutIsTorn(torn, crc, w);
    ReplayLog(recs, Encode(torn, crc)[..w], map[], crc);
  }

  lemma {:induction false} CatConcat(a: seq<Image>, b: seq<Image>)
    ensures Cat(a + b) == Cat(a) + Cat(b)
    decreases |a|
  {
    if a == [] {
      assert a + b == b;
    } else {
      assert (a + b)[1..] == a[1..] + b;
      CatConcat(a[1..], b);
    }
  }

  lemma LogConcat(a: seq<Rec>, b: seq<Rec>, crc: Crc)
    requires (forall r | r in a :: Fits(r)) && forall r | r in b :: Fits(r)
    ensures Log(a + b, crc) == Log(a, crc) + Log(b, crc)
  {
    assert Images(a + b, crc) == Images(a, crc) + Images(b, crc);
    CatConcat(Images(a, crc), Images(b, crc));
  }

  lemma {:induction false} PutsConcat(m: map<Key, seq<byte>>, a: seq<Rec>, b: seq<Rec>)
    ensures Puts(m, a + b) == Puts(Puts(m, a), b)
    decreases |a|
  {
    if a == [] {
      assert a + b == b;
    } else {
      assert (a + b)[1..] == a[1..] + b;
      PutsConcat(m[a[0].key := a[0].blob], a[1..], b);
    }
  }

  // ----- Short writes ----------------------------------------------------

  // A write of `x` stopped after `w` bytes; the process went on and appended `ys` whole.
  ghost function AfterShort(recs: seq<Rec>, x: Rec, w: nat, ys: seq<Rec>, crc: Crc): seq<byte>
    requires (forall r | r in recs :: Fits(r)) && Fits(x) && forall r | r in ys :: Fits(r)
    requires w <= |Encode(x, crc)|
  {
    Log(recs, crc) + (Encode(x, crc)[..w] + Log(ys, crc))
  }

  // As long as the bytes behind the short record still fit inside its announced length, every record
  // appended after it is lost at the next open.
  lemma ShortRecordSwallows(recs: seq<Rec>, x: Rec, w: nat, ys: seq<Rec>, crc: Crc)
    requires (forall r | r in recs :: Fits(r)) && Fits(x) && forall r | r in ys :: Fits(r)
    requires 4 <= w && w + |Log(ys, crc)| < |Encode(x, crc)|
    ensures Replay(AfterShort(recs, x, w, ys, crc), map[], crc) == (Puts(map[], recs), |Log(recs, crc)|)
  {
    var tail := Encode(x, crc)[..w] + Log(ys, crc);
    Sections(x, crc, []);
    assert tail[..4] == U32(MIN_RECORD + |x.blob|);
    ReplayLog(recs, tail, map[], crc);
  }

  // Every record appended whole after the short write is recovered.
  ghost predicate Harmless(w: nat, crc: Crc) {
    forall recs: seq<Rec>, x: Rec, y: Rec | (forall r | r in recs :: Fits(r)) && Fits(x) && Fits(y) && w < |Encode(x, crc)| ::
      Recovered(recs, x, w, y, crc)
  }

  ghost predicate Recovered(recs: seq<Rec>, x: Rec, w: nat, y: Rec, crc: Crc)
    requires (forall r | r in recs :: Fits(r)) && Fits(x) && Fits(y)
    requires w < |Encode(x, crc)|
  {
    var m := Replay(AfterShort(recs, x, w, [y], crc), map[], crc).0;
    y.key in m && m[y.key] == y.blob
  }

  function Sample(k: byte, n: nat): Rec {
    Rec(seq(KEY_LEN, i => k), seq(ID_LEN, i => 0), seq(n, i => 0))
  }

  lemma LogOne(r: Rec, crc: Crc)
    requires Fits(r)
    ensures Log([r], crc) == Encode(r, crc)
  {
    var ims := Images([r], crc);
    assert Cat(ims) == ims[0].bytes + Cat(ims[1..]);
    assert Cat(ims[1..]) == [];
  }

  lemma ShortLength(a: seq<byte>, w: nat)
    requires 1 <= w <= 3 && |a| == w
    ensures GetLE(a + U32(MIN_RECORD)[..4 - w]) > w + MIN_RECORD
  {
    assert U32(MIN_RECORD) == [157] + PutLE(0, 3);
    var b := a + U32(MIN_RECORD)[..4 - w];
    assert b[w] == 157;
    assert GetLE(b) == b[0] + 256 * GetLE(b[1..]);
    assert GetLE(b[1..]) == b[1] + 256 * GetLE(b[1..][1..]);
    if w >= 2 {
      assert b[1..][1..] == b[2..];
      assert GetLE(b[2..]) == b[2] + 256 * GetLE(b[2..][1..]);
      if w == 3 {
        assert b[2..][1..] == b[3..];
        assert GetLE(b[3..]) == b[3] + 256 * GetLE(b[3..][1..]);
      }
    }
  }

  lemma ShortWriteLoses(w: nat, crc: Crc)
    requires 0 < w < 0x8000_0000
    ensures Fits(Sample(7, w + 1)) && Fits(Sample(8, 0)) && w < |Encode(Sample(7, w + 1), crc)|
    ensures Replay(AfterShort([], Sample(7, w + 1), w, [Sample(8, 0)], crc), map[], crc).0 == map[]
    ensures !Recovered([], Sample(7, w + 1), w, Sample(8, 0), crc)
  {
    var x, y := Sample(7, w + 1), Sample(8, 0);
    LogOne(y, crc);
    if w >= 4 {
      ShortRecordSwallows([], x, w, [y], crc);
    } else {
      var tail := Encode(x, crc)[..w] + Encode(y, crc);
      Sections(y, crc, []);
      assert Encode(y, crc)[..4] == U32(MIN_RECORD);
      assert tail[..4] == Encode(x, crc)[..w] + U32(MIN_RECORD)[..4 - w];
      ShortLength(Encode(x, crc)[..w], w);
      ReplayLog([], tail, map[], crc);
      assert AfterShort([], x, w, [y], crc) == tail;
    }
  }

  lemma LastPut(m: map<Key, seq<byte>>, recs: seq<Rec>, y: Rec)
    ensures Puts(m, recs + [y]) == Puts(m, recs)[y.key := y.blob]
  {
    PutsConcat(m, recs, [y]);
    assert Puts(Puts(m, recs), [y]) == Puts(Puts(m, recs)[y.key := y.blob], [y][1..]);
  }

  lemma NothingWritten(recs: seq<Rec>, x: Rec, y: Rec, crc: Crc)
    requires (forall r | r in recs :: Fits(r)) && Fits(x) && Fits(y)
    ensures AfterShort(recs, x, 0, [y], crc) == Log(recs + [y], crc) + []
  {
    LogConcat(recs, [y], crc);
  }

  lemma NothingWrittenRecovers(recs: seq<Rec>, x: Rec, y: Rec, crc: Crc)
    requires (forall r | r in recs :: Fits(r)) && Fits(x) && Fits(y)
    ensures Recovered(recs, x, 0, y, crc)
  {
    NothingWritten(recs, x, y, crc);
    ReplayLog(recs + [y], [], map[], crc);
    LastPut(map[], recs, y);
  }

  // A failed write of `w` bytes, short of a whole record, leaves every later append recoverable exactly when it wrote
  // nothing: `Append` does not cut its stray bytes off, and replay stops at them. One write moves under 2 GiB.
  lemma ShortWriteHarmlessIff(w: nat, crc: Crc)
    requires w < 0x8000_0000
    ensures Harmless(w, crc) <==> w == 0
  {
    if w > 0 {
      ShortWriteLoses(w, crc);
    } else {
      forall recs: seq<Rec>, x: Rec, y: Rec | (forall r | r in recs :: Fits(r)) && Fits(x) && Fits(y)
        ensures Recovered(recs, x, 0, y, crc)
      {
        NothingWrittenRecovers(recs, x, y, crc);
      }
    }
  }
}

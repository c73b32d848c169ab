/** Where each field of a log record lies, byte by byte, and that replay takes exactly such records. */
module WalLayout {
  import opened Bytes
  import opened Wire
  import opened WireLayout
  import opened WalFormat

  // The first bytes of the buffer are this record: length, operation, key, identity, blob length, blob, and the checksum
  // of everything between the length and itself.
  ghost predicate RecordAt(b: seq<byte>, r: Rec, crc: Crc) {
    && |r.key| == 16 && |r.id| == 128 && 157 + |r.blob| <= |b|
    && Number(b, 0, 4, 157 + |r.blob|) && b[4] == 1 && Text(b, 5, r.key) && Text(b, 21, r.id)
    && Number(b, 149, 4, |r.blob|) && Text(b, 153, r.blob)
    && Number(b, 153 + |r.blob|, 4, crc(b[4..153 + |r.blob|]))
  }

  // The fields between length and checksum.
  ghost predicate FieldsAt(b: seq<byte>, r: Rec)
    requires 157 + |r.blob| <= |b|
  {
    b[4] == 1 && Text(b, 5, r.key) && Text(b, 21, r.id) && Number(b, 149, 4, |r.blob|) && Text(b, 153, r.blob)
  }

  lemma Sub(b: seq<byte>, hi: nat, i: nat, j: nat)
    requires i <= j && 4 + j <= hi <= |b|
    ensures b[4..hi][i..j] == b[4 + i..4 + j]
  {
    var part, same := b[4..hi][i..j], b[4 + i..4 + j];
    assert |part| == |same|;
    forall k | 0 <= k < |part| ensures part[k] == same[k] {
      assert part[k] == b[4..hi][i + k] == b[4 + i + k];
    }
  }

  lemma FieldsOfBody(b: seq<byte>, r: Rec)
    requires Fits(r) && 157 + |r.blob| <= |b| && b[4..153 + |r.blob|] == Body(r)
    ensures FieldsAt(b, r)
  {
    var body := b[4..153 + |r.blob|];
    assert body == [OP_PUT] + (r.key + (r.id + (U32(|r.blob|) + r.blob)));
    assert body[1..17] == r.key && body[17..145] == r.id && body[145..149] == U32(|r.blob|) && body[149..] == r.blob;
    var hi := 153 + |r.blob|;
    Sub(b, hi, 1, 17);
    Sub(b, hi, 17, 145);
    Sub(b, hi, 145, 149);
    Sub(b, hi, 149, 149 + |r.blob|);
    assert b[4] == body[0] && body[149..] == body[149..149 + |r.blob|];
    TextIff(b, 5, r.key);
    TextIff(b, 21, r.id);
    TextIff(b, 153, r.blob);
    NumberIff(b, 149, 4, |r.blob|);
  }

  lemma BodyOfFields(b: seq<byte>, r: Rec)
    requires Fits(r) && 157 + |r.blob| <= |b| && FieldsAt(b, r)
    ensures b[4..153 + |r.blob|] == Body(r)
  {
    TextIff(b, 5, r.key);
    TextIff(b, 21, r.id);
    TextIff(b, 153, r.blob);
    Widths();
    NumberIff(b, 149, 4, |r.blob|);
    assert b[4..153 + |r.blob|] == b[4..5] + b[5..21] + b[21..149] + b[149..153] + b[153..153 + |r.blob|];
    assert b[4..5] == [OP_PUT];
  }

  lemma LayoutOfEncoded(b: seq<byte>, r: Rec, crc: Crc)
    requires Fits(r) && Encode(r, crc) <= b
    ensures RecordAt(b, r, crc)
  {
    var len := 157 + |r.blob|;
    assert b == Encode(r, crc) + b[len..];
    Sections(r, crc, b[len..]);
    assert b[0..4] == b[..4] && b[len - 4..len] == b[len - 4..len - 4 + 4];
    FieldsOfBody(b, r);
    NumberIff(b, 0, 4, len);
    NumberIff(b, len - 4, 4, crc(b[4..len - 4]));
  }

  lemma EncodedOfLayout(b: seq<byte>, r: Rec, crc: Crc)
    requires Fits(r) && RecordAt(b, r, crc)
    ensures Encode(r, crc) <= b
  {
    var len := 157 + |r.blob|;
    BodyOfFields(b, r);
    Widths();
    NumberIff(b, 0, 4, len);
    NumberIff(b, len - 4, 4, crc(b[4..len - 4]));
    assert b[..len] == b[0..4] + b[4..len - 4] + b[len - 4..len];
  }

  // A record's image is its layout, and nothing else is.
  lemma EncodedIff(b: seq<byte>, r: Rec, crc: Crc)
    requires Fits(r)
    ensures Encode(r, crc) <= b <==> RecordAt(b, r, crc)
  {
    if Encode(r, crc) <= b { LayoutOfEncoded(b, r, crc); }
    if RecordAt(b, r, crc) { EncodedOfLayout(b, r, crc); }
  }

  // Replay takes a put off the front of a buffer exactly when some record with that key and blob lies there, and takes
  // exactly that record.
  lemma ParsedIff(b: seq<byte>, crc: Crc, put: Put)
    ensures ParseOne(b, crc).One? && ParseOne(b, crc).put == put <==>
      exists id: seq<byte> :: RecordAt(b, Rec(put.key, id, put.blob), crc)
    ensures ParseOne(b, crc).One? ==> ParseOne(b, crc).len == 157 + |ParseOne(b, crc).put.blob|
  {
    if id: seq<byte> :| RecordAt(b, Rec(put.key, id, put.blob), crc) {
      var r := Rec(put.key, id, put.blob);
      Widths();
      EncodedOfLayout(b, r, crc);
      assert b == Encode(r, crc) + b[157 + |put.blob|..];
      ParseEncoded(r, crc, b[157 + |put.blob|..]);
    }
    if ParseOne(b, crc).One? { ParsedLayout(b, crc); }
  }

  lemma ParsedLayout(b: seq<byte>, crc: Crc)
    requires ParseOne(b, crc).One?
    ensures var p := ParseOne(b, crc);
      p.len == 157 + |p.put.blob| && |b| >= 157 && RecordAt(b, Rec(p.put.key, b[21..149], p.put.blob), crc)
  {
    var len := GetLE(b[..4]);
    var key, blob, body := b[5..21], b[153..len - 4], b[4..len - 4];
    assert b[0..4] == b[..4];
    Sub(b, len - 4, 1, 17);
    Sub(b, len - 4, 145, 149);
    Sub(b, len - 4, 149, len - 8);
    assert body[1..17] == key && body[145..149] == b[149..153] && body[149..] == body[149..len - 8] == blob;
    NumberIff(b, 0, 4, len);
    TextIff(b, 5, key);
    TextIff(b, 21, b[21..149]);
    TextIff(b, 153, blob);
    NumberIff(b, 149, 4, |blob|);
    NumberIff(b, len - 4, 4, crc(body));
  }

  // The buffer begins with a record of a length that fits and whose checksum does not match its body.
  ghost predicate Corrupt(b: seq<byte>, crc: Crc, len: nat) {
    157 <= len <= |b| && Number(b, 0, 4, len) && !Number(b, len - 4, 4, crc(b[4..len - 4]))
  }

  lemma CorruptIsTorn(b: seq<byte>, crc: Crc, len: nat)
    requires Corrupt(b, crc, len)
    ensures ParseOne(b, crc).Torn?
  {
    NumberIff(b, 0, 4, len);
    NumberIff(b, len - 4, 4, crc(b[4..len - 4]));
    assert b[..4] == b[0..4];
  }

  // Whole records before a corrupt one replay to exactly themselves; the corrupt one and everything behind it is cut off.
  lemma CorruptEndsReplay(recs: seq<Rec>, tail: seq<byte>, m: map<Key, seq<byte>>, crc: Crc, len: nat)
    requires (forall r | r in recs :: Fits(r)) && Corrupt(tail, crc, len)
    ensures Replay(Log(recs, crc) + tail, m, crc) == (Puts(m, recs), |Log(recs, crc)|)
  {
    CorruptIsTorn(tail, crc, len);
    ReplayLog(recs, tail, m, crc);
  }

  lemma ParsesOther(b: seq<byte>, crc: Crc, len: nat)
    requires 157 <= len <= |b| && Number(b, 0, 4, len) && b[4] != 1 && Number(b, len - 4, 4, crc(b[4..len - 4]))
    ensures ParseOne(b, crc) == Other(len)
  {
    NumberIff(b, 0, 4, len);
    NumberIff(b, len - 4, 4, crc(b[4..len - 4]));
    assert b[..4] == b[0..4];
  }

  // A record of another operation with a matching checksum is passed over.
  lemma OtherIsSkipped(b: seq<byte>, m: map<Key, seq<byte>>, crc: Crc, len: nat)
    requires 157 <= len <= |b| && Number(b, 0, 4, len) && b[4] != 1 && Number(b, len - 4, 4, crc(b[4..len - 4]))
    ensures var rest := Replay(b[len..], m, crc); Replay(b, m, crc) == (rest.0, rest.1 + len)
  {
    ParsesOther(b, crc, len);
  }
}

/** The write-ahead log object and the two state-plane calls of the node over it and DRAM. */
module StateWal {
  import opened Bytes
  import opened WalFormat

  const OK := 0
  const NOT_FOUND := -3
  const TIER_DOWN := -8
  const INTERNAL := -99

  class StateWal {
    const crc: Crc
    var file: seq<byte>
    var index: map<Key, seq<byte>>

    // Replay the file a previous process left and cut its torn tail off.
    constructor Open(buf: seq<byte>, crc: Crc)
      ensures this.crc == crc && index == Replay(buf, map[], crc).0 && file == buf[..Replay(buf, map[], crc).1]
    {
      this.crc := crc;
      var m: map<Key, seq<byte>> := map[];
      var off, goodEnd := 0, 0;
      var torn := false;
      ghost var all := Replay(buf, map[], crc);
      while !torn
        invariant 0 <= goodEnd == off <= |buf|
        invariant var rest := Replay(buf[off..], m, crc); all == (rest.0, off + rest.1)
        invariant torn ==> ParseOne(buf[off..], crc).Torn?
        decreases !torn, |buf| - off
      {
        var p := ParseOne(buf[off..], crc);
        if p.Torn? {
          torn := true;
        } else {
          m := Store(m, p);
          assert buf[off..][p.len..] == buf[off + p.len..];
          off := off + p.len;
          goodEnd := off;
        }
      }
      index, file := m, buf[..goodEnd];
    }

    // `written` bytes of the record reach the file, and `fsynced` says whether the sync succeeds.
    method Append(rec: Rec, written: nat, fsynced: bool) returns (ok: bool)
      requires |rec.key| == KEY_LEN && |rec.id| == ID_LEN
      modifies this`file, this`index
      ensures ok <==> Fits(rec) && written >= MIN_RECORD + |rec.blob| && fsynced
      ensures !Fits(rec) ==> file == old(file)
      ensures Fits(rec) ==> file == old(file) + if written < |Encode(rec, crc)| then Encode(rec, crc)[..written] else Encode(rec, crc)
      ensures index == if ok then old(index)[rec.key := rec.blob] else old(index)
    {
      var len := MIN_RECORD + |rec.blob|;
      if len > 0xFFFF_FFFF {
        return false;
      }
      var body := [OP_PUT] + rec.key + rec.id + U32(|rec.blob|) + rec.blob;
      var image := U32(len) + body + U32(crc(body));
      assert image == Encode(rec, crc);
      if written < |image| {
        file := file + image[..written];
        return false;
      }
      file := file + image;
      if !fsynced {
        return false;
      }
      index := index[rec.key := rec.blob];
      return true;
    }

    method Get(key: Key) returns (r: Option<seq<byte>>)
      ensures r == if key in index then Some(index[key]) else None
    {
      if key in index {
        return Some(index[key]);
      }
      return None;
    }
  }

  // The node's side: DRAM in front of the log, which a node may be without.
  class StatePlane {
    const wal: StateWal?
    var dram: map<Key, seq<byte>>

    constructor (wal: StateWal?)
      ensures this.wal == wal && dram == map[]
    {
      this.wal, dram := wal, map[];
    }

    // The log first, DRAM second: nothing is staged unless it is durable.
    method StatePut(rec: Rec, written: nat, fsynced: bool) returns (rc: int)
      requires |rec.key| == KEY_LEN && |rec.id| == ID_LEN
      modifies this`dram, wal
      ensures rc == TIER_DOWN <==> wal == null
      ensures rc == OK <==> wal != null && Fits(rec) && written >= MIN_RECORD + |rec.blob| && fsynced
      ensures rc == OK || rc == TIER_DOWN || rc == INTERNAL
      ensures rc == OK ==> wal.index == old(wal.index)[rec.key := rec.blob] && dram == old(dram)[rec.key := rec.blob]
      ensures rc == OK ==> wal.file == old(wal.file) + Encode(rec, wal.crc)
      ensures rc != OK ==> dram == old(dram) && (wal != null ==> wal.index == old(wal.index))
    {
      if wal == null {
        return TIER_DOWN;
      }
      var ok := wal.Append(rec, written, fsynced);
      if !ok {
        return INTERNAL;
      }
      dram := dram[rec.key := rec.blob];
      return OK;
    }

    // DRAM first, then a replay from the log, which is staged again.
    method StateGet(key: Key) returns (rc: int, out: seq<byte>)
      modifies this`dram
      ensures rc == TIER_DOWN <==> wal == null
      ensures rc == OK <==> wal != null && (key in old(dram) || key in wal.index)
      ensures rc == OK ==> out == (if key in old(dram) then old(dram)[key] else wal.index[key]) && dram == old(dram)[key := out]
      ensures rc != OK ==> (rc == NOT_FOUND || rc == TIER_DOWN) && out == [] && dram == old(dram)
    {
      if wal == null {
        return TIER_DOWN, [];
      }
      if key in dram {
        out := dram[key];
        assert dram[key := out] == dram;
        return OK, out;
      }
      var r := wal.Get(key);
      if r.Some? {
        dram := dram[key := r.value];
        return OK, r.value;
      }
      return NOT_FOUND, [];
    }
  }
}

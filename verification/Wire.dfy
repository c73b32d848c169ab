/** The fixed-size little-endian messages engine and agent exchange through the ring. */
module Wire {
  import opened Bytes
  import Wrapping

  const REQUEST_SIZE: nat := 44
  const RESPONSE_SIZE: nat := 64
  const MAX_NODE_ID: nat := 40

  type u32 = v: nat | v < 0x1_0000_0000
  type u64 = v: nat | v < 0x1_0000_0000_0000_0000
  type Id16 = s: seq<byte> | |s| == 16 witness seq(16, i => 0)

  datatype Request = Request(op: u32, requestId: u64, tenantId: Id16, prefixHash: Id16)

  datatype Response = Response(requestId: u64, status: u32, source: u32, matchedTokens: u32, nodeId: seq<byte>)

  // ----- Little-endian integers ------------------------------------------

  function Pow256(w: nat): (p: nat)
    ensures p >= 1
  {
    if w == 0 then 1 else 256 * Pow256(w - 1)
  }

  function PutLE(v: nat, w: nat): (b: seq<byte>)
    ensures |b| == w
  {
    if w == 0 then [] else [v % 256] + PutLE(v / 256, w - 1)
  }

  function GetLE(b: seq<byte>): nat {
    if b == [] then 0 else b[0] + 256 * GetLE(b[1..])
  }

  lemma {:induction false} GetPut(v: nat, w: nat)
    requires v < Pow256(w)
    ensures GetLE(PutLE(v, w)) == v
  {
    if w > 0 {
      GetPut(v / 256, w - 1);
      assert PutLE(v, w)[1..] == PutLE(v / 256, w - 1);
    }
  }

  lemma {:induction false} PutGet(b: seq<byte>)
    ensures GetLE(b) < Pow256(|b|) && PutLE(GetLE(b), |b|) == b
  {
    if b != [] {
      PutGet(b[1..]);
      var rest := GetLE(b[1..]);
      assert (b[0] + 256 * rest) % 256 == b[0] && (b[0] + 256 * rest) / 256 == rest;
    }
  }

  lemma Widths()
    ensures Pow256(4) == 0x1_0000_0000 && Pow256(8) == 0x1_0000_0000_0000_0000
  {
    assert Pow256(4) == 0x1_0000_0000;
    assert Pow256(8) == 256 * (256 * (256 * (256 * Pow256(4))));
  }

  lemma {:induction false} GetSnoc(b: seq<byte>, x: byte)
    ensures GetLE(b + [x]) == GetLE(b) + Pow256(|b|) * x
  {
    if b == [] {
      assert b + [x] == [x];
      assert GetLE([x]) == x + 256 * GetLE([]);
    } else {
      GetSnoc(b[1..], x);
      assert (b + [x])[1..] == b[1..] + [x];
      assert 256 * (Pow256(|b| - 1) * x) == Pow256(|b|) * x;
    }
  }

  lemma DivDiv(v: nat, m: nat)
    requires m > 0
    ensures (v / 256) / m == v / (256 * m)
  {
    var q := v / 256;
    var a := q / m;
    assert q == m * a + q % m;
    assert v == 256 * q + v % 256;
    assert v == (256 * m) * a + (256 * (q % m) + v % 256);
    Wrapping.UniqueRemainder(v, 256 * m, a, 256 * (q % m) + v % 256);
  }

  lemma {:induction false} PutDigit(v: nat, w: nat, i: nat)
    requires i < w
    ensures PutLE(v, w)[i] == (v / Pow256(i)) % 256
  {
    if i > 0 {
      PutDigit(v / 256, w - 1, i - 1);
      DivDiv(v, Pow256(i - 1));
    }
  }

  // PutU64 and GetU64 as the source's byte loops.
  method PutU64(b: seq<byte>, v: u64) returns (r: seq<byte>)
    ensures r == b + PutLE(v, 8)
  {
    r := b;
    for i := 0 to 8
      invariant r == b + PutLE(v, 8)[..i]
    {
      PutDigit(v, 8, i);
      r := r + [(v / Pow256(i)) % 256];
    }
  }

  method GetU64(p: seq<byte>) returns (v: nat)
    requires |p| >= 8
    ensures v == GetLE(p[..8])
  {
    v := 0;
    for i := 0 to 8
      invariant v == GetLE(p[..i])
    {
      GetSnoc(p[..i], p[i]);
      assert p[..i] + [p[i]] == p[..i + 1];
      v := v + Pow256(i) * p[i];
    }
  }

  // ----- Requests --------------------------------------------------------

  function SerializeRequest(r: Request): (b: seq<byte>)
    ensures |b| == REQUEST_SIZE
  {
    PutLE(r.op, 4) + PutLE(r.requestId, 8) + r.tenantId + r.prefixHash
  }

  function U32At(b: seq<byte>, at: nat): u32
    requires at + 4 <= |b|
  {
    Widths();
    PutGet(b[at..at + 4]);
    GetLE(b[at..at + 4])
  }

  function U64At(b: seq<byte>, at: nat): u64
    requires at + 8 <= |b|
  {
    Widths();
    PutGet(b[at..at + 8]);
    GetLE(b[at..at + 8])
  }

  function ParseRequest(b: seq<byte>): Option<Request> {
    if |b| < REQUEST_SIZE then None
    else Some(Request(U32At(b, 0), U64At(b, 4), b[12..28], b[28..44]))
  }

  lemma RequestReadBack(b: seq<byte>, r: Request)
    requires SerializeRequest(r) <= b
    ensures ParseRequest(b) == Some(r)
  {
    Widths();
    GetPut(r.op, 4);
    GetPut(r.requestId, 8);
    var w := SerializeRequest(r);
    assert b[0..4] == w[0..4] == PutLE(r.op, 4);
    assert b[4..12] == w[4..12] == PutLE(r.requestId, 8);
    assert b[12..28] == w[12..28] == r.tenantId;
    assert b[28..44] == w[28..44] == r.prefixHash;
  }

  lemma ParsedRequestImage(b: seq<byte>)
    requires |b| >= REQUEST_SIZE
    ensures SerializeRequest(ParseRequest(b).value) == b[..REQUEST_SIZE]
  {
    PutGet(b[0..4]);
    PutGet(b[4..12]);
    assert b[..44] == b[0..4] + b[4..12] + b[12..28] + b[28..44];
  }

  // Parsing accepts exactly the buffers that begin with the request's wire image,
  // whatever bytes follow it in the slot.
  lemma ParseRequestIff(b: seq<byte>, r: Request)
    ensures ParseRequest(b) == Some(r) <==> SerializeRequest(r) <= b
  {
    if SerializeRequest(r) <= b { RequestReadBack(b, r); }
    if |b| >= REQUEST_SIZE { ParsedRequestImage(b); }
  }

  // ----- Responses -------------------------------------------------------

  function Clip(nodeId: seq<byte>): (n: seq<byte>)
    ensures |n| <= MAX_NODE_ID
  {
    if |nodeId| > MAX_NODE_ID then nodeId[..MAX_NODE_ID] else nodeId
  }

  function SerializeResponse(r: Response): (b: seq<byte>)
    ensures |b| == RESPONSE_SIZE
  {
    var n := Clip(r.nodeId);
    PutLE(r.requestId, 8) + PutLE(r.status, 4) + PutLE(r.source, 4) + PutLE(r.matchedTokens, 4)
    + PutLE(|n|, 4) + n + seq(MAX_NODE_ID - |n|, i => 0)
  }

  function ParseResponse(b: seq<byte>): Option<Response> {
    if |b| < RESPONSE_SIZE then None
    else
      var n := U32At(b, 20);
      if n > MAX_NODE_ID then None
      else Some(Response(U64At(b, 0), U32At(b, 8), U32At(b, 12), U32At(b, 16), b[24..24 + n]))
  }

  lemma ResponseFields(b: seq<byte>, id: seq<byte>, st: seq<byte>, so: seq<byte>, mt: seq<byte>, len: seq<byte>,
                       n: seq<byte>, pad: seq<byte>)
    requires |id| == 8 && |st| == |so| == |mt| == |len| == 4
    requires id + st + so + mt + len + n + pad <= b
    ensures 24 + |n| <= |b| && b[0..8] == id && b[8..12] == st && b[12..16] == so && b[16..20] == mt && b[20..24] == len
    ensures b[24..24 + |n|] == n
  {
    var w := id + st + so + mt + len + n + pad;
    assert w[0..8] == id && w[8..12] == st && w[12..16] == so && w[16..20] == mt && w[20..24] == len;
    assert w[24..24 + |n|] == n;
    assert forall i | 0 <= i < |w| :: b[i] == w[i];
  }

  lemma ReadAt(b: seq<byte>, at: nat, v: nat, w: nat)
    requires at + w <= |b| && b[at..at + w] == PutLE(v, w) && v < Pow256(w)
    ensures GetLE(b[at..at + w]) == v
  {
    GetPut(v, w);
  }

  // What comes back from any slot that begins with the response's wire image.
  lemma ResponseReadBack(b: seq<byte>, r: Response)
    requires SerializeResponse(r) <= b
    ensures ParseResponse(b) == Some(r.(nodeId := Clip(r.nodeId)))
  {
    Widths();
    var n := Clip(r.nodeId);
    ResponseFields(b, PutLE(r.requestId, 8), PutLE(r.status, 4), PutLE(r.source, 4), PutLE(r.matchedTokens, 4),
                   PutLE(|n|, 4), n, seq(MAX_NODE_ID - |n|, i => 0));
    ReadAt(b, 0, r.requestId, 8);
    ReadAt(b, 8, r.status, 4);
    ReadAt(b, 12, r.source, 4);
    ReadAt(b, 16, r.matchedTokens, 4);
    ReadAt(b, 20, |n|, 4);
  }

  // A response survives the wire exactly when its node id fits.
  lemma ResponseRoundTripIff(b: seq<byte>, r: Response)
    requires SerializeResponse(r) <= b
    ensures ParseResponse(b) == Some(r) <==> |r.nodeId| <= MAX_NODE_ID
  {
    ResponseReadBack(b, r);
  }
}

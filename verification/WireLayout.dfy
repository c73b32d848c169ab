/** Where each field of a message lies on the wire, byte by byte, and that parsing reads exactly that. */
module WireLayout {
  import opened Bytes
  import opened Wire

  // The w bytes at `at` are v, least significant byte first.
  ghost predicate Number(b: seq<byte>, at: nat, w: nat, v: nat) {
    at + w <= |b| && v < Pow256(w) && forall i | 0 <= i < w :: b[at + i] == v / Pow256(i) % 256
  }

  ghost predicate Text(b: seq<byte>, at: nat, text: seq<byte>) {
    at + |text| <= |b| && forall i | 0 <= i < |text| :: b[at + i] == text[i]
  }

  ghost predicate RequestAt(b: seq<byte>, r: Request) {
    |b| >= 44 && Number(b, 0, 4, r.op) && Number(b, 4, 8, r.requestId) && Text(b, 12, r.tenantId) && Text(b, 28, r.prefixHash)
  }

  ghost predicate ResponseAt(b: seq<byte>, r: Response) {
    && |b| >= 64 && Number(b, 0, 8, r.requestId) && Number(b, 8, 4, r.status) && Number(b, 12, 4, r.source)
    && Number(b, 16, 4, r.matchedTokens) && |r.nodeId| <= 40 && Number(b, 20, 4, |r.nodeId|) && Text(b, 24, r.nodeId)
  }

  lemma NumberIff(b: seq<byte>, at: nat, w: nat, v: nat)
    requires at + w <= |b|
    ensures Number(b, at, w, v) <==> GetLE(b[at..at + w]) == v
    ensures v < Pow256(w) ==> (Number(b, at, w, v) <==> b[at..at + w] == PutLE(v, w))
  {
    var s := b[at..at + w];
    PutGet(s);
    forall i | 0 <= i < w ensures PutLE(v, w)[i] == v / Pow256(i) % 256 && s[i] == b[at + i] { PutDigit(v, w, i); }
    if Number(b, at, w, v) {
      forall i | 0 <= i < w ensures s[i] == PutLE(v, w)[i] { assert b[at + i] == v / Pow256(i) % 256; }
      assert s == PutLE(v, w);
      GetPut(v, w);
    }
    if GetLE(s) == v {
      assert s == PutLE(v, w);
      forall i | 0 <= i < w ensures b[at + i] == v / Pow256(i) % 256 { assert s[i] == PutLE(v, w)[i]; }
    }
  }

  lemma TextIff(b: seq<byte>, at: nat, text: seq<byte>)
    requires at + |text| <= |b|
    ensures Text(b, at, text) <==> b[at..at + |text|] == text
  {
    if b[at..at + |text|] == text {
      forall i | 0 <= i < |text| ensures b[at + i] == text[i] { assert b[at..at + |text|][i] == text[i]; }
    }
  }

  // A buffer parses to a request exactly when its first 44 bytes lay it out.
  lemma RequestIff(b: seq<byte>, r: Request)
    ensures ParseRequest(b) == Some(r) <==> RequestAt(b, r)
    ensures RequestAt(SerializeRequest(r), r) && |SerializeRequest(r)| == 44
  {
    ParseIsLayout(b, r);
    ParseRequestIff(SerializeRequest(r), r);
    ParseIsLayout(SerializeRequest(r), r);
  }

  lemma ParseIsLayout(b: seq<byte>, r: Request)
    ensures ParseRequest(b) == Some(r) <==> RequestAt(b, r)
  {
    if |b| >= 44 {
      NumberIff(b, 0, 4, r.op);
      NumberIff(b, 4, 8, r.requestId);
      TextIff(b, 12, r.tenantId);
      TextIff(b, 28, r.prefixHash);
    }
  }

  // A buffer parses to a response exactly when its first 64 bytes lay it out with a node id of at most 40 bytes.
  lemma ResponseIff(b: seq<byte>, r: Response)
    ensures ParseResponse(b) == Some(r) <==> ResponseAt(b, r)
  {
    if |b| >= 64 {
      NumberIff(b, 0, 8, r.requestId);
      NumberIff(b, 8, 4, r.status);
      NumberIff(b, 12, 4, r.source);
      NumberIff(b, 16, 4, r.matchedTokens);
      Widths();
      NumberIff(b, 20, 4, |r.nodeId|);
      if |r.nodeId| <= 40 { TextIff(b, 24, r.nodeId); }
    }
  }

  // A serialized response lays it out, its node id cut to 40 bytes, with zeros to the end.
  lemma ResponseBytes(r: Response)
    ensures var b := SerializeResponse(r); var n := if |r.nodeId| <= 40 then r.nodeId else r.nodeId[..40];
      |b| == 64 && ResponseAt(b, r.(nodeId := n)) && forall i | 24 + |n| <= i < 64 :: b[i] == 0
  {
    var b := SerializeResponse(r);
    ResponseReadBack(b, r);
    ResponseIff(b, r.(nodeId := Clip(r.nodeId)));
  }
}

/** The request router as the source writes it, over the in-place cache and the two rings. */
module Router {
  import opened Bytes
  import opened Wire
  import opened RouterModel
  import RC = RoutingCache
  import RQ = RingQueue

  class RequestRouter {
    const cache: RC.RoutingCache

    constructor (c: RC.RoutingCache)
      ensures cache == c
    {
      cache := c;
    }

    function Cfg(): Config {
      Config(cache.capacity, cache.ttl)
    }

    method ResolveRead(req: Request, call: Call) returns (resp: Response)
      requires cache.Valid()
      modifies cache
      ensures cache.Valid()
      ensures (cache.list, resp) == RouterModel.ResolveRead(old(cache.list), req, call, Cfg())
    {
      if !call.maybe {
        return Response(req.requestId, MISS, BLOOM_NEGATIVE, 0, []);
      }
      var key := MakeKey(req);
      var node := cache.Get(key, call.tGet);
      if node.Some? {
        return Response(req.requestId, OK, FROM_CACHE, 0, node.value);
      }
      if call.resolved.Some? {
        cache.Put(key, call.resolved.value.nodeId, call.tPut);
        return Response(req.requestId, OK, FROM_RESOLVER, call.resolved.value.matchedTokens, call.resolved.value.nodeId);
      }
      return Response(req.requestId, MISS, FROM_NONE, 0, []);
    }

    method ResolveWrite(req: Request, call: Call) returns (resp: Response)
      requires cache.Valid()
      modifies cache
      ensures cache.Valid()
      ensures (cache.list, resp) == RouterModel.ResolveWrite(old(cache.list), req, call, Cfg())
    {
      var key := MakeKey(req);
      var node := cache.Get(key, call.tGet);
      if node.Some? {
        return Response(req.requestId, OK, FROM_CACHE, 0, node.value);
      }
      if call.resolved.Some? {
        cache.Put(key, call.resolved.value.nodeId, call.tPut);
        return Response(req.requestId, OK, FROM_RESOLVER, 0, call.resolved.value.nodeId);
      }
      return Response(req.requestId, MISS, FROM_NONE, 0, []);
    }

    method Handle(req: Request, call: Call) returns (resp: Response)
      requires cache.Valid()
      modifies cache
      ensures cache.Valid()
      ensures (cache.list, resp) == RouterModel.Handle(old(cache.list), req, call, Cfg())
    {
      if req.op == LOOKUP || req.op == FETCH {
        resp := ResolveRead(req, call);
      } else if req.op == PUBLISH {
        resp := ResolveWrite(req, call);
      } else {
        resp := Response(req.requestId, ERROR, FROM_NONE, 0, []);
      }
    }

    // Bytes in, bytes out; anything too short to be a request is answered with an error.
    method HandleRaw(bytes: seq<byte>, call: Call) returns (out: seq<byte>)
      requires cache.Valid()
      modifies cache
      ensures cache.Valid() && |out| == RESPONSE_SIZE
      ensures |bytes| < REQUEST_SIZE ==> cache.list == old(cache.list)
      ensures |bytes| < REQUEST_SIZE ==> ParseResponse(out) == Some(Response(0, ERROR, FROM_NONE, 0, []))
      ensures forall req: Request | SerializeRequest(req) <= bytes ::
        var (l, resp) := RouterModel.Handle(old(cache.list), req, call, Cfg());
        cache.list == l && ParseResponse(out) == Some(resp.(nodeId := Clip(resp.nodeId)))
    {
      var req := ParseRequest(bytes);
      if req.None? {
        var err := Response(0, ERROR, FROM_NONE, 0, []);
        out := SerializeResponse(err);
        ResponseReadBack(out, err);
        return;
      }
      var resp := Handle(req.value, call);
      out := SerializeResponse(resp);
      ResponseReadBack(out, resp);
      forall r: Request | SerializeRequest(r) <= bytes ensures r == req.value { ParseRequestIff(bytes, r); }
    }

    // One turn of the agent's event loop: take a request off the submission ring, answer on the completion ring.
    method ServeOne(sq: RQ.SqCq, cq: RQ.SqCq, call: Call) returns (served: bool)
      requires cache.Valid() && sq.Valid() && cq.Valid()
      requires sq != cq && sq.stamps != cq.stamps && sq.slots != cq.slots
      modifies cache, sq`tail, sq`queue, sq.stamps, cq`head, cq`queue, cq.stamps, cq.slots
      ensures cache.Valid() && sq.Valid() && cq.Valid()
      ensures served <==> old(sq.queue) != []
      ensures !served ==> sq.queue == [] && cq.queue == old(cq.queue) && cache.list == old(cache.list)
      ensures served ==> sq.queue == old(sq.queue)[1..]
      ensures served ==> forall req: Request | SerializeRequest(req) == old(sq.queue)[0] ::
        var (l, resp) := RouterModel.Handle(old(cache.list), req, call, Cfg());
        && cache.list == l
        && (if RESPONSE_SIZE <= cq.slotBytes && |old(cq.queue)| < cq.stamps.Length then
              && |cq.queue| == |old(cq.queue)| + 1 && cq.queue[..|old(cq.queue)|] == old(cq.queue)
              && ParseResponse(cq.queue[|old(cq.queue)|]) == Some(resp.(nodeId := Clip(resp.nodeId)))
            else cq.queue == old(cq.queue))
    {
      var buf;
      served, buf := sq.TryPop(0);
      if served {
        var out := HandleRaw(buf, call);
        var pushed := cq.TryPush(out, 0);
      }
    }
  }
}

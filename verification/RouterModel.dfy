/**
 Routing decisions over the cache list, and what they guarantee over whole runs.

 The bloom view, the resolver and the clock answer each request through a `Call`:
 whether the bloom filter may contain the prefix, the clock at the cache lookup, what
 the resolver returns if asked and the clock when it does, and the clock when that answer
 is cached.
 */
module RouterModel {
  import opened Bytes
  import opened Wire
  import opened CacheModel

  const LOOKUP: u32 := 1
  const FETCH: u32 := 2
  const PUBLISH: u32 := 3

  const OK: u32 := 0
  const MISS: u32 := 1
  const ERROR: u32 := 2

  const FROM_NONE: u32 := 0
  const FROM_CACHE: u32 := 1
  const FROM_RESOLVER: u32 := 2
  const BLOOM_NEGATIVE: u32 := 3

  datatype ResolveResult = ResolveResult(nodeId: NodeId, matchedTokens: u32)

  datatype Call = Call(maybe: bool, tGet: int, resolved: Option<ResolveResult>, tAsk: int, tPut: int)

  datatype Config = Config(capacity: nat, ttl: nat)

  function MakeKey(req: Request): Key {
    Key(req.tenantId, req.prefixHash)
  }

  // Cache, then resolver; `tokens` is the matched length a resolver answer reports.
  function ViaCache(l: seq<Entry>, req: Request, call: Call, cfg: Config, tokens: u32): (seq<Entry>, Response) {
    var k := MakeKey(req);
    var (l1, hit) := Get(l, k, call.tGet);
    if hit.Some? then (l1, Response(req.requestId, OK, FROM_CACHE, 0, hit.value))
    else if call.resolved.Some? then
      (Put(l1, k, call.resolved.value.nodeId, call.tPut + cfg.ttl, cfg.capacity),
       Response(req.requestId, OK, FROM_RESOLVER, tokens, call.resolved.value.nodeId))
    else (l1, Response(req.requestId, MISS, FROM_NONE, 0, []))
  }

  function ResolveRead(l: seq<Entry>, req: Request, call: Call, cfg: Config): (seq<Entry>, Response) {
    if !call.maybe then (l, Response(req.requestId, MISS, BLOOM_NEGATIVE, 0, []))
    else ViaCache(l, req, call, cfg, if call.resolved.Some? then call.resolved.value.matchedTokens else 0)
  }

  function ResolveWrite(l: seq<Entry>, req: Request, call: Call, cfg: Config): (seq<Entry>, Response) {
    ViaCache(l, req, call, cfg, 0)
  }

  function Handle(l: seq<Entry>, req: Request, call: Call, cfg: Config): (seq<Entry>, Response) {
    if req.op == LOOKUP || req.op == FETCH then ResolveRead(l, req, call, cfg)
    else if req.op == PUBLISH then ResolveWrite(l, req, call, cfg)
    else (l, Response(req.requestId, ERROR, FROM_NONE, 0, []))
  }

  // The answer without any cache.
  datatype Answer = Answer(status: u32, nodeId: NodeId)

  function Uncached(req: Request, maybe: bool, resolved: Option<ResolveResult>): Answer {
    if req.op != LOOKUP && req.op != FETCH && req.op != PUBLISH then Answer(ERROR, [])
    else if req.op != PUBLISH && !maybe then Answer(MISS, [])
    else if resolved.Some? then Answer(OK, resolved.value.nodeId)
    else Answer(MISS, [])
  }

  // ----- Whole runs ------------------------------------------------------

  // The resolver named `nodeId` for a tenant's prefix at `asked`, and the answer was cached at `cached`.
  datatype Resolved = Resolved(tenantId: seq<byte>, prefixHash: seq<byte>, nodeId: NodeId, asked: int, cached: int)

  datatype State = State(list: seq<Entry>, log: seq<Resolved>)

  datatype Step = Serve(req: Request, call: Call) | Invalidate(key: Key) | Clear

  // What the resolver said when it was asked.
  function Named(req: Request, call: Call): Resolved
    requires call.resolved.Some?
  {
    Resolved(req.tenantId, req.prefixHash, call.resolved.value.nodeId, call.tAsk, call.tPut)
  }

  function Act(s: State, a: Step, cfg: Config): State {
    match a
    case Serve(req, call) =>
      var (l, resp) := Handle(s.list, req, call, cfg);
      State(l, if resp.source == FROM_RESOLVER && call.resolved.Some? then s.log + [Named(req, call)] else s.log)
    case Invalidate(k) => s.(list := Without(s.list, k))
    case Clear => s.(list := [])
  }

  function Exec(s: State, steps: seq<Step>, cfg: Config): State
    decreases |steps|
  {
    if steps == [] then s else Exec(Act(s, steps[0], cfg), steps[1..], cfg)
  }

  predicate For(r: Resolved, tenantId: seq<byte>, prefixHash: seq<byte>, node: NodeId) {
    r.tenantId == tenantId && r.prefixHash == prefixHash && r.nodeId == node
  }

  predicate InLog(log: seq<Resolved>, k: Key, node: NodeId, cached: int) {
    exists i | 0 <= i < |log| :: For(log[i], k.tenantId, k.prefix, node) && log[i].cached == cached
  }

  // Every cached entry was resolved for its key, and expires one TTL after it was cached.
  ghost predicate Backed(s: State, ttl: nat) {
    forall e | e in s.list :: InLog(s.log, e.key, e.nodeId, e.expiresAt - ttl)
  }

  lemma LogGrows(log: seq<Resolved>, more: seq<Resolved>, k: Key, node: NodeId, cached: int)
    requires InLog(log, k, node, cached)
    ensures InLog(log + more, k, node, cached)
  {
    var i :| 0 <= i < |log| && For(log[i], k.tenantId, k.prefix, node) && log[i].cached == cached;
    assert (log + more)[i] == log[i];
  }

  lemma PutMembers(l: seq<Entry>, k: Key, node: NodeId, exp: int, capacity: nat)
    ensures forall e | e in Put(l, k, node, exp, capacity) :: e == Entry(k, node, exp) || e in l
  {
    WithoutMembers(l, k);
  }

  lemma GetMembers(l: seq<Entry>, k: Key, now: int)
    ensures forall e | e in Get(l, k, now).0 :: e in l
  {
    WithoutMembers(l, k);
  }

  lemma ServeBacked(s: State, req: Request, call: Call, cfg: Config)
    requires Backed(s, cfg.ttl)
    ensures Backed(Act(s, Serve(req, call), cfg), cfg.ttl)
  {
    var t := Act(s, Serve(req, call), cfg);
    var k := MakeKey(req);
    var l := Get(s.list, k, call.tGet).0;
    GetMembers(s.list, k, call.tGet);
    if t.log != s.log {
      var node := call.resolved.value.nodeId;
      var r := Named(req, call);
      PutMembers(l, k, node, call.tPut + cfg.ttl, cfg.capacity);
      assert t.log == s.log + [r] && t.log[|s.log|] == r;
      assert InLog(t.log, k, node, call.tPut);
      forall e | e in t.list ensures InLog(t.log, e.key, e.nodeId, e.expiresAt - cfg.ttl) {
        if e in s.list { LogGrows(s.log, [r], e.key, e.nodeId, e.expiresAt - cfg.ttl); }
      }
    }
  }

  lemma ActBacked(s: State, a: Step, cfg: Config)
    requires Backed(s, cfg.ttl)
    ensures Backed(Act(s, a, cfg), cfg.ttl)
  {
    match a
    case Serve(req, call) => ServeBacked(s, req, call, cfg);
    case Invalidate(k) => WithoutMembers(s.list, k);
    case Clear =>
  }

  lemma {:induction false} ExecBacked(s: State, steps: seq<Step>, cfg: Config)
    requires Backed(s, cfg.ttl)
    ensures Backed(Exec(s, steps, cfg), cfg.ttl)
    decreases |steps|
  {
    if steps != [] {
      ActBacked(s, steps[0], cfg);
      ExecBacked(Act(s, steps[0], cfg), steps[1..], cfg);
    }
  }

  // The clock is steady within a request, and an answer is cached at most `gap` after the resolver gave it.
  ghost predicate Steady(a: Step, gap: nat) {
    a.Serve? ==> a.call.tGet <= a.call.tAsk <= a.call.tPut <= a.call.tAsk + gap
  }

  ghost predicate Prompt(log: seq<Resolved>, gap: nat) {
    forall i | 0 <= i < |log| :: log[i].asked <= log[i].cached <= log[i].asked + gap
  }

  lemma {:induction false} ExecPrompt(s: State, steps: seq<Step>, cfg: Config, gap: nat)
    requires Prompt(s.log, gap) && forall i | 0 <= i < |steps| :: Steady(steps[i], gap)
    ensures Prompt(Exec(s, steps, cfg).log, gap)
    decreases |steps|
  {
    if steps != [] {
      assert Steady(steps[0], gap);
      ExecPrompt(Act(s, steps[0], cfg), steps[1..], cfg, gap);
    }
  }

  // After every run, an OK answer names a node the resolver returned for that very tenant and prefix and that was
  // cached no more than one TTL before the lookup; a hit never extends the lease of its entry.
  lemma AnswersAreRecent(steps: seq<Step>, req: Request, call: Call, cfg: Config)
    requires call.tGet <= call.tPut
    requires Handle(Exec(State([], []), steps, cfg).list, req, call, cfg).1.status == OK
    ensures var s := Exec(State([], []), steps, cfg); var t := Act(s, Serve(req, call), cfg);
      var resp := Handle(s.list, req, call, cfg).1;
      exists i | 0 <= i < |t.log| ::
        For(t.log[i], req.tenantId, req.prefixHash, resp.nodeId) && call.tGet <= t.log[i].cached + cfg.ttl
  {
    var s := Exec(State([], []), steps, cfg);
    var t := Act(s, Serve(req, call), cfg);
    var k := MakeKey(req);
    ExecBacked(State([], []), steps, cfg);
    if Get(s.list, k, call.tGet).1.Some? {
      var e := Find(s.list, k);
      assert InLog(s.log, e.key, e.nodeId, e.expiresAt - cfg.ttl);
    } else {
      assert t.log[|s.log|] == Named(req, call);
    }
  }

  // The resolver has not named `node` for the request's tenant and prefix after `last`.
  ghost predicate NotNamedAfter(log: seq<Resolved>, req: Request, node: NodeId, last: int) {
    forall i | 0 <= i < |log| :: For(log[i], req.tenantId, req.prefixHash, node) ==> log[i].asked <= last
  }

  // Once the resolver stops naming a node for a key, no answer names it more than `d` later.
  ghost predicate Vanishes(d: nat, gap: nat, cfg: Config) {
    forall steps: seq<Step>, req: Request, call: Call, node: NodeId, last: int
      | (forall i | 0 <= i < |steps| :: Steady(steps[i], gap)) && Steady(Serve(req, call), gap) && call.tGet > last + d
        && NotNamedAfter(Act(Exec(State([], []), steps, cfg), Serve(req, call), cfg).log, req, node, last) ::
      var resp := Handle(Exec(State([], []), steps, cfg).list, req, call, cfg).1;
      resp.status == OK ==> resp.nodeId != node
  }

  // A node the resolver no longer names for a key disappears from its answers one TTL, and the time its last answer
  // took to be cached, later.
  lemma DroppedNodeDisappears(steps: seq<Step>, req: Request, call: Call, cfg: Config, node: NodeId, last: int, gap: nat)
    requires (forall i | 0 <= i < |steps| :: Steady(steps[i], gap)) && Steady(Serve(req, call), gap)
    requires call.tGet > last + gap + cfg.ttl
    requires NotNamedAfter(Act(Exec(State([], []), steps, cfg), Serve(req, call), cfg).log, req, node, last)
    ensures var resp := Handle(Exec(State([], []), steps, cfg).list, req, call, cfg).1;
      resp.status == OK ==> resp.nodeId != node
  {
    var s := Exec(State([], []), steps, cfg);
    var t := Act(s, Serve(req, call), cfg);
    ExecPrompt(State([], []), steps, cfg, gap);
    if Handle(s.list, req, call, cfg).1.status == OK {
      AnswersAreRecent(steps, req, call, cfg);
      assert Prompt(t.log, gap);
    }
  }

  lemma {:induction false} NoRoomNoCache(s: State, steps: seq<Step>, cfg: Config)
    requires s.list == [] && cfg.capacity == 0
    ensures Exec(s, steps, cfg).list == []
    decreases |steps|
  {
    if steps != [] { NoRoomNoCache(Act(s, steps[0], cfg), steps[1..], cfg); }
  }

  // A request, the call that resolves it slowly, and a lookup at the last moment its entry is good.
  const SAMPLE := Request(LOOKUP, 0, seq(16, i => 0), seq(16, i => 0))

  function SlowCall(gap: nat): Call {
    Call(true, 0, Some(ResolveResult([7], 0)), 0, gap)
  }

  function LateCall(gap: nat, ttl: nat): Call {
    Call(true, gap + ttl, None, gap + ttl, gap + ttl)
  }

  lemma LastMomentHit(cfg: Config, gap: nat)
    requires cfg.capacity > 0
    ensures var steps := [Serve(SAMPLE, SlowCall(gap))]; var late := LateCall(gap, cfg.ttl);
      && Handle(Exec(State([], []), steps, cfg).list, SAMPLE, late, cfg).1.nodeId == [7]
      && Handle(Exec(State([], []), steps, cfg).list, SAMPLE, late, cfg).1.status == OK
      && NotNamedAfter(Act(Exec(State([], []), steps, cfg), Serve(SAMPLE, late), cfg).log, SAMPLE, [7], 0)
  {
    var k := MakeKey(SAMPLE);
    var first := Serve(SAMPLE, SlowCall(gap));
    var s := Act(State([], []), first, cfg);
    assert Exec(State([], []), [first], cfg) == Exec(s, [first][1..], cfg) == s;
    assert s.list == [Entry(k, [7], gap + cfg.ttl)];
    assert s.list[0].key == k;
    assert Has(s.list, k) && Find(s.list, k) == s.list[0];
    assert s.log == [Named(SAMPLE, SlowCall(gap))];
  }

  // The delay after which a dropped node is sure to be gone is exactly one TTL and the caching gap, whenever the
  // cache holds anything at all.
  lemma VanishesIff(d: nat, gap: nat, cfg: Config)
    ensures Vanishes(d, gap, cfg) <==> cfg.capacity == 0 || d >= gap + cfg.ttl
  {
    if cfg.capacity == 0 || d >= gap + cfg.ttl {
      forall steps: seq<Step>, req: Request, call: Call, node: NodeId, last: int
        | (forall i | 0 <= i < |steps| :: Steady(steps[i], gap)) && Steady(Serve(req, call), gap) && call.tGet > last + d
          && NotNamedAfter(Act(Exec(State([], []), steps, cfg), Serve(req, call), cfg).log, req, node, last)
        ensures var resp := Handle(Exec(State([], []), steps, cfg).list, req, call, cfg).1;
          resp.status == OK ==> resp.nodeId != node
      {
        if cfg.capacity == 0 {
          NoRoomNoCache(State([], []), steps, cfg);
          FreshAnswerIsNamed(Exec(State([], []), steps, cfg), req, call, cfg, node, last);
        } else {
          DroppedNodeDisappears(steps, req, call, cfg, node, last, gap);
        }
      }
    } else {
      LastMomentHit(cfg, gap);
      var steps := [Serve(SAMPLE, SlowCall(gap))];
      assert Steady(steps[0], gap) && Steady(Serve(SAMPLE, LateCall(gap, cfg.ttl)), gap);
      assert LateCall(gap, cfg.ttl).tGet > 0 + d;
    }
  }

  lemma FreshAnswerIsNamed(s: State, req: Request, call: Call, cfg: Config, node: NodeId, last: int)
    requires s.list == [] && last < call.tGet <= call.tAsk
    requires NotNamedAfter(Act(s, Serve(req, call), cfg).log, req, node, last)
    ensures var resp := Handle(s.list, req, call, cfg).1; resp.status == OK ==> resp.nodeId != node
  {
    var t := Act(s, Serve(req, call), cfg);
    var resp := Handle(s.list, req, call, cfg).1;
    assert !Has(s.list, MakeKey(req));
    if resp.status == OK {
      assert t.log[|s.log|] == Named(req, call);
    }
  }

  // ----- An unchanging resolver ------------------------------------------

  // What the resolver answers for a tenant and a prefix.
  type Resolver = (seq<byte>, seq<byte>) -> Option<ResolveResult>

  ghost predicate Agrees(a: Step, resolver: Resolver) {
    a.Serve? ==> a.call.resolved == resolver(a.req.tenantId, a.req.prefixHash)
  }

  ghost predicate ListAgrees(l: seq<Entry>, resolver: Resolver) {
    forall e | e in l ::
      var r := resolver(e.key.tenantId, e.key.prefix); r.Some? && r.value.nodeId == e.nodeId
  }

  lemma {:induction false} ExecAgrees(s: State, steps: seq<Step>, cfg: Config, resolver: Resolver)
    requires ListAgrees(s.list, resolver) && forall i | 0 <= i < |steps| :: Agrees(steps[i], resolver)
    ensures ListAgrees(Exec(s, steps, cfg).list, resolver)
    decreases |steps|
  {
    if steps != [] {
      match steps[0]
      case Serve(req, call) =>
        var k := MakeKey(req);
        assert Agrees(steps[0], resolver);
        GetMembers(s.list, k, call.tGet);
        var l := Get(s.list, k, call.tGet).0;
        if call.resolved.Some? { PutMembers(l, k, call.resolved.value.nodeId, call.tPut + cfg.ttl, cfg.capacity); }
        ExecAgrees(Act(s, steps[0], cfg), steps[1..], cfg, resolver);
      case Invalidate(k) =>
        WithoutMembers(s.list, k);
        ExecAgrees(Act(s, steps[0], cfg), steps[1..], cfg, resolver);
      case Clear =>
        ExecAgrees(Act(s, steps[0], cfg), steps[1..], cfg, resolver);
    }
  }

  // With an unchanging resolver the cached router answers exactly as the uncached one.
  lemma CachedEqualsUncached(steps: seq<Step>, req: Request, call: Call, cfg: Config, resolver: Resolver)
    requires forall i | 0 <= i < |steps| :: Agrees(steps[i], resolver)
    requires Agrees(Serve(req, call), resolver)
    ensures var resp := Handle(Exec(State([], []), steps, cfg).list, req, call, cfg).1;
      Answer(resp.status, resp.nodeId) == Uncached(req, call.maybe, resolver(req.tenantId, req.prefixHash))
  {
    ExecAgrees(State([], []), steps, cfg, resolver);
    var s := Exec(State([], []), steps, cfg);
    var k := MakeKey(req);
    if Has(s.list, k) { assert Find(s.list, k) in s.list; }
  }

  // ----- Every field of a response -----------------------------------------

  predicate Known(op: u32) {
    op == LOOKUP || op == FETCH || op == PUBLISH
  }

  // A known operation that the bloom filter does not answer: it goes to cache and resolver.
  predicate Asks(req: Request, call: Call) {
    Known(req.op) && (req.op == PUBLISH || call.maybe)
  }

  ghost predicate Cached(l: seq<Entry>, req: Request, now: int, node: NodeId) {
    exists e :: e in l && e.key.tenantId == req.tenantId && e.key.prefix == req.prefixHash && e.nodeId == node && now <= e.expiresAt
  }

  // After every run, which of the five answers a request gets, and all fields of each.
  lemma EveryField(steps: seq<Step>, req: Request, call: Call, cfg: Config)
    ensures var l := Exec(State([], []), steps, cfg).list; var resp := Handle(l, req, call, cfg).1;
      && resp.requestId == req.requestId
      && (resp.source == FROM_CACHE <==> Asks(req, call) && exists node :: Cached(l, req, call.tGet, node))
      && (resp.source == FROM_CACHE ==> resp.status == OK && resp.matchedTokens == 0 && Cached(l, req, call.tGet, resp.nodeId))
      && (resp.source == FROM_RESOLVER <==>
            Asks(req, call) && call.resolved.Some? && !exists node :: Cached(l, req, call.tGet, node))
      && (resp.source == FROM_RESOLVER ==>
            && resp.status == OK && resp.nodeId == call.resolved.value.nodeId
            && resp.matchedTokens == if req.op == PUBLISH then 0 else call.resolved.value.matchedTokens)
      && (resp.source == BLOOM_NEGATIVE <==> (req.op == LOOKUP || req.op == FETCH) && !call.maybe)
      && (resp.source == BLOOM_NEGATIVE ==> resp.status == MISS)
      && (resp.source == FROM_NONE ==> resp.status == if Known(req.op) then MISS else ERROR)
      && (resp.source == BLOOM_NEGATIVE || resp.source == FROM_NONE ==> resp.matchedTokens == 0 && resp.nodeId == [])
      && resp.source in {FROM_NONE, FROM_CACHE, FROM_RESOLVER, BLOOM_NEGATIVE}
  {
    var l := Exec(State([], []), steps, cfg).list;
    ExecDistinct(State([], []), steps, cfg);
    HitIffCached(l, req, call.tGet);
  }

  lemma {:induction false} ExecDistinct(s: State, steps: seq<Step>, cfg: Config)
    requires Distinct(s.list)
    ensures Distinct(Exec(s, steps, cfg).list)
    decreases |steps|
  {
    if steps != [] {
      ActDistinct(s, steps[0], cfg);
      ExecDistinct(Act(s, steps[0], cfg), steps[1..], cfg);
    }
  }

  lemma ActDistinct(s: State, a: Step, cfg: Config)
    requires Distinct(s.list)
    ensures Distinct(Act(s, a, cfg).list)
  {
    match a
    case Serve(req, call) =>
      var k := MakeKey(req);
      var l := Get(s.list, k, call.tGet).0;
      WithoutHas(s.list, k);
      assert Distinct(l) by { FrontDistinct(s.list, k); }
      if call.resolved.Some? {
        WithoutHas(l, k);
        FrontDistinct(l, k);
      }
    case Invalidate(k) => WithoutHas(s.list, k);
    case Clear =>
  }

  lemma FrontDistinct(l: seq<Entry>, k: Key)
    requires Distinct(l)
    ensures forall e: Entry | e.key == k :: Distinct([e] + Without(l, k))
    ensures !Has(l, k) ==> forall e: Entry | e.key == k :: Distinct([e] + l)
  {
    WithoutHas(l, k);
  }

  lemma HitIffCached(l: seq<Entry>, req: Request, now: int)
    requires Distinct(l)
    ensures Get(l, MakeKey(req), now).1.Some? <==> exists node :: Cached(l, req, now, node)
    ensures Get(l, MakeKey(req), now).1.Some? ==> Cached(l, req, now, Get(l, MakeKey(req), now).1.value)
  {
    var k := MakeKey(req);
    if Has(l, k) && now <= Find(l, k).expiresAt { assert Cached(l, req, now, Find(l, k).nodeId); }
    if node :| Cached(l, req, now, node) {
      var e :| e in l && e.key.tenantId == req.tenantId && e.key.prefix == req.prefixHash && e.nodeId == node && now <= e.expiresAt;
      assert e.key == k;
      var i :| 0 <= i < |l| && l[i] == e;
      assert Has(l, k) && Find(l, k) in l;
      var j :| 0 <= j < |l| && l[j] == Find(l, k);
      assert i == j;
    }
  }

  // After every run, whatever was resolved, by a read or a write, answers the next request for that tenant and prefix
  // from the cache for one TTL.
  lemma ResolvedIsCached(steps: seq<Step>, req: Request, call: Call, next: Request, later: Call, cfg: Config)
    requires var s := Exec(State([], []), steps, cfg); Handle(s.list, req, call, cfg).1.source == FROM_RESOLVER
    requires cfg.capacity > 0 && Asks(next, later) && later.tGet <= call.tPut + cfg.ttl
    requires next.tenantId == req.tenantId && next.prefixHash == req.prefixHash
    ensures var s := Exec(State([], []), steps, cfg);
      var resp := Handle(Act(s, Serve(req, call), cfg).list, next, later, cfg).1;
      resp == Response(next.requestId, OK, FROM_CACHE, 0, call.resolved.value.nodeId)
  {
    var s := Exec(State([], []), steps, cfg);
    var l := Act(s, Serve(req, call), cfg).list;
    assert l[0] == Entry(MakeKey(req), call.resolved.value.nodeId, call.tPut + cfg.ttl);
    assert Has(l, MakeKey(next)) && Find(l, MakeKey(next)) == l[0];
  }
}

/**
 An accepted message can be asked for: how long the handlers keep it, and that IWANT gets it
 (src/lean_spec/node/networking/gossipsub/behavior.py, mcache.py).
 */
module GossipServing {
  import opened Bytes
  import opened GossipModel
  import M = MessageCache
  import SnappyCompress
  import SnappyDecompress
  import SnappyLaws

  /** The step delivered or published a message. */
  ghost predicate Accepting(n: Node, s: Step, cfg: Config)
    requires |n.cache.windows| > 0
  {
    |Apply(n, s, cfg).events| == 1 && Accepts(Apply(n, s, cfg).events[0])
  }

  lemma AcceptingKind(n: Node, s: Step, cfg: Config)
    requires |n.cache.windows| > 0 && Accepting(n, s, cfg)
    ensures s.Receive? || s.Publish?
    ensures Apply(n, s, cfg).events[0].id == MessageIdOf(cfg, s.topic, s.data)
  {
    hide M.AfterPut, M.AfterShift, Serve, TryDecompress;
  }

  /** What a step does to the message cache. */
  ghost function CacheOp(n: Node, s: Step, cfg: Config): seq<M.Op>
    requires |n.cache.windows| > 0
  {
    if s.Heartbeat? then [M.ShiftOp]
    else if Accepting(n, s, cfg) then
      AcceptingKind(n, s, cfg);
      [M.PutOp(Apply(n, s, cfg).events[0].id, M.Entry(s.topic, s.data))]
    else []
  }

  ghost function CacheOps(n: Node, steps: seq<Step>, cfg: Config): seq<M.Op>
    requires |n.cache.windows| > 0
    decreases |steps|
  {
    if steps == [] then []
    else CacheOp(n, steps[0], cfg) + CacheOps(Apply(n, steps[0], cfg).node, steps[1..], cfg)
  }

  lemma RunOne(s: M.State, op: M.Op, length: nat)
    requires |s.windows| > 0
    ensures M.Run(s, [op], length) == M.Apply(s, op, length) && M.Run(s, [], length) == s
  {
    assert [op][1..] == [];
  }

  lemma StepCache(n: Node, s: Step, cfg: Config)
    requires |n.cache.windows| > 0
    ensures Apply(n, s, cfg).node.cache == M.Run(n.cache, CacheOp(n, s, cfg), cfg.length)
  {
    hide M.AfterPut, M.AfterShift, M.Run, Serve, TryDecompress;
    RunOne(n.cache, M.ShiftOp, cfg.length);
    if Accepting(n, s, cfg) {
      AcceptingKind(n, s, cfg);
      RunOne(n.cache, CacheOp(n, s, cfg)[0], cfg.length);
    }
  }

  lemma {:induction false} RunConcat(s: M.State, a: seq<M.Op>, b: seq<M.Op>, length: nat)
    requires |s.windows| > 0
    ensures M.Run(s, a + b, length) == M.Run(M.Run(s, a, length), b, length)
    ensures M.Shifts(a + b) == M.Shifts(a) + M.Shifts(b)
    decreases |a|
  {
    hide M.Apply;
    if a == [] {
      assert a + b == b;
    } else {
      RunConcat(M.Apply(s, a[0], length), a[1..], b, length);
      assert (a + b)[1..] == a[1..] + b;
    }
  }

  /** The message cache lives through a run as through its own operations. */
  lemma {:induction false} RunCache(n: Node, steps: seq<Step>, cfg: Config)
    requires |n.cache.windows| > 0
    ensures Run(n, steps, cfg).node.cache == M.Run(n.cache, CacheOps(n, steps, cfg), cfg.length)
    ensures M.Shifts(CacheOps(n, steps, cfg)) == Heartbeats(steps)
    decreases |steps|
  {
    hide Apply, M.Run, M.Shifts, CacheOp;
    if steps == [] {
      RunOne(n.cache, M.ShiftOp, cfg.length);
      NoShifts();
    } else {
      var next := Apply(n, steps[0], cfg).node;
      StepCache(n, steps[0], cfg);
      OpShifts(n, steps[0], cfg);
      RunCache(next, steps[1..], cfg);
      RunConcat(n.cache, CacheOp(n, steps[0], cfg), CacheOps(next, steps[1..], cfg), cfg.length);
    }
  }

  lemma NoShifts()
    ensures M.Shifts([]) == 0
  {
  }

  lemma OpShifts(n: Node, s: Step, cfg: Config)
    requires |n.cache.windows| > 0
    ensures M.Shifts(CacheOp(n, s, cfg)) == if s.Heartbeat? then 1 else 0
  {
    hide Apply;
    var ops := CacheOp(n, s, cfg);
    if ops != [] {
      assert ops[1..] == [];
    }
  }

  function Heartbeats(steps: seq<Step>): nat
    decreases |steps|
  {
    if steps == [] then 0 else (if steps[0].Heartbeat? then 1 else 0) + Heartbeats(steps[1..])
  }

  /** No step of the run accepts the id. */
  ghost predicate NoAcceptance(n: Node, steps: seq<Step>, cfg: Config, id: M.MessageId)
    requires |n.cache.windows| > 0
    decreases |steps|
  {
    steps == [] ||
    (!(Accepting(n, steps[0], cfg) && Apply(n, steps[0], cfg).events[0].id == id) &&
     NoAcceptance(Apply(n, steps[0], cfg).node, steps[1..], cfg, id))
  }

  lemma {:induction false} NoAcceptancePutsNo(n: Node, steps: seq<Step>, cfg: Config, id: M.MessageId)
    requires |n.cache.windows| > 0 && NoAcceptance(n, steps, cfg, id)
    ensures M.PutsNo(CacheOps(n, steps, cfg), id)
    decreases |steps|
  {
    hide Apply, Accepting;
    if steps != [] {
      NoAcceptancePutsNo(Apply(n, steps[0], cfg).node, steps[1..], cfg, id);
    }
  }

  /** A fresh node: nothing cached. */
  ghost predicate Fresh(n: Node, cfg: Config)
  {
    n.cache == M.START && cfg.length >= 1
  }

  /** The node after an accepting step. */
  ghost function AfterStep(n: Node, before: seq<Step>, s: Step, cfg: Config): (m: Node)
    requires |n.cache.windows| > 0
    ensures |m.cache.windows| > 0
  {
    Apply(Run(n, before, cfg).node, s, cfg).node
  }

  /** The step accepts a message whose id is not cached at that moment. */
  ghost predicate NewlyAccepts(n: Node, before: seq<Step>, s: Step, cfg: Config)
    requires |n.cache.windows| > 0
  {
    var m := Run(n, before, cfg).node;
    Accepting(m, s, cfg) && Apply(m, s, cfg).events[0].id !in m.cache.byId
  }

  lemma AfterAcceptance(n: Node, before: seq<Step>, s: Step, cfg: Config)
    requires Fresh(n, cfg) && NewlyAccepts(n, before, s, cfg)
    ensures s.Receive? || s.Publish?
    ensures var id := MessageIdOf(cfg, s.topic, s.data);
      var ops := CacheOps(n, before, cfg);
      && id !in M.Run(M.START, ops, cfg.length).byId
      && AfterStep(n, before, s, cfg).cache ==
         M.AfterPut(M.Run(M.START, ops, cfg.length), id, M.Entry(s.topic, s.data))
  {
    hide Run, Apply, M.Run, M.AfterPut, CacheOps, MessageIdOf;
    var m := Run(n, before, cfg).node;
    RunCache(n, before, cfg);
    AcceptingKind(m, s, cfg);
    StepCache(m, s, cfg);
    RunOne(m.cache, CacheOp(m, s, cfg)[0], cfg.length);
  }

  /**
   In any run from a fresh node, an accepted message is in the cache, with the topic and the bytes it came with,
   while fewer than `length` heartbeats have passed; and if its id is not accepted again, no longer.
   */
  lemma AcceptedIsCached(n: Node, before: seq<Step>, s: Step, after: seq<Step>, cfg: Config)
    requires Fresh(n, cfg) && NewlyAccepts(n, before, s, cfg)
    ensures s.Receive? || s.Publish?
    ensures var id := MessageIdOf(cfg, s.topic, s.data);
      var start := AfterStep(n, before, s, cfg);
      var byId := Run(start, after, cfg).node.cache.byId;
      && (Heartbeats(after) < cfg.length ==> id in byId && byId[id] == M.Entry(s.topic, s.data))
      && (Heartbeats(after) >= cfg.length && NoAcceptance(start, after, cfg, id) ==> id !in byId)
  {
    hide Run, Apply, M.Run, M.AfterPut, CacheOps, MessageIdOf, NoAcceptance, AfterStep, M.Inv, M.AfterShift;
    AfterAcceptance(n, before, s, cfg);
    var id, e := MessageIdOf(cfg, s.topic, s.data), M.Entry(s.topic, s.data);
    var start := AfterStep(n, before, s, cfg);
    var ops := CacheOps(start, after, cfg);
    RunCache(start, after, cfg);
    if Heartbeats(after) < cfg.length {
      M.StartKeeps(cfg.length);
      M.RunKeeps(M.START, CacheOps(n, before, cfg), cfg.length);
      M.Lifetime(M.Run(M.START, CacheOps(n, before, cfg), cfg.length), id, e, ops, cfg.length, 0, []);
    } else if NoAcceptance(start, after, cfg, id) {
      NoAcceptancePutsNo(start, after, cfg, id);
      M.Retrievable(CacheOps(n, before, cfg), id, e, ops, cfg.length);
    }
  }

  /** A connected peer with budget left gets the message it asks for exactly when it is cached. */
  lemma AskedIsServed(n: Node, cfg: Config, peer: PeerId, raw: ByteString)
    requires |n.cache.windows| > 0 && peer in n.served && |raw| == 20
    requires Count(n.served[peer], FromLE(raw)) < GOSSIP_RETRANSMISSION
    ensures Apply(n, IWant(peer, [raw]), cfg).events ==
            if FromLE(raw) in n.cache.byId then [Replied(peer, FromLE(raw))] else []
  {
    hide FromLE, Count;
    assert [raw][..0] == [];
    assert Serve(n.served[peer], n.cache.byId, []) == Replies(n.served[peer], []);
    assert Capped([raw]) == [raw];
    assert [] + [FromLE(raw)] == [FromLE(raw)];
  }

  /**
   The two together: after any run from a fresh node, a peer with budget left that asks for an accepted message
   gets it while fewer than `length` heartbeats have passed since; and, with no new acceptance, not after.
   */
  lemma AcceptedIsServed(n: Node, before: seq<Step>, s: Step, after: seq<Step>, cfg: Config, peer: PeerId,
                         raw: ByteString)
    requires Fresh(n, cfg) && NewlyAccepts(n, before, s, cfg) && |raw| == 20
    requires var m := Run(AfterStep(n, before, s, cfg), after, cfg).node;
      peer in m.served && Count(m.served[peer], FromLE(raw)) < GOSSIP_RETRANSMISSION
    ensures s.Receive? || s.Publish?
    ensures FromLE(raw) == MessageIdOf(cfg, s.topic, s.data) ==>
      var start := AfterStep(n, before, s, cfg);
      var m := Run(start, after, cfg).node;
      && (Heartbeats(after) < cfg.length ==>
            && Apply(m, IWant(peer, [raw]), cfg).events == [Replied(peer, FromLE(raw))]
            && FromLE(raw) in m.cache.byId && m.cache.byId[FromLE(raw)] == M.Entry(s.topic, s.data))
      && (Heartbeats(after) >= cfg.length && NoAcceptance(start, after, cfg, FromLE(raw)) ==>
            Apply(m, IWant(peer, [raw]), cfg).events == [])
  {
    hide Run, Apply, NewlyAccepts, AfterStep, MessageIdOf, NoAcceptance, FromLE, Count;
    AcceptedIsCached(n, before, s, after, cfg);
    AskedIsServed(Run(AfterStep(n, before, s, cfg), after, cfg).node, cfg, peer, raw);
  }

  // ---- what is delivered ----

  lemma SentDecompresses(payload: ByteString)
    requires SnappyCompress.Compress(payload).Ok?
    ensures TryDecompress(SnappyCompress.Compress(payload).value) == (payload, true)
  {
    hide SnappyCompress.Compress, SnappyDecompress.Decompress;
    SnappyLaws.CompressAccepts(payload);
    SnappyLaws.RoundTrip(payload);
  }

  /**
   A payload sent compressed is delivered, decompressed and under the id of the valid domain, exactly when its topic
   is not empty and subscribed, it is within 10 MiB, and the id has not been seen; otherwise nothing changes.
   */
  lemma SentIsDelivered(n: Node, topic: M.Topic, payload: ByteString, subscriptions: set<M.Topic>, cfg: Config)
    requires |n.cache.windows| > 0 && SnappyCompress.Compress(payload).Ok?
    ensures var id := cfg.idOf(topic, payload, true);
      var r := Apply(n, Receive(topic, SnappyCompress.Compress(payload).value, subscriptions), cfg);
      if topic != [] && topic in subscriptions && |payload| <= 10 * 1024 * 1024 && id !in n.seen
      then r.events == [Delivered(id, n.clock, payload)] && r.node.seen == n.seen[id := n.clock]
      else r == After(n, [])
  {
    hide SnappyCompress.Compress, M.AfterPut, TryDecompress;
    SentDecompresses(payload);
  }

  /** Data that is not Snappy is delivered as it is, under the id of the invalid domain, on the same conditions. */
  lemma RawIsDelivered(n: Node, topic: M.Topic, data: ByteString, subscriptions: set<M.Topic>, cfg: Config)
    requires |n.cache.windows| > 0 && SnappyDecompress.Decompress(data).Err?
    ensures var id := cfg.idOf(topic, data, false);
      var r := Apply(n, Receive(topic, data, subscriptions), cfg);
      if topic != [] && topic in subscriptions && |data| <= 10 * 1024 * 1024 && id !in n.seen
      then r.events == [Delivered(id, n.clock, data)] && r.node.seen == n.seen[id := n.clock]
      else r == After(n, [])
  {
    hide M.AfterPut, SnappyDecompress.Decompress;
  }

  /** A payload is published, under the id of its domain, exactly when the id has not been seen. */
  lemma PublishedIsRemembered(n: Node, topic: M.Topic, data: ByteString, cfg: Config)
    requires |n.cache.windows| > 0
    ensures var d := SnappyDecompress.Decompress(data);
      var id := if d.Ok? then cfg.idOf(topic, d.value, true) else cfg.idOf(topic, data, false);
      var r := Apply(n, Publish(topic, data), cfg);
      if id !in n.seen then r.events == [Published(id, n.clock)] && r.node.seen == n.seen[id := n.clock]
      else r == After(n, [])
  {
    hide M.AfterPut, SnappyDecompress.Decompress;
  }

  // ---- the full budget ----

  function Sent(events: seq<Event>, peer: PeerId, id: M.MessageId): nat
  {
    if events == [] then 0
    else Sent(events[..|events| - 1], peer, id) + if events[|events| - 1] == Replied(peer, id) then 1 else 0
  }

  lemma {:induction false} SentOccurrences(peer: PeerId, ids: seq<M.MessageId>, id: M.MessageId)
    ensures Sent(ToReplies(peer, ids), peer, id) == Occurrences(ids, id)
    decreases |ids|
  {
    if ids != [] {
      var front := ids[..|ids| - 1];
      SentOccurrences(peer, front, id);
      assert ToReplies(peer, ids)[..|ids| - 1] == ToReplies(peer, front);
      assert ids == front + [ids[|ids| - 1]];
      OccurrencesAppend(front, ids[|ids| - 1], id);
    }
  }

  function Least(a: nat, b: nat): nat
  {
    if a <= b then a else b
  }

  /**
   Right after it connects or after a heartbeat, a peer that asks gets a cached message as often as the first 5000
   ids of its request name it, but no more than three times.
   */
  lemma FullBudget(n: Node, s: Step, peer: PeerId, ids: seq<ByteString>, id: M.MessageId, cfg: Config)
    requires |n.cache.windows| > 0
    requires (s == Connect(peer) && peer !in n.served) || (s.Heartbeat? && peer in n.served)
    ensures var m := Apply(n, s, cfg).node;
      Sent(Apply(m, IWant(peer, ids), cfg).events, peer, id) ==
      if id in m.cache.byId then Least(Requests(ids[..Least(|ids|, 5000)], id), 3) else 0
  {
    hide M.AfterShift, Serve, Requests, Sent, Occurrences;
    var m := Apply(n, s, cfg).node;
    assert m.served[peer] == map[];
    assert Capped(ids) == ids[..Least(|ids|, 5000)];
    ServeExact(map[], m.cache.byId, Capped(ids), id);
    SentOccurrences(peer, Serve(map[], m.cache.byId, Capped(ids)).ids, id);
  }

  // ---- disconnected peers ----

  ghost predicate NothingFor(peer: PeerId, events: seq<Event>)
  {
    forall i | 0 <= i < |events| :: !(events[i].Replied? && events[i].peer == peer)
  }

  lemma StaysAway(n: Node, s: Step, peer: PeerId, cfg: Config)
    requires |n.cache.windows| > 0 && peer !in n.served && s != Connect(peer)
    ensures peer !in Apply(n, s, cfg).node.served && NothingFor(peer, Apply(n, s, cfg).events)
  {
    hide M.AfterPut, M.AfterShift, Serve, TryDecompress, Capped;
  }

  lemma {:induction false} NeverServed(n: Node, steps: seq<Step>, peer: PeerId, cfg: Config)
    requires |n.cache.windows| > 0 && peer !in n.served && Connect(peer) !in steps
    ensures NothingFor(peer, Run(n, steps, cfg).events)
    decreases |steps|
  {
    hide Apply;
    if steps != [] {
      StaysAway(n, steps[0], peer, cfg);
      NeverServed(Apply(n, steps[0], cfg).node, steps[1..], peer, cfg);
    }
  }

  /** After a peer has disconnected, nothing is sent to it in any run in which it does not connect again. */
  lemma DisconnectedGetsNothing(n: Node, steps: seq<Step>, peer: PeerId, cfg: Config)
    requires |n.cache.windows| > 0 && Connect(peer) !in steps
    ensures NothingFor(peer, Run(Apply(n, Disconnect(peer), cfg).node, steps, cfg).events)
  {
    hide Run, NothingFor;
    NeverServed(Apply(n, Disconnect(peer), cfg).node, steps, peer, cfg);
  }
}

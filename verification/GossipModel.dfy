/**
 Gossipsub message handling as steps of a run: deduplication by the seen cache, and the budget of
 IWANT replies (src/lean_spec/node/networking/gossipsub/behavior.py, mcache.py).

 Time is a real number read from a clock that does not go back.  The message-id hash is a parameter.
 */
module GossipModel {
  import opened Bytes
  import opened MessageCache
  import opened NetworkConfig
  import SnappyDecompress

  type PeerId = nat

  type Time = real

  /** Topic, payload, and whether the payload was valid Snappy, hashed to an id. */
  type IdFunction = (Topic, ByteString, bool) -> MessageId

  const GOSSIP_RETRANSMISSION := 3
  const MAX_IWANT_MESSAGE_IDS_PER_REQUEST := 5000

  datatype Config = Config(ttl: Time, length: nat, idOf: IdFunction)

  /** How often each id was sent to a peer since the last heartbeat. */
  type Counts = map<MessageId, nat>

  datatype Node = Node(clock: Time, seen: map<MessageId, Time>, cache: State, served: map<PeerId, Counts>)

  datatype Event =
    | Delivered(id: MessageId, time: Time, data: ByteString)
    | Published(id: MessageId, time: Time)
    | Replied(peer: PeerId, id: MessageId)

  datatype Step =
    | Tick(now: Time)
    | Receive(topic: Topic, data: ByteString, subscriptions: set<Topic>)
    | Publish(topic: Topic, data: ByteString)
    | IWant(peer: PeerId, ids: seq<ByteString>)
    | Heartbeat(started: Time)
    | Connect(peer: PeerId)
    | Disconnect(peer: PeerId)

  // ---- handlers ----

  /** _try_decompress. */
  function TryDecompress(data: ByteString): (ByteString, bool)
  {
    var r := SnappyDecompress.Decompress(data);
    if r.Ok? then (r.value, true) else (data, false)
  }

  function MessageIdOf(cfg: Config, topic: Topic, data: ByteString): MessageId
  {
    cfg.idOf(topic, TryDecompress(data).0, TryDecompress(data).1)
  }

  predicate Acceptable(topic: Topic, data: ByteString, subscriptions: set<Topic>)
  {
    topic != [] && topic in subscriptions && |TryDecompress(data).0| <= MAX_PAYLOAD_SIZE
  }

  /** Mark as seen and cache. */
  function Remember(n: Node, id: MessageId, topic: Topic, data: ByteString): Node
    requires |n.cache.windows| > 0
  {
    n.(seen := n.seen[id := n.clock], cache := AfterPut(n.cache, id, Entry(topic, data)))
  }

  /** SeenCache.cleanup. */
  function Cleanup(seen: map<MessageId, Time>, now: Time, ttl: Time): map<MessageId, Time>
  {
    map id | id in seen && seen[id] >= now - ttl :: seen[id]
  }

  function Count(counts: Counts, id: MessageId): nat
  {
    if id in counts then counts[id] else 0
  }

  /** What one requested id adds: nothing unless it is 20 bytes, below its budget, and cached. */
  predicate Serves(counts: Counts, byId: map<MessageId, Entry>, raw: ByteString)
  {
    |raw| == 20 && Count(counts, FromLE(raw)) < GOSSIP_RETRANSMISSION && FromLE(raw) in byId
  }

  datatype Replies = Replies(counts: Counts, ids: seq<MessageId>)

  /** The loop of _handle_iwant. */
  function Serve(counts: Counts, byId: map<MessageId, Entry>, raws: seq<ByteString>): Replies
    decreases |raws|
  {
    if raws == [] then Replies(counts, [])
    else
      var front := Serve(counts, byId, raws[..|raws| - 1]);
      var raw := raws[|raws| - 1];
      if Serves(front.counts, byId, raw) then
        Replies(front.counts[FromLE(raw) := Count(front.counts, FromLE(raw)) + 1], front.ids + [FromLE(raw)])
      else front
  }

  function Capped(raws: seq<ByteString>): seq<ByteString>
  {
    if |raws| <= MAX_IWANT_MESSAGE_IDS_PER_REQUEST then raws else raws[..MAX_IWANT_MESSAGE_IDS_PER_REQUEST]
  }

  function ToReplies(peer: PeerId, ids: seq<MessageId>): seq<Event>
  {
    seq(|ids|, i requires 0 <= i < |ids| => Replied(peer, ids[i]))
  }

  /** The heartbeat's reset: caches aged, budgets cleared. */
  function Reset(n: Node, started: Time, cfg: Config): Node
    requires |n.cache.windows| > 0
  {
    n.(seen := Cleanup(n.seen, started, cfg.ttl), cache := AfterShift(n.cache, cfg.length),
       served := map p | p in n.served :: map[])
  }

  // ---- runs ----

  datatype After = After(node: Node, events: seq<Event>)

  function Apply(n: Node, s: Step, cfg: Config): (r: After)
    requires |n.cache.windows| > 0
    ensures |r.node.cache.windows| > 0
  {
    match s
    case Tick(now) => After(n.(clock := now), [])
    case Receive(topic, data, subscriptions) =>
      if !Acceptable(topic, data, subscriptions) || MessageIdOf(cfg, topic, data) in n.seen then After(n, [])
      else After(Remember(n, MessageIdOf(cfg, topic, data), topic, data),
                 [Delivered(MessageIdOf(cfg, topic, data), n.clock, TryDecompress(data).0)])
    case Publish(topic, data) =>
      if MessageIdOf(cfg, topic, data) in n.seen then After(n, [])
      else After(Remember(n, MessageIdOf(cfg, topic, data), topic, data),
        [Published(MessageIdOf(cfg, topic, data), n.clock)])
    case IWant(peer, ids) =>
      if peer !in n.served then After(n, [])
      else
        After(n.(served := n.served[peer := Serve(n.served[peer], n.cache.byId, Capped(ids)).counts]),
              ToReplies(peer, Serve(n.served[peer], n.cache.byId, Capped(ids)).ids))
    case Heartbeat(started) => After(Reset(n, started, cfg), [])
    case Connect(peer) => if peer in n.served then After(n, []) else After(n.(served := n.served[peer := map[]]), [])
    case Disconnect(peer) => After(n.(served := n.served - {peer}), [])
  }

  function Run(n: Node, steps: seq<Step>, cfg: Config): (r: After)
    requires |n.cache.windows| > 0
    ensures |r.node.cache.windows| > 0
    decreases |steps|
  {
    if steps == [] then After(n, [])
    else
      After(Run(Apply(n, steps[0], cfg).node, steps[1..], cfg).node,
            Apply(n, steps[0], cfg).events + Run(Apply(n, steps[0], cfg).node, steps[1..], cfg).events)
  }

  /** The clock never goes back, and a heartbeat uses a time read when it started. */
  ghost predicate StepTimely(n: Node, s: Step)
  {
    match s
    case Tick(now) => now >= n.clock
    case Heartbeat(started) => started <= n.clock
    case _ => true
  }

  ghost predicate Timely(n: Node, steps: seq<Step>, cfg: Config)
    requires |n.cache.windows| > 0
    decreases |steps|
  {
    steps == [] || (StepTimely(n, steps[0]) && Timely(Apply(n, steps[0], cfg).node, steps[1..], cfg))
  }

  // ---- no message is accepted twice within the seen TTL ----

  predicate Accepts(e: Event)
  {
    e.Delivered? || e.Published?
  }

  /** Two deliveries or publications of one id are more than the TTL apart. */
  ghost predicate Spaced(events: seq<Event>, ttl: Time)
  {
    forall i, j | 0 <= i < j < |events| && Accepts(events[i]) && Accepts(events[j]) && events[i].id == events[j].id ::
      events[j].time - events[i].time > ttl
  }

  /** A past acceptance is still remembered, or the clock is more than the TTL past it. */
  ghost predicate Remembered(n: Node, e: Event, ttl: Time)
  {
    Accepts(e) ==>
      && e.time <= n.clock
      && ((e.id in n.seen && e.time <= n.seen[e.id]) || n.clock > e.time + ttl)
  }

  ghost predicate AllRemembered(n: Node, events: seq<Event>, ttl: Time)
  {
    forall i | 0 <= i < |events| :: Remembered(n, events[i], ttl)
  }

  lemma StepRemembers(n: Node, s: Step, cfg: Config, e: Event)
    requires |n.cache.windows| > 0 && StepTimely(n, s) && Remembered(n, e, cfg.ttl)
    ensures Remembered(Apply(n, s, cfg).node, e, cfg.ttl)
  {
    hide AfterPut, AfterShift, Serve, TryDecompress;
  }

  lemma StepSpaces(n: Node, s: Step, cfg: Config, e: Event, i: nat)
    requires |n.cache.windows| > 0 && Remembered(n, e, cfg.ttl) && Accepts(e)
    requires i < |Apply(n, s, cfg).events| && Accepts(Apply(n, s, cfg).events[i]) &&
      Apply(n, s, cfg).events[i].id == e.id
    ensures Apply(n, s, cfg).events[i].time - e.time > cfg.ttl
  {
    hide AfterPut, AfterShift, Serve, TryDecompress;
  }

  lemma NewRemembered(n: Node, s: Step, cfg: Config, i: nat)
    requires |n.cache.windows| > 0 && i < |Apply(n, s, cfg).events|
    ensures Remembered(Apply(n, s, cfg).node, Apply(n, s, cfg).events[i], cfg.ttl)
    ensures |Apply(n, s, cfg).events| > 1 ==> !Accepts(Apply(n, s, cfg).events[i])
  {
    hide AfterPut, AfterShift, Serve, TryDecompress;
  }

  lemma StepExtends(n: Node, s: Step, cfg: Config, past: seq<Event>)
    requires |n.cache.windows| > 0 && StepTimely(n, s) && AllRemembered(n, past, cfg.ttl) && Spaced(past, cfg.ttl)
    ensures AllRemembered(Apply(n, s, cfg).node, past + Apply(n, s, cfg).events, cfg.ttl)
    ensures Spaced(past + Apply(n, s, cfg).events, cfg.ttl)
  {
    hide Apply, Remembered;
    var next := Apply(n, s, cfg);
    var all := past + next.events;
    forall i | 0 <= i < |all|
      ensures Remembered(next.node, all[i], cfg.ttl)
    {
      if i < |past| {
        StepRemembers(n, s, cfg, past[i]);
      } else {
        NewRemembered(n, s, cfg, i - |past|);
      }
    }
    forall i, j | 0 <= i < j < |all| && Accepts(all[i]) && Accepts(all[j]) && all[i].id == all[j].id
      ensures all[j].time - all[i].time > cfg.ttl
    {
      if |past| <= i {
        NewRemembered(n, s, cfg, i - |past|);
      } else if |past| <= j {
        StepSpaces(n, s, cfg, past[i], j - |past|);
      }
    }
  }

  lemma {:induction false} RunExtends(n: Node, steps: seq<Step>, cfg: Config, past: seq<Event>)
    requires |n.cache.windows| > 0 && Timely(n, steps, cfg) && AllRemembered(n, past, cfg.ttl) && Spaced(past, cfg.ttl)
    ensures Spaced(past + Run(n, steps, cfg).events, cfg.ttl)
    decreases |steps|
  {
    hide Apply, AllRemembered, Spaced, StepTimely;
    if steps == [] {
      assert past + [] == past;
    } else {
      var next := Apply(n, steps[0], cfg);
      StepExtends(n, steps[0], cfg, past);
      RunExtends(next.node, steps[1..], cfg, past + next.events);
      assert past + next.events + Run(next.node, steps[1..], cfg).events == past + Run(n, steps, cfg).events;
    }
  }

  /** In any run, two deliveries (or publications) of one message id are more than the seen TTL apart. */
  lemma DeliveriesSpaced(n: Node, steps: seq<Step>, cfg: Config)
    requires |n.cache.windows| > 0 && Timely(n, steps, cfg)
    ensures Spaced(Run(n, steps, cfg).events, cfg.ttl)
  {
    RunExtends(n, steps, cfg, []);
    assert [] + Run(n, steps, cfg).events == Run(n, steps, cfg).events;
  }

  // ---- and a message is suppressed exactly while an acceptance of its id is not expired ----

  /** The node before step k of a run. */
  ghost function Before(n: Node, steps: seq<Step>, cfg: Config, k: nat): (m: Node)
    requires |n.cache.windows| > 0 && k <= |steps|
    ensures |m.cache.windows| > 0
  {
    Run(n, steps[..k], cfg).node
  }

  /** Step k accepted the id at time t. */
  ghost predicate AcceptedAt(n: Node, steps: seq<Step>, cfg: Config, id: MessageId, k: nat, t: Time)
    requires |n.cache.windows| > 0
  {
    k < |steps| && IsAcceptance(Apply(Before(n, steps, cfg, k), steps[k], cfg).events, id, t)
  }

  predicate IsAcceptance(events: seq<Event>, id: MessageId, t: Time)
  {
    |events| == 1 && Accepts(events[0]) && events[0].id == id && events[0].time == t
  }

  /** A heartbeat that started more than the TTL after t. */
  predicate Expires(s: Step, t: Time, ttl: Time)
  {
    s.Heartbeat? && s.started > t + ttl
  }

  /** Step k accepted the id at time t, and no later heartbeat expired it. */
  ghost predicate Live(n: Node, steps: seq<Step>, cfg: Config, id: MessageId, k: nat, t: Time)
    requires |n.cache.windows| > 0
  {
    AcceptedAt(n, steps, cfg, id, k, t) && forall j | k < j < |steps| :: !Expires(steps[j], t, cfg.ttl)
  }

  lemma {:induction false} RunSnoc(n: Node, steps: seq<Step>, s: Step, cfg: Config)
    requires |n.cache.windows| > 0
    ensures Run(n, steps + [s], cfg).node == Apply(Run(n, steps, cfg).node, s, cfg).node
    decreases |steps|
  {
    hide Apply;
    if steps == [] {
      assert ([] + [s])[1..] == [];
    } else {
      RunSnoc(Apply(n, steps[0], cfg).node, steps[1..], s, cfg);
      assert (steps + [s])[1..] == steps[1..] + [s];
    }
  }

  /** What is seen after a step: what was, unless the step expired it, and what the step accepted. */
  lemma StepSeen(n: Node, s: Step, cfg: Config, id: MessageId)
    requires |n.cache.windows| > 0
    ensures id in n.seen ==>
      && (id in Apply(n, s, cfg).node.seen <==> !Expires(s, n.seen[id], cfg.ttl))
      && (id in Apply(n, s, cfg).node.seen ==> Apply(n, s, cfg).node.seen[id] == n.seen[id])
    ensures id !in n.seen && id in Apply(n, s, cfg).node.seen ==>
      IsAcceptance(Apply(n, s, cfg).events, id, Apply(n, s, cfg).node.seen[id])
  {
    hide AfterPut, AfterShift, Serve, TryDecompress;
  }

  lemma AcceptanceSeen(n: Node, s: Step, cfg: Config, id: MessageId, t: Time)
    requires |n.cache.windows| > 0 && IsAcceptance(Apply(n, s, cfg).events, id, t)
    ensures id in Apply(n, s, cfg).node.seen && Apply(n, s, cfg).node.seen[id] == t
  {
    hide AfterPut, AfterShift, Serve, TryDecompress;
  }

  lemma BeforeSnoc(n: Node, steps: seq<Step>, s: Step, cfg: Config, k: nat)
    requires |n.cache.windows| > 0 && k <= |steps|
    ensures Before(n, steps + [s], cfg, k) == Before(n, steps, cfg, k)
    ensures Before(n, steps, cfg, |steps|) == Run(n, steps, cfg).node
  {
    hide Run;
    assert (steps + [s])[..k] == steps[..k] && steps[..|steps|] == steps;
  }

  lemma LiveSnoc(n: Node, steps: seq<Step>, s: Step, cfg: Config, id: MessageId, k: nat, t: Time)
    requires |n.cache.windows| > 0
    ensures k < |steps| ==>
      (Live(n, steps + [s], cfg, id, k, t) <==> Live(n, steps, cfg, id, k, t) && !Expires(s, t, cfg.ttl))
    ensures k == |steps| ==>
      (Live(n, steps + [s], cfg, id, k, t) <==> IsAcceptance(Apply(Run(n, steps, cfg).node, s, cfg).events, id, t))
    ensures k > |steps| ==> !Live(n, steps + [s], cfg, id, k, t)
  {
    hide Before, Apply, IsAcceptance, Expires;
    var all := steps + [s];
    if k < |steps| {
      BeforeSnoc(n, steps, s, cfg, k);
      assert all[k] == steps[k] && all[|steps|] == s;
      assert forall j | k < j < |steps| :: all[j] == steps[j];
    } else if k == |steps| {
      BeforeSnoc(n, steps, s, cfg, k);
    }
  }

  /** An id is in the seen cache, with time t, exactly when an acceptance of it at t has not expired. */
  lemma {:induction false} SeenExactly(n: Node, steps: seq<Step>, cfg: Config, id: MessageId)
    requires |n.cache.windows| > 0 && n.seen == map[]
    ensures id in Run(n, steps, cfg).node.seen ==>
      exists k :: Live(n, steps, cfg, id, k, Run(n, steps, cfg).node.seen[id])
    ensures forall k, t | Live(n, steps, cfg, id, k, t) ::
              id in Run(n, steps, cfg).node.seen && Run(n, steps, cfg).node.seen[id] == t
    decreases |steps|
  {
    hide Live, Apply, IsAcceptance, Expires;
    if steps == [] {
      NothingLive(n, cfg, id);
    } else {
      var m := |steps| - 1;
      var front, s := steps[..m], steps[m];
      assert steps == front + [s];
      SeenExactly(n, front, cfg, id);
      RunSnoc(n, front, s, cfg);
      var node := Run(n, front, cfg).node;
      var next := Apply(node, s, cfg);
      hide Run;
      StepSeen(node, s, cfg, id);
      if id in next.node.seen {
        var t := next.node.seen[id];
        if id in node.seen {
          var k :| Live(n, front, cfg, id, k, t);
          LiveBelow(n, front, cfg, id, k, t);
          LiveSnoc(n, front, s, cfg, id, k, t);
        } else {
          LiveSnoc(n, front, s, cfg, id, m, t);
        }
      }
      forall k, t | Live(n, steps, cfg, id, k, t)
        ensures id in next.node.seen && next.node.seen[id] == t
      {
        LiveSnoc(n, front, s, cfg, id, k, t);
        if k == m {
          AcceptanceSeen(node, s, cfg, id, t);
        }
      }
    }
  }

  lemma LiveBelow(n: Node, steps: seq<Step>, cfg: Config, id: MessageId, k: nat, t: Time)
    requires |n.cache.windows| > 0 && Live(n, steps, cfg, id, k, t)
    ensures k < |steps|
  {
  }

  lemma NothingLive(n: Node, cfg: Config, id: MessageId)
    requires |n.cache.windows| > 0
    ensures Run(n, [], cfg).node == n
    ensures forall k, t :: !Live(n, [], cfg, id, k, t)
  {
  }

  /**
   After any run, an acceptable message is suppressed exactly when some step of the run accepted its id at a
   time t and no later heartbeat started after t + ttl; otherwise it is delivered.
   */
  lemma SuppressedExactly(n: Node, steps: seq<Step>, topic: Topic, data: ByteString, subscriptions: set<Topic>,
                          cfg: Config)
    requires |n.cache.windows| > 0 && n.seen == map[] && Acceptable(topic, data, subscriptions)
    ensures var node := Run(n, steps, cfg).node;
      var id := MessageIdOf(cfg, topic, data);
      var events := Apply(node, Receive(topic, data, subscriptions), cfg).events;
      && (events == [] <==> exists k, t :: Live(n, steps, cfg, id, k, t))
      && (events != [] ==> events == [Delivered(id, node.clock, TryDecompress(data).0)])
  {
    hide Run, TryDecompress, Live, Acceptable, AfterPut;
    SeenExactly(n, steps, cfg, MessageIdOf(cfg, topic, data));
  }

  // ---- IWANT replies stay within the budget ----

  function RepliesTo(events: seq<Event>, peer: PeerId, id: MessageId): nat
    decreases |events|
  {
    if events == [] then 0
    else (if events[0] == Replied(peer, id) then 1 else 0) + RepliesTo(events[1..], peer, id)
  }

  lemma {:induction false} RepliesConcat(a: seq<Event>, b: seq<Event>, peer: PeerId, id: MessageId)
    ensures RepliesTo(a + b, peer, id) == RepliesTo(a, peer, id) + RepliesTo(b, peer, id)
  {
    if a == [] {
      assert a + b == b;
    } else {
      RepliesConcat(a[1..], b, peer, id);
      assert (a + b)[1..] == a[1..] + b;
    }
  }

  function Occurrences(ids: seq<MessageId>, id: MessageId): nat
  {
    multiset(ids)[id]
  }

  lemma NoOccurrences(id: MessageId)
    ensures Occurrences([], id) == 0
  {
  }

  lemma {:induction false} RepliesOfIds(ids: seq<MessageId>, peer: PeerId, id: MessageId, p: PeerId)
    ensures RepliesTo(ToReplies(p, ids), peer, id) == if p == peer then Occurrences(ids, id) else 0
    decreases |ids|
  {
    var events := ToReplies(p, ids);
    if ids != [] {
      assert events[1..] == ToReplies(p, ids[1..]);
      RepliesOfIds(ids[1..], peer, id, p);
      assert ids == [ids[0]] + ids[1..];
    }
  }

  ghost predicate WithinBudget(counts: Counts)
  {
    forall id :: Count(counts, id) <= GOSSIP_RETRANSMISSION
  }

  lemma ChargeOne(counts: Counts, id: MessageId, other: MessageId)
    requires WithinBudget(counts) && Count(counts, id) < GOSSIP_RETRANSMISSION
    ensures WithinBudget(counts[id := Count(counts, id) + 1])
    ensures Count(counts[id := Count(counts, id) + 1], other) == Count(counts, other) + if other == id then 1 else 0
  {
    var next := counts[id := Count(counts, id) + 1];
    forall any
      ensures Count(next, any) <= GOSSIP_RETRANSMISSION
    {
      assert Count(counts, any) <= GOSSIP_RETRANSMISSION;
    }
  }

  lemma OccurrencesAppend(ids: seq<MessageId>, id: MessageId, other: MessageId)
    ensures Occurrences(ids + [id], other) == Occurrences(ids, other) + if other == id then 1 else 0
  {
  }

  /** Every reply is charged, and no count passes the budget. */
  lemma {:induction false} ServeCharges(counts: Counts, byId: map<MessageId, Entry>, raws: seq<ByteString>,
                                        id: MessageId)
    requires WithinBudget(counts)
    ensures WithinBudget(Serve(counts, byId, raws).counts)
    ensures Count(Serve(counts, byId, raws).counts, id) ==
      Count(counts, id) + Occurrences(Serve(counts, byId, raws).ids, id)
    decreases |raws|
  {
    hide WithinBudget, Count, Occurrences;
    if raws == [] {
      assert Occurrences([], id) == 0 by { NoOccurrences(id); }
    } else {
      var front := Serve(counts, byId, raws[..|raws| - 1]);
      var raw := raws[|raws| - 1];
      ServeCharges(counts, byId, raws[..|raws| - 1], id);
      if Serves(front.counts, byId, raw) {
        ChargeOne(front.counts, FromLE(raw), id);
        OccurrencesAppend(front.ids, FromLE(raw), id);
      }
    }
  }

  /** How often a request asks for an id. */
  function Requests(raws: seq<ByteString>, id: MessageId): nat
    decreases |raws|
  {
    if raws == [] then 0
    else Requests(raws[..|raws| - 1], id) + if Asks(raws[|raws| - 1], id) then 1 else 0
  }

  predicate Asks(raw: ByteString, id: MessageId)
  {
    |raw| == 20 && FromLE(raw) == id
  }

  /** A cached id is sent as often as it is asked for, up to what is left of its budget; any other id never. */
  lemma {:induction false} ServeExact(counts: Counts, byId: map<MessageId, Entry>, raws: seq<ByteString>, id: MessageId)
    requires WithinBudget(counts)
    ensures Occurrences(Serve(counts, byId, raws).ids, id) ==
            if id !in byId then 0
            else if Requests(raws, id) <= GOSSIP_RETRANSMISSION - Count(counts, id) then Requests(raws, id)
            else GOSSIP_RETRANSMISSION - Count(counts, id)
    decreases |raws|
  {
    hide WithinBudget, Count, Occurrences, FromLE;
    BudgetLeft(counts, id);
    if raws == [] {
      NoOccurrences(id);
    } else {
      var front := Serve(counts, byId, raws[..|raws| - 1]);
      var raw := raws[|raws| - 1];
      ServeExact(counts, byId, raws[..|raws| - 1], id);
      ServeCharges(counts, byId, raws[..|raws| - 1], id);
      if Serves(front.counts, byId, raw) {
        OccurrencesAppend(front.ids, FromLE(raw), id);
      }
    }
  }

  lemma BudgetLeft(counts: Counts, id: MessageId)
    requires WithinBudget(counts)
    ensures Count(counts, id) <= GOSSIP_RETRANSMISSION
  {
  }

  /** Counts of the connected peers are within budget. */
  ghost predicate AllWithinBudget(n: Node)
  {
    forall p | p in n.served :: WithinBudget(n.served[p])
  }

  lemma StepBudget(n: Node, s: Step, cfg: Config)
    requires |n.cache.windows| > 0 && AllWithinBudget(n)
    ensures AllWithinBudget(Apply(n, s, cfg).node)
  {
    hide AfterPut, AfterShift, TryDecompress, Serve;
    if s.IWant? && s.peer in n.served {
      ServeCharges(n.served[s.peer], n.cache.byId, Capped(s.ids), 0);
    }
  }

  /** A step that neither resets the budgets nor disconnects the peer charges it for each reply. */
  lemma StepCharges(n: Node, s: Step, cfg: Config, peer: PeerId, id: MessageId)
    requires |n.cache.windows| > 0 && AllWithinBudget(n) && peer in n.served
    requires !s.Heartbeat? && s != Disconnect(peer)
    ensures var next := Apply(n, s, cfg);
      && peer in next.node.served
      && Count(next.node.served[peer], id) == Count(n.served[peer], id) + RepliesTo(next.events, peer, id)
  {
    hide AfterPut, AfterShift, TryDecompress, Serve;
    if s.IWant? && s.peer in n.served {
      var ids := Serve(n.served[s.peer], n.cache.byId, Capped(s.ids)).ids;
      RepliesOfIds(ids, peer, id, s.peer);
      ServeCharges(n.served[s.peer], n.cache.byId, Capped(s.ids), id);
    }
  }

  lemma {:induction false} RunCharges(n: Node, steps: seq<Step>, cfg: Config, peer: PeerId, id: MessageId)
    requires |n.cache.windows| > 0 && AllWithinBudget(n) && peer in n.served
    requires forall i | 0 <= i < |steps| :: !steps[i].Heartbeat? && steps[i] != Disconnect(peer)
    ensures var end := Run(n, steps, cfg);
      && AllWithinBudget(end.node) && peer in end.node.served
      && Count(end.node.served[peer], id) == Count(n.served[peer], id) + RepliesTo(end.events, peer, id)
    decreases |steps|
  {
    hide Apply, AllWithinBudget;
    if steps != [] {
      var next := Apply(n, steps[0], cfg);
      StepBudget(n, steps[0], cfg);
      StepCharges(n, steps[0], cfg, peer, id);
      RunCharges(next.node, steps[1..], cfg, peer, id);
      RepliesConcat(next.events, Run(next.node, steps[1..], cfg).events, peer, id);
    }
  }

  lemma {:induction false} RunBudget(n: Node, steps: seq<Step>, cfg: Config)
    requires |n.cache.windows| > 0 && AllWithinBudget(n)
    ensures AllWithinBudget(Run(n, steps, cfg).node)
    decreases |steps|
  {
    hide Apply, AllWithinBudget;
    if steps != [] {
      StepBudget(n, steps[0], cfg);
      RunBudget(Apply(n, steps[0], cfg).node, steps[1..], cfg);
    }
  }

  /**
   After any run from a node without peers, in any stretch without a heartbeat reset, a peer that
   stays connected is sent one message id at most three times.
   */
  lemma RetransmissionBound(n: Node, before: seq<Step>, steps: seq<Step>, cfg: Config, peer: PeerId, id: MessageId)
    requires |n.cache.windows| > 0 && n.served == map[]
    requires peer in Run(n, before, cfg).node.served
    requires forall i | 0 <= i < |steps| :: !steps[i].Heartbeat? && steps[i] != Disconnect(peer)
    ensures RepliesTo(Run(Run(n, before, cfg).node, steps, cfg).events, peer, id) <= GOSSIP_RETRANSMISSION
  {
    hide Apply, Run;
    RunBudget(n, before, cfg);
    var start := Run(n, before, cfg).node;
    RunCharges(start, steps, cfg, peer, id);
    assert WithinBudget(Run(start, steps, cfg).node.served[peer]);
  }
}

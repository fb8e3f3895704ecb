/**
 The seen cache and the gossipsub handlers as objects that update their fields
 (src/lean_spec/node/networking/gossipsub/mcache.py, behavior.py), proved to take the steps of GossipModel.

 The clock reading is a parameter.  Sending, forwarding and mesh upkeep are not part of these methods.
 */
module GossipBehavior {
  import opened Bytes
  import opened GossipModel
  import opened NetworkConfig
  import M = MessageCache

  class SeenCache {
    const ttl: Time
    var timestamps: map<M.MessageId, Time>

    constructor (ttl: Time)
      ensures this.ttl == ttl && timestamps == map[]
    {
      this.ttl := ttl;
      timestamps := map[];
    }

    method Add(id: M.MessageId, now: Time) returns (added: bool)
      modifies this
      ensures added == (id !in old(timestamps))
      ensures timestamps == if added then old(timestamps)[id := now] else old(timestamps)
    {
      if id in timestamps {
        return false;
      }
      timestamps := timestamps[id := now];
      added := true;
    }

    /** Exactly the entries older than the TTL go. */
    method Expire(now: Time) returns (removed: nat)
      modifies this
      ensures timestamps == Cleanup(old(timestamps), now, ttl)
      ensures removed == |old(timestamps)| - |timestamps|
    {
      var cutoff := now - ttl;
      var expired := set id | id in timestamps && timestamps[id] < cutoff;
      KeptExactly(timestamps, expired, now, ttl);
      hide Cleanup;
      var left := expired;
      while left != {}
        invariant left <= timestamps.Keys
        invariant timestamps - left == Cleanup(old(timestamps), now, ttl)
        invariant |timestamps| - |left| == |old(timestamps)| - |expired|
        decreases |left|
      {
        var id :| id in left;
        DropOne(timestamps, left, id);
        timestamps := timestamps - {id};
        left := left - {id};
      }
      assert timestamps - {} == timestamps;
      removed := |expired|;
    }
  }

  lemma KeptExactly(m: map<M.MessageId, Time>, expired: set<M.MessageId>, now: Time, ttl: Time)
    requires expired == set id | id in m && m[id] < now - ttl
    ensures expired <= m.Keys && m - expired == Cleanup(m, now, ttl)
  {
  }

  lemma DropOne(m: map<M.MessageId, Time>, left: set<M.MessageId>, id: M.MessageId)
    requires left <= m.Keys && id in left
    ensures left - {id} <= (m - {id}).Keys && (m - {id}) - (left - {id}) == m - left
    ensures |m - {id}| == |m| - 1 && |left - {id}| == |left| - 1
  {
    M.DropKey(m, id);
  }

  /** Set every peer's counts to empty. */
  method ClearAll(peers: map<PeerId, Counts>) returns (r: map<PeerId, Counts>)
    ensures r == map p | p in peers :: map[]
  {
    r := peers;
    var left := peers.Keys;
    while left != {}
      invariant left <= peers.Keys == r.Keys
      invariant forall p | p in peers && p !in left :: r[p] == map[]
      decreases |left|
    {
      var p :| p in left;
      r := r[p := map[]];
      left := left - {p};
    }
  }

  /** The loop of _handle_iwant over the ids of one request. */
  method ServeLoop(counts: Counts, byId: map<M.MessageId, M.Entry>, raws: seq<ByteString>)
    returns (served: Counts, ids: seq<M.MessageId>, messages: seq<M.Entry>)
    ensures Replies(served, ids) == Serve(counts, byId, raws)
    ensures |messages| == |ids| && forall i | 0 <= i < |ids| :: ids[i] in byId && messages[i] == byId[ids[i]]
  {
    served, ids, messages := counts, [], [];
    for k := 0 to |raws|
      invariant Replies(served, ids) == Serve(counts, byId, raws[..k])
      invariant |messages| == |ids| && forall i | 0 <= i < |ids| :: ids[i] in byId && messages[i] == byId[ids[i]]
    {
      assert raws[..k + 1][..k] == raws[..k];
      var raw := raws[k];
      if |raw| != 20 {
        continue;
      }
      var id := FromLE(raw);
      if id in served && served[id] >= GOSSIP_RETRANSMISSION {
        continue;
      }
      if id in byId {
        messages := messages + [byId[id]];
        served := served[id := (if id in served then served[id] else 0) + 1];
        ids := ids + [id];
      }
    }
    assert raws[..|raws|] == raws;
  }

  class Behavior {
    const cfg: Config
    const seen: SeenCache
    const cache: M.MessageCache
    var peers: map<PeerId, Counts>

    ghost predicate Valid()
      reads this, cache
    {
      cache.Valid() && seen.ttl == cfg.ttl && cache.mcacheLength == cfg.length
    }

    /** The node of the model at a clock reading. */
    ghost function At(now: Time): (n: Node)
      requires Valid()
      reads this, seen, cache
      ensures |n.cache.windows| > 0
    {
      M.Nonempty(cache.Abs(), cache.mcacheLength);
      Node(now, seen.timestamps, cache.Abs(), peers)
    }

    constructor (cfg: Config, gossip: nat)
      requires cfg.length >= 1
      ensures Valid() && fresh(seen) && fresh(cache) && this.cfg == cfg
      ensures seen.timestamps == map[] && cache.Abs() == M.START && peers == map[]
    {
      this.cfg := cfg;
      seen := new SeenCache(cfg.ttl);
      cache := new M.MessageCache(cfg.length, gossip);
      peers := map[];
    }

    /** A message from a peer: dropped, or remembered and delivered once. */
    method HandleMessage(topic: M.Topic, data: ByteString, subscriptions: set<M.Topic>, now: Time)
      returns (delivered: Option<ByteString>, id: M.MessageId)
      requires Valid()
      modifies seen, cache
      ensures Valid() && id == MessageIdOf(cfg, topic, data)
      ensures After(At(now), if delivered.Some? then [Delivered(id, now, delivered.value)] else []) ==
              Apply(old(At(now)), Receive(topic, data, subscriptions), cfg)
    {
      hide M.AfterPut, TryDecompress;
      id := MessageIdOf(cfg, topic, data);
      if topic == [] || topic !in subscriptions {
        return None, id;
      }
      var decompressed := TryDecompress(data).0;
      if |decompressed| > MAX_PAYLOAD_SIZE || id in seen.timestamps {
        return None, id;
      }
      var added := seen.Add(id, now);
      var cached := cache.Put(id, topic, data);
      delivered := Some(decompressed);
    }

    /** A message of our own: remembered unless its id was seen. */
    method PublishMessage(topic: M.Topic, data: ByteString, now: Time) returns (isNew: bool)
      requires Valid()
      modifies seen, cache
      ensures Valid() && isNew == (MessageIdOf(cfg, topic, data) !in old(seen.timestamps))
      ensures After(At(now), if isNew then [Published(MessageIdOf(cfg, topic, data), now)] else []) ==
              Apply(old(At(now)), Publish(topic, data), cfg)
    {
      hide M.AfterPut, TryDecompress;
      var id := MessageIdOf(cfg, topic, data);
      if id in seen.timestamps {
        return false;
      }
      var added := seen.Add(id, now);
      var cached := cache.Put(id, topic, data);
      isNew := true;
    }

    /** An IWANT request: the replies are cached messages within the peer's budget. */
    method HandleIWant(peer: PeerId, raws: seq<ByteString>, now: Time)
      returns (ids: seq<M.MessageId>, messages: seq<M.Entry>)
      requires Valid()
      modifies this
      ensures Valid() && After(At(now), ToReplies(peer, ids)) == Apply(old(At(now)), IWant(peer, raws), cfg)
      ensures |messages| == |ids| && forall i | 0 <= i < |ids| ::
        ids[i] in cache.byId && messages[i] == cache.byId[ids[i]]
    {
      hide M.AfterPut, Serve, Serves;
      if peer !in peers {
        return [], [];
      }
      var served;
      served, ids, messages := ServeLoop(peers[peer], cache.byId, Capped(raws));
      peers := peers[peer := served];
    }

    /** The end of a heartbeat that started at `started`. */
    method AgeCaches(started: Time, now: Time)
      requires Valid()
      modifies this, seen, cache
      ensures Valid() && After(At(now), []) == Apply(old(At(now)), Heartbeat(started), cfg)
    {
      hide M.AfterShift, Cleanup;
      var evicted := cache.Shift();
      var removed := seen.Expire(started);
      peers := ClearAll(peers);
    }
  }
}

/** The sliding-window message cache of gossipsub (src/lean_spec/node/networking/gossipsub/mcache.py). */
module MessageCache {
  import opened Bytes
  import opened Listings

  /** A 20-byte message id, read as a number. */
  type MessageId = nat

  type Topic = ByteString

  /** A cached message: its topic and its bytes as received. */
  datatype Entry = Entry(topic: Topic, raw: ByteString)

  // ---- the cache as a value ----

  /** Windows of ids, newest first, and the entry of every id in them. */
  datatype State = State(windows: seq<set<MessageId>>, byId: map<MessageId, Entry>)

  const START := State([{}], map[])

  function Union(windows: seq<set<MessageId>>): set<MessageId>
  {
    if windows == [] then {} else windows[0] + Union(windows[1..])
  }

  ghost predicate Disjoint(windows: seq<set<MessageId>>)
  {
    windows == [] || (windows[0] !! Union(windows[1..]) && Disjoint(windows[1..]))
  }

  /** Pairwise disjoint windows whose union is exactly the id index. */
  ghost predicate Inv(s: State, length: nat)
  {
    1 <= |s.windows| <= length && Disjoint(s.windows) && Union(s.windows) == s.byId.Keys
  }

  function AfterPut(s: State, id: MessageId, e: Entry): State
    requires |s.windows| > 0
  {
    if id in s.byId then s else State(s.windows[0 := s.windows[0] + {id}], s.byId[id := e])
  }

  /** Age every window by one; at capacity the oldest falls off with its messages. */
  function AfterShift(s: State, length: nat): State
    requires |s.windows| > 0
  {
    var n := |s.windows| - 1;
    if |s.windows| >= length then State([{}] + s.windows[..n], s.byId - s.windows[n])
    else State([{}] + s.windows, s.byId)
  }

  /** Ids advertised for a topic: those in the newest `gossip` windows. */
  function GossipIds(s: State, gossip: nat, topic: Topic): set<MessageId>
  {
    set id | id in Union(Newest(s.windows, gossip)) && id in s.byId && s.byId[id].topic == topic
  }

  function Newest(windows: seq<set<MessageId>>, n: nat): seq<set<MessageId>>
  {
    if n < |windows| then windows[..n] else windows
  }

  datatype Op = PutOp(id: MessageId, entry: Entry) | ShiftOp

  function Apply(s: State, op: Op, length: nat): (r: State)
    requires |s.windows| > 0
    ensures |r.windows| > 0
  {
    match op
    case PutOp(id, e) => AfterPut(s, id, e)
    case ShiftOp => AfterShift(s, length)
  }

  function Run(s: State, ops: seq<Op>, length: nat): (r: State)
    requires |s.windows| > 0
    ensures |r.windows| > 0
    decreases |ops|
  {
    if ops == [] then s else Run(Apply(s, ops[0], length), ops[1..], length)
  }

  function Shifts(ops: seq<Op>): nat
    decreases |ops|
  {
    if ops == [] then 0 else (if ops[0].ShiftOp? then 1 else 0) + Shifts(ops[1..])
  }

  // ---- every run keeps the windows a partition of the index ----

  lemma {:induction false} Snoc(windows: seq<set<MessageId>>, w: set<MessageId>)
    ensures Union(windows + [w]) == Union(windows) + w
    ensures Disjoint(windows + [w]) <==> Disjoint(windows) && Union(windows) !! w
  {
    if windows == [] {
      assert windows + [w] == [w];
      assert Union([w][1..]) == {};
    } else {
      Snoc(windows[1..], w);
      assert (windows + [w])[1..] == windows[1..] + [w];
    }
  }

  lemma {:induction false} WindowAt(windows: seq<set<MessageId>>, i: nat)
    requires i < |windows|
    ensures windows[i] <= Union(windows)
  {
    if i > 0 {
      WindowAt(windows[1..], i - 1);
    }
  }

  lemma {:induction false} DisjointAt(windows: seq<set<MessageId>>, i: nat, j: nat)
    requires Disjoint(windows) && i < j < |windows|
    ensures windows[i] !! windows[j]
  {
    if i == 0 {
      WindowAt(windows[1..], j - 1);
    } else {
      DisjointAt(windows[1..], i - 1, j - 1);
    }
  }

  lemma {:induction false} WindowOf(windows: seq<set<MessageId>>, id: MessageId) returns (i: nat)
    requires id in Union(windows)
    ensures i < |windows| && id in windows[i]
  {
    if id in windows[0] {
      i := 0;
    } else {
      var k := WindowOf(windows[1..], id);
      i := k + 1;
    }
  }

  lemma PutKeeps(s: State, id: MessageId, e: Entry, length: nat)
    requires Inv(s, length)
    ensures Inv(AfterPut(s, id, e), length)
  {
    if id !in s.byId {
      var rest := s.windows[1..];
      var r := AfterPut(s, id, e);
      assert r.windows[1..] == rest;
    }
  }

  lemma SplitLast(windows: seq<set<MessageId>>)
    requires windows != []
    ensures var n := |windows| - 1;
      && Union(windows) == Union(windows[..n]) + windows[n]
      && (Disjoint(windows) <==> Disjoint(windows[..n]) && Union(windows[..n]) !! windows[n])
  {
    hide Union, Disjoint;
    var n := |windows| - 1;
    assert windows == windows[..n] + [windows[n]];
    Snoc(windows[..n], windows[n]);
  }

  lemma FreshWindow(windows: seq<set<MessageId>>)
    ensures Union([{}] + windows) == Union(windows) && (Disjoint([{}] + windows) <==> Disjoint(windows))
  {
    assert ([{}] + windows)[1..] == windows;
  }

  lemma ShiftKeeps(s: State, length: nat)
    requires Inv(s, length)
    ensures Inv(AfterShift(s, length), length)
  {
    hide Union, Disjoint;
    SplitLast(s.windows);
    FreshWindow(s.windows);
    FreshWindow(s.windows[..|s.windows| - 1]);
  }

  /** Windows are disjoint and their union is exactly the id index, after any run. */
  lemma {:induction false} RunKeeps(s: State, ops: seq<Op>, length: nat)
    requires Inv(s, length)
    ensures Inv(Run(s, ops, length), length)
    decreases |ops|
  {
    if ops != [] {
      match ops[0] {
        case PutOp(id, e) => PutKeeps(s, id, e, length);
        case ShiftOp => ShiftKeeps(s, length);
      }
      RunKeeps(Apply(s, ops[0], length), ops[1..], length);
    }
  }

  lemma StartKeeps(length: nat)
    requires length >= 1
    ensures Inv(START, length)
  {
  }

  // ---- lifetime of one message ----

  /** Message id sits in window k with entry e. */
  ghost predicate At(s: State, id: MessageId, e: Entry, k: nat)
  {
    k < |s.windows| && id in s.windows[k] && id in s.byId && s.byId[id] == e
  }

  lemma PutMoves(s: State, id: MessageId, e: Entry, k: nat, other: MessageId, f: Entry)
    requires |s.windows| > 0 && At(s, id, e, k)
    ensures At(AfterPut(s, other, f), id, e, k)
  {
    assert k > 0 ==> AfterPut(s, other, f).windows[k] == s.windows[k];
  }

  lemma ShiftMoves(s: State, id: MessageId, e: Entry, k: nat, length: nat)
    requires Inv(s, length) && At(s, id, e, k)
    ensures k + 1 < length ==> At(AfterShift(s, length), id, e, k + 1)
    ensures k + 1 == length ==> id !in AfterShift(s, length).byId
  {
    hide Union, Disjoint;
    var n := |s.windows| - 1;
    if k < n {
      DisjointAt(s.windows, k, n);
    }
    if |s.windows| >= length && k + 1 < length {
      assert AfterShift(s, length).windows[k + 1] == s.windows[k];
    }
  }

  lemma Nonempty(s: State, length: nat)
    requires Inv(s, length)
    ensures |s.windows| > 0
  {
  }

  /** After n shifts, mixed with any puts, the message has moved n windows on, entry unchanged. */
  lemma {:induction false} Retained(s: State, id: MessageId, e: Entry, k: nat, ops: seq<Op>, length: nat)
    requires Inv(s, length) && At(s, id, e, k) && k + Shifts(ops) < length
    ensures At(Run(s, ops, length), id, e, k + Shifts(ops))
    decreases |ops|
  {
    hide At, Inv, AfterPut, AfterShift;
    Nonempty(s, length);
    if ops != [] {
      var s' := Apply(s, ops[0], length);
      match ops[0] {
        case PutOp(other, f) =>
          PutKeeps(s, other, f, length);
          PutMoves(s, id, e, k, other, f);
          Retained(s', id, e, k, ops[1..], length);
        case ShiftOp =>
          ShiftKeeps(s, length);
          ShiftMoves(s, id, e, k, length);
          Retained(s', id, e, k + 1, ops[1..], length);
      }
    }
  }

  lemma WindowUnique(s: State, id: MessageId, e: Entry, k: nat, gossip: nat, topic: Topic, length: nat)
    requires Inv(s, length) && At(s, id, e, k)
    ensures id in GossipIds(s, gossip, topic) <==> k < gossip && e.topic == topic
  {
    hide Union, Disjoint;
    var newest := Newest(s.windows, gossip);
    if id in Union(newest) {
      var i := WindowOf(newest, id);
      SameWindow(s.windows, i, k, id);
    }
    if k < gossip {
      WindowAt(newest, k);
    }
  }

  lemma SameWindow(windows: seq<set<MessageId>>, i: nat, j: nat, id: MessageId)
    requires Disjoint(windows) && i < |windows| && j < |windows| && id in windows[i] && id in windows[j]
    ensures i == j
  {
    if i < j {
      DisjointAt(windows, i, j);
    } else if j < i {
      DisjointAt(windows, j, i);
    }
  }

  /**
   A message put while not cached is retrievable, unchanged, through length - 1 shifts; it is
   advertised for its topic exactly while fewer than `gossip` shifts have passed; the shift after
   that removes it.
   */
  lemma Lifetime(s: State, id: MessageId, e: Entry, ops: seq<Op>, length: nat, gossip: nat, topic: Topic)
    requires Inv(s, length) && id !in s.byId && Shifts(ops) < length
    ensures var t := Run(AfterPut(s, id, e), ops, length);
      && id in t.byId && t.byId[id] == e
      && (id in GossipIds(t, gossip, topic) <==> Shifts(ops) < gossip && e.topic == topic)
      && (Shifts(ops) == length - 1 ==> id !in AfterShift(t, length).byId)
  {
    var s' := AfterPut(s, id, e);
    assert At(s', id, e, 0);
    hide Inv, AfterPut, AfterShift, GossipIds;
    PutKeeps(s, id, e, length);
    Retained(s', id, e, 0, ops, length);
    RunKeeps(s', ops, length);
    var t := Run(s', ops, length);
    WindowUnique(t, id, e, Shifts(ops), gossip, topic, length);
    ShiftMoves(t, id, e, Shifts(ops), length);
  }

  ghost predicate PutsNo(ops: seq<Op>, id: MessageId)
  {
    forall i | 0 <= i < |ops| :: ops[i].PutOp? ==> ops[i].id != id
  }

  lemma {:induction false} StaysGone(s: State, id: MessageId, ops: seq<Op>, length: nat)
    requires |s.windows| > 0 && id !in s.byId && PutsNo(ops, id)
    ensures id !in Run(s, ops, length).byId
    decreases |ops|
  {
    if ops != [] {
      StaysGone(Apply(s, ops[0], length), id, ops[1..], length);
    }
  }

  lemma {:induction false} RetainedExactly(s: State, id: MessageId, e: Entry, k: nat, ops: seq<Op>, length: nat)
    requires Inv(s, length) && At(s, id, e, k) && k < length && PutsNo(ops, id)
    ensures id in Run(s, ops, length).byId <==> k + Shifts(ops) < length
    decreases |ops|
  {
    hide Inv, AfterPut, AfterShift;
    if ops != [] {
      var s' := Apply(s, ops[0], length);
      match ops[0] {
        case PutOp(other, f) =>
          PutKeeps(s, other, f, length);
          PutMoves(s, id, e, k, other, f);
          RetainedExactly(s', id, e, k, ops[1..], length);
        case ShiftOp =>
          ShiftKeeps(s, length);
          ShiftMoves(s, id, e, k, length);
          if k + 1 < length {
            RetainedExactly(s', id, e, k + 1, ops[1..], length);
          } else {
            StaysGone(s', id, ops[1..], length);
          }
      }
    }
  }

  /**
   In any run from an empty cache: once put, a message is retrievable exactly while fewer than `length`
   shifts have passed, and it is the message that was put.
   */
  lemma Retrievable(before: seq<Op>, id: MessageId, e: Entry, ops: seq<Op>, length: nat)
    requires length >= 1 && id !in Run(START, before, length).byId && PutsNo(ops, id)
    ensures var t := Run(AfterPut(Run(START, before, length), id, e), ops, length);
      && Inv(t, length)
      && (id in t.byId <==> Shifts(ops) < length)
      && (id in t.byId ==> t.byId[id] == e)
  {
    StartKeeps(length);
    RunKeeps(START, before, length);
    var s := Run(START, before, length);
    var s' := AfterPut(s, id, e);
    assert At(s', id, e, 0);
    hide Inv, AfterPut, AfterShift;
    PutKeeps(s, id, e, length);
    RunKeeps(s', ops, length);
    RetainedExactly(s', id, e, 0, ops, length);
    if Shifts(ops) < length {
      Retained(s', id, e, 0, ops, length);
    }
  }

  // ---- the class ----

  class MessageCache {
    const mcacheLength: nat
    const mcacheGossip: nat
    var windows: seq<set<MessageId>>
    var byId: map<MessageId, Entry>

    ghost predicate Valid()
      reads this
    {
      Inv(State(windows, byId), mcacheLength)
    }

    ghost function Abs(): State
      reads this
    {
      State(windows, byId)
    }

    constructor (length: nat, gossip: nat)
      requires length >= 1
      ensures mcacheLength == length && mcacheGossip == gossip && Valid() && Abs() == START
    {
      mcacheLength, mcacheGossip := length, gossip;
      windows, byId := [{}], map[];
    }

    /** put. */
    method Put(id: MessageId, topic: Topic, raw: ByteString) returns (added: bool)
      requires Valid()
      modifies this
      ensures Valid() && added == (id !in old(byId))
      ensures Abs() == AfterPut(old(Abs()), id, Entry(topic, raw))
    {
      PutKeeps(Abs(), id, Entry(topic, raw), mcacheLength);
      if id in byId {
        return false;
      }
      windows := windows[0 := windows[0] + {id}];
      byId := byId[id := Entry(topic, raw)];
      return true;
    }

    /** get: a message is found exactly when some window still holds its id. */
    method Get(id: MessageId) returns (r: Option<Entry>)
      requires Valid()
      ensures r.Some? <==> id in Union(windows)
      ensures r.Some? ==> id in byId && r.value == byId[id]
    {
      r := if id in byId then Some(byId[id]) else None;
    }

    /** get_gossip_ids: no id twice, since no id is in two windows. */
    method GetGossipIds(topic: Topic) returns (ids: seq<MessageId>)
      requires Valid()
      ensures Lists(ids, GossipIds(Abs(), mcacheGossip, topic))
    {
      hide Union, Disjoint, Lists;
      var count := if mcacheGossip < |windows| then mcacheGossip else |windows|;
      ids := [];
      NothingListed(Abs(), topic);
      for w := 0 to count
        invariant Lists(ids, GossipIds(Abs(), w, topic))
      {
        GossipStep(Abs(), w, topic, mcacheLength);
        ids := AddWindow(ids, w, topic, GossipIds(Abs(), w, topic));
      }
      assert Newest(windows, count) == Newest(windows, mcacheGossip);
    }

    method AddWindow(ids: seq<MessageId>, w: nat, topic: Topic, ghost listed: set<MessageId>)
      returns (r: seq<MessageId>)
      requires Valid() && w < |windows| && Lists(ids, listed) && listed !! windows[w]
      ensures Lists(r, listed + OnTopic(windows[w], byId, topic))
    {
      hide Union, Disjoint, Lists;
      r := ids;
      var left := windows[w];
      ghost var done: set<MessageId> := {};
      assert listed + OnTopic(done, byId, topic) == listed;
      while left != {}
        invariant left <= windows[w] && done == windows[w] - left
        invariant Lists(r, listed + OnTopic(done, byId, topic))
        decreases left
      {
        var id :| id in left;
        if id in byId && byId[id].topic == topic {
          ListsAppend(r, listed + OnTopic(done, byId, topic), id);
          r := r + [id];
          assert listed + OnTopic(done, byId, topic) + {id} == listed + OnTopic(done + {id}, byId, topic);
        } else {
          assert OnTopic(done, byId, topic) == OnTopic(done + {id}, byId, topic);
        }
        done := done + {id};
        left := left - {id};
      }
      assert done == windows[w];
    }

    /** shift. */
    method Shift() returns (evicted: nat)
      requires Valid()
      modifies this
      ensures Valid() && Abs() == AfterShift(old(Abs()), mcacheLength)
      ensures evicted == |old(byId)| - |byId|
    {
      hide Inv;
      Nonempty(Abs(), mcacheLength);
      ShiftKeeps(Abs(), mcacheLength);
      evicted := 0;
      if |windows| >= mcacheLength {
        var n := |windows| - 1;
        var oldest := windows[n];
        windows := windows[..n];
        evicted := DropAll(oldest);
      }
      windows := [{}] + windows;
    }

    /** Delete every id of an evicted window from the index. */
    method DropAll(ids: set<MessageId>) returns (evicted: nat)
      modifies this`byId
      ensures byId == old(byId) - ids && evicted == |old(byId)| - |byId|
    {
      evicted := 0;
      var left := ids;
      ghost var gone: set<MessageId> := {};
      MapWithout(byId, gone, 0);
      while left != {}
        invariant gone !! left && gone + left == ids && byId == old(byId) - gone
        invariant evicted == |old(byId)| - |byId|
        decreases left
      {
        var id :| id in left;
        MapWithout(old(byId), gone, id);
        if id in byId {
          DropKey(byId, id);
          byId := byId - {id};
          evicted := evicted + 1;
        }
        left := left - {id};
        gone := gone + {id};
      }
      assert gone == ids;
    }
  }

  lemma MapWithout(m: map<MessageId, Entry>, gone: set<MessageId>, id: MessageId)
    ensures m - {} == m
    ensures m - gone - {id} == m - (gone + {id})
    ensures id !in m - gone && id !in gone ==> m - gone == m - (gone + {id})
  {
  }

  function OnTopic(ids: set<MessageId>, byId: map<MessageId, Entry>, topic: Topic): set<MessageId>
  {
    set id | id in ids && id in byId && byId[id].topic == topic
  }

  lemma NothingListed(s: State, topic: Topic)
    requires |s.windows| > 0
    ensures Lists([], GossipIds(s, 0, topic))
  {
    assert s.windows[..0] == [];
  }

  lemma DropKey<T>(m: map<MessageId, T>, id: MessageId)
    requires id in m
    ensures |m - {id}| == |m| - 1
  {
    assert (m - {id}).Keys == m.Keys - {id};
  }

  lemma GossipStep(s: State, w: nat, topic: Topic, length: nat)
    requires Inv(s, length) && w < |s.windows|
    ensures GossipIds(s, w + 1, topic) == GossipIds(s, w, topic) + OnTopic(s.windows[w], s.byId, topic)
    ensures GossipIds(s, w, topic) !! s.windows[w]
  {
    hide Union, Disjoint;
    var ws := s.windows;
    assert Newest(ws, w) == ws[..w];
    assert Newest(ws, w + 1) == ws[..w] + [ws[w]];
    Snoc(ws[..w], ws[w]);
    PrefixDisjoint(ws, w + 1);
    assert ws[..w + 1] == ws[..w] + [ws[w]];
  }

  lemma {:induction false} PrefixDisjoint(windows: seq<set<MessageId>>, n: nat)
    requires Disjoint(windows) && n <= |windows|
    ensures Disjoint(windows[..n])
    decreases |windows|
  {
    if n < |windows| {
      SplitLast(windows);
      var front := windows[..|windows| - 1];
      PrefixDisjoint(front, n);
      assert front[..n] == windows[..n];
    } else {
      assert windows[..n] == windows;
    }
  }
}

/**
 What the orphan block cache stands for: a bounded queue of blocks and a set of orphan roots, and
 what every run of its operations keeps (src/lean_spec/node/sync/block_cache.py).
 */
module CacheModel {
  import opened Bytes

  const MAX_CACHED_BLOCKS := 1024

  /** A hash tree root, its 32 bytes read as a number. */
  type Root = nat

  type PeerId = nat

  /** A block with its hash tree root. */
  datatype Block = Block(root: Root, parent: Root, slot: nat)

  datatype Pending = Pending(block: Block, receivedFrom: Option<PeerId>, backfillDepth: nat)

  // ---- reference: a queue of blocks and a set of orphan roots ----

  datatype Cache = Cache(queue: seq<Pending>, orphans: set<Root>)

  const EMPTY := Cache([], {})

  function RootsOf(queue: seq<Pending>): set<Root>
  {
    set i | 0 <= i < |queue| :: queue[i].block.root
  }

  /** Roots of the queued blocks with the given parent. */
  function Children(queue: seq<Pending>, parent: Root): set<Root>
  {
    set i | 0 <= i < |queue| && queue[i].block.parent == parent :: queue[i].block.root
  }

  ghost predicate Distinct(queue: seq<Pending>)
  {
    forall i, j | 0 <= i < j < |queue| :: queue[i].block.root != queue[j].block.root
  }

  ghost predicate Inv(c: Cache)
  {
    && Distinct(c.queue)
    && |c.queue| <= MAX_CACHED_BLOCKS
    && c.orphans <= RootsOf(c.queue)
  }

  function Without(queue: seq<Pending>, roots: set<Root>): (r: seq<Pending>)
  {
    if queue == [] then []
    else (if queue[0].block.root in roots then [] else [queue[0]]) + Without(queue[1..], roots)
  }

  /** Drop the oldest block when full; its cached children become orphans. */
  function Evict(c: Cache): Cache
  {
    if |c.queue| < MAX_CACHED_BLOCKS then c
    else
      var gone := c.queue[0].block.root;
      Cache(c.queue[1..], c.orphans - {gone} + Children(c.queue[1..], gone))
  }

  function Add(c: Cache, p: Pending): Cache
  {
    if p.block.root in RootsOf(c.queue) then c
    else Cache(Evict(c).queue + [p], Evict(c).orphans)
  }

  function Remove(c: Cache, root: Root): Cache
  {
    Cache(Without(c.queue, {root}), c.orphans - {root})
  }

  function MarkOrphan(c: Cache, root: Root): Cache
  {
    if root in RootsOf(c.queue) then c.(orphans := c.orphans + {root}) else c
  }

  // ---- every operation keeps the invariant ----

  datatype Op = AddOp(p: Pending) | RemoveOp(root: Root) | OrphanOp(root: Root)

  function Apply(c: Cache, op: Op): Cache
  {
    match op
    case AddOp(p) => Add(c, p)
    case RemoveOp(r) => Remove(c, r)
    case OrphanOp(r) => MarkOrphan(c, r)
  }

  function Run(c: Cache, ops: seq<Op>): Cache
    decreases |ops|
  {
    if ops == [] then c else Run(Apply(c, ops[0]), ops[1..])
  }

  lemma InQueue(queue: seq<Pending>, i: nat)
    requires i < |queue|
    ensures queue[i].block.root in RootsOf(queue)
  {
  }

  lemma EvictKeeps(c: Cache)
    requires Inv(c)
    ensures Inv(Evict(c)) && |Evict(c).queue| < MAX_CACHED_BLOCKS
    ensures RootsOf(Evict(c).queue) <= RootsOf(c.queue)
  {
    if |c.queue| >= MAX_CACHED_BLOCKS {
      var rest := c.queue[1..];
      var gone := c.queue[0].block.root;
      forall r | r in RootsOf(rest)
        ensures r in RootsOf(c.queue)
      {
        var i :| 0 <= i < |rest| && rest[i].block.root == r;
        assert c.queue[i + 1].block.root == r;
      }
      forall r | r in RootsOf(c.queue) && r != gone
        ensures r in RootsOf(rest)
      {
        var i :| 0 <= i < |c.queue| && c.queue[i].block.root == r;
        assert rest[i - 1].block.root == r;
      }
    }
  }

  lemma RootsAppend(queue: seq<Pending>, p: Pending)
    ensures RootsOf(queue + [p]) == RootsOf(queue) + {p.block.root}
  {
    var q := queue + [p];
    forall r | r in RootsOf(queue)
      ensures r in RootsOf(q)
    {
      var i :| 0 <= i < |queue| && queue[i].block.root == r;
      assert q[i].block.root == r;
    }
    assert q[|queue|].block.root == p.block.root;
  }

  lemma AddKeeps(c: Cache, p: Pending)
    requires Inv(c)
    ensures Inv(Add(c, p)) && p.block.root in RootsOf(Add(c, p).queue)
  {
    if p.block.root !in RootsOf(c.queue) {
      EvictKeeps(c);
      var e := Evict(c);
      RootsAppend(e.queue, p);
      forall i | 0 <= i < |e.queue|
        ensures e.queue[i].block.root != p.block.root
      {
        InQueue(e.queue, i);
      }
    }
  }

  lemma WithoutUnfold(queue: seq<Pending>, roots: set<Root>)
    ensures queue == [] ==> Without(queue, roots) == []
    ensures queue != [] ==>
      && queue == [queue[0]] + queue[1..]
      && Without(queue, roots) ==
         if queue[0].block.root in roots then Without(queue[1..], roots) else [queue[0]] + Without(queue[1..], roots)
  {
    if queue != [] {
      assert [] + Without(queue[1..], roots) == Without(queue[1..], roots);
    }
  }

  lemma {:induction false} WithoutRoots(queue: seq<Pending>, roots: set<Root>)
    ensures RootsOf(Without(queue, roots)) == RootsOf(queue) - roots
    ensures |Without(queue, roots)| <= |queue|
  {
    hide Without, RootsOf;
    WithoutUnfold(queue, roots);
    if queue == [] {
      NoRoots();
    } else {
      WithoutRoots(queue[1..], roots);
      RootsCons(queue[0], queue[1..]);
      RootsCons(queue[0], Without(queue[1..], roots));
    }
  }

  lemma NoRoots()
    ensures RootsOf([]) == {}
  {
  }

  lemma {:induction false} WithoutDistinct(queue: seq<Pending>, roots: set<Root>)
    requires Distinct(queue)
    ensures Distinct(Without(queue, roots))
  {
    hide Without, RootsOf;
    WithoutUnfold(queue, roots);
    if queue != [] {
      var rest := queue[1..];
      WithoutDistinct(rest, roots);
      WithoutRoots(rest, roots);
      HeadNotInTail(queue);
      DistinctCons(queue[0], Without(rest, roots));
    }
  }

  lemma HeadNotInTail(queue: seq<Pending>)
    requires Distinct(queue) && queue != []
    ensures queue[0].block.root !in RootsOf(queue[1..])
  {
  }

  lemma DistinctCons(p: Pending, queue: seq<Pending>)
    requires Distinct(queue) && p.block.root !in RootsOf(queue)
    ensures Distinct([p] + queue)
  {
    forall i | 0 <= i < |queue|
      ensures queue[i].block.root != p.block.root
    {
      InQueue(queue, i);
    }
  }

  lemma RootsCons(p: Pending, queue: seq<Pending>)
    ensures RootsOf([p] + queue) == {p.block.root} + RootsOf(queue)
  {
    var q := [p] + queue;
    assert q[0].block.root == p.block.root;
    forall r | r in RootsOf(queue)
      ensures r in RootsOf(q)
    {
      var i :| 0 <= i < |queue| && queue[i].block.root == r;
      assert q[i + 1].block.root == r;
    }
  }

  lemma ApplyKeeps(c: Cache, op: Op)
    requires Inv(c)
    ensures Inv(Apply(c, op))
  {
    match op
    case AddOp(p) => AddKeeps(c, p);
    case RemoveOp(r) => WithoutRoots(c.queue, {r}); WithoutDistinct(c.queue, {r});
    case OrphanOp(r) =>
  }

  /** In every reachable state the cache is bounded, without duplicates, and only cached blocks are orphans. */
  lemma {:induction false} RunKeeps(c: Cache, ops: seq<Op>)
    requires Inv(c)
    ensures Inv(Run(c, ops))
    decreases |ops|
  {
    if ops != [] {
      ApplyKeeps(c, ops[0]);
      RunKeeps(Apply(c, ops[0]), ops[1..]);
    }
  }

  /** Eviction takes the oldest block, and marks just its cached children as new orphans. */
  lemma EvictionOrphansChildren(c: Cache, p: Pending)
    requires Inv(c) && |c.queue| == MAX_CACHED_BLOCKS && p.block.root !in RootsOf(c.queue)
    ensures var gone := c.queue[0].block.root;
      && gone !in RootsOf(Add(c, p).queue)
      && Add(c, p).queue == c.queue[1..] + [p]
      && forall r | r in RootsOf(c.queue[1..]) ::
           r in Add(c, p).orphans <==> r in c.orphans || r in Children(c.queue[1..], gone)
  {
    var rest, gone := c.queue[1..], c.queue[0].block.root;
    assert gone !in RootsOf(rest) by {
      forall i | 0 <= i < |rest|
        ensures rest[i].block.root != gone
      {
        assert rest[i] == c.queue[i + 1];
      }
    }
    RootsAppend(rest, p);
    InQueue(c.queue, 0);
  }

  // ---- eviction is first in, first out ----

  /** Blocks evicted by an operation, and blocks it inserted. */
  function EvictedBy(c: Cache, op: Op): seq<Pending>
  {
    if op.AddOp? && op.p.block.root !in RootsOf(c.queue) && |c.queue| >= MAX_CACHED_BLOCKS then [c.queue[0]] else []
  }

  function InsertedBy(c: Cache, op: Op): seq<Pending>
  {
    if op.AddOp? && op.p.block.root !in RootsOf(c.queue) then [op.p] else []
  }

  function Evicted(c: Cache, ops: seq<Op>): seq<Pending>
    decreases |ops|
  {
    if ops == [] then [] else EvictedBy(c, ops[0]) + Evicted(Apply(c, ops[0]), ops[1..])
  }

  function Inserted(c: Cache, ops: seq<Op>): seq<Pending>
    decreases |ops|
  {
    if ops == [] then [] else InsertedBy(c, ops[0]) + Inserted(Apply(c, ops[0]), ops[1..])
  }

  /** Blocks taken out by remove. */
  function RemovedRoots(ops: seq<Op>): set<Root>
    decreases |ops|
  {
    if ops == [] then {} else (if ops[0].RemoveOp? then {ops[0].root} else {}) + RemovedRoots(ops[1..])
  }

  lemma {:induction false} WithoutConcat(a: seq<Pending>, b: seq<Pending>, roots: set<Root>)
    ensures Without(a + b, roots) == Without(a, roots) + Without(b, roots)
  {
    hide Without;
    WithoutUnfold(a, roots);
    WithoutUnfold(a + b, roots);
    if a == [] {
      assert a + b == b;
    } else {
      WithoutConcat(a[1..], b, roots);
      assert (a + b)[1..] == a[1..] + b;
    }
  }

  lemma {:induction false} WithoutTwice(queue: seq<Pending>, small: set<Root>, large: set<Root>)
    requires small <= large
    ensures Without(Without(queue, small), large) == Without(queue, large)
  {
    hide Without;
    WithoutUnfold(queue, small);
    WithoutUnfold(queue, large);
    if queue != [] {
      var rest := Without(queue[1..], small);
      WithoutTwice(queue[1..], small, large);
      WithoutUnfold([queue[0]] + rest, large);
      assert ([queue[0]] + rest)[1..] == rest;
    } else {
      WithoutUnfold([], large);
    }
  }

  lemma ApplyFifo(c: Cache, op: Op, removed: set<Root>)
    requires op.RemoveOp? ==> op.root in removed
    ensures Without(EvictedBy(c, op) + Apply(c, op).queue, removed) ==
            Without(c.queue + InsertedBy(c, op), removed)
  {
    match op
    case AddOp(p) =>
      if p.block.root in RootsOf(c.queue) {
        assert [] + c.queue == c.queue + [];
      } else if |c.queue| >= MAX_CACHED_BLOCKS {
        assert [c.queue[0]] + (c.queue[1..] + [p]) == c.queue + [p];
      } else {
        assert [] + (c.queue + [p]) == c.queue + [p];
      }
    case RemoveOp(r) =>
      WithoutTwice(c.queue, {r}, removed);
      assert [] + Without(c.queue, {r}) == Without(c.queue, {r}) && c.queue + [] == c.queue;
    case OrphanOp(r) =>
      assert [] + c.queue == c.queue + [];
  }

  /** Two consecutive stretches of a run, glued. */
  lemma FifoGlue(e: seq<Pending>, e': seq<Pending>, q: seq<Pending>, d: seq<Pending>,
                 c: seq<Pending>, i: seq<Pending>, i': seq<Pending>, removed: set<Root>)
    requires Without(e' + q, removed) == Without(d + i', removed)
    requires Without(e + d, removed) == Without(c + i, removed)
    ensures Without(e + e' + q, removed) == Without(c + (i + i'), removed)
  {
    hide Without;
    assert e + e' + q == e + (e' + q) && e + (d + i') == e + d + i' && c + i + i' == c + (i + i');
    WithoutConcat(e, e' + q, removed);
    WithoutConcat(e, d + i', removed);
    WithoutConcat(e + d, i', removed);
    WithoutConcat(c + i, i', removed);
  }

  /**
   Over any run, the blocks evicted, followed by those still cached, are the blocks inserted, in
   order: apart from blocks that remove took out, nothing overtakes, however often it is re-added.
   */
  lemma {:induction false} RunFifo(c: Cache, ops: seq<Op>, removed: set<Root>)
    requires RemovedRoots(ops) <= removed
    ensures Without(Evicted(c, ops) + Run(c, ops).queue, removed) ==
            Without(c.queue + Inserted(c, ops), removed)
    decreases |ops|
  {
    hide Without, EvictedBy, InsertedBy, Apply;
    if ops == [] {
      assert [] + c.queue == c.queue + [];
    } else {
      var d := Apply(c, ops[0]);
      RunFifo(d, ops[1..], removed);
      ApplyFifo(c, ops[0], removed);
      FifoGlue(EvictedBy(c, ops[0]), Evicted(d, ops[1..]), Run(d, ops[1..]).queue, d.queue,
               c.queue, InsertedBy(c, ops[0]), Inserted(d, ops[1..]), removed);
    }
  }

  lemma {:induction false} WithoutNone(queue: seq<Pending>)
    ensures Without(queue, {}) == queue
  {
    if queue != [] {
      WithoutNone(queue[1..]);
    }
  }

  /** Without removals the cache is exactly a first-in-first-out queue. */
  lemma FifoQueue(ops: seq<Op>)
    requires RemovedRoots(ops) == {}
    ensures Evicted(EMPTY, ops) + Run(EMPTY, ops).queue == Inserted(EMPTY, ops)
  {
    RunFifo(EMPTY, ops, {});
    WithoutNone(Evicted(EMPTY, ops) + Run(EMPTY, ops).queue);
    WithoutNone([] + Inserted(EMPTY, ops));
    assert [] + Inserted(EMPTY, ops) == Inserted(EMPTY, ops);
  }

  function Min(a: nat, b: nat): nat
  {
    if a <= b then a else b
  }

  lemma {:induction false} RunLength(c: Cache, ops: seq<Op>)
    requires RemovedRoots(ops) == {} && |c.queue| <= MAX_CACHED_BLOCKS
    ensures |Run(c, ops).queue| == Min(|c.queue| + |Inserted(c, ops)|, MAX_CACHED_BLOCKS)
    decreases |ops|
  {
    hide RootsOf, Children;
    if ops != [] {
      RunLength(Apply(c, ops[0]), ops[1..]);
    }
  }

  /** Without removals the cache holds the newest 1024 blocks inserted, or all of them. */
  lemma NewestKept(ops: seq<Op>)
    requires RemovedRoots(ops) == {}
    ensures var all := Inserted(EMPTY, ops); Run(EMPTY, ops).queue == all[|all| - Min(|all|, 1024)..]
  {
    hide Run, Evicted, Inserted, RemovedRoots;
    FifoQueue(ops);
    RunLength(EMPTY, ops);
    var gone, kept := Evicted(EMPTY, ops), Run(EMPTY, ops).queue;
    assert (gone + kept)[|gone|..] == kept;
  }

  // ---- strictly: by the time of insertion, whatever was removed and added again ----

  /** A block and the index of the operation that inserted it. */
  datatype Stamped = Stamped(p: Pending, at: nat)

  function Erase(queue: seq<Stamped>): (r: seq<Pending>)
    ensures |r| == |queue| && forall i | 0 <= i < |queue| :: r[i] == queue[i].p
  {
    seq(|queue|, i requires 0 <= i < |queue| => queue[i].p)
  }

  function StampedWithout(queue: seq<Stamped>, root: Root): seq<Stamped>
  {
    if queue == [] then []
    else (if queue[0].p.block.root == root then [] else [queue[0]]) + StampedWithout(queue[1..], root)
  }

  /** The blocks evicted so far and the blocks cached, each with its insertion. */
  datatype Trace = Trace(evicted: seq<Stamped>, queue: seq<Stamped>)

  function StampedApply(t: Trace, op: Op, now: nat): Trace
  {
    match op
    case AddOp(p) =>
      if p.block.root in RootsOf(Erase(t.queue)) then t
      else if |t.queue| < MAX_CACHED_BLOCKS then Trace(t.evicted, t.queue + [Stamped(p, now)])
      else Trace(t.evicted + [t.queue[0]], t.queue[1..] + [Stamped(p, now)])
    case RemoveOp(r) => Trace(t.evicted, StampedWithout(t.queue, r))
    case OrphanOp(_) => t
  }

  function StampedRun(ops: seq<Op>): Trace
    decreases |ops|
  {
    if ops == [] then Trace([], [])
    else StampedApply(StampedRun(ops[..|ops| - 1]), ops[|ops| - 1], |ops| - 1)
  }

  /** Stamps rise strictly and are below `now`. */
  ghost predicate Rising(s: seq<Stamped>, now: nat)
  {
    && (forall i, j | 0 <= i < j < |s| :: s[i].at < s[j].at)
    && (forall i | 0 <= i < |s| :: s[i].at < now)
  }

  lemma {:induction false} StampedWithoutErases(queue: seq<Stamped>, root: Root)
    ensures Erase(StampedWithout(queue, root)) == Without(Erase(queue), {root})
  {
    hide Without;
    WithoutUnfold(Erase(queue), {root});
    if queue != [] {
      StampedWithoutErases(queue[1..], root);
      assert Erase(queue)[1..] == Erase(queue[1..]);
      var rest := StampedWithout(queue[1..], root);
      assert Erase([queue[0]] + rest) == [queue[0].p] + Erase(rest);
      assert [] + rest == rest;
    }
  }

  lemma StampedApplyErases(t: Trace, op: Op, now: nat, c: Cache)
    requires Erase(t.queue) == c.queue
    ensures Erase(StampedApply(t, op, now).queue) == Apply(c, op).queue
    ensures Erase(StampedApply(t, op, now).evicted) == Erase(t.evicted) + EvictedBy(c, op)
  {
    hide Without, RootsOf, StampedWithout;
    var next := StampedApply(t, op, now);
    if op.RemoveOp? {
      StampedWithoutErases(t.queue, op.root);
    } else if op.AddOp? && op.p.block.root !in RootsOf(c.queue) {
      assert Erase(next.queue) == Apply(c, op).queue;
    }
    assert Erase(next.evicted) == Erase(t.evicted) + EvictedBy(c, op);
  }

  /** Taking one root out keeps the order, and every entry left was there. */
  lemma {:induction false} WithoutRising(front: seq<Stamped>, queue: seq<Stamped>, root: Root, now: nat)
    requires Rising(front + queue, now)
    ensures Rising(front + StampedWithout(queue, root), now)
    decreases |queue|
  {
    hide Rising;
    if queue == [] {
      assert StampedWithout(queue, root) == [];
    } else {
      var rest := StampedWithout(queue[1..], root);
      if queue[0].p.block.root == root {
        SkipRising(front, queue, now);
        WithoutRising(front, queue[1..], root, now);
        assert [] + rest == rest;
      } else {
        assert front + queue == (front + [queue[0]]) + queue[1..];
        WithoutRising(front + [queue[0]], queue[1..], root, now);
        assert front + ([queue[0]] + rest) == front + [queue[0]] + rest;
      }
    }
  }

  lemma SkipRising(front: seq<Stamped>, queue: seq<Stamped>, now: nat)
    requires queue != [] && Rising(front + queue, now)
    ensures Rising(front + queue[1..], now)
  {
    var a, b := front + queue, front + queue[1..];
    assert forall i | 0 <= i < |b| :: b[i] == a[if i < |front| then i else i + 1];
  }

  lemma AppendRising(s: seq<Stamped>, e: Stamped)
    requires Rising(s, e.at)
    ensures Rising(s + [e], e.at + 1)
  {
  }

  lemma StampedApplyRises(t: Trace, op: Op, now: nat)
    requires Rising(t.evicted + t.queue, now)
    ensures var next := StampedApply(t, op, now); Rising(next.evicted + next.queue, now + 1)
  {
    hide Rising, RootsOf, StampedWithout;
    LaterRising(t.evicted + t.queue, now);
    match op
    case AddOp(p) =>
      AppendRising(t.evicted + t.queue, Stamped(p, now));
      assert t.evicted + (t.queue + [Stamped(p, now)]) == t.evicted + t.queue + [Stamped(p, now)];
      if |t.queue| >= MAX_CACHED_BLOCKS {
        assert t.evicted + [t.queue[0]] + (t.queue[1..] + [Stamped(p, now)]) == t.evicted + t.queue + [Stamped(p, now)];
      }
    case RemoveOp(r) => WithoutRising(t.evicted, t.queue, r, now + 1);
    case OrphanOp(_) =>
  }

  lemma LaterRising(s: seq<Stamped>, now: nat)
    requires Rising(s, now)
    ensures Rising(s, now + 1)
  {
  }

  lemma {:induction false} RunSnoc(c: Cache, ops: seq<Op>, op: Op)
    ensures Run(c, ops + [op]) == Apply(Run(c, ops), op)
    ensures Evicted(c, ops + [op]) == Evicted(c, ops) + EvictedBy(Run(c, ops), op)
    decreases |ops|
  {
    hide Apply, EvictedBy;
    if ops == [] {
      assert [op][1..] == [] && [] + [op] == [op];
      assert EvictedBy(c, op) + [] == [] + EvictedBy(c, op);
    } else {
      RunSnoc(Apply(c, ops[0]), ops[1..], op);
      assert (ops + [op])[1..] == ops[1..] + [op];
      var e, more := EvictedBy(c, ops[0]), Evicted(Apply(c, ops[0]), ops[1..]);
      assert e + (more + EvictedBy(Run(c, ops), op)) == e + more + EvictedBy(Run(c, ops), op);
    }
  }

  /** The stamped entry is what its operation inserted, then. */
  ghost predicate Genuine(ops: seq<Op>, e: Stamped)
  {
    e.at < |ops| && InsertedBy(Run(EMPTY, ops[..e.at]), ops[e.at]) == [e.p]
  }

  /** No later operation inserted the entry's root again. */
  ghost predicate Latest(ops: seq<Op>, e: Stamped)
  {
    forall k | e.at < k < |ops| :: !Inserts(ops, k, e.p.block.root)
  }

  ghost predicate Inserts(ops: seq<Op>, k: nat, root: Root)
    requires k < |ops|
  {
    InsertedBy(Run(EMPTY, ops[..k]), ops[k]) != [] && ops[k].p.block.root == root
  }

  ghost predicate AllGenuine(ops: seq<Op>, s: seq<Stamped>)
  {
    forall i | 0 <= i < |s| :: Genuine(ops, s[i])
  }

  ghost predicate AllLatest(ops: seq<Op>, s: seq<Stamped>)
  {
    forall i | 0 <= i < |s| :: Latest(ops, s[i])
  }

  lemma GenuineLater(ops: seq<Op>, op: Op, e: Stamped)
    requires Genuine(ops, e)
    ensures Genuine(ops + [op], e)
  {
    assert (ops + [op])[..e.at] == ops[..e.at];
  }

  lemma GenuineNow(ops: seq<Op>, op: Op)
    requires op.AddOp? && op.p.block.root !in RootsOf(Run(EMPTY, ops).queue)
    ensures Genuine(ops + [op], Stamped(op.p, |ops|)) && Latest(ops + [op], Stamped(op.p, |ops|))
  {
    hide Run;
    assert (ops + [op])[..|ops|] == ops;
  }

  lemma LatestLater(ops: seq<Op>, op: Op, e: Stamped)
    requires Latest(ops, e) && e.at < |ops|
    requires InsertedBy(Run(EMPTY, ops), op) == [] || op.p.block.root != e.p.block.root
    ensures Latest(ops + [op], e)
  {
    hide Run, InsertedBy;
    var all := ops + [op];
    forall k | e.at < k < |all|
      ensures !Inserts(all, k, e.p.block.root)
    {
      if k < |ops| {
        assert all[..k] == ops[..k];
        assert !Inserts(ops, k, e.p.block.root);
      } else {
        assert all[..k] == ops;
      }
    }
  }

  lemma {:induction false} StampedWithoutMember(queue: seq<Stamped>, root: Root, i: nat) returns (j: nat)
    requires i < |StampedWithout(queue, root)|
    ensures j < |queue| && StampedWithout(queue, root)[i] == queue[j]
    decreases |queue|
  {
    if queue[0].p.block.root != root && i == 0 {
      j := 0;
    } else {
      var skip := if queue[0].p.block.root == root then i else i - 1;
      assert StampedWithout(queue, root)[i] == StampedWithout(queue[1..], root)[skip];
      var k := StampedWithoutMember(queue[1..], root, skip);
      j := k + 1;
    }
  }

  /** Every entry after a step was there before it, or is the one just inserted. */
  lemma StepMember(t: Trace, op: Op, now: nat, i: nat) returns (j: nat)
    requires i < |StampedApply(t, op, now).queue|
    ensures var e := StampedApply(t, op, now).queue[i];
      (j < |t.queue| && e == t.queue[j]) ||
      (op.AddOp? && op.p.block.root !in RootsOf(Erase(t.queue)) && e == Stamped(op.p, now))
  {
    hide RootsOf, StampedWithout;
    j := i;
    if op.RemoveOp? {
      j := StampedWithoutMember(t.queue, op.root, i);
    } else if op.AddOp? && op.p.block.root !in RootsOf(Erase(t.queue)) && |t.queue| >= MAX_CACHED_BLOCKS {
      j := i + 1;
    }
  }

  lemma StepEvicted(t: Trace, op: Op, now: nat, i: nat)
    requires i < |StampedApply(t, op, now).evicted|
    ensures var e := StampedApply(t, op, now).evicted[i];
      (i < |t.evicted| && e == t.evicted[i]) || (t.queue != [] && e == t.queue[0])
  {
  }

  lemma StampedStep(ops: seq<Op>, op: Op, t: Trace)
    requires Erase(t.queue) == Run(EMPTY, ops).queue
    requires AllGenuine(ops, t.evicted) && AllGenuine(ops, t.queue) && AllLatest(ops, t.queue)
    ensures var next := StampedApply(t, op, |ops|);
      AllGenuine(ops + [op], next.evicted) && AllGenuine(ops + [op], next.queue) && AllLatest(ops + [op], next.queue)
  {
    hide Run, RootsOf, Genuine, Latest, StampedApply, InsertedBy;
    var next, all := StampedApply(t, op, |ops|), ops + [op];
    forall i | 0 <= i < |next.evicted|
      ensures Genuine(all, next.evicted[i])
    {
      StepEvicted(t, op, |ops|, i);
      GenuineLater(ops, op, next.evicted[i]);
    }
    forall i | 0 <= i < |next.queue|
      ensures Genuine(all, next.queue[i]) && Latest(all, next.queue[i])
    {
      var j := StepMember(t, op, |ops|, i);
      if j < |t.queue| && next.queue[i] == t.queue[j] {
        GenuineLater(ops, op, t.queue[j]);
        StampBelow(ops, t.queue[j]);
        NotInserted(Run(EMPTY, ops), op, j);
        LatestLater(ops, op, t.queue[j]);
      } else {
        GenuineNow(ops, op);
      }
    }
  }

  lemma StampBelow(ops: seq<Op>, e: Stamped)
    requires Genuine(ops, e)
    ensures e.at < |ops|
  {
  }

  lemma NotInserted(c: Cache, op: Op, j: nat)
    requires j < |c.queue|
    ensures InsertedBy(c, op) == [] || op.p.block.root != c.queue[j].block.root
  {
    InQueue(c.queue, j);
  }

  /**
   Strict first in, first out, over every run: stamp each block with the operation that inserted it last.
   The blocks evicted, in the order of eviction, followed by the blocks cached, rise strictly in their stamps,
   even when blocks were removed and added again.
   */
  lemma {:induction false} StrictFifo(ops: seq<Op>)
    ensures var t := StampedRun(ops);
      && Erase(t.evicted) == Evicted(EMPTY, ops) && Erase(t.queue) == Run(EMPTY, ops).queue
      && Rising(t.evicted + t.queue, |ops|)
      && AllGenuine(ops, t.evicted) && AllGenuine(ops, t.queue) && AllLatest(ops, t.queue)
    decreases |ops|
  {
    hide Rising, AllGenuine, AllLatest, StampedApply;
    if ops == [] {
      NothingStamped();
    } else {
      var n := |ops| - 1;
      var before, op, t := ops[..n], ops[n], StampedRun(ops[..n]);
      assert ops == before + [op];
      StrictFifo(before);
      RunSnoc(EMPTY, before, op);
      StampedApplyErases(t, op, n, Run(EMPTY, before));
      StampedApplyRises(t, op, n);
      StampedStep(before, op, t);
    }
  }

  lemma NothingStamped()
    ensures Rising([] + [], 0) && AllGenuine([], []) && AllLatest([], [])
  {
  }
}

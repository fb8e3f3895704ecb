/**
 Gossip blocks: process, or cache until the parent arrives, and the drain of cached descendants
 (src/lean_spec/node/sync/head_sync.py).

 process_block is a parameter: any partial function that, on success, adds the block's root.
 */
module HeadSync {
  import opened Bytes
  import opened CacheModel
  import opened BlockCache
  import opened Listings

  /** What head sync reads of the fork-choice store. */
  datatype Store = Store(blocks: set<Root>, finalizedSlot: nat)

  type Processor = (Store, Block) -> Option<Store>

  ghost predicate AddsRoot(process: Processor)
  {
    forall s, b :: process(s, b).Some? ==> process(s, b).value.blocks == s.blocks + {b.root}
  }

  function Step(process: Processor, store: Store, b: Block): Store
  {
    if process(store, b).None? then store else process(store, b).value
  }

  /** The store after handing over some blocks in order, failures leaving it untouched. */
  function Replay(process: Processor, store: Store, handed: seq<Block>): Store
    decreases |handed|
  {
    if handed == [] then store
    else Step(process, Replay(process, store, handed[..|handed| - 1]), handed[|handed| - 1])
  }

  /** Roots of the blocks that were accepted when handed over. */
  function Accepted(process: Processor, store: Store, handed: seq<Block>): set<Root>
    decreases |handed|
  {
    if handed == [] then {}
    else
      Accepted(process, store, handed[..|handed| - 1])
      + (if process(Replay(process, store, handed[..|handed| - 1]), handed[|handed| - 1]).Some?
         then {handed[|handed| - 1].root} else {})
  }

  /** The accepted roots, in the order of acceptance. */
  function AcceptedSeq(process: Processor, store: Store, handed: seq<Block>): seq<Root>
    decreases |handed|
  {
    if handed == [] then []
    else
      AcceptedSeq(process, store, handed[..|handed| - 1])
      + (if process(Replay(process, store, handed[..|handed| - 1]), handed[|handed| - 1]).Some?
         then [handed[|handed| - 1].root] else [])
  }

  lemma AppendSeq(process: Processor, store: Store, handed: seq<Block>, b: Block)
    ensures AcceptedSeq(process, store, handed + [b]) ==
            AcceptedSeq(process, store, handed)
            + (if process(Replay(process, store, handed), b).Some? then [b.root] else [])
  {
    hide Replay;
    assert (handed + [b])[..|handed|] == handed;
  }

  /** The new block, then the accepted ones: parents in the order in which their children are due. */
  function Order(process: Processor, store: Store, root: Root, handed: seq<Block>): seq<Root>
  {
    [root] + AcceptedSeq(process, store, handed)
  }

  /** Block i was handed over in turn turns[i], that of its parent; turns never fall, and within one, nor do slots. */
  ghost predicate InTurn(order: seq<Root>, turns: seq<nat>, handed: seq<Block>)
  {
    && |turns| == |handed|
    && (forall i | 0 <= i < |turns| :: turns[i] < |order| && order[turns[i]] == handed[i].parent)
    && (forall i, j | 0 <= i < j < |turns| ::
          turns[i] < turns[j] || (turns[i] == turns[j] && handed[i].slot <= handed[j].slot))
  }

  /** In turn k the blocks so far are due, and in turn k itself none has a slot above `slot`. */
  ghost predicate Due(turns: seq<nat>, handed: seq<Block>, k: nat, slot: nat)
    requires |turns| == |handed|
  {
    forall i | 0 <= i < |turns| :: turns[i] < k || (turns[i] == k && handed[i].slot <= slot)
  }

  lemma InTurnAppend(order: seq<Root>, more: seq<Root>, turns: seq<nat>, handed: seq<Block>, b: Block, k: nat)
    requires InTurn(order, turns, handed) && Due(turns, handed, k, b.slot) && k < |order| && order[k] == b.parent
    ensures InTurn(order + more, turns + [k], handed + [b]) && Due(turns + [k], handed + [b], k, b.slot)
  {
  }

  lemma InTurnGrows(order: seq<Root>, more: seq<Root>, turns: seq<nat>, handed: seq<Block>)
    requires InTurn(order, turns, handed)
    ensures InTurn(order + more, turns, handed)
  {
  }

  function Names(handed: seq<Block>): set<Root>
  {
    set i | 0 <= i < |handed| :: handed[i].root
  }

  ghost predicate NoRepeat(handed: seq<Block>)
  {
    forall i, j | 0 <= i < j < |handed| :: handed[i].root != handed[j].root
  }

  lemma AppendUnfold(process: Processor, store: Store, handed: seq<Block>, b: Block)
    ensures Replay(process, store, handed + [b]) == Step(process, Replay(process, store, handed), b)
    ensures Accepted(process, store, handed + [b]) ==
            Accepted(process, store, handed)
            + (if process(Replay(process, store, handed), b).Some? then {b.root} else {})
    ensures Names(handed + [b]) == Names(handed) + {b.root}
  {
    var more := handed + [b];
    assert more[..|more| - 1] == handed;
    forall r | r in Names(handed) + {b.root}
      ensures r in Names(more)
    {
      if r == b.root {
        assert more[|handed|].root == r;
      } else {
        var i :| 0 <= i < |handed| && handed[i].root == r;
        assert more[i].root == r;
      }
    }
  }

  /** The store gains the accepted roots and nothing else. */
  lemma {:induction false} ReplayBlocks(process: Processor, store: Store, handed: seq<Block>)
    requires AddsRoot(process)
    ensures Replay(process, store, handed).blocks == store.blocks + Accepted(process, store, handed)
    ensures Accepted(process, store, handed) <= Names(handed)
    decreases |handed|
  {
    if handed != [] {
      var front, b := handed[..|handed| - 1], handed[|handed| - 1];
      ReplayBlocks(process, store, front);
      assert handed == front + [b];
      AppendUnfold(process, store, front, b);
    }
  }

  // ---- progress of the drain ----

  /** Every block was handed over after its parent was unlocked. */
  ghost predicate ParentsFirst(process: Processor, store0: Store, root: Root, handed: seq<Block>)
  {
    forall i | 0 <= i < |handed| :: handed[i].parent in {root} + Accepted(process, store0, handed[..i])
  }

  /** The cache at one moment: its dict, and the queue and orphans it stands for. */
  datatype Snapshot = Snapshot(blocks: map<Root, Pending>, abs: Cache)

  function RemoveAll(c: Cache, roots: set<Root>): Cache
  {
    Cache(Without(c.queue, roots), c.orphans - roots)
  }

  function SnapshotWithout(c: Snapshot, roots: set<Root>): Snapshot
  {
    Snapshot(c.blocks - roots, RemoveAll(c.abs, roots))
  }

  lemma {:induction false} WithoutMore(queue: seq<Pending>, roots: set<Root>, r: Root)
    ensures Without(Without(queue, roots), {r}) == Without(queue, roots + {r})
  {
    hide Without;
    WithoutUnfold(queue, roots);
    WithoutUnfold(queue, roots + {r});
    if queue == [] {
      WithoutUnfold([], {r});
    } else {
      var rest := Without(queue[1..], roots);
      WithoutMore(queue[1..], roots, r);
      WithoutUnfold([queue[0]] + rest, {r});
      assert ([queue[0]] + rest)[1..] == rest;
    }
  }

  lemma SnapshotRemove(c: Snapshot, roots: set<Root>, r: Root)
    ensures Snapshot(SnapshotWithout(c, roots).blocks - {r}, Remove(SnapshotWithout(c, roots).abs, r)) ==
            SnapshotWithout(c, roots + {r})
  {
    hide Without;
    WithoutMore(c.abs.queue, roots, r);
    assert c.blocks - roots - {r} == c.blocks - (roots + {r});
    assert c.abs.orphans - roots - {r} == c.abs.orphans - (roots + {r});
  }

  ghost predicate AsCached(cached: map<Root, Pending>, handed: seq<Block>)
  {
    forall i | 0 <= i < |handed| :: handed[i].root in cached && cached[handed[i].root].block == handed[i]
  }

  /** Blocks gone from the cache: the accepted ones, and those visited that were stored already. */
  function Gone(process: Processor, store0: Store, handed: seq<Block>, visited: set<Root>): set<Root>
  {
    Accepted(process, store0, handed) + visited * store0.blocks
  }

  /**
   `cached` and `store0` are the cache and the store at the start; `now` and `store` are current;
   `visited` are the cached blocks looked at so far, of which `handed` were not stored already.
   */
  ghost predicate Progress(process: Processor, cached: Snapshot, store0: Store, root: Root,
                           now: Snapshot, store: Store, handed: seq<Block>, visited: set<Root>)
  {
    && store == Replay(process, store0, handed)
    && NoRepeat(handed) && AsCached(cached.blocks, handed) && ParentsFirst(process, store0, root, handed)
    && visited <= cached.blocks.Keys && Names(handed) == visited - store0.blocks
    && now == SnapshotWithout(cached, Gone(process, store0, handed, visited))
  }

  lemma ProgressStart(process: Processor, cached: Snapshot, store0: Store, root: Root)
    ensures Progress(process, cached, store0, root, cached, store0, [], {})
  {
    WithoutNone(cached.abs.queue);
    assert Gone(process, store0, [], {}) == {};
    assert cached.blocks - {} == cached.blocks;
  }

  /** The snapshot after remove(r). */
  function Removing(now: Snapshot, r: Root): Snapshot
  {
    Snapshot(now.blocks - {r}, Remove(now.abs, r))
  }

  lemma VisitStored(process: Processor, cached: Snapshot, store0: Store, root: Root,
                    now: Snapshot, store: Store, handed: seq<Block>, visited: set<Root>, child: Root)
    requires Progress(process, cached, store0, root, now, store, handed, visited)
    requires child in cached.blocks && child in store0.blocks
    ensures Progress(process, cached, store0, root, Removing(now, child), store, handed, visited + {child})
  {
    hide Replay, Accepted, NoRepeat, AsCached, ParentsFirst, Names, SnapshotWithout;
    assert Names(handed) == (visited + {child}) - store0.blocks;
    SnapshotRemove(cached, Gone(process, store0, handed, visited), child);
    assert Gone(process, store0, handed, visited) + {child} == Gone(process, store0, handed, visited + {child});
  }

  lemma VisitHanded(process: Processor, cached: Snapshot, store0: Store, root: Root,
                    now: Snapshot, store: Store, handed: seq<Block>, visited: set<Root>, child: Pending)
    requires AddsRoot(process) && Progress(process, cached, store0, root, now, store, handed, visited)
    requires child.block.root in cached.blocks && cached.blocks[child.block.root] == child
    requires child.block.root !in store0.blocks && child.block.root !in visited
    requires child.block.parent in {root} + Accepted(process, store0, handed)
    ensures var b := child.block;
      Progress(process, cached, store0, root, if process(store, b).Some? then Removing(now, b.root) else now,
               Step(process, store, b), handed + [b], visited + {b.root})
  {
    var b := child.block;
    hide Replay, Accepted, AddsRoot, Names, SnapshotWithout;
    AppendUnfold(process, store0, handed, b);
    AppendNoRepeat(handed, b);
    AppendParents(process, store0, root, handed, b);
    assert Names(handed + [b]) == (visited + {b.root}) - store0.blocks;
    var g := Gone(process, store0, handed, visited);
    SnapshotRemove(cached, g, b.root);
    if process(store, b).Some? {
      assert Gone(process, store0, handed + [b], visited + {b.root}) == g + {b.root};
    } else {
      assert Gone(process, store0, handed + [b], visited + {b.root}) == g;
    }
  }

  lemma AppendNoRepeat(handed: seq<Block>, b: Block)
    requires NoRepeat(handed) && b.root !in Names(handed)
    ensures NoRepeat(handed + [b])
  {
    forall i | 0 <= i < |handed|
      ensures handed[i].root != b.root
    {
      assert handed[i].root in Names(handed);
    }
  }

  lemma AppendParents(process: Processor, store0: Store, root: Root, handed: seq<Block>, b: Block)
    requires ParentsFirst(process, store0, root, handed) && b.parent in {root} + Accepted(process, store0, handed)
    ensures ParentsFirst(process, store0, root, handed + [b])
  {
    hide Accepted;
    var more := handed + [b];
    forall i | 0 <= i < |more|
      ensures more[i].parent in {root} + Accepted(process, store0, more[..i])
    {
      if i < |handed| {
        assert more[..i] == handed[..i];
      } else {
        assert more[..i] == handed;
      }
    }
  }

  lemma ProgressFacts(process: Processor, cached: Snapshot, store0: Store, root: Root,
                      now: Snapshot, store: Store, handed: seq<Block>, visited: set<Root>)
    requires AddsRoot(process) && Progress(process, cached, store0, root, now, store, handed, visited)
    ensures store == Replay(process, store0, handed)
    ensures store.blocks == store0.blocks + Accepted(process, store0, handed)
    ensures Accepted(process, store0, handed) <= visited <= cached.blocks.Keys
    ensures now.blocks == cached.blocks - Gone(process, store0, handed, visited)
    ensures Gone(process, store0, handed, visited) <= visited
  {
    hide Replay, Accepted, NoRepeat, AsCached, ParentsFirst, Names, AddsRoot, RemoveAll;
    ReplayBlocks(process, store0, handed);
  }

  /** Cached blocks whose parent is one of `parents`. */
  function ChildrenOfAny(cached: map<Root, Pending>, parents: set<Root>): set<Root>
  {
    set r | r in cached && cached[r].block.parent in parents
  }

  lemma ChildrenGrow(cached: map<Root, Pending>, parents: set<Root>, p: Root)
    ensures ChildrenOfAny(cached, parents + {p}) == ChildrenOfAny(cached, parents) + ChildrenIn(cached, p)
    ensures p !in parents ==> ChildrenOfAny(cached, parents) !! ChildrenIn(cached, p)
  {
  }

  lemma ChildrenStillThere(cached: map<Root, Pending>, now: map<Root, Pending>, gone: set<Root>, parents: set<Root>,
                           p: Root)
    requires now == cached - gone && gone <= ChildrenOfAny(cached, parents) && p !in parents
    ensures ChildrenIn(now, p) == ChildrenIn(cached, p)
  {
  }

  ghost predicate Within(now: map<Root, Pending>, cached: map<Root, Pending>)
  {
    forall r | r in now :: r in cached && cached[r] == now[r]
  }

  lemma ChildFacts(children: seq<Pending>, i: nat, start: map<Root, Pending>, cached: map<Root, Pending>, parent: Root)
    requires i < |children| && RootsOf(children) == ChildrenIn(start, parent) && Distinct(children)
    requires FromDict(children, start) && Within(start, cached)
    ensures var r := children[i].block.root;
      && r in cached && cached[r] == children[i] && children[i].block.parent == parent
      && r in ChildrenIn(cached, parent) && r !in RootsOf(children[..i])
      && RootsOf(children[..i + 1]) == RootsOf(children[..i]) + {r}
  {
    InQueue(children, i);
    assert children[..i + 1] == children[..i] + [children[i]];
    RootsAppend(children[..i], children[i]);
    forall j | 0 <= j < i
      ensures children[..i][j].block.root != children[i].block.root
    {
    }
  }

  lemma StartWithin(cached: map<Root, Pending>, gone: set<Root>)
    ensures Within(cached - gone, cached)
  {
  }

  // ---- the drain ----

  /** One child: already stored, refused, or accepted. */
  method Visit(process: Processor, cache: BlockCache, store: Store, child: Pending,
               ghost cached: Snapshot, ghost store0: Store, ghost root: Root,
               ghost handed: seq<Block>, ghost visited: set<Root>)
    returns (store': Store, accepted: bool, ghost handed': seq<Block>)
    requires AddsRoot(process) && cache.Valid()
    requires Progress(process, cached, store0, root, Snapshot(cache.blocks, cache.Abs()), store, handed, visited)
    requires child.block.root in cached.blocks && cached.blocks[child.block.root] == child &&
      child.block.root !in visited
    requires child.block.parent in {root} + Accepted(process, store0, handed)
    modifies cache
    ensures cache.Valid()
    ensures Progress(process, cached, store0, root, Snapshot(cache.blocks, cache.Abs()), store', handed',
      visited + {child.block.root})
    ensures child.block.root !in Accepted(process, store0, handed)
    ensures Accepted(process, store0, handed') ==
            Accepted(process, store0, handed) + (if accepted then {child.block.root} else {})
    ensures handed' == handed + [child.block] || (handed' == handed && !accepted)
    ensures AcceptedSeq(process, store0, handed') ==
            AcceptedSeq(process, store0, handed) + (if accepted then [child.block.root] else [])
    ensures |cache.order| + (if accepted then 1 else 0) <= old(|cache.order|)
  {
    hide Progress, AddsRoot, Accepted, AcceptedSeq, Replay, Without, QueueOf;
    var b := child.block;
    assert AcceptedSeq(process, store0, handed) + [] == AcceptedSeq(process, store0, handed);
    store', accepted, handed' := store, false, handed;
    ghost var now := Snapshot(cache.blocks, cache.Abs());
    ProgressFacts(process, cached, store0, root, now, store, handed, visited);
    if b.root in store.blocks {
      VisitStored(process, cached, store0, root, now, store, handed, visited, b.root);
      var _ := cache.Remove(b.root);
    } else {
      VisitHanded(process, cached, store0, root, now, store, handed, visited, child);
      AppendUnfold(process, store0, handed, b);
      AppendSeq(process, store0, handed, b);
      handed' := handed + [b];
      var next := process(store, b);
      if next.Some? {
        store', accepted := next.value, true;
        var _ := cache.Remove(b.root);
      }
    }
  }

  /** The body of the outer loop: every cached child of one unlocked parent. */
  method Unlock(process: Processor, cache: BlockCache, store: Store, parent: Root,
                ghost cached: Snapshot, ghost store0: Store, ghost root: Root,
                ghost handed: seq<Block>, ghost visited: set<Root>, ghost turns: seq<nat>, ghost k: nat)
    returns (store': Store, unlocked: seq<Root>, ghost handed': seq<Block>, ghost turns': seq<nat>)
    requires AddsRoot(process) && cache.Valid()
    requires Progress(process, cached, store0, root, Snapshot(cache.blocks, cache.Abs()), store, handed, visited)
    requires parent in {root} + Accepted(process, store0, handed)
    requires ChildrenIn(cache.blocks, parent) == ChildrenIn(cached.blocks, parent) &&
      ChildrenIn(cached.blocks, parent) !! visited
    requires InTurn(Order(process, store0, root, handed), turns, handed)
    requires k < |Order(process, store0, root, handed)| && Order(process, store0, root, handed)[k] == parent
    requires forall i | 0 <= i < |turns| :: turns[i] < k
    modifies cache
    ensures cache.Valid()
    ensures Progress(process, cached, store0, root, Snapshot(cache.blocks, cache.Abs()), store', handed',
                     visited + ChildrenIn(cached.blocks, parent))
    ensures Accepted(process, store0, handed) <= Accepted(process, store0, handed')
    ensures Lists(unlocked, Accepted(process, store0, handed') - Accepted(process, store0, handed))
    ensures |cache.order| + |unlocked| <= old(|cache.order|)
    ensures Order(process, store0, root, handed') == Order(process, store0, root, handed) + unlocked
    ensures InTurn(Order(process, store0, root, handed'), turns', handed')
    ensures forall i | 0 <= i < |turns'| :: turns'[i] <= k
  {
    hide InTurn, Due, Order, AcceptedSeq;
    hide Progress, AddsRoot, Accepted, Replay, ChildrenIn, Distinct, RootsOf, SortedBySlot, FromDict, Within, Names,
      Lists, QueueOf, Without, Indexed, IndexOk;
    var children := cache.GetChildren(parent);
    store', unlocked, handed', turns' := store, [], handed, turns;
    ghost var order := Order(process, store0, root, handed);
    assert order + [] == order;
    InTurnLength(order, turns, handed);
    DueStart(turns, handed, k, if |children| > 0 then children[0].block.slot else 0);
    ghost var start := cache.blocks;
    ghost var before := Accepted(process, store0, handed);
    ProgressFacts(process, cached, store0, root, Snapshot(start, cache.Abs()), store, handed, visited);
    StartWithin(cached.blocks, Gone(process, store0, handed, visited));
    EmptyList();
    assert before - before == {};
    ghost var seen: set<Root> := {};
    assert visited + seen == visited;
    NoRoots();
    assert children[..0] == [];
    for i := 0 to |children|
      invariant cache.Valid() && seen == RootsOf(children[..i])
      invariant Progress(process, cached, store0, root, Snapshot(cache.blocks, cache.Abs()), store', handed',
        visited + seen)
      invariant before <= Accepted(process, store0, handed')
      invariant Lists(unlocked, Accepted(process, store0, handed') - before)
      invariant |cache.order| + |unlocked| <= old(|cache.order|)
      invariant Order(process, store0, root, handed') == order + unlocked
      invariant InTurn(order + unlocked, turns', handed') && |turns'| == |handed'|
      invariant i < |children| ==> Due(turns', handed', k, children[i].block.slot)
      invariant forall j | 0 <= j < |turns'| :: turns'[j] <= k
    {
      var child := children[i];
      ghost var order0, turns0, handed0 := order + unlocked, turns', handed';
      ChildFacts(children, i, start, cached.blocks, parent);
      ghost var last := Accepted(process, store0, handed');
      var accepted;
      store', accepted, handed' := Visit(process, cache, store', child, cached, store0, root, handed', visited + seen);
      assert visited + seen + {child.block.root} == visited + (seen + {child.block.root});
      seen := seen + {child.block.root};
      if accepted {
        ListsAppend(unlocked, last - before, child.block.root);
        assert last - before + {child.block.root} == last + {child.block.root} - before;
        unlocked := unlocked + [child.block.root];
      } else {
        assert last + {} == last;
      }
      ghost var more := if accepted then [child.block.root] else [];
      OrderGrows(process, store0, root, handed0, handed', more);
      assert order + unlocked == order0 + more;
      if handed' == handed0 {
        InTurnGrows(order0, more, turns0, handed0);
      } else {
        InTurnAppend(order0, more, turns0, handed0, child.block, k);
        turns' := turns0 + [k];
      }
      if i + 1 < |children| {
        NextSlot(children, i);
        DueLater(turns', handed', k, child.block.slot, children[i + 1].block.slot);
      }
    }
    assert children[..|children|] == children;
  }

  lemma InTurnLength(order: seq<Root>, turns: seq<nat>, handed: seq<Block>)
    requires InTurn(order, turns, handed)
    ensures |turns| == |handed|
  {
  }

  lemma DueStart(turns: seq<nat>, handed: seq<Block>, k: nat, slot: nat)
    requires |turns| == |handed| && forall i | 0 <= i < |turns| :: turns[i] < k
    ensures Due(turns, handed, k, slot)
  {
  }

  lemma DueLater(turns: seq<nat>, handed: seq<Block>, k: nat, slot: nat, later: nat)
    requires |turns| == |handed| && Due(turns, handed, k, slot) && slot <= later
    ensures Due(turns, handed, k, later)
  {
  }

  lemma NextSlot(children: seq<Pending>, i: nat)
    requires SortedBySlot(children) && i + 1 < |children|
    ensures children[i].block.slot <= children[i + 1].block.slot
  {
  }

  lemma OrderGrows(process: Processor, store0: Store, root: Root, handed: seq<Block>, handed': seq<Block>,
                   more: seq<Root>)
    requires AcceptedSeq(process, store0, handed') == AcceptedSeq(process, store0, handed) + more
    ensures Order(process, store0, root, handed') == Order(process, store0, root, handed) + more
  {
    hide AcceptedSeq;
  }

  lemma NoChildren(cached: map<Root, Pending>)
    ensures ChildrenOfAny(cached, {}) == {}
  {
  }

  /** The end of a drain: every cached child of the new block or of an accepted one was looked at, in turn. */
  ghost predicate Drained(process: Processor, cached: Snapshot, store0: Store, root: Root,
                          now: Snapshot, store: Store, handed: seq<Block>)
  {
    && Progress(process, cached, store0, root, now, store, handed,
                ChildrenOfAny(cached.blocks, {root} + Accepted(process, store0, handed)))
    && exists turns :: InTurn(Order(process, store0, root, handed), turns, handed)
  }

  /** The worklist loop over unlocked parents. */
  method Drain(process: Processor, cache: BlockCache, store0: Store, root: Root)
    returns (store: Store, ghost handed: seq<Block>)
    requires AddsRoot(process) && cache.Valid() && root !in cache.blocks
    modifies cache
    ensures cache.Valid()
    ensures Drained(process, old(Snapshot(cache.blocks, cache.Abs())), store0, root,
      Snapshot(cache.blocks, cache.Abs()), store, handed)
  {
    hide Progress, AddsRoot, Accepted, Replay, ChildrenIn, ChildrenOfAny, Lists, QueueOf, Without, Indexed, IndexOk;
    hide InTurn, Order;
    ghost var turns: seq<nat> := [];
    ghost var past: seq<Root> := [];
    FirstTurn(process, store0, root);
    assert [] + [root] == [root];
    ghost var cached := Snapshot(cache.blocks, cache.Abs());
    store, handed := store0, [];
    var unlocked := [root];
    ghost var done: set<Root> := {};
    ProgressStart(process, cached, store0, root);
    ProgressFacts(process, cached, store0, root, cached, store0, [], {});
    NoChildren(cached.blocks);
    OneList(root);
    assert {root} + Accepted(process, store0, handed) - done == {root};
    while unlocked != []
      invariant cache.Valid()
      invariant Progress(process, cached, store0, root, Snapshot(cache.blocks, cache.Abs()), store, handed,
                         ChildrenOfAny(cached.blocks, done))
      invariant done <= {root} + Accepted(process, store0, handed)
      invariant Lists(unlocked, {root} + Accepted(process, store0, handed) - done)
      invariant Order(process, store0, root, handed) == past + unlocked
      invariant InTurn(Order(process, store0, root, handed), turns, handed)
      invariant forall i | 0 <= i < |turns| :: turns[i] < |past|
      decreases |cache.order| + |unlocked|
    {
      var parent := unlocked[0];
      assert past + unlocked == past + [parent] + unlocked[1..];
      ghost var visited := ChildrenOfAny(cached.blocks, done);
      ghost var before := {root} + Accepted(process, store0, handed);
      ProgressFacts(process, cached, store0, root, Snapshot(cache.blocks, cache.Abs()), store, handed, visited);
      ListsTail(unlocked, before - done);
      ChildrenGrow(cached.blocks, done, parent);
      ChildrenStillThere(cached.blocks, cache.blocks, Gone(process, store0, handed, visited), done, parent);
      var newly;
      ghost var last := Accepted(process, store0, handed);
      ghost var tail := unlocked[1..];
      store, newly, handed, turns :=
        Unlock(process, cache, store, parent, cached, store0, root, handed, visited, turns, |past|);
      past := past + [parent];
      assert past + tail + newly == past + (tail + newly);
      done := done + {parent};
      ProgressFacts(process, cached, store0, root, Snapshot(cache.blocks, cache.Abs()), store, handed,
        ChildrenOfAny(cached.blocks, done));
      ghost var good := Accepted(process, store0, handed);
      ListsConcat(unlocked[1..], before - (done - {parent}) - {parent}, newly, good - last);
      assert before - (done - {parent}) - {parent} + (good - last) == {root} + good - done;
      unlocked := unlocked[1..] + newly;
    }
    ghost var all := {root} + Accepted(process, store0, handed);
    EmptyListSet(all - done);
    assert forall r | r in all && r !in done :: r in all - done;
    assert done == all;
  }

  lemma FirstTurn(process: Processor, store0: Store, root: Root)
    ensures Order(process, store0, root, []) == [root] && InTurn([root], [], [])
  {
  }

  // ---- what a finished drain did ----

  /** A cached block is handed over at most once, and only when its parent is in the store. */
  lemma HandedWithParent(process: Processor, cached: Snapshot, store0: Store, root: Root,
                         now: Snapshot, store: Store, handed: seq<Block>, i: nat)
    requires AddsRoot(process) && root in store0.blocks && i < |handed|
    requires Drained(process, cached, store0, root, now, store, handed)
    ensures handed[i].parent in Replay(process, store0, handed[..i]).blocks
    ensures handed[i].root in cached.blocks && handed[i].root !in Names(handed[..i])
  {
    hide Replay, Accepted, AddsRoot, SnapshotWithout;
    ReplayBlocks(process, store0, handed[..i]);
  }

  /**
   When no cached block was stored already, the store gains exactly the accepted blocks, which are
   the ones that leave the cache; every other cached child of theirs was handed over and refused.
   */
  lemma DrainGains(process: Processor, cached: Snapshot, store0: Store, root: Root,
                   now: Snapshot, store: Store, handed: seq<Block>)
    requires AddsRoot(process) && cached.blocks.Keys !! store0.blocks
    requires Drained(process, cached, store0, root, now, store, handed)
    ensures var good := Accepted(process, store0, handed);
      && store.blocks == store0.blocks + good
      && Names(handed) == ChildrenOfAny(cached.blocks, {root} + good)
      && good <= ChildrenOfAny(cached.blocks, {root} + good)
      && now.blocks == cached.blocks - good && now.abs == RemoveAll(cached.abs, good)
  {
    hide Replay, Accepted, AddsRoot, RemoveAll, ParentsFirst, NoRepeat, AsCached, Names;
    var good := Accepted(process, store0, handed);
    var visited := ChildrenOfAny(cached.blocks, {root} + good);
    ReplayBlocks(process, store0, handed);
    assert visited - store0.blocks == visited;
    assert Gone(process, store0, handed, visited) == good;
  }

  /** The accepted blocks are the least set that can be reached: any set closed under them has them all. */
  lemma {:induction false} AcceptedReachable(process: Processor, store0: Store, root: Root, handed: seq<Block>,
                                             closed: set<Root>)
    requires ParentsFirst(process, store0, root, handed) && root in closed
    requires forall i | 0 <= i < |handed| ::
               handed[i].parent in closed && handed[i].root in Accepted(process, store0, handed) ==>
                 handed[i].root in closed
    ensures Accepted(process, store0, handed) <= closed
  {
    AcceptedPrefix(process, store0, root, handed, closed, |handed|);
    assert handed[..|handed|] == handed;
  }

  lemma {:induction false} AcceptedPrefix(process: Processor, store0: Store, root: Root, handed: seq<Block>,
                                          closed: set<Root>, n: nat)
    requires n <= |handed| && ParentsFirst(process, store0, root, handed) && root in closed
    requires forall i | 0 <= i < |handed| ::
               handed[i].parent in closed && handed[i].root in Accepted(process, store0, handed) ==>
                 handed[i].root in closed
    ensures Accepted(process, store0, handed[..n]) <= closed
    ensures Accepted(process, store0, handed[..n]) <= Accepted(process, store0, handed)
    decreases n
  {
    hide *;
    AcceptedMonotone(process, store0, handed, n);
    if n == 0 {
      NoneAccepted(process, store0);
      assert handed[..0] == [];
    } else {
      ParentAt(process, store0, root, handed, n - 1);
      AcceptedPrefix(process, store0, root, handed, closed, n - 1);
      assert handed[..n] == handed[..n - 1] + [handed[n - 1]];
      AppendUnfold(process, store0, handed[..n - 1], handed[n - 1]);
    }
  }

  lemma NoneAccepted(process: Processor, store0: Store)
    ensures Accepted(process, store0, []) == {}
  {
  }

  lemma ParentAt(process: Processor, store0: Store, root: Root, handed: seq<Block>, i: nat)
    requires ParentsFirst(process, store0, root, handed) && i < |handed|
    ensures handed[i].parent in {root} + Accepted(process, store0, handed[..i])
  {
  }

  lemma {:induction false} AcceptedMonotone(process: Processor, store0: Store, handed: seq<Block>, n: nat)
    requires n <= |handed|
    ensures Accepted(process, store0, handed[..n]) <= Accepted(process, store0, handed)
    decreases |handed|
  {
    hide *;
    if n == |handed| {
      assert handed[..n] == handed;
    } else {
      var front := handed[..|handed| - 1];
      AcceptedMonotone(process, store0, front, n);
      assert front[..n] == handed[..n] && handed == front + [handed[|handed| - 1]];
      AppendUnfold(process, store0, front, handed[|handed| - 1]);
    }
  }

  /** A block is among the accepted exactly when it was accepted at its own turn. */
  lemma {:induction false} AcceptedAtTurn(process: Processor, store0: Store, handed: seq<Block>, i: nat)
    requires NoRepeat(handed) && i < |handed|
    ensures handed[i].root in Accepted(process, store0, handed) <==>
            process(Replay(process, store0, handed[..i]), handed[i]).Some?
    decreases |handed|
  {
    hide Replay;
    var front, last := handed[..|handed| - 1], handed[|handed| - 1];
    if i < |front| {
      AcceptedAtTurn(process, store0, front, i);
      assert front[..i] == handed[..i];
    } else {
      AcceptedNamed(process, store0, front);
    }
  }

  lemma {:induction false} AcceptedNamed(process: Processor, store0: Store, handed: seq<Block>)
    ensures forall r | r in Accepted(process, store0, handed) :: exists i | 0 <= i < |handed| :: handed[i].root == r
    decreases |handed|
  {
    hide Replay;
    if handed != [] {
      var front := handed[..|handed| - 1];
      AcceptedNamed(process, store0, front);
      forall r | r in Accepted(process, store0, handed)
        ensures exists i | 0 <= i < |handed| :: handed[i].root == r
      {
        if r in Accepted(process, store0, front) {
          var i :| 0 <= i < |front| && front[i].root == r;
          assert handed[i].root == r;
        } else {
          assert handed[|handed| - 1].root == r;
        }
      }
    }
  }

  /** A block that a drain handed over is still cached at its end exactly when process_block refused it. */
  lemma RefusedExactly(process: Processor, cached: Snapshot, store0: Store, root: Root,
                       now: Snapshot, store: Store, handed: seq<Block>, i: nat)
    requires Drained(process, cached, store0, root, now, store, handed) && i < |handed|
    ensures handed[i].root in now.blocks <==> process(Replay(process, store0, handed[..i]), handed[i]).None?
  {
    hide Replay, Accepted, ParentsFirst, ChildrenOfAny;
    AcceptedAtTurn(process, store0, handed, i);
    assert handed[i].root in Names(handed);
  }

  /** A processor that accepts one root. */
  function OnlyRoot(root: Root): Processor
  {
    (s: Store, b: Block) => if b.root == root then Some(Store(s.blocks + {root}, s.finalizedSlot)) else None
  }

  const CHILD := Block(2, 1, 5)

  const ONE_CHILD := Snapshot(map[2 := Pending(CHILD, None, 0)], Cache([Pending(CHILD, None, 0)], {2}))

  /** Block 1 has just been stored, its child 2 is cached, and only block 1 is acceptable: every drain keeps 2. */
  lemma RefusedStaysCached(now: Snapshot, store: Store, handed: seq<Block>)
    requires Drained(OnlyRoot(1), ONE_CHILD, Store({0, 1}, 0), 1, now, store, handed)
    ensures handed == [CHILD] && 2 in now.blocks && store == Store({0, 1}, 0)
  {
    var process, store0 := OnlyRoot(1), Store({0, 1}, 0);
    var good := Accepted(process, store0, handed);
    forall i | 0 <= i < |handed|
      ensures handed[i] == CHILD
    {
    }
    NoneGood(process, store0, handed);
    assert 2 in ChildrenOfAny(ONE_CHILD.blocks, {1} + good);
    assert 2 in Names(handed);
    var i :| 0 <= i < |handed| && handed[i].root == 2;
    assert handed == [CHILD];
    RefusedExactly(process, ONE_CHILD, store0, 1, now, store, handed, 0);
    assert handed[..0] == [];
  }

  /** And there is such a drain: it ends with the cache as it was. */
  lemma RefusedReached()
    ensures AddsRoot(OnlyRoot(1))
    ensures Drained(OnlyRoot(1), ONE_CHILD, Store({0, 1}, 0), 1, ONE_CHILD, Store({0, 1}, 0), [CHILD])
  {
    var process, store, handed := OnlyRoot(1), Store({0, 1}, 0), [CHILD];
    NoneGood(process, store, handed);
    NoneGood(process, store, []);
    var visited := ChildrenOfAny(ONE_CHILD.blocks, {1});
    assert visited == {2} by {
      assert 2 in ChildrenOfAny(ONE_CHILD.blocks, {1});
    }
    assert {1} + Accepted(process, store, handed) == {1};
    assert Names(handed) == {2} by {
      assert handed[0].root in Names(handed);
    }
    assert handed[..0] == [];
    assert Gone(process, store, handed, visited) == {};
    WithoutNone(ONE_CHILD.abs.queue);
    assert InTurn(Order(process, store, 1, handed), [0], handed);
    assert ONE_CHILD.blocks - {} == ONE_CHILD.blocks && ONE_CHILD.abs.orphans - {} == ONE_CHILD.abs.orphans;
  }

  lemma {:induction false} NoneGood(process: Processor, store0: Store, handed: seq<Block>)
    requires forall s, i | 0 <= i < |handed| :: process(s, handed[i]).None?
    ensures Accepted(process, store0, handed) == {} && Replay(process, store0, handed) == store0
    decreases |handed|
  {
    if handed != [] {
      NoneGood(process, store0, handed[..|handed| - 1]);
    }
  }

  // ---- on_gossip_block ----

  /** One call: the block, the store and cache it met, and what it left, returned and handed over. */
  datatype Call = Call(block: Block, store: Store, cached: Snapshot, now: Snapshot, result: Option<Store>,
                       handed: seq<Block>)

  /** What on_gossip_block does with a block: skip it, cache it as an orphan, or store it and drain. */
  ghost predicate Handled(process: Processor, c: Call, peer: Option<PeerId>)
  {
    var b, known := c.block, c.block.parent in c.store.blocks;
    if || b.root in c.store.blocks
       || (!known && b.slot <= c.store.finalizedSlot)
       || (known && process(c.store, b).None?) then
      c.result == None && c.handed == [] && c.now == c.cached
    else if !known then
      c.result == None && c.handed == [] && c.now.abs == MarkOrphan(Add(c.cached.abs, Pending(b, peer, 0)), b.root)
    else
      && c.result.Some?
      && Drained(process, Removing(c.cached, b.root), process(c.store, b).value, b.root, c.now, c.result.value,
        c.handed)
  }

  function After(c: Call): Store
  {
    if c.result.Some? then c.result.value else c.store
  }

  /** A block is handed over by the call that newly stores its parent. */
  lemma HandedWhenParentLands(process: Processor, c: Call, peer: Option<PeerId>)
    requires AddsRoot(process) && Handled(process, c, peer)
    ensures c.store.blocks <= After(c).blocks && NoRepeat(c.handed)
    ensures forall i | 0 <= i < |c.handed| :: c.handed[i].parent in After(c).blocks - c.store.blocks
  {
    hide Replay, Accepted, SnapshotWithout, ChildrenOfAny, Removing, Names, AddsRoot;
    if c.result.Some? {
      var store0, root := process(c.store, c.block).value, c.block.root;
      Adds(process, c.store, c.block);
      ReplayBlocks(process, store0, c.handed);
      forall i | 0 <= i < |c.handed|
        ensures c.handed[i].parent in After(c).blocks - c.store.blocks
      {
        ParentAt(process, store0, root, c.handed, i);
        AcceptedMonotone(process, store0, c.handed, i);
      }
    }
  }

  lemma Adds(process: Processor, store: Store, b: Block)
    requires AddsRoot(process)
    ensures process(store, b).Some? ==> process(store, b).value.blocks == store.blocks + {b.root}
  {
  }

  /** The store only grows between calls; the cache may change as it likes. */
  ghost predicate Growing(calls: seq<Call>)
  {
    forall i | 0 < i < |calls| :: After(calls[i - 1]).blocks <= calls[i].store.blocks
  }

  ghost predicate AllHandled(process: Processor, calls: seq<Call>, peers: seq<Option<PeerId>>)
  {
    |peers| == |calls| && forall i | 0 <= i < |calls| :: Handled(process, calls[i], peers[i])
  }

  lemma {:induction false} StoreGrows(process: Processor, calls: seq<Call>, peers: seq<Option<PeerId>>, i: nat, j: nat)
    requires AddsRoot(process) && Growing(calls) && AllHandled(process, calls, peers) && i < j < |calls|
    ensures After(calls[i]).blocks <= calls[j].store.blocks
    decreases j - i
  {
    hide AddsRoot, Handled, After;
    assert After(calls[j - 1]).blocks <= calls[j].store.blocks;
    if i < j - 1 {
      StoreGrows(process, calls, peers, i, j - 1);
      assert Handled(process, calls[j - 1], peers[j - 1]);
      HandedWhenParentLands(process, calls[j - 1], peers[j - 1]);
    }
  }

  /**
   Over any sequence of gossip blocks, whatever else happens to the cache in between, no block is handed over
   by two drains, nor twice by one: its parent lands in the store only once.
   */
  lemma HandedOnceInAll(process: Processor, calls: seq<Call>, peers: seq<Option<PeerId>>, i: nat, j: nat, a: nat,
                        b: nat)
    requires AddsRoot(process) && Growing(calls) && AllHandled(process, calls, peers)
    requires i < |calls| && a < |calls[i].handed| && j < |calls| && b < |calls[j].handed| && (i, a) != (j, b)
    ensures calls[i].handed[a] != calls[j].handed[b]
  {
    hide AddsRoot, Handled, After;
    HandedWhenParentLands(process, calls[i], peers[i]);
    HandedWhenParentLands(process, calls[j], peers[j]);
    if i < j {
      StoreGrows(process, calls, peers, i, j);
    } else if j < i {
      StoreGrows(process, calls, peers, j, i);
    }
  }

  class HeadSync {
    const cache: BlockCache
    const process: Processor

    constructor (cache: BlockCache, process: Processor)
      ensures this.cache == cache && this.process == process
    {
      this.cache, this.process := cache, process;
    }

    /** on_gossip_block, without the backfill requests it makes after caching a block. */
    method OnGossipBlock(b: Block, peer: Option<PeerId>, store: Store)
      returns (r: Option<Store>, ghost handed: seq<Block>)
      requires AddsRoot(process) && cache.Valid()
      modifies cache
      ensures cache.Valid()
      ensures Handled(process,
        Call(b, store, old(Snapshot(cache.blocks, cache.Abs())), Snapshot(cache.blocks, cache.Abs()), r, handed), peer)
    {
      hide AddsRoot, Drained, Add, MarkOrphan, Remove, QueueOf, Without, Indexed, IndexOk, Accepted, Replay, Progress;
      handed := [];
      if b.root in store.blocks {
        return None, [];
      }
      if b.parent !in store.blocks {
        if b.slot <= store.finalizedSlot {
          return None, [];
        }
        var entry := cache.Add(Pending(b, peer, 0));
        EntryRoot(old(cache.order), old(cache.blocks), b.root);
        cache.MarkOrphan(entry.block.root);
        return None, [];
      }
      var next := process(store, b);
      if next.None? {
        return None, [];
      }
      var _ := cache.Remove(b.root);
      var final;
      final, handed := Drain(process, cache, next.value, b.root);
      return Some(final), handed;
    }
  }

  lemma EntryRoot(order: seq<Root>, blocks: map<Root, Pending>, r: Root)
    requires Indexed(order, blocks)
    ensures r in blocks ==> blocks[r].block.root == r
  {
  }
}

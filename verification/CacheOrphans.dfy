/** Which cached blocks are orphans, after any run of the block cache (src/lean_spec/node/sync/block_cache.py). */
module CacheOrphans {
  import opened Bytes
  import opened CacheModel

  predicate IsCached(c: Cache, root: Root)
  {
    root in RootsOf(c.queue)
  }

  /** The operation marks the block, or evicts its parent. */
  ghost predicate Orphans(c: Cache, op: Op, root: Root)
  {
    || op == OrphanOp(root)
    || (EvictedBy(c, op) != [] && root in Children(c.queue, EvictedBy(c, op)[0].block.root))
  }

  lemma ChildrenTail(queue: seq<Pending>, parent: Root, root: Root)
    requires queue != [] && root != queue[0].block.root
    ensures root in Children(queue, parent) <==> root in Children(queue[1..], parent)
  {
    if root in Children(queue, parent) {
      var i :| 0 <= i < |queue| && queue[i].block.parent == parent && queue[i].block.root == root;
      assert queue[1..][i - 1] == queue[i];
    }
    if root in Children(queue[1..], parent) {
      var i :| 0 <= i < |queue[1..]| && queue[1..][i].block.parent == parent && queue[1..][i].block.root == root;
      assert queue[i + 1] == queue[1..][i];
    }
  }

  lemma RootsTail(queue: seq<Pending>, root: Root)
    requires queue != []
    ensures root in RootsOf(queue) <==> root == queue[0].block.root || root in RootsOf(queue[1..])
  {
    if root in RootsOf(queue) && root != queue[0].block.root {
      var i :| 0 <= i < |queue| && queue[i].block.root == root;
      assert queue[1..][i - 1] == queue[i];
    }
    if root in RootsOf(queue[1..]) {
      var i :| 0 <= i < |queue[1..]| && queue[1..][i].block.root == root;
      assert queue[i + 1] == queue[1..][i];
    }
  }

  lemma OldestGone(queue: seq<Pending>)
    requires queue != [] && Distinct(queue)
    ensures queue[0].block.root !in RootsOf(queue[1..])
  {
    forall i | 0 <= i < |queue[1..]|
      ensures queue[1..][i].block.root != queue[0].block.root
    {
      assert queue[1..][i] == queue[i + 1];
    }
  }

  lemma AddOrphans(c: Cache, p: Pending, root: Root)
    requires Inv(c) && IsCached(Add(c, p), root)
    ensures root in Add(c, p).orphans <==> IsCached(c, root) && (root in c.orphans || Orphans(c, AddOp(p), root))
  {
    if p.block.root !in RootsOf(c.queue) {
      RootsAppend(Evict(c).queue, p);
      if |c.queue| >= MAX_CACHED_BLOCKS {
        var gone := c.queue[0].block.root;
        hide RootsOf, Children;
        OldestGone(c.queue);
        RootsTail(c.queue, root);
        RootsTail(c.queue, gone);
        RootsTail(c.queue, p.block.root);
        NoStranger(c.queue[1..], gone, root);
        if root != gone {
          ChildrenTail(c.queue, gone, root);
        }
      }
    }
  }

  lemma NoStranger(queue: seq<Pending>, parent: Root, root: Root)
    ensures root in Children(queue, parent) ==> root in RootsOf(queue)
  {
  }

  /** One operation: a block that is cached after it is an orphan if it was one, or the operation makes it one. */
  lemma StepOrphans(c: Cache, op: Op, root: Root)
    requires Inv(c) && IsCached(Apply(c, op), root)
    ensures root in Apply(c, op).orphans <==> IsCached(c, root) && (root in c.orphans || Orphans(c, op, root))
  {
    match op
    case AddOp(p) => AddOrphans(c, p, root);
    case RemoveOp(r) => RemovedKeeps(c, r, root);
    case OrphanOp(r) =>
  }

  lemma RemovedKeeps(c: Cache, gone: Root, root: Root)
    requires Inv(c) && IsCached(Remove(c, gone), root)
    ensures IsCached(c, root) && root != gone
  {
    WithoutRoots(c.queue, {gone});
  }

  // ---- runs ----

  /** The cache after the first k operations. */
  function At(ops: seq<Op>, k: nat): Cache
    requires k <= |ops|
  {
    Run(EMPTY, ops[..k])
  }

  /** Operation k made an orphan of the block, which has been cached ever since. */
  ghost predicate OrphanedAt(ops: seq<Op>, k: nat, root: Root)
    requires k < |ops|
  {
    Orphans(At(ops, k), ops[k], root) && forall j | k <= j <= |ops| :: IsCached(At(ops, j), root)
  }

  lemma AtFront(ops: seq<Op>, k: nat)
    requires k < |ops|
    ensures At(ops, k) == At(ops[..|ops| - 1], k)
  {
    assert ops[..k] == ops[..|ops| - 1][..k];
  }

  lemma OrphanedLater(ops: seq<Op>, k: nat, root: Root)
    requires k < |ops| - 1
    ensures OrphanedAt(ops, k, root) <==> OrphanedAt(ops[..|ops| - 1], k, root) && IsCached(At(ops, |ops|), root)
  {
    hide At, IsCached, Orphans;
    var front := ops[..|ops| - 1];
    forall j | 0 <= j < |ops|
      ensures At(ops, j) == At(front, j)
    {
      AtFront(ops, j);
    }
    assert front[k] == ops[k];
  }

  lemma EmptyKeeps(ops: seq<Op>)
    ensures Inv(Run(EMPTY, ops))
  {
    RunKeeps(EMPTY, ops);
  }

  lemma OnlyCached(c: Cache, root: Root)
    requires Inv(c) && root in c.orphans
    ensures IsCached(c, root)
  {
  }

  /**
   After any run, a block is an orphan exactly when some operation marked it, or evicted its parent, and it has
   been cached ever since.
   */
  lemma {:induction false} OrphanExactly(ops: seq<Op>, root: Root)
    ensures root in Run(EMPTY, ops).orphans <==> exists k | 0 <= k < |ops| :: OrphanedAt(ops, k, root)
    decreases |ops|
  {
    hide OrphanedAt, Orphans, IsCached, Inv, Apply, Run;
    EmptyKeeps(ops);
    if ops == [] {
      NothingRun();
    } else {
      var n := |ops| - 1;
      var front, c := ops[..n], Run(EMPTY, ops[..n]);
      assert ops[..|ops|] == ops;
      assert ops == front + [ops[n]];
      RunSnoc(EMPTY, front, ops[n]);
      EmptyKeeps(front);
      OrphanExactly(front, root);
      forall k | 0 <= k < n
        ensures OrphanedAt(ops, k, root) <==> OrphanedAt(front, k, root) && IsCached(Run(EMPTY, ops), root)
      {
        OrphanedLater(ops, k, root);
      }
      OrphanedNow(ops, root);
      if IsCached(Run(EMPTY, ops), root) {
        StepOrphans(c, ops[n], root);
        if root in c.orphans {
          OnlyCached(c, root);
        }
      } else if root in Run(EMPTY, ops).orphans {
        OnlyCached(Run(EMPTY, ops), root);
      }
    }
  }

  lemma NothingRun()
    ensures Run(EMPTY, []).orphans == {}
  {
  }

  lemma OrphanedNow(ops: seq<Op>, root: Root)
    requires ops != []
    ensures var n := |ops| - 1;
      OrphanedAt(ops, n, root) <==>
      && Orphans(Run(EMPTY, ops[..n]), ops[n], root)
      && IsCached(Run(EMPTY, ops[..n]), root) && IsCached(Run(EMPTY, ops), root)
  {
    hide Orphans, IsCached, Run;
    assert ops[..|ops|] == ops;
    assert IsCached(At(ops, |ops| - 1), root) <==> IsCached(Run(EMPTY, ops[..|ops| - 1]), root);
    assert IsCached(At(ops, |ops|), root) <==> IsCached(Run(EMPTY, ops), root);
  }
}

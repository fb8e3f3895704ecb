/**
 The block cache as the source keeps it: ordered dict, orphan set, parent index
 (src/lean_spec/node/sync/block_cache.py).
 */
module BlockCache {
  import opened Bytes
  import opened CacheModel

  function QueueOf(order: seq<Root>, blocks: map<Root, Pending>): (queue: seq<Pending>)
    requires forall r | r in order :: r in blocks
    ensures |queue| == |order|
    ensures forall i | 0 <= i < |order| :: queue[i] == blocks[order[i]]
  {
    if order == [] then [] else [blocks[order[0]]] + QueueOf(order[1..], blocks)
  }

  /** Cached blocks with the given parent, from the dict. */
  function ChildrenIn(blocks: map<Root, Pending>, parent: Root): set<Root>
  {
    set r | r in blocks && blocks[r].block.parent == parent
  }

  /** The parent index lists exactly the cached children, and has no empty entry. */
  ghost predicate IndexOk(blocks: map<Root, Pending>, byParent: map<Root, set<Root>>)
  {
    && (forall p | p in byParent :: byParent[p] == ChildrenIn(blocks, p) && byParent[p] != {})
    && (forall r | r in blocks :: blocks[r].block.parent in byParent)
  }

  ghost predicate Indexed(order: seq<Root>, blocks: map<Root, Pending>)
  {
    && (forall i, j | 0 <= i < j < |order| :: order[i] != order[j])
    && (forall r :: r in order <==> r in blocks)
    && (forall r | r in blocks :: blocks[r].block.root == r)
  }

  lemma IndexedAt(order: seq<Root>, blocks: map<Root, Pending>, r: Root) returns (i: nat)
    requires Indexed(order, blocks) && r in blocks
    ensures i < |order| && order[i] == r
  {
    assert r in order;
    i :| 0 <= i < |order| && order[i] == r;
  }

  lemma QueueAt(order: seq<Root>, blocks: map<Root, Pending>, i: nat)
    requires Indexed(order, blocks) && i < |order|
    ensures order[i] in blocks && QueueOf(order, blocks)[i] == blocks[order[i]] &&
      blocks[order[i]].block.root == order[i]
  {
    assert order[i] in order;
  }

  lemma QueueRoots(order: seq<Root>, blocks: map<Root, Pending>)
    requires Indexed(order, blocks)
    ensures RootsOf(QueueOf(order, blocks)) == blocks.Keys
  {
    hide Indexed, QueueOf;
    IndexedMeans(order, blocks);
    var queue := QueueOf(order, blocks);
    forall r | r in blocks
      ensures r in RootsOf(queue)
    {
      var i := IndexedAt(order, blocks, r);
      QueueAt(order, blocks, i);
    }
    forall r | r in RootsOf(queue)
      ensures r in blocks
    {
      var i :| 0 <= i < |queue| && queue[i].block.root == r;
      QueueAt(order, blocks, i);
    }
  }

  lemma IndexedMeans(order: seq<Root>, blocks: map<Root, Pending>)
    requires Indexed(order, blocks)
    ensures forall r | r in order :: r in blocks
    ensures |QueueOf(order, blocks)| == |order|
  {
  }

  lemma QueueChildren(order: seq<Root>, blocks: map<Root, Pending>, p: Root)
    requires Indexed(order, blocks)
    ensures (forall r | r in order :: r in blocks) && Children(QueueOf(order, blocks), p) == ChildrenIn(blocks, p)
  {
    hide Indexed, QueueOf;
    IndexedMeans(order, blocks);
    var queue := QueueOf(order, blocks);
    forall r | r in ChildrenIn(blocks, p)
      ensures r in Children(queue, p)
    {
      var i := IndexedAt(order, blocks, r);
      QueueAt(order, blocks, i);
    }
    forall r | r in Children(queue, p)
      ensures r in ChildrenIn(blocks, p)
    {
      var i :| 0 <= i < |queue| && queue[i].block.parent == p && queue[i].block.root == r;
      QueueAt(order, blocks, i);
    }
  }

  lemma QueueDistinct(order: seq<Root>, blocks: map<Root, Pending>)
    requires Indexed(order, blocks)
    ensures (forall r | r in order :: r in blocks) && Distinct(QueueOf(order, blocks))
  {
    hide QueueOf;
    var queue := QueueOf(order, blocks);
    forall i, j | 0 <= i < j < |queue|
      ensures queue[i].block.root != queue[j].block.root
    {
      QueueAt(order, blocks, i);
      QueueAt(order, blocks, j);
    }
  }

  function IndexWithout(byParent: map<Root, set<Root>>, parent: Root, root: Root): map<Root, set<Root>>
  {
    if parent !in byParent then byParent
    else if byParent[parent] - {root} == {} then byParent - {parent}
    else byParent[parent := byParent[parent] - {root}]
  }

  lemma IndexWithoutOk(blocks: map<Root, Pending>, byParent: map<Root, set<Root>>, root: Root)
    requires IndexOk(blocks, byParent) && root in blocks
    ensures IndexOk(blocks - {root}, IndexWithout(byParent, blocks[root].block.parent, root))
  {
    var left := blocks - {root};
    var index := IndexWithout(byParent, blocks[root].block.parent, root);
    forall p | p in index
      ensures index[p] == ChildrenIn(left, p) && index[p] != {}
    {
    }
    forall r | r in left
      ensures left[r].block.parent in index
    {
      assert r in byParent[left[r].block.parent] - {root};
    }
  }

  lemma IndexedWithout(order: seq<Root>, blocks: map<Root, Pending>, k: nat)
    requires Indexed(order, blocks) && k < |order|
    ensures Indexed(order[..k] + order[k + 1..], blocks - {order[k]})
  {
    var rest := order[..k] + order[k + 1..];
    var left := blocks - {order[k]};
    forall r | r in left
      ensures r in rest
    {
      var i := IndexedAt(order, blocks, r);
      assert rest[if i < k then i else i - 1] == r;
    }
    forall r | r in rest
      ensures r in left
    {
      var i :| 0 <= i < |rest| && rest[i] == r;
      assert r == order[if i < k then i else i + 1];
    }
  }

  lemma OrderWithout(order: seq<Root>, blocks: map<Root, Pending>, k: nat)
    requires Indexed(order, blocks) && k < |order|
    ensures var rest := order[..k] + order[k + 1..];
      var left := blocks - {order[k]};
      && Indexed(rest, left) && (forall r | r in order :: r in blocks) && (forall r | r in rest :: r in left)
      && QueueOf(rest, left) == Without(QueueOf(order, blocks), {order[k]})
  {
    hide Indexed, QueueOf, Distinct, Without;
    var rest := order[..k] + order[k + 1..];
    var left := blocks - {order[k]};
    IndexedWithout(order, blocks, k);
    IndexedMeans(order, blocks);
    IndexedMeans(rest, left);
    QueueDistinct(order, blocks);
    QueueAt(order, blocks, k);
    DropOne(QueueOf(order, blocks), k);
    var a, b := QueueOf(rest, left), QueueOf(order, blocks)[..k] + QueueOf(order, blocks)[k + 1..];
    forall i | 0 <= i < |rest|
      ensures a[i] == b[i]
    {
      QueueAt(rest, left, i);
      QueueAt(order, blocks, if i < k then i else i + 1);
    }
  }

  lemma {:induction false} DropOne(queue: seq<Pending>, k: nat)
    requires Distinct(queue) && k < |queue|
    ensures Without(queue, {queue[k].block.root}) == queue[..k] + queue[k + 1..]
  {
    var r := queue[k].block.root;
    hide Without;
    WithoutUnfold(queue, {r});
    if k == 0 {
      WithoutAbsent(queue[1..], r);
    } else {
      DropOne(queue[1..], k - 1);
    }
  }

  lemma {:induction false} WithoutAbsent(queue: seq<Pending>, root: Root)
    requires forall i | 0 <= i < |queue| :: queue[i].block.root != root
    ensures Without(queue, {root}) == queue
  {
    if queue != [] {
      WithoutAbsent(queue[1..], root);
    }
  }

  lemma IndexedAppend(order: seq<Root>, blocks: map<Root, Pending>, p: Pending)
    requires Indexed(order, blocks) && p.block.root !in blocks
    ensures Indexed(order + [p.block.root], blocks[p.block.root := p])
  {
    var root := p.block.root;
    assert root !in order;
    forall r | r in blocks[root := p]
      ensures r in order + [root]
    {
      if r != root {
        var i := IndexedAt(order, blocks, r);
        assert (order + [root])[i] == r;
      } else {
        assert (order + [root])[|order|] == r;
      }
    }
  }

  lemma QueueAppend(order: seq<Root>, blocks: map<Root, Pending>, p: Pending)
    requires Indexed(order, blocks) && p.block.root !in blocks
    ensures var order', blocks' := order + [p.block.root], blocks[p.block.root := p];
      && (forall r | r in order :: r in blocks) && (forall r | r in order' :: r in blocks')
      && QueueOf(order', blocks') == QueueOf(order, blocks) + [p]
  {
    hide Indexed, QueueOf;
    var order', blocks' := order + [p.block.root], blocks[p.block.root := p];
    IndexedAppend(order, blocks, p);
    IndexedMeans(order, blocks);
    IndexedMeans(order', blocks');
    var a, b := QueueOf(order', blocks'), QueueOf(order, blocks) + [p];
    forall i | 0 <= i < |order'|
      ensures a[i] == b[i]
    {
      QueueAt(order', blocks', i);
      if i < |order| {
        QueueAt(order, blocks, i);
      }
    }
  }

  function IndexWith(byParent: map<Root, set<Root>>, parent: Root, root: Root): map<Root, set<Root>>
  {
    byParent[parent := (if parent in byParent then byParent[parent] else {}) + {root}]
  }

  lemma IndexWithOk(blocks: map<Root, Pending>, byParent: map<Root, set<Root>>, p: Pending)
    requires IndexOk(blocks, byParent) && p.block.root !in blocks
    ensures IndexOk(blocks[p.block.root := p], IndexWith(byParent, p.block.parent, p.block.root))
  {
    var more := blocks[p.block.root := p];
    var index := IndexWith(byParent, p.block.parent, p.block.root);
    forall q | q in index
      ensures index[q] == ChildrenIn(more, q) && index[q] != {}
    {
      if q == p.block.parent {
        assert q !in byParent ==> ChildrenIn(blocks, q) == {};
        assert ChildrenIn(more, q) == ChildrenIn(blocks, q) + {p.block.root};
      } else {
        assert ChildrenIn(more, q) == ChildrenIn(blocks, q);
      }
    }
  }

  lemma IndexLookup(blocks: map<Root, Pending>, byParent: map<Root, set<Root>>, p: Root)
    requires IndexOk(blocks, byParent)
    ensures (if p in byParent then byParent[p] else {}) == ChildrenIn(blocks, p)
  {
  }

  lemma ChildrenCached(blocks: map<Root, Pending>, p: Root)
    ensures ChildrenIn(blocks, p) <= blocks.Keys
  {
  }

  class BlockCache {
    var order: seq<Root>
    var blocks: map<Root, Pending>
    var orphans: set<Root>
    var byParent: map<Root, set<Root>>

    ghost predicate Valid()
      reads this
    {
      && |order| <= MAX_CACHED_BLOCKS
      && Indexed(order, blocks)
      && orphans <= blocks.Keys
      && IndexOk(blocks, byParent)
    }

    /** The queue and orphan set this cache stands for. */
    ghost function Abs(): Cache
      requires Valid()
      reads this
    {
      IndexedMeans(order, blocks);
      Cache(QueueOf(order, blocks), orphans)
    }

    constructor ()
      ensures Valid() && Abs() == EMPTY
    {
      order, blocks, orphans, byParent := [], map[], {}, map[];
    }

    /** mark_orphan. */
    method MarkOrphan(root: Root)
      requires Valid()
      modifies this`orphans
      ensures Valid() && Abs() == CacheModel.MarkOrphan(old(Abs()), root)
      ensures orphans == if root in blocks then old(orphans) + {root} else old(orphans)
    {
      hide Indexed, IndexOk, QueueOf, RootsOf;
      QueueRoots(order, blocks);
      if root in blocks {
        orphans := orphans + {root};
      }
    }

    /** Take the k-th block out of the dict, the orphan set and its parent's child set. */
    method Detach(k: nat) returns (taken: Pending)
      requires Valid() && k < |order|
      modifies this
      ensures Valid() && old(order[k] in blocks) && taken == old(blocks[order[k]])
      ensures order == old(order[..k] + order[k + 1..]) && blocks == old(blocks - {order[k]})
      ensures orphans == old(orphans - {order[k]})
      ensures Abs().queue == Without(old(Abs()).queue, {old(order[k])})
    {
      hide Indexed, IndexOk, QueueOf, Without;
      var root := order[k];
      QueueAt(order, blocks, k);
      OrderWithout(order, blocks, k);
      IndexWithoutOk(blocks, byParent, root);
      taken := blocks[root];
      order := order[..k] + order[k + 1..];
      blocks := blocks - {root};
      orphans := orphans - {root};
      var parent := taken.block.parent;
      if parent in byParent {
        var siblings := byParent[parent] - {root};
        if siblings == {} {
          byParent := byParent - {parent};
        } else {
          byParent := byParent[parent := siblings];
        }
      }
    }

    /** remove. */
    method Remove(root: Root) returns (r: Option<Pending>)
      requires Valid()
      modifies this
      ensures Valid() && Abs() == CacheModel.Remove(old(Abs()), root)
      ensures r == if root in old(blocks) then Some(old(blocks)[root]) else None
      ensures blocks == old(blocks) - {root}
      ensures |order| == old(|order|) - (if root in old(blocks) then 1 else 0)
    {
      hide Indexed, IndexOk, QueueOf, Without, RootsOf;
      if root !in blocks {
        QueueRoots(order, blocks);
        AbsentFrom(Abs().queue, root);
        return None;
      }
      ghost var at := IndexedAt(order, blocks, root);
      var k := 0;
      while order[k] != root
        invariant 0 <= k <= at
        decreases at - k
      {
        k := k + 1;
      }
      var taken := Detach(k);
      return Some(taken);
    }

    /** add: evict the oldest block at the limit, then append. */
    method Add(p: Pending) returns (r: Pending)
      requires Valid()
      modifies this
      ensures Valid() && Abs() == CacheModel.Add(old(Abs()), p)
      ensures r == if p.block.root in old(blocks) then old(blocks)[p.block.root] else p
    {
      hide Indexed, IndexOk, QueueOf, RootsOf, Children;
      QueueRoots(order, blocks);
      IndexedMeans(order, blocks);
      var root := p.block.root;
      if root in blocks {
        return blocks[root];
      }
      if |order| >= MAX_CACHED_BLOCKS {
        EvictOldest();
      }
      Append(p);
      return p;
    }

    method EvictOldest()
      requires Valid() && |order| == MAX_CACHED_BLOCKS
      modifies this
      ensures Valid() && |order| < MAX_CACHED_BLOCKS && blocks.Keys <= old(blocks).Keys
      ensures Abs() == Evict(old(Abs()))
    {
      hide Indexed, IndexOk, QueueOf, RootsOf, Without, Distinct, Children;
      ghost var before := Abs().queue;
      IndexedMeans(order, blocks);
      QueueAt(order, blocks, 0);
      QueueDistinct(order, blocks);
      DropOne(before, 0);
      assert before[..0] + before[0 + 1..] == before[1..];
      var root := order[0];
      var gone := Detach(0);
      QueueChildren(order, blocks, root);
      IndexLookup(blocks, byParent, root);
      ChildrenCached(blocks, root);
      MarkAll(if root in byParent then byParent[root] else {});
    }

    /** mark_orphan on each of some cached blocks. */
    method MarkAll(roots: set<Root>)
      requires Valid() && roots <= blocks.Keys
      modifies this`orphans
      ensures Valid() && orphans == old(orphans) + roots
    {
      hide Indexed, IndexOk, QueueOf, RootsOf;
      var left := roots;
      while left != {}
        invariant left <= roots && Valid()
        invariant orphans == old(orphans) + (roots - left)
        decreases left
      {
        var child :| child in left;
        MarkOrphan(child);
        left := left - {child};
      }
    }

    method Append(p: Pending)
      requires Valid() && |order| < MAX_CACHED_BLOCKS && p.block.root !in blocks
      modifies this
      ensures Valid() && Abs() == Cache(old(Abs()).queue + [p], old(orphans))
    {
      hide Indexed, IndexOk, QueueOf;
      var root, parent := p.block.root, p.block.parent;
      IndexedAppend(order, blocks, p);
      QueueAppend(order, blocks, p);
      IndexWithOk(blocks, byParent, p);
      order := order + [root];
      blocks := blocks[root := p];
      byParent := byParent[parent := (if parent in byParent then byParent[parent] else {}) + {root}];
    }

    /** get_children: the cached children of a parent, each once, by slot. */
    method GetChildren(parent: Root) returns (children: seq<Pending>)
      requires Valid()
      ensures RootsOf(children) == ChildrenIn(blocks, parent) && Distinct(children)
      ensures FromDict(children, blocks)
      ensures SortedBySlot(children)
    {
      hide Indexed, IndexOk, RootsOf, Distinct, SortedBySlot, FromDict, ChildrenIn;
      IndexLookup(blocks, byParent, parent);
      ChildrenCached(blocks, parent);
      RootsAreNames(order, blocks);
      var all := if parent in byParent then byParent[parent] else {};
      var left := all;
      children := [];
      EmptyRow(blocks);
      while left != {}
        invariant left <= all
        invariant RootsOf(children) == all - left && Distinct(children)
        invariant FromDict(children, blocks) && SortedBySlot(children)
        decreases left
      {
        var r :| r in left;
        children := InsertBySlot(children, blocks[r], blocks);
        left := left - {r};
      }
    }
  }

  /** Every entry is the dict's own. */
  ghost predicate FromDict(queue: seq<Pending>, blocks: map<Root, Pending>)
  {
    forall i | 0 <= i < |queue| :: queue[i].block.root in blocks && queue[i] == blocks[queue[i].block.root]
  }

  lemma RootsAreNames(order: seq<Root>, blocks: map<Root, Pending>)
    requires Indexed(order, blocks)
    ensures forall r | r in blocks :: blocks[r].block.root == r
  {
  }

  lemma EmptyRow(blocks: map<Root, Pending>)
    ensures RootsOf([]) == {} && Distinct([]) && FromDict([], blocks) && SortedBySlot([])
  {
  }

  lemma AbsentFrom(queue: seq<Pending>, root: Root)
    requires root !in RootsOf(queue)
    ensures Without(queue, {root}) == queue
  {
    hide Without;
    forall i | 0 <= i < |queue|
      ensures queue[i].block.root != root
    {
      InQueue(queue, i);
    }
    WithoutAbsent(queue, root);
  }

  ghost predicate SortedBySlot(queue: seq<Pending>)
  {
    forall i, j | 0 <= i < j < |queue| :: queue[i].block.slot <= queue[j].block.slot
  }

  function Insert(queue: seq<Pending>, p: Pending, k: nat): seq<Pending>
    requires k <= |queue|
  {
    queue[..k] + [p] + queue[k..]
  }

  lemma InsertRoots(queue: seq<Pending>, p: Pending, k: nat)
    requires k <= |queue|
    ensures RootsOf(Insert(queue, p, k)) == RootsOf(queue) + {p.block.root}
  {
    var r := Insert(queue, p, k);
    forall x | x in RootsOf(queue) + {p.block.root}
      ensures x in RootsOf(r)
    {
      if x == p.block.root {
        assert r[k] == p;
      } else {
        var i :| 0 <= i < |queue| && queue[i].block.root == x;
        assert r[if i < k then i else i + 1] == queue[i];
      }
    }
    forall x | x in RootsOf(r)
      ensures x in RootsOf(queue) + {p.block.root}
    {
      var i :| 0 <= i < |r| && r[i].block.root == x;
      if i != k {
        assert r[i] == queue[if i < k then i else i - 1];
      }
    }
  }

  lemma InsertDistinct(queue: seq<Pending>, p: Pending, k: nat)
    requires k <= |queue| && Distinct(queue) && p.block.root !in RootsOf(queue)
    ensures Distinct(Insert(queue, p, k))
  {
    forall i | 0 <= i < |queue|
      ensures queue[i].block.root != p.block.root
    {
      InQueue(queue, i);
    }
    hide RootsOf;
    var r := Insert(queue, p, k);
    forall i, j | 0 <= i < j < |r|
      ensures r[i].block.root != r[j].block.root
    {
      assert i != k ==> r[i] == queue[if i < k then i else i - 1];
      assert j != k ==> r[j] == queue[if j < k then j else j - 1];
    }
  }

  /** A stable insertion: after the entries of the same slot. */
  method InsertBySlot(queue: seq<Pending>, p: Pending, ghost blocks: map<Root, Pending>) returns (r: seq<Pending>)
    requires SortedBySlot(queue) && Distinct(queue) && p.block.root !in RootsOf(queue)
    requires FromDict(queue, blocks) && p.block.root in blocks && blocks[p.block.root] == p
    ensures SortedBySlot(r) && Distinct(r) && FromDict(r, blocks)
    ensures RootsOf(r) == RootsOf(queue) + {p.block.root}
  {
    hide RootsOf, Distinct;
    var k := 0;
    while k < |queue| && queue[k].block.slot <= p.block.slot
      invariant 0 <= k <= |queue|
      invariant forall i | 0 <= i < k :: queue[i].block.slot <= p.block.slot
    {
      k := k + 1;
    }
    r := Insert(queue, p, k);
    InsertRoots(queue, p, k);
    InsertDistinct(queue, p, k);
  }
}

/** In which order a drain hands blocks over: parents first in, first out, and siblings by slot (head_sync.py). */
module HeadOrder {
  import opened Bytes
  import opened CacheModel
  import opened HeadSync

  ghost predicate DistinctRoots(order: seq<Root>)
  {
    forall i, j | 0 <= i < j < |order| :: order[i] != order[j]
  }

  lemma {:induction false} AcceptedDistinct(process: Processor, store0: Store, handed: seq<Block>)
    requires NoRepeat(handed)
    ensures DistinctRoots(AcceptedSeq(process, store0, handed))
    ensures forall r | r in AcceptedSeq(process, store0, handed) :: r in Names(handed)
    decreases |handed|
  {
    hide Replay;
    if handed != [] {
      var front, last := handed[..|handed| - 1], handed[|handed| - 1];
      AcceptedDistinct(process, store0, front);
      assert handed == front + [last];
      AppendUnfold(process, store0, front, last);
      LastIsNew(handed);
    }
  }

  lemma LastIsNew(handed: seq<Block>)
    requires NoRepeat(handed) && handed != []
    ensures handed[|handed| - 1].root !in Names(handed[..|handed| - 1])
  {
  }

  lemma OrderDistinct(process: Processor, store0: Store, root: Root, handed: seq<Block>)
    requires NoRepeat(handed) && root !in Names(handed)
    ensures DistinctRoots(Order(process, store0, root, handed))
  {
    hide AcceptedSeq, Names, NoRepeat;
    AcceptedDistinct(process, store0, handed);
    var accepted := AcceptedSeq(process, store0, handed);
    assert forall i | 0 <= i < |accepted| :: accepted[i] in accepted;
  }

  /** The turn in which the children of an accepted block are due. */
  function TurnOf(process: Processor, store0: Store, handed: seq<Block>, a: nat): nat
    requires a < |handed|
  {
    1 + |AcceptedSeq(process, store0, handed[..a])|
  }

  ghost predicate AcceptedHere(process: Processor, store0: Store, handed: seq<Block>, a: nat)
    requires a < |handed|
  {
    process(Replay(process, store0, handed[..a]), handed[a]).Some?
  }

  lemma {:induction false} TurnIs(process: Processor, store0: Store, root: Root, handed: seq<Block>, a: nat)
    requires a < |handed| && AcceptedHere(process, store0, handed, a)
    ensures TurnOf(process, store0, handed, a) < |Order(process, store0, root, handed)|
    ensures Order(process, store0, root, handed)[TurnOf(process, store0, handed, a)] == handed[a].root
    decreases |handed|
  {
    hide Replay;
    var front, last := handed[..|handed| - 1], handed[|handed| - 1];
    if a < |front| {
      assert front[..a] == handed[..a];
      TurnIs(process, store0, root, front, a);
    }
  }

  lemma {:induction false} TurnsRise(process: Processor, store0: Store, handed: seq<Block>, a: nat, b: nat)
    requires a < b < |handed| && AcceptedHere(process, store0, handed, a)
    ensures TurnOf(process, store0, handed, a) < TurnOf(process, store0, handed, b)
    decreases b
  {
    hide Replay, AcceptedSeq;
    AppendSeq(process, store0, handed[..b - 1], handed[b - 1]);
    assert handed[..b] == handed[..b - 1] + [handed[b - 1]];
    if a < b - 1 {
      TurnsRise(process, store0, handed, a, b - 1);
    }
  }

  lemma RootNotHanded(process: Processor, cached: Snapshot, store0: Store, root: Root,
                      now: Snapshot, store: Store, handed: seq<Block>)
    requires Drained(process, cached, store0, root, now, store, handed) && root !in cached.blocks
    ensures NoRepeat(handed) && root !in Names(handed)
  {
    hide Replay, Accepted, SnapshotWithout, ParentsFirst, Order, InTurn;
  }

  lemma TakeTurns(process: Processor, cached: Snapshot, store0: Store, root: Root,
                  now: Snapshot, store: Store, handed: seq<Block>) returns (turns: seq<nat>)
    requires Drained(process, cached, store0, root, now, store, handed)
    ensures InTurn(Order(process, store0, root, handed), turns, handed)
  {
    hide Progress, InTurn, Order;
    turns :| InTurn(Order(process, store0, root, handed), turns, handed);
  }

  lemma SameTurn(order: seq<Root>, i: nat, j: nat)
    requires DistinctRoots(order) && i < |order| && j < |order| && order[i] == order[j]
    ensures i == j
  {
  }

  /** Siblings are handed over by slot. */
  lemma SiblingsBySlot(process: Processor, cached: Snapshot, store0: Store, root: Root,
                       now: Snapshot, store: Store, handed: seq<Block>, i: nat, j: nat)
    requires Drained(process, cached, store0, root, now, store, handed) && root !in cached.blocks
    requires i < j < |handed| && handed[i].parent == handed[j].parent
    ensures handed[i].slot <= handed[j].slot
  {
    hide Drained, Order;
    RootNotHanded(process, cached, store0, root, now, store, handed);
    OrderDistinct(process, store0, root, handed);
    var turns := TakeTurns(process, cached, store0, root, now, store, handed);
    SameTurn(Order(process, store0, root, handed), turns[i], turns[j]);
  }

  /**
   Parents are taken first in, first out: children of a block accepted earlier come before children of one
   accepted later.
   */
  lemma ParentsInTurn(process: Processor, cached: Snapshot, store0: Store, root: Root,
                      now: Snapshot, store: Store, handed: seq<Block>, a: nat, b: nat, i: nat, j: nat)
    requires Drained(process, cached, store0, root, now, store, handed) && root !in cached.blocks
    requires a < b < |handed| && AcceptedHere(process, store0, handed, a) && AcceptedHere(process, store0, handed, b)
    requires i < |handed| && j < |handed| && handed[i].parent == handed[a].root && handed[j].parent == handed[b].root
    ensures i < j
  {
    hide Drained, Order, TurnOf, AcceptedHere;
    RootNotHanded(process, cached, store0, root, now, store, handed);
    OrderDistinct(process, store0, root, handed);
    var order := Order(process, store0, root, handed);
    var turns := TakeTurns(process, cached, store0, root, now, store, handed);
    TurnIs(process, store0, root, handed, a);
    TurnIs(process, store0, root, handed, b);
    TurnsRise(process, store0, handed, a, b);
    SameTurn(order, turns[i], TurnOf(process, store0, handed, a));
    SameTurn(order, turns[j], TurnOf(process, store0, handed, b));
  }

  lemma RootIsFirst(process: Processor, store0: Store, root: Root, handed: seq<Block>)
    ensures |Order(process, store0, root, handed)| > 0 && Order(process, store0, root, handed)[0] == root
  {
  }

  /** Children of the new block come before all others. */
  lemma NewBlockFirst(process: Processor, cached: Snapshot, store0: Store, root: Root,
                      now: Snapshot, store: Store, handed: seq<Block>, i: nat, j: nat)
    requires Drained(process, cached, store0, root, now, store, handed) && root !in cached.blocks
    requires i < |handed| && j < |handed| && handed[i].parent == root && handed[j].parent != root
    ensures i < j
  {
    hide Drained, Order;
    RootNotHanded(process, cached, store0, root, now, store, handed);
    OrderDistinct(process, store0, root, handed);
    RootIsFirst(process, store0, root, handed);
    var turns := TakeTurns(process, cached, store0, root, now, store, handed);
    SameTurn(Order(process, store0, root, handed), turns[i], 0);
  }
}

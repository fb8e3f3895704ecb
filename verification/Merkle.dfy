/**
 Merkle trees over 32-byte chunks (src/lean_spec/spec/crypto/merkleization.py).

 The 2-to-1 hash is a parameter: nothing is assumed of it.
 */
module Merkle {
  import opened Bytes
  import opened Bits

  type Chunk = s: ByteString | |s| == 32 witness ToLE(0, 32)

  type Hash = (Chunk, Chunk) -> Chunk

  const ZERO_HASH: Chunk := ToLE(0, 32)

  datatype MerkleError = ExceedsLimit

  // ---- the dense tree ----

  /** Root of the perfect binary tree over exactly 2^depth leaves. */
  function PerfectRoot(h: Hash, depth: nat, leaves: seq<Chunk>): Chunk
    requires |leaves| == Pow2(depth)
    decreases depth
  {
    if depth == 0 then leaves[0]
    else h(PerfectRoot(h, depth - 1, leaves[..Pow2(depth - 1)]), PerfectRoot(h, depth - 1, leaves[Pow2(depth - 1)..]))
  }

  function Pad(chunks: seq<Chunk>, width: nat, filler: Chunk): (r: seq<Chunk>)
    requires |chunks| <= width
    ensures |r| == width
    ensures forall i | 0 <= i < width :: r[i] == if i < |chunks| then chunks[i] else filler
  {
    chunks + seq(width - |chunks|, _ => filler)
  }

  /** Levels above the leaves of a tree with room for x of them. */
  function DepthFor(x: nat): nat
  {
    if x <= 1 then 0 else BitLength(x - 1)
  }

  /** _next_pow2. */
  function NextPow2(x: nat): nat
  {
    Pow2(DepthFor(x))
  }

  /** The smallest power of two that is at least x. */
  lemma NextPow2Smallest(x: nat, k: nat)
    ensures x <= NextPow2(x)
    ensures x <= Pow2(k) ==> NextPow2(x) <= Pow2(k)
  {
    if x > 1 {
      BitLengthBounds(x - 1);
      var b := BitLength(x - 1);
      if k < b {
        Pow2Monotone(k, b - 1);
      } else {
        Pow2Monotone(b, k);
      }
    } else {
      Pow2Monotone(0, k);
    }
  }

  /** The leaves a tree is built for: the limit, or the chunks themselves. */
  function Capacity(count: nat, limit: Option<nat>): nat
  {
    if limit.None? then count else limit.value
  }

  /** Root of the dense tree with room for `capacity` leaves, over the chunks and zero leaves after them. */
  function DenseRoot(h: Hash, chunks: seq<Chunk>, capacity: nat): Chunk
    requires |chunks| <= capacity
  {
    NextPow2Smallest(capacity, 0);
    PerfectRoot(h, DepthFor(capacity), Pad(chunks, Pow2(DepthFor(capacity)), ZERO_HASH))
  }

  /** merkleize. */
  function Merkleize(h: Hash, chunks: seq<Chunk>, limit: Option<nat>): (r: Result<Chunk, MerkleError>)
  {
    if Capacity(|chunks|, limit) < |chunks| then Err(ExceedsLimit)
    else Ok(DenseRoot(h, chunks, Capacity(|chunks|, limit)))
  }

  // ---- zero subtrees ----

  function ZeroRoot(h: Hash, depth: nat): Chunk
  {
    if depth == 0 then ZERO_HASH else h(ZeroRoot(h, depth - 1), ZeroRoot(h, depth - 1))
  }

  /** Roots of the zero subtrees, by depth: the content of _ZERO_HASHES. */
  ghost predicate IsZeroTable(h: Hash, table: seq<Chunk>)
  {
    |table| == 65 && forall d | 0 <= d < 65 :: table[d] == ZeroRoot(h, d)
  }

  method ZeroHashes(h: Hash) returns (table: seq<Chunk>)
    ensures IsZeroTable(h, table)
  {
    hide ZeroRoot;
    table := [ZERO_HASH];
    ZeroRootStep(h, 0);
    for d := 1 to 65
      invariant |table| == d
      invariant forall k | 0 <= k < d :: table[k] == ZeroRoot(h, k)
    {
      ZeroRootStep(h, d - 1);
      table := table + [h(table[d - 1], table[d - 1])];
    }
  }

  lemma {:induction false} ZeroRootIsPerfect(h: Hash, depth: nat)
    ensures PerfectRoot(h, depth, seq(Pow2(depth), _ => ZERO_HASH)) == ZeroRoot(h, depth)
  {
    if depth > 0 {
      var half := Pow2(depth - 1);
      var leaves: seq<Chunk> := seq(Pow2(depth), _ => ZERO_HASH);
      var zeros: seq<Chunk> := seq(half, _ => ZERO_HASH);
      assert leaves[..half] == zeros && leaves[half..] == zeros;
      ZeroRootIsPerfect(h, depth - 1);
    }
  }

  /** _zero_tree_root, for a width that is a power of two. */
  method ZeroTreeRoot(h: Hash, table: seq<Chunk>, width: nat, ghost depth: nat) returns (root: Chunk)
    requires IsZeroTable(h, table) && width == Pow2(depth) && depth <= 64
    ensures root == ZeroRoot(h, depth)
  {
    DepthOfPow2(depth);
    hide Pow2;
    if width <= 1 {
      return ZERO_HASH;
    }
    return table[BitLength(width - 1)];
  }

  lemma DepthOfPow2(depth: nat)
    ensures Pow2(depth) <= 1 <==> depth == 0
    ensures depth > 0 ==> BitLength(Pow2(depth) - 1) == depth
  {
    Pow2Monotone(if depth > 0 then 1 else 0, depth);
    if depth > 0 {
      BitLengthUnique(Pow2(depth) - 1, depth - 1);
    }
  }

  // ---- one layer up ----

  /** Parent of nodes 2i and 2i + 1, a missing right sibling standing for `filler`. */
  function Parent(h: Hash, nodes: seq<Chunk>, i: nat, filler: Chunk): Chunk
    requires 2 * i < |nodes|
  {
    h(nodes[2 * i], if 2 * i + 1 < |nodes| then nodes[2 * i + 1] else filler)
  }

  /** merkleize's next layer. */
  function NextLevel(h: Hash, level: seq<Chunk>, filler: Chunk): (r: seq<Chunk>)
    ensures |r| == (|level| + 1) / 2
    ensures forall i | 0 <= i < |r| :: r[i] == Parent(h, level, i, filler)
  {
    seq((|level| + 1) / 2, i requires 0 <= i < (|level| + 1) / 2 => Parent(h, level, i, filler))
  }

  lemma PerfectUnfold(h: Hash, depth: nat, leaves: seq<Chunk>)
    requires |leaves| == Pow2(depth)
    ensures depth == 0 ==> |leaves| == 1 && PerfectRoot(h, depth, leaves) == leaves[0]
    ensures depth > 0 ==>
      && |leaves| == 2 * Pow2(depth - 1)
      && PerfectRoot(h, depth, leaves) ==
         h(PerfectRoot(h, depth - 1, leaves[..Pow2(depth - 1)]), PerfectRoot(h, depth - 1, leaves[Pow2(depth - 1)..]))
  {
  }

  lemma NextLevelHalves(h: Hash, leaves: seq<Chunk>, n: nat)
    requires |leaves| == 4 * n
    ensures NextLevel(h, leaves, ZERO_HASH)[..n] == NextLevel(h, leaves[..2 * n], ZERO_HASH)
    ensures NextLevel(h, leaves, ZERO_HASH)[n..] == NextLevel(h, leaves[2 * n..], ZERO_HASH)
  {
    hide NextLevel, ZERO_HASH;
    var up, low, high := NextLevel(h, leaves, ZERO_HASH), NextLevel(h, leaves[..2 * n], ZERO_HASH),
      NextLevel(h, leaves[2 * n..], ZERO_HASH);
    forall i | 0 <= i < n
      ensures up[i] == low[i] && up[n + i] == high[i]
    {
    }
    assert up[..n] == low && up[n..] == high;
  }

  lemma {:induction false} PerfectRootByLayers(h: Hash, depth: nat, leaves: seq<Chunk>)
    requires |leaves| == Pow2(depth) && depth > 0
    ensures |NextLevel(h, leaves, ZERO_HASH)| == Pow2(depth - 1)
    ensures PerfectRoot(h, depth, leaves) == PerfectRoot(h, depth - 1, NextLevel(h, leaves, ZERO_HASH))
    decreases depth
  {
    hide PerfectRoot, Pow2, NextLevel;
    PerfectUnfold(h, depth, leaves);
    var half := Pow2(depth - 1);
    var up := NextLevel(h, leaves, ZERO_HASH);
    PerfectUnfold(h, depth - 1, up);
    PerfectUnfold(h, depth - 1, leaves[..half]);
    PerfectUnfold(h, depth - 1, leaves[half..]);
    if depth > 1 {
      NextLevelHalves(h, leaves, Pow2(depth - 2));
      PerfectRootByLayers(h, depth - 1, leaves[..half]);
      PerfectRootByLayers(h, depth - 1, leaves[half..]);
    }
  }

  /** Going up commutes with padding, the filler moving up too. */
  lemma PadUp(h: Hash, level: seq<Chunk>, n: nat, filler: Chunk)
    requires |level| <= 2 * n
    ensures NextLevel(h, Pad(level, 2 * n, filler), ZERO_HASH) == Pad(NextLevel(h, level, filler), n, h(filler, filler))
  {
    var a := NextLevel(h, Pad(level, 2 * n, filler), ZERO_HASH);
    var b := Pad(NextLevel(h, level, filler), n, h(filler, filler));
    forall i | 0 <= i < n
      ensures a[i] == b[i]
    {
    }
  }

  /** merkleize's layer step. */
  method NextLevelLoop(h: Hash, level: seq<Chunk>, filler: Chunk) returns (next: seq<Chunk>)
    ensures next == NextLevel(h, level, filler)
  {
    next := [];
    var i := 0;
    while i < |level|
      invariant 0 <= i <= |level| + 1 && i % 2 == 0 && |next| == i / 2
      invariant forall k | 0 <= k < |next| :: next[k] == NextLevel(h, level, filler)[k]
    {
      var left := level[i];
      var right := if i + 1 < |level| then level[i + 1] else filler;
      next := next + [h(left, right)];
      i := i + 2;
    }
  }

  lemma LayerStep(h: Hash, depth: nat, level: seq<Chunk>, filler: Chunk)
    requires depth > 0 && 1 <= |level| <= Pow2(depth)
    ensures var next := NextLevel(h, level, filler);
      && 1 <= |next| <= Pow2(depth - 1)
      && PerfectRoot(h, depth, Pad(level, Pow2(depth), filler)) ==
         PerfectRoot(h, depth - 1, Pad(next, Pow2(depth - 1), h(filler, filler)))
  {
    assert Pow2(depth) == 2 * Pow2(depth - 1);
    hide PerfectRoot, Pow2, NextLevel;
    PerfectRootByLayers(h, depth, Pad(level, Pow2(depth), filler));
    PadUp(h, level, Pow2(depth - 1), filler);
  }

  /** merkleize: zero subtrees come from the table and are never built. */
  method MerkleizeLoop(h: Hash, table: seq<Chunk>, chunks: seq<Chunk>, limit: Option<nat>)
    returns (r: Result<Chunk, MerkleError>)
    requires IsZeroTable(h, table)
    requires Capacity(|chunks|, limit) <= Pow2(64)
    ensures r == Merkleize(h, chunks, limit)
  {
    hide PerfectRoot, Pow2, BitLength, NextLevel, IsZeroTable, ZeroRoot;
    ghost var capacity := Capacity(|chunks|, limit);
    ghost var depth := DepthFor(capacity);
    NextPow2Smallest(capacity, 0);
    DepthBound(capacity);
    if |chunks| == 0 {
      if limit.None? {
        EmptyTree(h, depth);
        return Ok(ZERO_HASH);
      }
      var root := ZeroTreeRoot(h, table, NextPow2(limit.value), depth);
      EmptyTree(h, depth);
      return Ok(root);
    }
    var width := 0;
    if limit.None? {
      width := NextPow2(|chunks|);
    } else if limit.value < |chunks| {
      return Err(ExceedsLimit);
    } else {
      width := NextPow2(limit.value);
    }
    SingleLeaf(h, depth, Pad(chunks, Pow2(depth), ZERO_HASH));
    if width == 1 {
      return Ok(chunks[0]);
    }
    var root := ClimbLoop(h, table, chunks, width, depth);
    return Ok(root);
  }

  /** merkleize's layer loop: it ends with exactly one node. */
  method ClimbLoop(h: Hash, table: seq<Chunk>, chunks: seq<Chunk>, width: nat, ghost depth: nat) returns (root: Chunk)
    requires IsZeroTable(h, table) && depth <= 64 && width == Pow2(depth) && 1 <= |chunks| <= width
    ensures root == PerfectRoot(h, depth, Pad(chunks, width, ZERO_HASH))
  {
    hide PerfectRoot, Pow2, NextLevel, IsZeroTable, ZeroRoot;
    var level := chunks;
    var subtreeSize := 1;
    ghost var k := 0;
    ZeroRootStep(h, 0);
    PowStep(0);
    while subtreeSize < width
      invariant 0 <= k <= depth && subtreeSize == Pow2(k)
      invariant 1 <= |level| <= Pow2(depth - k)
      invariant PerfectRoot(h, depth, Pad(chunks, width, ZERO_HASH)) ==
                PerfectRoot(h, depth - k, Pad(level, Pow2(depth - k), ZeroRoot(h, k)))
      decreases depth - k
    {
      if k == depth {
        assert false;
      }
      var filler := ZeroTreeRoot(h, table, subtreeSize, k);
      LayerStep(h, depth - k, level, filler);
      ZeroRootStep(h, k);
      PowStep(k);
      level := NextLevelLoop(h, level, filler);
      subtreeSize := subtreeSize * 2;
      k := k + 1;
    }
    LoopEnd(k, depth);
    assert |level| == 1;
    SingleLeaf(h, 0, Pad(level, 1, ZeroRoot(h, k)));
    return level[0];
  }

  lemma DepthBound(capacity: nat)
    requires capacity <= Pow2(64)
    ensures DepthFor(capacity) <= 64
  {
    hide Pow2, BitLength;
    if capacity > 1 {
      BitLengthBounds(capacity - 1);
      var b := BitLength(capacity - 1);
      if b > 64 {
        Pow2Monotone(64, b - 1);
      }
    }
  }

  lemma EmptyTree(h: Hash, depth: nat)
    ensures PerfectRoot(h, depth, Pad([], Pow2(depth), ZERO_HASH)) == ZeroRoot(h, depth)
    ensures ZeroRoot(h, 0) == ZERO_HASH
  {
    hide Pow2, PerfectRoot;
    var zeros: seq<Chunk> := seq(Pow2(depth), _ => ZERO_HASH);
    assert Pad([], Pow2(depth), ZERO_HASH) == zeros;
    ZeroRootIsPerfect(h, depth);
  }

  lemma SingleLeaf(h: Hash, depth: nat, leaves: seq<Chunk>)
    requires |leaves| == Pow2(depth)
    ensures Pow2(0) == 1
    ensures depth == 0 ==> PerfectRoot(h, depth, leaves) == leaves[0]
    ensures Pow2(depth) == 1 <==> depth == 0
  {
  }

  lemma ZeroRootStep(h: Hash, k: nat)
    ensures ZeroRoot(h, 0) == ZERO_HASH
    ensures ZeroRoot(h, k + 1) == h(ZeroRoot(h, k), ZeroRoot(h, k))
  {
  }

  lemma PowStep(k: nat)
    ensures Pow2(0) == 1 && Pow2(k + 1) == 2 * Pow2(k)
  {
  }

  lemma LoopEnd(k: nat, depth: nat)
    requires k <= depth && Pow2(k) >= Pow2(depth)
    ensures k == depth && Pow2(0) == 1
  {
    if k < depth {
      Pow2Monotone(k + 1, depth);
    }
  }
}

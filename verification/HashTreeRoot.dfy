/**
 hash_tree_root, and its binding property (src/lean_spec/spec/crypto/merkleization.py).

 No 2-to-1 hash on chunks is injective, so binding is stated through the pairs that were hashed:
 two values with one root are equal, or two different hashed pairs, one from each tree, collide.
 */
module HashTreeRoot {
  import opened Bytes
  import opened Bits
  import opened SszTypes
  import opened SszCodec
  import opened Merkle
  import SszRoundTrip

  const BYTES_PER_CHUNK := 32

  // ---- packing ----

  /** A chunk from at most 32 bytes, zero-padded on the right. */
  function PadChunk(s: ByteString): (c: Chunk)
    requires |s| <= BYTES_PER_CHUNK
  {
    s + ToLE(0, BYTES_PER_CHUNK - |s|)
  }

  /** _pack_bytes. */
  function PackBytes(s: ByteString): (chunks: seq<Chunk>)
    ensures |chunks| == (|s| + 31) / 32
    decreases |s|
  {
    if s == [] then []
    else if |s| <= BYTES_PER_CHUNK then [PadChunk(s)]
    else [PadChunk(s[..BYTES_PER_CHUNK])] + PackBytes(s[BYTES_PER_CHUNK..])
  }

  /** _pack_bits: the bits of a bitvector or bitlist, without the delimiter. */
  function PackBools(bits: seq<bool>): (chunks: seq<Chunk>)
    ensures |chunks| == (|bits| + 255) / 256
  {
    PackBytes(EncodeBitvector(bits))
  }

  lemma {:induction false} PackBytesInjective(a: ByteString, b: ByteString)
    requires |a| == |b| && PackBytes(a) == PackBytes(b)
    ensures a == b
    decreases |a|
  {
    if |a| > BYTES_PER_CHUNK {
      var x, y := a[..BYTES_PER_CHUNK], b[..BYTES_PER_CHUNK];
      assert PackBytes(a)[0] == PackBytes(b)[0];
      assert PadChunk(x)[..|x|] == x && PadChunk(y)[..|y|] == y;
      assert PackBytes(a)[1..] == PackBytes(b)[1..];
      PackBytesInjective(a[BYTES_PER_CHUNK..], b[BYTES_PER_CHUNK..]);
      assert a == x + a[BYTES_PER_CHUNK..] && b == y + b[BYTES_PER_CHUNK..];
    } else if a != [] {
      assert PackBytes(a)[0] == PackBytes(b)[0];
      assert PadChunk(a)[..|a|] == a && PadChunk(b)[..|b|] == b;
    }
  }

  /** Types whose elements are packed rather than hashed one by one. */
  predicate IsBasic(t: SszType)
  {
    t.UintT? || t.BooleanT?
  }

  /** Types whose leaves are packed bytes, not roots of elements. */
  predicate IsPacked(t: SszType)
  {
    IsLeaf(t) || (!t.ContainerT? && IsBasic(t.elem))
  }

  /** Concatenated encodings of basic elements. */
  function JoinBasic(t: SszType, vs: seq<Value>): (s: ByteString)
    requires IsBasic(t) && forall v | v in vs :: HasType(v, t)
    ensures |s| == Width(t) * |vs|
  {
    if vs == [] then []
    else
      OneMore(t, vs);
      EncodeLeaf(t, vs[0]) + JoinBasic(t, vs[1..])
  }

  lemma OneMore(t: SszType, vs: seq<Value>)
    requires IsBasic(t) && vs != [] && HasType(vs[0], t)
    ensures |EncodeLeaf(t, vs[0])| == Width(t)
    ensures Width(t) * |vs| == Width(t) + Width(t) * |vs[1..]|
  {
    SszRoundTrip.LeafWidth(t, vs[0]);
  }

  lemma LeafInjective(t: SszType, v: Value, w: Value)
    requires IsLeaf(t) && HasType(v, t) && HasType(w, t) && EncodeLeaf(t, v) == EncodeLeaf(t, w)
    ensures v == w
  {
    SszRoundTrip.LeafRoundTrip(t, v);
    SszRoundTrip.LeafRoundTrip(t, w);
  }

  lemma JoinStep(t: SszType, vs: seq<Value>)
    requires IsBasic(t) && vs != [] && forall v | v in vs :: HasType(v, t)
    ensures |EncodeLeaf(t, vs[0])| == Width(t)
    ensures JoinBasic(t, vs)[..Width(t)] == EncodeLeaf(t, vs[0]) &&
      JoinBasic(t, vs)[Width(t)..] == JoinBasic(t, vs[1..])
  {
    SszRoundTrip.LeafWidth(t, vs[0]);
    hide HasType, EncodeLeaf, Width;
  }

  lemma {:induction false} JoinInjective(t: SszType, vs: seq<Value>, ws: seq<Value>)
    requires IsBasic(t) && (forall v | v in vs :: HasType(v, t)) && (forall w | w in ws :: HasType(w, t))
    requires |vs| == |ws| && JoinBasic(t, vs) == JoinBasic(t, ws)
    ensures vs == ws
  {
    hide JoinBasic, HasType, EncodeLeaf, Width;
    if vs != [] {
      JoinStep(t, vs);
      JoinStep(t, ws);
      LeafInjective(t, vs[0], ws[0]);
      JoinInjective(t, vs[1..], ws[1..]);
      assert vs == [vs[0]] + vs[1..] && ws == [ws[0]] + ws[1..];
    }
  }

  lemma BitsInjective(a: seq<bool>, b: seq<bool>)
    requires |a| == |b| && PackBools(a) == PackBools(b)
    ensures a == b
  {
    PackBytesInjective(EncodeBitvector(a), EncodeBitvector(b));
    BitvectorRoundTrip(a);
    BitvectorRoundTrip(b);
  }

  // ---- the root ----

  /** The length that the variable-length types mix in. */
  function MixedLength(t: SszType, v: Value): Option<nat>
    requires HasType(v, t)
  {
    match t
    case ByteListT(_) => Some(|v.data|)
    case BitlistT(_) => Some(|v.bits|)
    case ListT(_, _) => Some(|v.elems|)
    case _ => None
  }

  /** The limit passed to merkleize. */
  function ChunkLimit(t: SszType): Option<nat>
  {
    match t
    case ByteListT(n) => Some((n + 31) / 32)
    case BitvectorT(n) => Some((n + 255) / 256)
    case BitlistT(n) => Some((n + 255) / 256)
    case VectorT(e, n) => Some(if IsBasic(e) then (n * Width(e) + 31) / 32 else n)
    case ListT(e, n) => Some(if IsBasic(e) then (n * Width(e) + 31) / 32 else n)
    case _ => None
  }

  /** The leaf chunks of a value. */
  function Leaves(h: Hash, t: SszType, v: Value): (chunks: seq<Chunk>)
    requires HasType(v, t)
    ensures |chunks| == LeafCount(t, v)
    ensures |chunks| <= Capacity(|chunks|, ChunkLimit(t))
    decreases Depth(t), 0, 0
  {
    LeafCountFits(t, v);
    if t.BitvectorT? || t.BitlistT? then PackBools(v.bits)
    else if IsLeaf(t) then PackBytes(EncodeLeaf(t, v))
    else if !t.ContainerT? && IsBasic(t.elem) then PackBytes(JoinBasic(t.elem, v.elems))
    else
      FieldsAreShallower(t, |v.elems|);
      FieldsTyped(t, v);
      FieldRoots(h, FieldsOf(t, |v.elems|), v.elems)
  }

  function FieldRoots(h: Hash, fs: seq<SszType>, vs: seq<Value>): (roots: seq<Chunk>)
    requires AllTyped(vs, fs)
    ensures |roots| == |fs|
    decreases MaxDepth(fs), 2, |fs|
  {
    if fs == [] then []
    else
      TailIsShallower(fs);
      [Root(h, fs[0], vs[0])] + FieldRoots(h, fs[1..], vs[1..])
  }

  /** merkleize of the leaves. */
  function DataRoot(h: Hash, t: SszType, v: Value): Chunk
    requires HasType(v, t)
    decreases Depth(t), 0, 1
  {
    Merkleize(h, Leaves(h, t, v), ChunkLimit(t)).value
  }

  /** hash_tree_root. */
  function Root(h: Hash, t: SszType, v: Value): Chunk
    requires HasType(v, t)
    decreases Depth(t), 1, 0
  {
    if MixedLength(t, v).None? then DataRoot(h, t, v)
    else h(DataRoot(h, t, v), ToLE(MixedLength(t, v).value, 32))
  }

  /** Number of leaves: fixed by the type and the mixed-in length. */
  function LeafCount(t: SszType, v: Value): nat
    requires HasType(v, t)
  {
    match t
    case UintT(w) => (w + 31) / 32
    case BooleanT => 1
    case BytesT(n) => (n + 31) / 32
    case ByteListT(_) => (|v.data| + 31) / 32
    case BitvectorT(n) => (n + 255) / 256
    case BitlistT(_) => (|v.bits| + 255) / 256
    case VectorT(e, n) => if IsBasic(e) then (Width(e) * n + 31) / 32 else n
    case ListT(e, _) => if IsBasic(e) then (Width(e) * |v.elems| + 31) / 32 else |v.elems|
    case ContainerT(fs) => |fs|
  }

  lemma LeafCountFits(t: SszType, v: Value)
    requires HasType(v, t)
    ensures LeafCount(t, v) <= Capacity(LeafCount(t, v), ChunkLimit(t))
  {
    if t.ListT? && IsBasic(t.elem) {
      MulFits(Width(t.elem), |v.elems|, t.limit);
    }
  }

  lemma MulFits(w: nat, a: nat, b: nat)
    requires a <= b
    ensures w * a <= b * w
  {
  }

  lemma FieldsTyped(t: SszType, v: Value)
    requires !IsLeaf(t) && HasType(v, t)
    ensures AllTyped(v.elems, FieldsOf(t, |v.elems|))
  {
  }

  // ---- the pairs hashed on the way ----

  type Pair = (Chunk, Chunk)

  function TreePairs(h: Hash, depth: nat, leaves: seq<Chunk>): set<Pair>
    requires |leaves| == Pow2(depth)
    decreases depth
  {
    if depth == 0 then {}
    else
      {(PerfectRoot(h, depth - 1, leaves[..Pow2(depth - 1)]), PerfectRoot(h, depth - 1, leaves[Pow2(depth - 1)..]))}
      + TreePairs(h, depth - 1, leaves[..Pow2(depth - 1)]) + TreePairs(h, depth - 1, leaves[Pow2(depth - 1)..])
  }

  function DensePairs(h: Hash, chunks: seq<Chunk>, capacity: nat): set<Pair>
    requires |chunks| <= capacity
  {
    NextPow2Smallest(capacity, 0);
    TreePairs(h, DepthFor(capacity), Pad(chunks, Pow2(DepthFor(capacity)), ZERO_HASH))
  }

  /** Every pair hashed by Root(h, t, v). */
  function HashedPairs(h: Hash, t: SszType, v: Value): set<Pair>
    requires HasType(v, t)
    decreases Depth(t), 0, 0
  {
    DensePairs(h, Leaves(h, t, v), Capacity(LeafCount(t, v), ChunkLimit(t)))
    + (if MixedLength(t, v).None? then {} else {(DataRoot(h, t, v), ToLE(MixedLength(t, v).value, 32))})
    + (if IsPacked(t) then {}
       else
         FieldsAreShallower(t, |v.elems|);
         FieldsTyped(t, v);
         FieldPairs(h, FieldsOf(t, |v.elems|), v.elems))
  }

  function FieldPairs(h: Hash, fs: seq<SszType>, vs: seq<Value>): set<Pair>
    requires AllTyped(vs, fs)
    decreases MaxDepth(fs), 2, |fs|
  {
    if fs == [] then {}
    else
      TailIsShallower(fs);
      HashedPairs(h, fs[0], vs[0]) + FieldPairs(h, fs[1..], vs[1..])
  }

  ghost predicate Collides(h: Hash, p: Pair, q: Pair)
  {
    p != q && h(p.0, p.1) == h(q.0, q.1)
  }

  /** A hashed pair of one side collides with a different one of the other. */
  ghost predicate Collision(h: Hash, ps: set<Pair>, qs: set<Pair>)
  {
    exists p, q | p in ps && q in qs :: Collides(h, p, q)
  }

  lemma CollisionWidens(h: Hash, ps: set<Pair>, qs: set<Pair>, ps': set<Pair>, qs': set<Pair>)
    requires ps <= ps' && qs <= qs'
    ensures Collision(h, ps, qs) ==> Collision(h, ps', qs')
  {
    if Collision(h, ps, qs) {
      var p, q :| p in ps && q in qs && Collides(h, p, q);
      assert p in ps' && q in qs';
    }
  }

  // ---- binding ----

  lemma TreeUnfold(h: Hash, depth: nat, leaves: seq<Chunk>)
    requires |leaves| == Pow2(depth) && depth > 0
    ensures var half := Pow2(depth - 1);
      && |leaves| == 2 * half
      && var l, r := leaves[..half], leaves[half..];
      && PerfectRoot(h, depth, leaves) == h(PerfectRoot(h, depth - 1, l), PerfectRoot(h, depth - 1, r))
      && (PerfectRoot(h, depth - 1, l), PerfectRoot(h, depth - 1, r)) in TreePairs(h, depth, leaves)
      && TreePairs(h, depth - 1, l) <= TreePairs(h, depth, leaves)
      && TreePairs(h, depth - 1, r) <= TreePairs(h, depth, leaves)
      && leaves == l + r
  {
  }

  lemma {:induction false} TreeBinding(h: Hash, depth: nat, a: seq<Chunk>, b: seq<Chunk>)
    requires |a| == |b| == Pow2(depth) && PerfectRoot(h, depth, a) == PerfectRoot(h, depth, b)
    ensures a == b || Collision(h, TreePairs(h, depth, a), TreePairs(h, depth, b))
    decreases depth
  {
    hide PerfectRoot, TreePairs, Pow2, Collision;
    if depth == 0 {
      SingleNode(h, a);
      SingleNode(h, b);
    } else {
      TreeUnfold(h, depth, a);
      TreeUnfold(h, depth, b);
      var half := Pow2(depth - 1);
      var p := (PerfectRoot(h, depth - 1, a[..half]), PerfectRoot(h, depth - 1, a[half..]));
      var q := (PerfectRoot(h, depth - 1, b[..half]), PerfectRoot(h, depth - 1, b[half..]));
      if p != q {
        CollisionBy(h, TreePairs(h, depth, a), TreePairs(h, depth, b), p, q);
      } else {
        TreeBinding(h, depth - 1, a[..half], b[..half]);
        TreeBinding(h, depth - 1, a[half..], b[half..]);
        CollisionWidens(h, TreePairs(h, depth - 1, a[..half]), TreePairs(h, depth - 1, b[..half]),
                        TreePairs(h, depth, a), TreePairs(h, depth, b));
        CollisionWidens(h, TreePairs(h, depth - 1, a[half..]), TreePairs(h, depth - 1, b[half..]),
                        TreePairs(h, depth, a), TreePairs(h, depth, b));
      }
    }
  }

  lemma SingleNode(h: Hash, leaves: seq<Chunk>)
    requires |leaves| == Pow2(0)
    ensures |leaves| == 1 && leaves == [PerfectRoot(h, 0, leaves)]
  {
  }

  lemma CollisionBy(h: Hash, ps: set<Pair>, qs: set<Pair>, p: Pair, q: Pair)
    requires p in ps && q in qs && p != q && h(p.0, p.1) == h(q.0, q.1)
    ensures Collision(h, ps, qs)
  {
    assert Collides(h, p, q);
  }

  lemma DenseBinding(h: Hash, a: seq<Chunk>, b: seq<Chunk>, capacity: nat)
    requires |a| == |b| <= capacity && DenseRoot(h, a, capacity) == DenseRoot(h, b, capacity)
    ensures a == b || Collision(h, DensePairs(h, a, capacity), DensePairs(h, b, capacity))
  {
    hide PerfectRoot, TreePairs, Pow2, Collision, DepthFor;
    NextPow2Smallest(capacity, 0);
    var depth := DepthFor(capacity);
    var x, y := Pad(a, Pow2(depth), ZERO_HASH), Pad(b, Pow2(depth), ZERO_HASH);
    TreeBinding(h, depth, x, y);
    if x == y {
      assert a == x[..|a|] && b == y[..|b|];
    }
  }

  /** Lengths that fit the 32 bytes they are mixed in as. */
  ghost predicate LengthsFit(t: SszType)
  {
    match t
    case ByteListT(n) => n < Pow256(32)
    case BitlistT(n) => n < Pow256(32)
    case VectorT(e, _) => LengthsFit(e)
    case ListT(e, n) => LengthsFit(e) && n < Pow256(32)
    case ContainerT(fs) => forall f | f in fs :: LengthsFit(f)
    case _ => true
  }

  ghost predicate AllLengthsFit(fs: seq<SszType>)
  {
    forall f | f in fs :: LengthsFit(f)
  }

  lemma LengthFits(t: SszType, v: Value)
    requires HasType(v, t) && LengthsFit(t)
    ensures MixedLength(t, v).Some? ==> MixedLength(t, v).value < Pow256(32)
  {
    hide Pow256;
  }

  lemma LengthInjective(a: nat, b: nat)
    requires a < Pow256(32) && b < Pow256(32) && ToLE(a, 32) == ToLE(b, 32)
    ensures a == b
  {
    FromToLE(a, 32);
    FromToLE(b, 32);
  }

  lemma RootUnfold(h: Hash, t: SszType, v: Value)
    requires HasType(v, t)
    ensures MixedLength(t, v).None? ==> Root(h, t, v) == DataRoot(h, t, v)
    ensures MixedLength(t, v).Some? ==>
      && Root(h, t, v) == h(DataRoot(h, t, v), ToLE(MixedLength(t, v).value, 32))
      && (DataRoot(h, t, v), ToLE(MixedLength(t, v).value, 32)) in HashedPairs(h, t, v)
  {
    hide DataRoot, DensePairs, FieldPairs, ToLE;
  }

  lemma DataUnfold(h: Hash, t: SszType, v: Value)
    requires HasType(v, t)
    ensures LeafCount(t, v) <= Capacity(LeafCount(t, v), ChunkLimit(t))
    ensures |Leaves(h, t, v)| == LeafCount(t, v)
    ensures DataRoot(h, t, v) == DenseRoot(h, Leaves(h, t, v), Capacity(LeafCount(t, v), ChunkLimit(t)))
    ensures DensePairs(h, Leaves(h, t, v), Capacity(LeafCount(t, v), ChunkLimit(t))) <= HashedPairs(h, t, v)
  {
    hide DenseRoot, DensePairs, FieldPairs, ToLE, FieldRoots;
    LeafCountFits(t, v);
  }

  lemma SameCount(t: SszType, v: Value, w: Value)
    requires HasType(v, t) && HasType(w, t) && MixedLength(t, v) == MixedLength(t, w)
    ensures LeafCount(t, v) == LeafCount(t, w)
  {
  }

  /** Leaf types and packed sequences: equal leaves, equal values. */
  lemma PackedLeavesInjective(h: Hash, t: SszType, v: Value, w: Value)
    requires HasType(v, t) && HasType(w, t) && MixedLength(t, v) == MixedLength(t, w)
    requires IsPacked(t)
    requires Leaves(h, t, v) == Leaves(h, t, w)
    ensures v == w
  {
    hide PackBytes, PackBools, JoinBasic, EncodeLeaf;
    if t.BitvectorT? || t.BitlistT? {
      BitsInjective(v.bits, w.bits);
    } else if IsLeaf(t) {
      SameEncodedLength(t, v, w);
      PackBytesInjective(EncodeLeaf(t, v), EncodeLeaf(t, w));
      LeafInjective(t, v, w);
    } else {
      PackBytesInjective(JoinBasic(t.elem, v.elems), JoinBasic(t.elem, w.elems));
      JoinInjective(t.elem, v.elems, w.elems);
    }
  }

  lemma SameEncodedLength(t: SszType, v: Value, w: Value)
    requires IsLeaf(t) && HasType(v, t) && HasType(w, t) && MixedLength(t, v) == MixedLength(t, w)
    requires !t.BitlistT?
    ensures |EncodeLeaf(t, v)| == |EncodeLeaf(t, w)|
  {
  }

  lemma CompositeUnfold(h: Hash, t: SszType, v: Value)
    requires HasType(v, t) && !IsPacked(t)
    ensures !IsLeaf(t)
    ensures v.SeqV? && AllTyped(v.elems, FieldsOf(t, |v.elems|))
    ensures Leaves(h, t, v) == FieldRoots(h, FieldsOf(t, |v.elems|), v.elems)
    ensures FieldPairs(h, FieldsOf(t, |v.elems|), v.elems) <= HashedPairs(h, t, v)
  {
    hide DensePairs, FieldRoots, FieldPairs, DataRoot, ToLE;
    FieldsTyped(t, v);
  }

  lemma SameFields(t: SszType, v: Value, w: Value)
    requires HasType(v, t) && HasType(w, t) && MixedLength(t, v) == MixedLength(t, w) && !IsLeaf(t)
    requires LengthsFit(t)
    ensures FieldsOf(t, |v.elems|) == FieldsOf(t, |w.elems|)
    ensures AllLengthsFit(FieldsOf(t, |v.elems|))
  {
    hide Pow256;
  }

  lemma FieldsUnfold(h: Hash, fs: seq<SszType>, vs: seq<Value>)
    requires AllTyped(vs, fs) && fs != []
    ensures |vs| == |fs| && HasType(vs[0], fs[0]) && AllTyped(vs[1..], fs[1..])
    ensures FieldRoots(h, fs, vs) == [Root(h, fs[0], vs[0])] + FieldRoots(h, fs[1..], vs[1..])
    ensures FieldPairs(h, fs, vs) == HashedPairs(h, fs[0], vs[0]) + FieldPairs(h, fs[1..], vs[1..])
    ensures vs == [vs[0]] + vs[1..]
  {
    hide Root, HashedPairs, HasType;
  }

  lemma RowUnfold(fs: seq<SszType>)
    requires AllLengthsFit(fs) && fs != []
    ensures LengthsFit(fs[0]) && AllLengthsFit(fs[1..])
  {
    hide LengthsFit;
  }

  lemma EmptyTyped(vs: seq<Value>)
    requires AllTyped(vs, [])
    ensures vs == []
  {
  }

  lemma {:induction false} FieldsBinding(h: Hash, fs: seq<SszType>, vs: seq<Value>, ws: seq<Value>)
    requires AllLengthsFit(fs) && AllTyped(vs, fs) && AllTyped(ws, fs)
    requires FieldRoots(h, fs, vs) == FieldRoots(h, fs, ws)
    ensures vs == ws || Collision(h, FieldPairs(h, fs, vs), FieldPairs(h, fs, ws))
    decreases MaxDepth(fs), 2, |fs|
  {
    hide *;
    if fs == [] {
      EmptyTyped(vs);
      EmptyTyped(ws);
    } else {
      TailIsShallower(fs);
      RowUnfold(fs);
      FieldsUnfold(h, fs, vs);
      FieldsUnfold(h, fs, ws);
      assert FieldRoots(h, fs, vs)[0] == FieldRoots(h, fs, ws)[0];
      assert FieldRoots(h, fs, vs)[1..] == FieldRoots(h, fs, ws)[1..];
      Binding(h, fs[0], vs[0], ws[0]);
      FieldsBinding(h, fs[1..], vs[1..], ws[1..]);
      CollisionWidens(h, HashedPairs(h, fs[0], vs[0]), HashedPairs(h, fs[0], ws[0]), FieldPairs(h, fs, vs),
        FieldPairs(h, fs, ws));
      CollisionWidens(h, FieldPairs(h, fs[1..], vs[1..]), FieldPairs(h, fs[1..], ws[1..]), FieldPairs(h, fs, vs),
        FieldPairs(h, fs, ws));
    }
  }

  /** Same root and same mixed-in length: equal values, or a collision. */
  lemma {:induction false} DataBinding(h: Hash, t: SszType, v: Value, w: Value)
    requires LengthsFit(t) && HasType(v, t) && HasType(w, t)
    requires MixedLength(t, v) == MixedLength(t, w) && DataRoot(h, t, v) == DataRoot(h, t, w)
    ensures v == w || Collision(h, HashedPairs(h, t, v), HashedPairs(h, t, w))
    decreases Depth(t), 0, 0
  {
    hide *;
    var ps, qs := HashedPairs(h, t, v), HashedPairs(h, t, w);
    DataUnfold(h, t, v);
    DataUnfold(h, t, w);
    SameCount(t, v, w);
    var capacity := Capacity(LeafCount(t, v), ChunkLimit(t));
    var a, b := Leaves(h, t, v), Leaves(h, t, w);
    DenseBinding(h, a, b, capacity);
    CollisionWidens(h, DensePairs(h, a, capacity), DensePairs(h, b, capacity), ps, qs);
    if a == b {
      if IsPacked(t) {
        PackedLeavesInjective(h, t, v, w);
      } else {
        CompositeUnfold(h, t, v);
        CompositeUnfold(h, t, w);
        SameFields(t, v, w);
        var fs := FieldsOf(t, |v.elems|);
        FieldsAreShallower(t, |v.elems|);
        FieldsBinding(h, fs, v.elems, w.elems);
        CollisionWidens(h, FieldPairs(h, fs, v.elems), FieldPairs(h, fs, w.elems), ps, qs);
      }
    }
  }

  /** Two values of one type with one root are equal, or their trees exhibit a collision of the hash. */
  lemma {:induction false} Binding(h: Hash, t: SszType, v: Value, w: Value)
    requires LengthsFit(t) && HasType(v, t) && HasType(w, t)
    requires Root(h, t, v) == Root(h, t, w)
    ensures v == w || Collision(h, HashedPairs(h, t, v), HashedPairs(h, t, w))
    decreases Depth(t), 1, 0
  {
    hide *;
    RootUnfold(h, t, v);
    RootUnfold(h, t, w);
    SameMixing(t, v, w);
    if MixedLength(t, v).None? {
      DataBinding(h, t, v, w);
    } else {
      var p := (DataRoot(h, t, v), ToLE(MixedLength(t, v).value, 32));
      var q := (DataRoot(h, t, w), ToLE(MixedLength(t, w).value, 32));
      if p != q {
        CollisionBy(h, HashedPairs(h, t, v), HashedPairs(h, t, w), p, q);
      } else {
        LengthFits(t, v);
        LengthFits(t, w);
        LengthInjective(MixedLength(t, v).value, MixedLength(t, w).value);
        DataBinding(h, t, v, w);
      }
    }
  }

  lemma SameMixing(t: SszType, v: Value, w: Value)
    requires HasType(v, t) && HasType(w, t)
    ensures MixedLength(t, v).None? <==> MixedLength(t, w).None?
  {
  }
}

/** The shape of the tree behind hash_tree_root: its leaves, its room and what is mixed in. */
module RootShape {
  import opened Bytes
  import opened Bits
  import opened SszTypes
  import opened SszCodec
  import opened Merkle
  import opened HashTreeRoot
  import SszFixed
  import SszSize

  // ---- room ----

  /** A value as long as its type allows. */
  function Full(t: SszType): (v: Value)
  {
    match t
    case ByteListT(n) => BytesV(ToLE(0, n))
    case BitlistT(n) => BitsV(seq(n, _ => false))
    case ListT(e, n) => SeqV(seq(n, _ => SszFixed.Default(e)))
    case _ => SszFixed.Default(t)
  }

  lemma FullTyped(t: SszType)
    ensures HasType(Full(t), t)
  {
    SszFixed.DefaultTyped(t);
    if t.ListT? {
      SszFixed.DefaultTyped(t.elem);
    }
  }

  lemma LeafCountBound(t: SszType, v: Value, w: Value)
    requires HasType(v, t) && HasType(w, t)
    ensures LeafCount(t, w) <= Capacity(LeafCount(t, v), ChunkLimit(t))
  {
    if t.ListT? && IsBasic(t.elem) {
      MulFits(Width(t.elem), |w.elems|, t.limit);
    }
  }

  lemma FullCount(t: SszType, v: Value)
    requires HasType(v, t) && HasType(Full(t), t)
    ensures LeafCount(t, Full(t)) == Capacity(LeafCount(t, v), ChunkLimit(t))
  {
    if (t.ListT? || t.VectorT?) && IsBasic(t.elem) {
      Commute(Width(t.elem), if t.ListT? then t.limit else t.length);
    }
  }

  lemma Commute(a: nat, b: nat)
    ensures a * b == b * a
  {
  }

  /** The tree has room for the leaves of every value of the type, and some value fills it. */
  lemma RoomExact(h: Hash, t: SszType, v: Value)
    requires HasType(v, t)
    ensures forall w | HasType(w, t) :: |Leaves(h, t, w)| <= Capacity(|Leaves(h, t, v)|, ChunkLimit(t))
    ensures exists w :: HasType(w, t) && |Leaves(h, t, w)| == Capacity(|Leaves(h, t, v)|, ChunkLimit(t))
  {
    hide HasType, Leaves, LeafCount, ChunkLimit, Capacity, Full;
    forall w | HasType(w, t)
      ensures |Leaves(h, t, w)| <= Capacity(|Leaves(h, t, v)|, ChunkLimit(t))
    {
      LeafCountBound(t, v, w);
    }
    FullTyped(t);
    FullCount(t, v);
    var w := Full(t);
    assert HasType(w, t) && |Leaves(h, t, w)| == Capacity(|Leaves(h, t, v)|, ChunkLimit(t));
  }

  // ---- the mixed-in length ----

  function LengthOf(v: Value): nat
  {
    match v
    case BytesV(s) => |s|
    case BitsV(s) => |s|
    case SeqV(s) => |s|
    case _ => 0
  }

  predicate LimitIsZero(t: SszType)
  {
    (t.ByteListT? || t.BitlistT? || t.ListT?) && t.limit == 0
  }

  /** The length is mixed in exactly where the values of the type have several lengths. */
  lemma MixedExactly(t: SszType, v: Value)
    requires HasType(v, t)
    ensures MixedLength(t, v).Some? ==> MixedLength(t, v).value == LengthOf(v)
    ensures MixedLength(t, v).Some? <==>
      LimitIsZero(t) || exists w :: HasType(w, t) && LengthOf(w) != LengthOf(v)
  {
    if MixedLength(t, v).Some? && !LimitIsZero(t) {
      var w := if LengthOf(v) == 0 then Full(t) else SszFixed.Default(t);
      FullTyped(t);
      SszFixed.DefaultTyped(t);
      assert HasType(w, t) && LengthOf(w) != LengthOf(v);
    }
  }

  // ---- the leaves ----

  /** Byte i of the data is byte i % 32 of chunk i / 32; the rest of the last chunk is zero. */
  lemma {:induction false} PackedAt(s: ByteString, i: nat)
    requires i < 32 * |PackBytes(s)|
    ensures PackBytes(s)[i / 32][i % 32] == if i < |s| then s[i] else 0
    decreases |s|
  {
    if |s| <= BYTES_PER_CHUNK {
      assert i / 32 == 0 && i % 32 == i;
      PaddedAt(s, i);
    } else if i < 32 {
      assert i / 32 == 0 && i % 32 == i;
      PaddedAt(s[..BYTES_PER_CHUNK], i);
    } else {
      PackedAt(s[BYTES_PER_CHUNK..], i - 32);
      assert (i - 32) / 32 == i / 32 - 1 && (i - 32) % 32 == i % 32;
    }
  }

  lemma PaddedAt(s: ByteString, i: nat)
    requires |s| <= BYTES_PER_CHUNK && i < BYTES_PER_CHUNK
    ensures PadChunk(s)[i] == if i < |s| then s[i] else 0
  {
    if i >= |s| {
      ZeroAt(BYTES_PER_CHUNK - |s|, i - |s|);
    }
  }

  lemma {:induction false} ZeroAt(n: nat, i: nat)
    requires i < n
    ensures ToLE(0, n)[i] == 0
  {
    if i > 0 {
      ZeroAt(n - 1, i - 1);
    }
  }

  lemma {:induction false} JoinIsSerialized(t: SszType, vs: seq<Value>, offset: nat)
    requires IsBasic(t) && AllTyped(vs, Repeat(t, |vs|))
    ensures forall v | v in vs :: HasType(v, t)
    ensures SerializeFields(Repeat(t, |vs|), vs, offset) == Ok(Parts(JoinBasic(t, vs), []))
    decreases |vs|
  {
    forall v | v in vs
      ensures HasType(v, t)
    {
      var i :| 0 <= i < |vs| && vs[i] == v;
      assert HasType(vs[i], Repeat(t, |vs|)[i]);
    }
    if vs != [] {
      assert Repeat(t, |vs|)[1..] == Repeat(t, |vs[1..]|);
      JoinIsSerialized(t, vs[1..], offset);
    }
  }

  lemma ScalarLeaves(h: Hash, t: SszType, v: Value)
    requires HasType(v, t) && IsLeaf(t) && !t.BitlistT?
    ensures Leaves(h, t, v) == PackBytes(EncodeLeaf(t, v)) && Serialize(t, v) == Ok(EncodeLeaf(t, v))
  {
    hide PackBytes, HasType;
  }

  lemma RowLeaves(h: Hash, t: SszType, v: Value)
    requires HasType(v, t) && (t.VectorT? || t.ListT?) && (t.elem.UintT? || t.elem.BooleanT?)
    ensures IsBasic(t.elem) && (forall x | x in v.elems :: HasType(x, t.elem))
    ensures AllTyped(v.elems, Repeat(t.elem, |v.elems|)) && FieldsOf(t, |v.elems|) == Repeat(t.elem, |v.elems|)
    ensures Leaves(h, t, v) == PackBytes(JoinBasic(t.elem, v.elems))
  {
    hide PackBytes, JoinBasic;
  }

  /** Chunks of the serialized value, for scalars, byte strings, bitvectors and rows of scalars. */
  lemma PackedLeaves(h: Hash, t: SszType, v: Value)
    requires HasType(v, t)
    requires (IsLeaf(t) && !t.BitlistT?) || ((t.VectorT? || t.ListT?) && (t.elem.UintT? || t.elem.BooleanT?))
    ensures Serialize(t, v).Ok? && Leaves(h, t, v) == PackBytes(Serialize(t, v).value)
  {
    hide *;
    if IsLeaf(t) {
      ScalarLeaves(h, t, v);
    } else {
      RowLeaves(h, t, v);
      SszSize.CompositeSize(t, v);
      JoinIsSerialized(t.elem, v.elems, HeadWidth(FieldsOf(t, |v.elems|)));
      var joined := JoinBasic(t.elem, v.elems);
      assert joined + [] == joined;
    }
  }

  /** A bitlist is hashed as the bitvector of its bits: no delimiter. */
  lemma BitlistLeaves(h: Hash, n: nat, v: Value)
    requires HasType(v, BitlistT(n))
    ensures Leaves(h, BitlistT(n), v) == Leaves(h, BitvectorT(|v.bits|), v)
  {
  }

  lemma {:induction false} FieldRootAt(h: Hash, fs: seq<SszType>, vs: seq<Value>, i: nat)
    requires AllTyped(vs, fs) && i < |fs|
    ensures FieldRoots(h, fs, vs)[i] == Root(h, fs[i], vs[i])
    decreases |fs|
  {
    hide Root, HasType;
    if i > 0 {
      FieldRootAt(h, fs[1..], vs[1..], i - 1);
    }
  }

  /** Everything else has one leaf a field: the root of that field. */
  lemma RootLeaves(h: Hash, t: SszType, v: Value, i: nat)
    requires HasType(v, t) && !IsLeaf(t) && i < |v.elems|
    requires t.ContainerT? || !(t.elem.UintT? || t.elem.BooleanT?)
    ensures |Leaves(h, t, v)| == |v.elems|
    ensures var f := if t.ContainerT? then t.fields[i] else t.elem;
      HasType(v.elems[i], f) && Leaves(h, t, v)[i] == Root(h, f, v.elems[i])
  {
    hide Root, FieldRoots;
    FieldsTyped(t, v);
    FieldRootAt(h, FieldsOf(t, |v.elems|), v.elems, i);
  }

  // ---- whole roots ----

  lemma OneLeaf(h: Hash, chunks: seq<Chunk>)
    requires |chunks| <= 1
    ensures DenseRoot(h, chunks, 1) == if chunks == [] then ZERO_HASH else chunks[0]
  {
  }

  lemma TwoLeaves(h: Hash, a: Chunk, b: Chunk)
    ensures DenseRoot(h, [a, b], 2) == h(a, b)
  {
    NextPow2Smallest(2, 0);
    assert DepthFor(2) == 1;
    var leaves := Pad([a, b], 2, ZERO_HASH);
    assert leaves[..1] == [a] && leaves[1..] == [b];
    assert PerfectRoot(h, 1, leaves) == h(PerfectRoot(h, 0, [a]), PerfectRoot(h, 0, [b]));
  }

  lemma ByteListFacts(n: nat, s: ByteString)
    requires |s| <= n && 1 <= n <= 32
    ensures var t, v := ByteListT(n), BytesV(s);
      && HasType(v, t) && IsLeaf(t) && EncodeLeaf(t, v) == s
      && MixedLength(t, v) == Some(|s|) && Capacity(LeafCount(t, v), ChunkLimit(t)) == 1
  {
    hide ToLE, PackBytes, PadChunk, Pow256;
  }

  lemma PackShort(s: ByteString)
    requires |s| <= 32
    ensures PackBytes(s) == if s == [] then [] else [PadChunk(s)]
    ensures s == [] ==> PadChunk(s) == ZERO_HASH
  {
    hide ToLE;
  }

  /** A byte list with a limit of one chunk: that chunk, then its length. */
  lemma ShortByteList(h: Hash, n: nat, s: ByteString)
    requires |s| <= n && 1 <= n <= 32
    ensures HasType(BytesV(s), ByteListT(n))
    ensures Root(h, ByteListT(n), BytesV(s)) == h(PadChunk(s), ToLE(|s|, 32))
  {
    hide *;
    var t, v := ByteListT(n), BytesV(s);
    ByteListFacts(n, s);
    PackShort(s);
    RootUnfold(h, t, v);
    ScalarLeaves(h, t, v);
    DataUnfold(h, t, v);
    OneLeaf(h, Leaves(h, t, v));
  }

  lemma PairFacts(f: SszType, g: SszType, x: Value, y: Value)
    requires HasType(x, f) && HasType(y, g)
    ensures var t, v := ContainerT([f, g]), SeqV([x, y]);
      && HasType(v, t) && !IsLeaf(t) && MixedLength(t, v) == None && Capacity(LeafCount(t, v), ChunkLimit(t)) == 2
  {
  }

  /** A container of two fields: the hash of their roots, in order. */
  lemma PairContainer(h: Hash, f: SszType, g: SszType, x: Value, y: Value)
    requires HasType(x, f) && HasType(y, g)
    ensures HasType(SeqV([x, y]), ContainerT([f, g]))
    ensures Root(h, ContainerT([f, g]), SeqV([x, y])) == h(Root(h, f, x), Root(h, g, y))
  {
    hide *;
    var t, v := ContainerT([f, g]), SeqV([x, y]);
    PairFacts(f, g, x, y);
    RootUnfold(h, t, v);
    DataUnfold(h, t, v);
    RootLeaves(h, t, v, 0);
    RootLeaves(h, t, v, 1);
    assert Leaves(h, t, v) == [Root(h, f, x), Root(h, g, y)];
    TwoLeaves(h, Root(h, f, x), Root(h, g, y));
  }
}

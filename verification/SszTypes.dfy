/**
 SSZ types and values.

 Vectors, lists and containers share one layout: a row of fields, each of which is either
 written in place or replaced by a four-byte offset.  A vector is a row of equal fields.
 */
module SszTypes {
  import opened Bytes

  /** BYTES_PER_LENGTH_OFFSET. */
  const OFFSET_WIDTH := 4

  /** Exclusive bound on an offset: the range of Uint32. */
  const OFFSET_LIMIT := 0x1_0000_0000

  datatype SszType =
    | UintT(width: nat)
    | BooleanT
    | BytesT(length: nat)
    | ByteListT(limit: nat)
    | BitvectorT(length: nat)
    | BitlistT(limit: nat)
    | VectorT(elem: SszType, length: nat)
    | ListT(elem: SszType, limit: nat)
    | ContainerT(fields: seq<SszType>)

  datatype Value =
    | UintV(n: nat)
    | BoolV(b: bool)
    | BytesV(data: ByteString)
    | BitsV(bits: seq<bool>)
    | SeqV(elems: seq<Value>)

  predicate IsLeaf(t: SszType)
  {
    !t.VectorT? && !t.ListT? && !t.ContainerT?
  }

  predicate IsFixed(t: SszType)
  {
    match t
    case UintT(_) => true
    case BooleanT => true
    case BytesT(_) => true
    case ByteListT(_) => false
    case BitvectorT(_) => true
    case BitlistT(_) => false
    case VectorT(e, _) => IsFixed(e)
    case ListT(_, _) => false
    case ContainerT(fs) => forall f | f in fs :: IsFixed(f)
  }

  /** get_byte_length. */
  function Width(t: SszType): nat
    requires IsFixed(t)
    decreases t, 1
  {
    match t
    case UintT(w) => w
    case BooleanT => 1
    case BytesT(n) => n
    case BitvectorT(n) => (n + 7) / 8
    case VectorT(e, n) => Width(e) * n
    case ContainerT(fs) => HeadWidth(fs)
  }

  /** Width of one slot of the leading part. */
  function SlotWidth(t: SszType): nat
    decreases t, 2
  {
    if IsFixed(t) then Width(t) else OFFSET_WIDTH
  }

  /** Width of the leading part of a row of fields. */
  function HeadWidth(fs: seq<SszType>): nat
    decreases fs, 0
  {
    if fs == [] then 0 else SlotWidth(fs[0]) + HeadWidth(fs[1..])
  }

  predicate AllFixed(fs: seq<SszType>)
  {
    forall f | f in fs :: IsFixed(f)
  }

  /** What the decoder needs of a type: no list of zero-width elements, no empty vector of variable-size ones. */
  predicate WellFormed(t: SszType)
  {
    match t
    case VectorT(e, n) => WellFormed(e) && (IsFixed(e) || n >= 1)
    case ListT(e, _) => WellFormed(e) && (IsFixed(e) ==> Width(e) > 0)
    case ContainerT(fs) => forall f | f in fs :: WellFormed(f)
    case _ => true
  }

  predicate AllWellFormed(fs: seq<SszType>)
  {
    forall f | f in fs :: WellFormed(f)
  }

  predicate HasType(v: Value, t: SszType)
    decreases t
  {
    match t
    case UintT(w) => v.UintV? && v.n < Pow256(w)
    case BooleanT => v.BoolV?
    case BytesT(n) => v.BytesV? && |v.data| == n
    case ByteListT(n) => v.BytesV? && |v.data| <= n
    case BitvectorT(n) => v.BitsV? && |v.bits| == n
    case BitlistT(n) => v.BitsV? && |v.bits| <= n
    case VectorT(e, n) => v.SeqV? && |v.elems| == n && forall x | x in v.elems :: HasType(x, e)
    case ListT(e, n) => v.SeqV? && |v.elems| <= n && forall x | x in v.elems :: HasType(x, e)
    case ContainerT(fs) =>
      v.SeqV? && |v.elems| == |fs| && forall i | 0 <= i < |fs| :: HasType(v.elems[i], fs[i])
  }

  predicate AllTyped(vs: seq<Value>, fs: seq<SszType>)
  {
    |vs| == |fs| && forall i | 0 <= i < |fs| :: HasType(vs[i], fs[i])
  }

  function Repeat(t: SszType, n: nat): (fs: seq<SszType>)
    ensures |fs| == n
    ensures forall i | 0 <= i < n :: fs[i] == t
  {
    seq(n, _ => t)
  }

  /** The row of fields that lays out a composite value. */
  function FieldsOf(t: SszType, count: nat): (fs: seq<SszType>)
    requires !IsLeaf(t)
  {
    match t
    case VectorT(e, n) => Repeat(e, n)
    case ListT(e, _) => Repeat(e, count)
    case ContainerT(fs) => fs
  }

  // ---- nesting depth: the measure on which encoder and decoder recurse ----

  function Depth(t: SszType): nat
    decreases t, 1
  {
    match t
    case VectorT(e, _) => 1 + Depth(e)
    case ListT(e, _) => 1 + Depth(e)
    case ContainerT(fs) => 1 + MaxDepth(fs)
    case _ => 0
  }

  function MaxDepth(fs: seq<SszType>): (d: nat)
    ensures forall f | f in fs :: Depth(f) <= d
    decreases fs, 0
  {
    if fs == [] then 0
    else
      var rest := MaxDepth(fs[1..]);
      var first := Depth(fs[0]);
      if first > rest then first else rest
  }

  lemma {:induction false} MaxDepthBound(fs: seq<SszType>, d: nat)
    requires forall f | f in fs :: Depth(f) <= d
    ensures MaxDepth(fs) <= d
  {
    if fs != [] {
      MaxDepthBound(fs[1..], d);
    }
  }

  lemma FieldsAreShallower(t: SszType, count: nat)
    requires !IsLeaf(t)
    ensures MaxDepth(FieldsOf(t, count)) < Depth(t)
  {
    match t
    case VectorT(e, n) => MaxDepthBound(Repeat(e, n), Depth(e));
    case ListT(e, _) => MaxDepthBound(Repeat(e, count), Depth(e));
    case ContainerT(fs) =>
  }

  lemma TailIsShallower(fs: seq<SszType>)
    requires fs != []
    ensures MaxDepth(fs[1..]) <= MaxDepth(fs)
    ensures Depth(fs[0]) <= MaxDepth(fs)
  {
  }

  lemma {:induction false} RepeatHeadWidth(t: SszType, n: nat)
    ensures HeadWidth(Repeat(t, n)) == SlotWidth(t) * n
  {
    if n > 0 {
      RepeatHeadWidth(t, n - 1);
      assert Repeat(t, n)[1..] == Repeat(t, n - 1);
    }
  }
}

/** The encoded size of an SSZ value, and when serialization succeeds. */
module SszSize {
  import opened Bytes
  import opened SszTypes
  import opened SszCodec
  import opened SszRoundTrip

  /** The bytes of the encoding, counted without encoding. */
  function Size(t: SszType, v: Value): nat
    requires HasType(v, t)
    decreases Depth(t), 0, 0
  {
    match t
    case UintT(w) => w
    case BooleanT => 1
    case BytesT(n) => n
    case ByteListT(_) => |v.data|
    case BitvectorT(n) => (n + 7) / 8
    case BitlistT(_) => |v.bits| / 8 + 1
    case _ =>
      var fs := FieldsOf(t, |v.elems|);
      FieldsAreShallower(t, |v.elems|);
      HeadWidth(fs) + TailSize(fs, v.elems)
  }

  /** The bytes of the payloads of variable-size fields. */
  function TailSize(fs: seq<SszType>, vs: seq<Value>): nat
    requires AllTyped(vs, fs)
    decreases MaxDepth(fs), 1, |fs|
  {
    if fs == [] then 0
    else
      TailIsShallower(fs);
      (if IsFixed(fs[0]) then 0 else Size(fs[0], vs[0])) + TailSize(fs[1..], vs[1..])
  }

  lemma LeafSize(t: SszType, v: Value)
    requires IsLeaf(t) && HasType(v, t)
    ensures |EncodeLeaf(t, v)| == Size(t, v)
  {
  }

  lemma CompositeSize(t: SszType, v: Value)
    requires !IsLeaf(t) && HasType(v, t)
    ensures v.SeqV? && AllTyped(v.elems, FieldsOf(t, |v.elems|))
    ensures var fs := FieldsOf(t, |v.elems|);
      && Size(t, v) == HeadWidth(fs) + TailSize(fs, v.elems)
      && MaxDepth(fs) < Depth(t)
      && Serialize(t, v) == match SerializeFields(fs, v.elems, HeadWidth(fs))
                            case Err(e) => Err(e)
                            case Ok(parts) => Ok(parts.head + parts.tail)
  {
    FieldsAreShallower(t, |v.elems|);
  }

  /** A value whose encoding is under 2^32 bytes serializes, and a serialized value has its size. */
  lemma {:induction false} SizeLaw(t: SszType, v: Value)
    requires HasType(v, t)
    ensures Size(t, v) < OFFSET_LIMIT ==> Serialize(t, v).Ok?
    ensures Serialize(t, v).Ok? ==> |Serialize(t, v).value| == Size(t, v)
    decreases Depth(t), 0, 0
  {
    hide *;
    if IsLeaf(t) {
      LeafSize(t, v);
      LeafSerializes(t, v);
    } else {
      CompositeSize(t, v);
      var fs := FieldsOf(t, |v.elems|);
      FieldsSize(fs, v.elems, HeadWidth(fs));
      HeadAndTail(fs, v.elems, HeadWidth(fs));
    }
  }

  lemma LeafSerializes(t: SszType, v: Value)
    requires IsLeaf(t) && HasType(v, t)
    ensures Serialize(t, v) == Ok(EncodeLeaf(t, v))
  {
  }

  lemma FieldStep(fs: seq<SszType>, vs: seq<Value>, offset: nat)
    requires fs != [] && AllTyped(vs, fs)
    ensures |vs| == |fs| && HasType(vs[0], fs[0]) && AllTyped(vs[1..], fs[1..])
    ensures MaxDepth(fs[1..]) <= MaxDepth(fs) && Depth(fs[0]) <= MaxDepth(fs)
    ensures TailSize(fs, vs) == (if IsFixed(fs[0]) then 0 else Size(fs[0], vs[0])) + TailSize(fs[1..], vs[1..])
    ensures !IsFixed(fs[0]) && offset >= OFFSET_LIMIT ==> SerializeFields(fs, vs, offset).Err?
    ensures IsFixed(fs[0]) || offset < OFFSET_LIMIT ==>
      SerializeFields(fs, vs, offset) ==
        match Serialize(fs[0], vs[0])
        case Err(e) => Err(e)
        case Ok(body) =>
          match SerializeFields(fs[1..], vs[1..], if IsFixed(fs[0]) then offset else offset + |body|)
          case Err(e) => Err(e)
          case Ok(rest) =>
            if IsFixed(fs[0]) then Ok(Parts(body + rest.head, rest.tail))
            else Ok(Parts(ToLE(offset, OFFSET_WIDTH) + rest.head, body + rest.tail))
  {
    TailIsShallower(fs);
  }

  lemma {:induction false} FieldsSize(fs: seq<SszType>, vs: seq<Value>, offset: nat)
    requires AllTyped(vs, fs)
    ensures offset + TailSize(fs, vs) < OFFSET_LIMIT ==> SerializeFields(fs, vs, offset).Ok?
    ensures SerializeFields(fs, vs, offset).Ok? ==> |SerializeFields(fs, vs, offset).value.tail| == TailSize(fs, vs)
    decreases MaxDepth(fs), 1, |fs|
  {
    hide *;
    if fs == [] {
      NoFields(vs, offset);
    } else {
      FieldStep(fs, vs, offset);
      SizeLaw(fs[0], vs[0]);
      if IsFixed(fs[0]) {
        FixedWidth(fs[0], vs[0]);
        FieldsSize(fs[1..], vs[1..], offset);
      } else {
        FieldsSize(fs[1..], vs[1..], offset + Size(fs[0], vs[0]));
      }
    }
  }

  lemma NoFields(vs: seq<Value>, offset: nat)
    requires AllTyped(vs, [])
    ensures TailSize([], vs) == 0 && SerializeFields([], vs, offset) == Ok(Parts([], []))
  {
  }

  /** Every value whose encoding is under 2^32 bytes is encoded in exactly its size and decoded back. */
  lemma RoundTripBySize(t: SszType, v: Value)
    requires WellFormed(t) && HasType(v, t) && Size(t, v) < OFFSET_LIMIT
    ensures Serialize(t, v).Ok? && |Serialize(t, v).value| == Size(t, v)
    ensures DecodeBytes(t, Serialize(t, v).value) == Ok(v)
  {
    hide *;
    SizeLaw(t, v);
    RoundTrip(t, v);
  }
}

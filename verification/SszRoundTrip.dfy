/** SSZ round trip: what serialize writes, deserialize reads back, wherever it sits in a stream. */
module SszRoundTrip {
  import opened Bytes
  import opened Bits
  import opened SszTypes
  import opened SszCodec

  lemma LeafWidth(t: SszType, v: Value)
    requires IsLeaf(t) && IsFixed(t) && HasType(v, t)
    ensures |EncodeLeaf(t, v)| == Width(t)
  {
  }

  /** A fixed-size type always serializes, to its declared width. */
  lemma {:induction false} FixedWidth(t: SszType, v: Value)
    requires IsFixed(t) && HasType(v, t)
    ensures Serialize(t, v).Ok? && |Serialize(t, v).value| == Width(t)
    decreases Depth(t), 0, 0
  {
    if IsLeaf(t) {
      LeafWidth(t, v);
    } else {
      var fs := FieldsOf(t, |v.elems|);
      FieldsAreShallower(t, |v.elems|);
      HeadAndTail(fs, v.elems, HeadWidth(fs));
      if t.VectorT? {
        RepeatHeadWidth(t.elem, t.length);
      }
    }
  }

  /** The leading part has its declared width; with no variable field there is nothing after it. */
  lemma {:induction false} HeadAndTail(fs: seq<SszType>, vs: seq<Value>, offset: nat)
    requires AllTyped(vs, fs)
    ensures SerializeFields(fs, vs, offset).Ok? ==> |SerializeFields(fs, vs, offset).value.head| == HeadWidth(fs)
    ensures AllFixed(fs) ==> SerializeFields(fs, vs, offset).Ok? && SerializeFields(fs, vs, offset).value.tail == []
    decreases MaxDepth(fs), 1, |fs|
  {
    hide Serialize, HasType, Width, Depth, MaxDepth, IsFixed;
    if fs != [] {
      TailIsShallower(fs);
      if IsFixed(fs[0]) {
        FixedWidth(fs[0], vs[0]);
        HeadAndTail(fs[1..], vs[1..], offset);
      } else if Serialize(fs[0], vs[0]).Ok? {
        HeadAndTail(fs[1..], vs[1..], offset + |Serialize(fs[0], vs[0]).value|);
      }
    }
  }

  lemma LeafRoundTrip(t: SszType, v: Value)
    requires IsLeaf(t) && HasType(v, t)
    ensures DecodeLeaf(t, EncodeLeaf(t, v)) == Ok(v)
  {
    match t
    case UintT(w) => FromToLE(v.n, w);
    case BitvectorT(n) => BitvectorRoundTrip(v.bits);
    case BitlistT(n) => BitlistRoundTrip(n, v.bits);
    case _ =>
  }

  /** The slots the writer produces: values in place, offsets for the rest. */
  function SlotsFor(fs: seq<SszType>, vs: seq<Value>, offset: nat): (slots: seq<Slot>)
    requires AllTyped(vs, fs) && SerializeFields(fs, vs, offset).Ok?
    ensures |slots| == |fs|
    decreases |fs|
  {
    if fs == [] then []
    else if IsFixed(fs[0]) then [Inline(vs[0])] + SlotsFor(fs[1..], vs[1..], offset)
    else [Offset(offset)] + SlotsFor(fs[1..], vs[1..], offset + |Serialize(fs[0], vs[0]).value|)
  }

  lemma HoldsBounds(data: ByteString, pos: nat, s: ByteString)
    requires Holds(data, pos, s)
    ensures pos + |s| <= |data| && data[pos..pos + |s|] == s
  {
  }

  lemma OffsetFits(n: nat)
    requires n < OFFSET_LIMIT
    ensures FromLE(ToLE(n, OFFSET_WIDTH)) == n
  {
    assert Pow256(2) == 0x1_0000;
    assert Pow256(OFFSET_WIDTH) == OFFSET_LIMIT;
    FromToLE(n, OFFSET_WIDTH);
  }

  /** One unfolding of the writer. */
  lemma WriteStep(fs: seq<SszType>, vs: seq<Value>, offset: nat)
    requires fs != [] && AllWellFormed(fs) && AllTyped(vs, fs) && SerializeFields(fs, vs, offset).Ok?
    ensures |vs| == |fs|
    ensures HasType(vs[0], fs[0]) && AllTyped(vs[1..], fs[1..])
    ensures WellFormed(fs[0]) && AllWellFormed(fs[1..])
    ensures Serialize(fs[0], vs[0]).Ok?
    ensures var body := Serialize(fs[0], vs[0]).value;
      var next := if IsFixed(fs[0]) then offset else offset + |body|;
      var parts := SerializeFields(fs, vs, offset).value;
      && SerializeFields(fs[1..], vs[1..], next).Ok?
      && var rest := SerializeFields(fs[1..], vs[1..], next).value;
      && (!IsFixed(fs[0]) ==> offset < OFFSET_LIMIT)
      && parts.head == (if IsFixed(fs[0]) then body else ToLE(offset, OFFSET_WIDTH)) + rest.head
      && parts.tail == (if IsFixed(fs[0]) then [] else body) + rest.tail
      && SlotsFor(fs, vs, offset) ==
        [if IsFixed(fs[0]) then Inline(vs[0]) else Offset(offset)] + SlotsFor(fs[1..], vs[1..], next)
  {
    hide Serialize, HasType, WellFormed, IsFixed, ToLE;
    var next := if IsFixed(fs[0]) then offset else offset + |Serialize(fs[0], vs[0]).value|;
    var rest := SerializeFields(fs[1..], vs[1..], next).value;
    assert [] + rest.tail == rest.tail;
  }

  lemma ReadHeadStep(fs: seq<SszType>, data: ByteString, pos: nat, slot: Slot)
    requires fs != [] && pos + SlotWidth(fs[0]) <= |data| && AllWellFormed(fs) && AllWellFormed(fs[1..])
    requires if IsFixed(fs[0])
             then slot.Inline? && Deserialize(fs[0], data, pos, Width(fs[0])) ==
               Ok(Read(slot.value, pos + Width(fs[0])))
             else slot == Offset(FromLE(data[pos..pos + OFFSET_WIDTH]))
    requires ReadHead(fs[1..], data, pos + SlotWidth(fs[0])).Ok?
    ensures var rest := ReadHead(fs[1..], data, pos + SlotWidth(fs[0])).value;
      ReadHead(fs, data, pos) == Ok(Read([slot] + rest.value, rest.next))
  {
    hide Deserialize, WellFormed, Width, IsFixed, FromLE;
  }

  lemma SlotWidthOf(t: SszType, v: Value)
    requires HasType(v, t)
    ensures IsFixed(t) ==> SlotWidth(t) == Width(t) && Serialize(t, v).Ok? && |Serialize(t, v).value| == Width(t)
    ensures !IsFixed(t) ==> SlotWidth(t) == OFFSET_WIDTH
    decreases Depth(t), 0, 1
  {
    hide Serialize, HasType, Width, IsFixed;
    if IsFixed(t) {
      FixedWidth(t, v);
    }
  }

  /** Everything about an empty row. */
  lemma EmptyRow(vs: seq<Value>, offset: nat, data: ByteString, pos: nat, scope: nat)
    requires AllTyped(vs, [])
    requires pos <= |data|
    ensures vs == [] && HeadWidth([]) == 0
    ensures SerializeFields([], vs, offset) == Ok(Parts([], [])) && SlotsFor([], vs, offset) == []
    ensures ReadHead([], data, pos) == Ok(Read([], pos))
    ensures ReadTail([], [], scope, data, pos) == Ok(Read([], pos))
  {
  }

  lemma {:induction false} HeadRoundTrip(fs: seq<SszType>, vs: seq<Value>, offset: nat, data: ByteString, pos: nat)
    requires AllWellFormed(fs) && AllTyped(vs, fs) && SerializeFields(fs, vs, offset).Ok?
    requires pos <= |data| && Holds(data, pos, SerializeFields(fs, vs, offset).value.head)
    ensures ReadHead(fs, data, pos) == Ok(Read(SlotsFor(fs, vs, offset), pos + HeadWidth(fs)))
    decreases MaxDepth(fs), 2, |fs|
  {
    hide *;
    if fs == [] {
      EmptyRow(vs, offset, data, pos, 0);
    } else {
      HeadWidthStep(fs);
      TailIsShallower(fs);
      WriteStep(fs, vs, offset);
      SlotWidthOf(fs[0], vs[0]);
      var body := Serialize(fs[0], vs[0]).value;
      var next := if IsFixed(fs[0]) then offset else offset + |body|;
      var rest := SerializeFields(fs[1..], vs[1..], next).value;
      var slot := if IsFixed(fs[0]) then Inline(vs[0]) else Offset(offset);
      var mine := if IsFixed(fs[0]) then body else ToLE(offset, OFFSET_WIDTH);
      HoldsSplit(data, pos, mine, rest.head);
      HoldsBounds(data, pos, mine);
      if IsFixed(fs[0]) {
        RoundTripAt(fs[0], vs[0], data, pos);
      } else {
        OffsetFits(offset);
      }
      HeadRoundTrip(fs[1..], vs[1..], next, data, pos + SlotWidth(fs[0]));
      ReadHeadStep(fs, data, pos, slot);
    }
  }

  lemma HeadWidthStep(fs: seq<SszType>)
    requires fs != []
    ensures HeadWidth(fs) == SlotWidth(fs[0]) + HeadWidth(fs[1..])
  {
  }

  /** Offsets written are the spans read: the first start is where the payloads begin. */
  lemma {:induction false} StartsAtOffset(fs: seq<SszType>, vs: seq<Value>, offset: nat)
    requires AllWellFormed(fs) && AllTyped(vs, fs) && SerializeFields(fs, vs, offset).Ok?
    ensures NextStart(SlotsFor(fs, vs, offset), offset + |SerializeFields(fs, vs, offset).value.tail|) == offset
    decreases |fs|
  {
    hide Serialize, SerializeFields, HasType, WellFormed, IsFixed, SlotsFor, ToLE;
    if fs == [] {
      EmptyRow(vs, offset, [], 0, 0);
    } else {
      WriteStep(fs, vs, offset);
      if IsFixed(fs[0]) {
        StartsAtOffset(fs[1..], vs[1..], offset);
        assert SlotsFor(fs, vs, offset)[1..] == SlotsFor(fs[1..], vs[1..], offset);
      }
    }
  }

  lemma ReadTailStep(fs: seq<SszType>, slots: seq<Slot>, scope: nat, data: ByteString, pos: nat, first: Read<Value>)
    requires fs != [] && |slots| == |fs| && pos <= first.next <= |data| && AllWellFormed(fs) && AllWellFormed(fs[1..])
    requires slots[0].Inline? ==> first == Read(slots[0].value, pos)
    requires slots[0].Offset? ==>
      var end := NextStart(slots[1..], scope);
      slots[0].start <= end && Deserialize(fs[0], data, pos, end - slots[0].start) == Ok(first)
    requires ReadTail(fs[1..], slots[1..], scope, data, first.next).Ok?
    ensures var rest := ReadTail(fs[1..], slots[1..], scope, data, first.next).value;
      ReadTail(fs, slots, scope, data, pos) == Ok(Read([first.value] + rest.value, rest.next))
  {
    hide Deserialize, WellFormed;
  }

  lemma {:induction false} TailRoundTrip(fs: seq<SszType>, vs: seq<Value>, offset: nat, data: ByteString, pos: nat)
    requires AllWellFormed(fs) && AllTyped(vs, fs) && SerializeFields(fs, vs, offset).Ok?
    requires pos <= |data| && Holds(data, pos, SerializeFields(fs, vs, offset).value.tail)
    ensures var tail := SerializeFields(fs, vs, offset).value.tail;
      ReadTail(fs, SlotsFor(fs, vs, offset), offset + |tail|, data, pos) == Ok(Read(vs, pos + |tail|))
    decreases MaxDepth(fs), 2, |fs|
  {
    hide *;
    if fs == [] {
      EmptyRow(vs, offset, data, pos, offset);
    } else {
      TailIsShallower(fs);
      WriteStep(fs, vs, offset);
      assert vs == [vs[0]] + vs[1..];
      var slots := SlotsFor(fs, vs, offset);
      var body := Serialize(fs[0], vs[0]).value;
      var mine := if IsFixed(fs[0]) then [] else body;
      var next := offset + |mine|;
      var rest := SerializeFields(fs[1..], vs[1..], next).value;
      assert slots[1..] == SlotsFor(fs[1..], vs[1..], next);
      HoldsSplit(data, pos, mine, rest.tail);
      HoldsBounds(data, pos, mine);
      if !IsFixed(fs[0]) {
        StartsAtOffset(fs[1..], vs[1..], next);
        RoundTripAt(fs[0], vs[0], data, pos);
      }
      TailRoundTrip(fs[1..], vs[1..], next, data, pos + |mine|);
      ReadTailStep(fs, slots, next + |rest.tail|, data, pos, Read(vs[0], pos + |mine|));
    }
  }

  lemma {:induction false} FieldsRoundTrip(fs: seq<SszType>, vs: seq<Value>, data: ByteString, pos: nat)
    requires AllWellFormed(fs) && AllTyped(vs, fs) && SerializeFields(fs, vs, HeadWidth(fs)).Ok?
    requires var parts := SerializeFields(fs, vs, HeadWidth(fs)).value;
      pos <= |data| && Holds(data, pos, parts.head + parts.tail)
    ensures var parts := SerializeFields(fs, vs, HeadWidth(fs)).value;
      var n := |parts.head + parts.tail|;
      ReadFields(fs, data, pos, n) == Ok(Read(vs, pos + n))
    decreases MaxDepth(fs), 3, 0
  {
    hide ReadHead, ReadTail, SerializeFields, SlotsFor;
    var parts := SerializeFields(fs, vs, HeadWidth(fs)).value;
    HeadAndTail(fs, vs, HeadWidth(fs));
    HoldsSplit(data, pos, parts.head, parts.tail);
    HeadRoundTrip(fs, vs, HeadWidth(fs), data, pos);
    StartsAtOffset(fs, vs, HeadWidth(fs));
    TailRoundTrip(fs, vs, HeadWidth(fs), data, pos + |parts.head|);
  }

  /** A list of variable-size elements announces its element count through its first offset. */
  lemma ListFirstOffset(t: SszType, v: Value, data: ByteString, pos: nat)
    requires t.ListT? && HasType(v, t) && !IsFixed(t.elem) && |v.elems| > 0
    requires Serialize(t, v).Ok? && Holds(data, pos, Serialize(t, v).value)
    ensures |Serialize(t, v).value| >= OFFSET_WIDTH * |v.elems|
    ensures FromLE(data[pos..pos + OFFSET_WIDTH]) == OFFSET_WIDTH * |v.elems|
  {
    var n := |v.elems|;
    var fs := FieldsOf(t, n);
    var parts := SerializeFields(fs, v.elems, HeadWidth(fs)).value;
    HeadAndTail(fs, v.elems, HeadWidth(fs));
    RepeatHeadWidth(t.elem, n);
    HoldsSplit(data, pos, parts.head, parts.tail);
    var next := HeadWidth(fs) + |Serialize(fs[0], v.elems[0]).value|;
    HoldsSplit(data, pos, ToLE(HeadWidth(fs), OFFSET_WIDTH), SerializeFields(fs[1..], v.elems[1..], next).value.head);
    OffsetFits(HeadWidth(fs));
  }

  lemma FixedListWidth(t: SszType, v: Value)
    requires WellFormed(t) && t.ListT? && HasType(v, t) && IsFixed(t.elem)
    ensures Serialize(t, v).Ok? && |Serialize(t, v).value| == Width(t.elem) * |v.elems|
  {
    var fs := FieldsOf(t, |v.elems|);
    HeadAndTail(fs, v.elems, HeadWidth(fs));
    RepeatHeadWidth(t.elem, |v.elems|);
  }

  lemma Quotient(w: nat, n: nat)
    requires w > 0
    ensures (w * n) / w == n && (w * n) % w == 0
    ensures w * n == 0 <==> n == 0
  {
    DivUnique(w * n, w, n, 0);
  }

  lemma LeafRoundTripAt(t: SszType, v: Value, data: ByteString, pos: nat)
    requires WellFormed(t) && IsLeaf(t) && HasType(v, t) && Serialize(t, v).Ok?
    requires pos <= |data| && Holds(data, pos, Serialize(t, v).value)
    ensures var n := |Serialize(t, v).value|;
      Deserialize(t, data, pos, n) == Ok(Read(v, pos + n))
  {
    LeafRoundTrip(t, v);
    hide EncodeLeaf, DecodeLeaf, Width;
    if IsFixed(t) {
      LeafWidth(t, v);
    }
  }

  lemma CompositeSerialize(t: SszType, v: Value)
    requires WellFormed(t) && !IsLeaf(t) && HasType(v, t) && Serialize(t, v).Ok?
    ensures v.SeqV? && AllTyped(v.elems, FieldsOf(t, |v.elems|)) && AllWellFormed(FieldsOf(t, |v.elems|))
    ensures var fs := FieldsOf(t, |v.elems|);
      && SerializeFields(fs, v.elems, HeadWidth(fs)).Ok?
      && var parts := SerializeFields(fs, v.elems, HeadWidth(fs)).value;
      Serialize(t, v).value == parts.head + parts.tail
  {
    hide SerializeFields;
  }

  /** The checks a composite decoder makes before its row of fields all pass on what was written. */
  lemma CompositeDispatch(t: SszType, v: Value, data: ByteString, pos: nat, n: nat)
    requires WellFormed(t) && !IsLeaf(t) && HasType(v, t) && Serialize(t, v).Ok?
    requires pos <= |data| && n == |Serialize(t, v).value| && Holds(data, pos, Serialize(t, v).value)
    requires AllWellFormed(FieldsOf(t, |v.elems|))
    requires ReadFields(FieldsOf(t, |v.elems|), data, pos, n) == Ok(Read(v.elems, pos + n))
    ensures Deserialize(t, data, pos, n) == Ok(Read(v, pos + n))
  {
    hide ReadFields, SerializeFields, Serialize, Depth, MaxDepth;
    if t.VectorT? {
      if IsFixed(t) {
        FixedWidth(t, v);
      }
    } else if t.ListT? {
      assert ReadComposite(t, |v.elems|, data, pos, n) == Ok(Read(v, pos + n));
      ListDispatch(t, v, data, pos, n);
    }
  }

  lemma ListDispatch(t: SszType, v: Value, data: ByteString, pos: nat, n: nat)
    requires WellFormed(t) && t.ListT? && HasType(v, t) && Serialize(t, v).Ok?
    requires pos <= |data| && n == |Serialize(t, v).value| && Holds(data, pos, Serialize(t, v).value)
    requires ReadComposite(t, |v.elems|, data, pos, n) == Ok(Read(v, pos + n))
    ensures Deserialize(t, data, pos, n) == Ok(Read(v, pos + n))
  {
    hide ReadComposite, SerializeFields, Serialize, Depth, MaxDepth, IsFixed, Width, FromLE;
    HoldsBounds(data, pos, Serialize(t, v).value);
    if IsFixed(t.elem) {
      FixedListWidth(t, v);
      Quotient(Width(t.elem), |v.elems|);
    } else if |v.elems| > 0 {
      ListFirstOffset(t, v, data, pos);
    } else {
      EmptyListBytes(t, v);
    }
  }

  lemma EmptyListBytes(t: SszType, v: Value)
    requires t.ListT? && HasType(v, t) && |v.elems| == 0
    ensures Serialize(t, v) == Ok([])
  {
    var fs := FieldsOf(t, |v.elems|);
    assert fs == [];
    var none: ByteString := [];
    assert SerializeFields(fs, v.elems, HeadWidth(fs)) == Ok(Parts(none, none));
    assert none + none == none;
  }

  /** The decoder inverts the encoder at any position of any stream, consuming just the encoding. */
  lemma {:induction false} RoundTripAt(t: SszType, v: Value, data: ByteString, pos: nat)
    requires WellFormed(t) && HasType(v, t) && Serialize(t, v).Ok?
    requires pos <= |data| && Holds(data, pos, Serialize(t, v).value)
    ensures var n := |Serialize(t, v).value|;
      Deserialize(t, data, pos, n) == Ok(Read(v, pos + n))
    decreases Depth(t), 0, 0
  {
    hide *;
    if IsLeaf(t) {
      LeafRoundTripAt(t, v, data, pos);
    } else {
      CompositeSerialize(t, v);
      FieldsAreShallower(t, |v.elems|);
      FieldsRoundTrip(FieldsOf(t, |v.elems|), v.elems, data, pos);
      CompositeDispatch(t, v, data, pos, |Serialize(t, v).value|);
    }
  }

  /** decode_bytes(encode_bytes(v)) == v, for every type and every value that serializes. */
  lemma RoundTrip(t: SszType, v: Value)
    requires WellFormed(t) && HasType(v, t) && Serialize(t, v).Ok?
    ensures DecodeBytes(t, Serialize(t, v).value) == Ok(v)
  {
    if IsLeaf(t) {
      LeafRoundTrip(t, v);
    } else {
      var s := Serialize(t, v).value;
      assert s[0..|s|] == s;
      RoundTripAt(t, v, s, 0);
    }
  }
}

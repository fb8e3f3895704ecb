/** Where the fields of a row lie in its encoding (src/lean_spec/spec/ssz/collections.py, container.py). */
module SszLayout {
  import opened Bytes
  import opened SszTypes
  import opened SszCodec
  import opened SszRoundTrip
  import opened SszSize

  /** Where the slot of field i begins. */
  function SlotStart(fs: seq<SszType>, i: nat): nat
    requires i <= |fs|
  {
    HeadWidth(fs[..i])
  }

  /** The payload bytes before field i. */
  function TailBefore(fs: seq<SszType>, vs: seq<Value>, i: nat): nat
    requires AllTyped(vs, fs) && i <= |fs|
  {
    PrefixTyped(fs, vs, i);
    TailSize(fs[..i], vs[..i])
  }

  lemma PrefixTyped(fs: seq<SszType>, vs: seq<Value>, i: nat)
    requires AllTyped(vs, fs) && i <= |fs|
    ensures AllTyped(vs[..i], fs[..i])
  {
    hide HasType;
  }

  lemma StartsStep(fs: seq<SszType>, vs: seq<Value>, i: nat)
    requires AllTyped(vs, fs) && 0 < i <= |fs|
    ensures HasType(vs[0], fs[0]) && AllTyped(vs[1..], fs[1..])
    ensures SlotStart(fs, i) == SlotWidth(fs[0]) + SlotStart(fs[1..], i - 1)
    ensures TailBefore(fs, vs, i) ==
      (if IsFixed(fs[0]) then 0 else Size(fs[0], vs[0])) + TailBefore(fs[1..], vs[1..], i - 1)
  {
    hide HasType, Size, IsFixed, Width, Serialize, SerializeFields, TailSize;
    assert fs[..i][1..] == fs[1..][..i - 1] && vs[..i][1..] == vs[1..][..i - 1];
    PrefixTyped(fs, vs, i);
    FieldStep(fs[..i], vs[..i], 0);
    FieldStep(fs, vs, 0);
  }

  lemma NoStart(fs: seq<SszType>, vs: seq<Value>)
    requires AllTyped(vs, fs)
    ensures SlotStart(fs, 0) == 0 && TailBefore(fs, vs, 0) == 0
  {
    assert fs[..0] == [] && vs[..0] == [];
  }

  /** `part` lies at position `at` of s. */
  predicate LiesAt(s: ByteString, at: nat, part: ByteString)
  {
    at + |part| <= |s| && s[at..at + |part|] == part
  }

  lemma LiesBehind(front: ByteString, s: ByteString, at: nat, part: ByteString)
    requires LiesAt(s, at, part)
    ensures LiesAt(front + s, |front| + at, part)
  {
  }

  lemma LiesInFront(s: ByteString, back: ByteString, at: nat, part: ByteString)
    requires LiesAt(s, at, part)
    ensures LiesAt(s + back, at, part)
  {
  }

  lemma LiesFirst(part: ByteString, back: ByteString)
    ensures LiesAt(part + back, 0, part)
  {
  }

  /** The slot of field i, and its payload if it has one. */
  ghost predicate Placed(parts: Parts, fs: seq<SszType>, vs: seq<Value>, offset: nat, i: nat)
    requires AllTyped(vs, fs) && i < |fs|
  {
    && Serialize(fs[i], vs[i]).Ok?
    && var body := Serialize(fs[i], vs[i]).value;
       if IsFixed(fs[i]) then LiesAt(parts.head, SlotStart(fs, i), body)
       else
         && LiesAt(parts.head, SlotStart(fs, i), ToLE(offset + TailBefore(fs, vs, i), OFFSET_WIDTH))
         && LiesAt(parts.tail, TailBefore(fs, vs, i), body)
         && offset + TailBefore(fs, vs, i) < OFFSET_LIMIT
  }

  lemma PlacedFirst(fs: seq<SszType>, vs: seq<Value>, offset: nat)
    requires fs != [] && AllTyped(vs, fs) && SerializeFields(fs, vs, offset).Ok?
    ensures Placed(SerializeFields(fs, vs, offset).value, fs, vs, offset, 0)
  {
    hide HasType, Size, IsFixed, Serialize, SerializeFields, TailSize, SlotStart, TailBefore, LiesAt, ToLE;
    FieldStep(fs, vs, offset);
    NoStart(fs, vs);
    var body := Serialize(fs[0], vs[0]).value;
    var rest := SerializeFields(fs[1..], vs[1..], if IsFixed(fs[0]) then offset else offset + |body|).value;
    LiesFirst(body, rest.head);
    LiesFirst(ToLE(offset, OFFSET_WIDTH), rest.head);
    LiesFirst(body, rest.tail);
  }

  /** The first field of a row in front of the placed rest. */
  lemma PlacedStep(fs: seq<SszType>, vs: seq<Value>, offset: nat, i: nat, slot: ByteString, payload: ByteString,
                   rest: Parts)
    requires AllTyped(vs, fs) && 0 < i < |fs|
    requires HasType(vs[0], fs[0]) && AllTyped(vs[1..], fs[1..])
    requires |slot| == SlotWidth(fs[0]) && |payload| == if IsFixed(fs[0]) then 0 else Size(fs[0], vs[0])
    requires Placed(rest, fs[1..], vs[1..], offset + |payload|, i - 1)
    ensures Placed(Parts(slot + rest.head, payload + rest.tail), fs, vs, offset, i)
  {
    hide HasType, Size, IsFixed, Serialize, SerializeFields, TailSize, SlotStart, TailBefore, LiesAt, ToLE, SlotWidth;
    StartsStep(fs, vs, i);
    var body := Serialize(fs[i], vs[i]).value;
    assert fs[i] == fs[1..][i - 1] && vs[i] == vs[1..][i - 1];
    var at := SlotStart(fs[1..], i - 1);
    if IsFixed(fs[i]) {
      LiesBehind(slot, rest.head, at, body);
    } else {
      var before := TailBefore(fs[1..], vs[1..], i - 1);
      LiesBehind(slot, rest.head, at, ToLE(offset + |payload| + before, OFFSET_WIDTH));
      LiesBehind(payload, rest.tail, before, body);
    }
  }

  lemma {:induction false} FieldPlaced(fs: seq<SszType>, vs: seq<Value>, offset: nat, i: nat)
    requires AllTyped(vs, fs) && i < |fs| && SerializeFields(fs, vs, offset).Ok?
    ensures Placed(SerializeFields(fs, vs, offset).value, fs, vs, offset, i)
    decreases |fs|
  {
    hide *;
    if i == 0 {
      PlacedFirst(fs, vs, offset);
    } else {
      FieldStep(fs, vs, offset);
      SizeLaw(fs[0], vs[0]);
      SlotIs(fs[0], vs[0], offset);
      var body := Serialize(fs[0], vs[0]).value;
      if IsFixed(fs[0]) {
        var rest := SerializeFields(fs[1..], vs[1..], offset).value;
        FieldPlaced(fs[1..], vs[1..], offset, i - 1);
        PlacedStep(fs, vs, offset, i, body, [], rest);
        assert [] + rest.tail == rest.tail;
      } else {
        var rest := SerializeFields(fs[1..], vs[1..], offset + |body|).value;
        FieldPlaced(fs[1..], vs[1..], offset + |body|, i - 1);
        PlacedStep(fs, vs, offset, i, ToLE(offset, OFFSET_WIDTH), body, rest);
      }
    }
  }

  lemma SlotIs(t: SszType, v: Value, offset: nat)
    requires HasType(v, t)
    ensures IsFixed(t) ==> Serialize(t, v).Ok? && |Serialize(t, v).value| == SlotWidth(t)
    ensures !IsFixed(t) ==> |ToLE(offset, OFFSET_WIDTH)| == SlotWidth(t)
  {
    hide IsFixed, HasType, Serialize, Width;
    if IsFixed(t) {
      FixedWidth(t, v);
    }
  }

  /**
   In the encoding of a vector, list or container, every fixed-size field lies in its slot, and the slot of every
   variable-size one holds, in four bytes, the position at which it lies: right behind the slots for the first
   of them, and behind the one before for each other.
   */
  lemma Layout(t: SszType, v: Value, i: nat)
    requires !IsLeaf(t) && HasType(v, t) && Serialize(t, v).Ok? && i < |v.elems|
    ensures AllTyped(v.elems, FieldsOf(t, |v.elems|))
    ensures var fs := FieldsOf(t, |v.elems|);
      var s := Serialize(t, v).value;
      && Serialize(fs[i], v.elems[i]).Ok?
      && var body := Serialize(fs[i], v.elems[i]).value;
         var at := HeadWidth(fs[..i]);
         if IsFixed(fs[i]) then LiesAt(s, at, body)
         else
           var start := HeadWidth(fs) + TailBefore(fs, v.elems, i);
           at + 4 <= |s| && FromLE(s[at..at + 4]) == start && LiesAt(s, start, body)
  {
    hide *;
    CompositeSize(t, v);
    var fs := FieldsOf(t, |v.elems|);
    TypedLength(fs, v.elems);
    HeadAndTail(fs, v.elems, HeadWidth(fs));
    FieldPlaced(fs, v.elems, HeadWidth(fs), i);
    var parts := SerializeFields(fs, v.elems, HeadWidth(fs)).value;
    Unplace(parts, fs, v.elems, i);
  }

  lemma TypedLength(fs: seq<SszType>, vs: seq<Value>)
    requires AllTyped(vs, fs)
    ensures |vs| == |fs|
  {
  }

  lemma Unplace(parts: Parts, fs: seq<SszType>, vs: seq<Value>, i: nat)
    requires AllTyped(vs, fs) && i < |fs| && |parts.head| == HeadWidth(fs)
    requires Placed(parts, fs, vs, HeadWidth(fs), i)
    ensures var s := parts.head + parts.tail;
      && Serialize(fs[i], vs[i]).Ok?
      && var body := Serialize(fs[i], vs[i]).value;
         var at := HeadWidth(fs[..i]);
         if IsFixed(fs[i]) then LiesAt(s, at, body)
         else
           var start := HeadWidth(fs) + TailBefore(fs, vs, i);
           at + 4 <= |s| && FromLE(s[at..at + 4]) == start && LiesAt(s, start, body)
  {
    hide HasType, Size, IsFixed, Serialize, TailBefore, ToLE, FromLE, HeadWidth, Pow256;
    var s := parts.head + parts.tail;
    var body := Serialize(fs[i], vs[i]).value;
    var at := HeadWidth(fs[..i]);
    if IsFixed(fs[i]) {
      LiesInFront(parts.head, parts.tail, at, body);
    } else {
      var start := HeadWidth(fs) + TailBefore(fs, vs, i);
      LiesInFront(parts.head, parts.tail, at, ToLE(start, OFFSET_WIDTH));
      LiesBehind(parts.head, parts.tail, TailBefore(fs, vs, i), body);
      FourBytes();
      FromToLE(start, 4);
    }
  }

  lemma FourBytes()
    ensures Pow256(4) == OFFSET_LIMIT
  {
    assert Pow256(2) == 65536;
  }
}

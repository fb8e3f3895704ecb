/**
 serialize as the source performs it: fields written to a stream, payloads staged in a buffer
 (src/lean_spec/spec/ssz/collections.py, container.py, ssz_base.py).
 */
module SszWriter {
  import opened Bytes
  import opened ByteStreams
  import opened SszTypes
  import opened SszCodec
  import SszRoundTrip
  import opened SszSize

  /** Either both fail, or the bytes were appended and their number returned. */
  ghost predicate Wrote(before: ByteString, after: ByteString, r: SszResult<nat>, bytes: SszResult<ByteString>)
  {
    r.Ok? == bytes.Ok? && (bytes.Ok? ==> r.value == |bytes.value| && after == before + bytes.value)
  }

  /** The encoding of a row of fields. */
  ghost function Row(fs: seq<SszType>, vs: seq<Value>): SszResult<ByteString>
    requires AllTyped(vs, fs)
  {
    match SerializeFields(fs, vs, HeadWidth(fs))
    case Err(e) => Err(e)
    case Ok(parts) => Ok(parts.head + parts.tail)
  }

  /** What was written so far, followed by the parts of the remaining fields. */
  ghost function Join(done: Parts, rest: SszResult<Parts>): SszResult<Parts>
  {
    match rest
    case Err(e) => Err(e)
    case Ok(more) => Ok(Parts(done.head + more.head, done.tail + more.tail))
  }

  /** The parts of the fields from i on. */
  ghost function From(fs: seq<SszType>, vs: seq<Value>, i: nat, offset: nat): SszResult<Parts>
    requires AllTyped(vs, fs) && i <= |fs|
  {
    SerializeFields(fs[i..], vs[i..], offset)
  }

  lemma FromStart(fs: seq<SszType>, vs: seq<Value>, offset: nat)
    requires AllTyped(vs, fs)
    ensures Join(Parts([], []), From(fs, vs, 0, offset)) == SerializeFields(fs, vs, offset)
  {
    hide SerializeFields, AllTyped;
    assert fs[0..] == fs && vs[0..] == vs;
    var all := SerializeFields(fs, vs, offset);
    if all.Ok? {
      assert [] + all.value.head == all.value.head && [] + all.value.tail == all.value.tail;
    }
  }

  lemma FromEnd(fs: seq<SszType>, vs: seq<Value>, done: Parts, offset: nat)
    requires AllTyped(vs, fs)
    ensures Join(done, From(fs, vs, |fs|, offset)) == Ok(done)
  {
    assert done.head + [] == done.head && done.tail + [] == done.tail;
  }

  lemma FixedStep(fs: seq<SszType>, vs: seq<Value>, i: nat, offset: nat, done: Parts)
    requires AllTyped(vs, fs) && i < |fs| && IsFixed(fs[i])
    ensures HasType(vs[i], fs[i]) && Depth(fs[i]) <= MaxDepth(fs)
    ensures Serialize(fs[i], vs[i]).Ok?
    ensures Join(done, From(fs, vs, i, offset)) ==
            Join(Parts(done.head + Serialize(fs[i], vs[i]).value, done.tail), From(fs, vs, i + 1, offset))
  {
    hide Serialize, SerializeFields, HasType, IsFixed, MaxDepth, Depth;
    DepthAt(fs, i);
    SszRoundTrip.FixedWidth(fs[i], vs[i]);
    FieldStep(fs[i..], vs[i..], offset);
    assert fs[i..][1..] == fs[i + 1..] && vs[i..][1..] == vs[i + 1..];
    var rest := From(fs, vs, i + 1, offset);
    if rest.Ok? {
      assert done.head + (Serialize(fs[i], vs[i]).value + rest.value.head) ==
             done.head + Serialize(fs[i], vs[i]).value + rest.value.head;
    }
  }

  lemma DepthAt(fs: seq<SszType>, i: nat)
    requires i < |fs|
    ensures Depth(fs[i]) <= MaxDepth(fs)
  {
    assert fs[i] in fs;
  }

  lemma VariableStep(fs: seq<SszType>, vs: seq<Value>, i: nat, offset: nat, done: Parts)
    requires AllTyped(vs, fs) && i < |fs| && !IsFixed(fs[i])
    ensures HasType(vs[i], fs[i]) && Depth(fs[i]) <= MaxDepth(fs)
    ensures offset >= OFFSET_LIMIT || Serialize(fs[i], vs[i]).Err? ==> Join(done, From(fs, vs, i, offset)).Err?
    ensures offset < OFFSET_LIMIT && Serialize(fs[i], vs[i]).Ok? ==>
      var body := Serialize(fs[i], vs[i]).value;
      Join(done, From(fs, vs, i, offset)) ==
      Join(Parts(done.head + ToLE(offset, OFFSET_WIDTH), done.tail + body), From(fs, vs, i + 1, offset + |body|))
  {
    hide Serialize, SerializeFields, HasType, IsFixed, MaxDepth, Depth, ToLE;
    DepthAt(fs, i);
    FieldStep(fs[i..], vs[i..], offset);
    assert fs[i..][1..] == fs[i + 1..] && vs[i..][1..] == vs[i + 1..];
    if offset < OFFSET_LIMIT && Serialize(fs[i], vs[i]).Ok? {
      var body := Serialize(fs[i], vs[i]).value;
      var rest := From(fs, vs, i + 1, offset + |body|);
      if rest.Ok? {
        assert done.head + (ToLE(offset, OFFSET_WIDTH) + rest.value.head) ==
          done.head + ToLE(offset, OFFSET_WIDTH) + rest.value.head;
        assert done.tail + (body + rest.value.tail) == done.tail + body + rest.value.tail;
      }
    }
  }

  /** The parts written have the declared leading width. */
  lemma RowLength(fs: seq<SszType>, vs: seq<Value>, done: Parts)
    requires AllTyped(vs, fs) && SerializeFields(fs, vs, HeadWidth(fs)) == Ok(done)
    ensures |done.head| == HeadWidth(fs)
    ensures Row(fs, vs) == Ok(done.head + done.tail)
  {
    SszRoundTrip.HeadAndTail(fs, vs, HeadWidth(fs));
  }

  lemma RowOf(t: SszType, v: Value)
    requires !IsLeaf(t) && HasType(v, t)
    ensures v.SeqV? && AllTyped(v.elems, FieldsOf(t, |v.elems|)) && MaxDepth(FieldsOf(t, |v.elems|)) < Depth(t)
    ensures Serialize(t, v) == Row(FieldsOf(t, |v.elems|), v.elems)
  {
    hide *;
    CompositeSize(t, v);
    RowUnfold(FieldsOf(t, |v.elems|), v.elems);
  }

  lemma RowUnfold(fs: seq<SszType>, vs: seq<Value>)
    requires AllTyped(vs, fs)
    ensures Row(fs, vs) == match SerializeFields(fs, vs, HeadWidth(fs))
                           case Err(e) => Err(e)
                           case Ok(parts) => Ok(parts.head + parts.tail)
  {
  }

  /** serialize of every type. */
  method SerializeTo(t: SszType, v: Value, out: ByteStream) returns (r: SszResult<nat>)
    requires HasType(v, t)
    modifies out`data
    ensures Wrote(old(out.data), out.data, r, Serialize(t, v))
    decreases Depth(t), 0
  {
    hide Serialize, SerializeFields, HasType, Depth, MaxDepth, Row, HeadWidth, AllTyped, IsFixed, EncodeLeaf;
    if IsLeaf(t) {
      LeafSerializes(t, v);
      var bytes := EncodeLeaf(t, v);
      out.Write(bytes);
      return Ok(|bytes|);
    }
    RowOf(t, v);
    if t.ContainerT? {
      r := WriteContainer(t.fields, v.elems, out);
    } else if IsFixed(t.elem) {
      VectorRow(t, v);
      r := WriteFixed(t.elem, v.elems, out);
    } else {
      VectorRow(t, v);
      r := WritePayload(t.elem, v.elems, out);
    }
  }

  lemma VectorRow(t: SszType, v: Value)
    requires (t.VectorT? || t.ListT?) && HasType(v, t)
    ensures v.SeqV? && FieldsOf(t, |v.elems|) == Repeat(t.elem, |v.elems|)
  {
  }

  /** Fixed-size elements back to back; the count is the sum of theirs. */
  method WriteFixed(e: SszType, vs: seq<Value>, out: ByteStream) returns (r: SszResult<nat>)
    requires AllTyped(vs, Repeat(e, |vs|)) && IsFixed(e)
    modifies out`data
    ensures Wrote(old(out.data), out.data, r, Row(Repeat(e, |vs|), vs))
    decreases MaxDepth(Repeat(e, |vs|)), 1
  {
    hide *;
    ghost var fs := RepeatOf(e, |vs|);
    var total := 0;
    ghost var done := Parts([], []);
    FromStart(fs, vs, HeadWidth(fs));
    for i := 0 to |vs|
      invariant SerializeFields(fs, vs, HeadWidth(fs)) == Join(done, From(fs, vs, i, HeadWidth(fs)))
      invariant out.data == old(out.data) + done.head && done.tail == [] && total == |done.head|
    {
      FixedStep(fs, vs, i, HeadWidth(fs), done);
      var n := SerializeTo(e, vs[i], out);
      WroteOk(old(out.data) + done.head, out.data, n, Serialize(e, vs[i]));
      done := Parts(done.head + Serialize(e, vs[i]).value, []);
      total := total + n.value;
    }
    FromEnd(fs, vs, done, HeadWidth(fs));
    RowLength(fs, vs, done);
    assert done.head + [] == done.head;
    WroteRow(old(out.data), out.data, total, done.head);
    return Ok(total);
  }

  ghost function RepeatOf(e: SszType, n: nat): (fs: seq<SszType>)
    ensures fs == Repeat(e, n) && |fs| == n && forall i | 0 <= i < n :: fs[i] == e
  {
    Repeat(e, n)
  }

  lemma WroteOk(before: ByteString, after: ByteString, r: SszResult<nat>, bytes: SszResult<ByteString>)
    requires Wrote(before, after, r, bytes)
    ensures r.Ok? == bytes.Ok?
    ensures bytes.Ok? ==> r.value == |bytes.value| && after == before + bytes.value
  {
  }

  lemma WroteRow(before: ByteString, after: ByteString, n: nat, bytes: ByteString)
    requires after == before + bytes && n == |bytes|
    ensures Wrote(before, after, Ok(n), Ok(bytes))
  {
  }

  lemma WroteNothing(before: ByteString, after: ByteString, bytes: SszResult<ByteString>)
    requires bytes.Err?
    ensures Wrote(before, after, Err(SszError), bytes)
  {
  }

  /** _write_variable_payload: the offset table, then the buffered bodies. */
  method WritePayload(e: SszType, vs: seq<Value>, out: ByteStream) returns (r: SszResult<nat>)
    requires AllTyped(vs, Repeat(e, |vs|)) && !IsFixed(e)
    modifies out`data
    ensures Wrote(old(out.data), out.data, r, Row(Repeat(e, |vs|), vs))
    decreases MaxDepth(Repeat(e, |vs|)), 1
  {
    hide *;
    ghost var fs := RepeatOf(e, |vs|);
    OffsetTable(e, |vs|);
    var bodies := new ByteStream([]);
    var offset: nat := 4 * |vs|;
    ghost var done := Parts([], []);
    FromStart(fs, vs, offset);
    for i := 0 to |vs|
      invariant SerializeFields(fs, vs, HeadWidth(fs)) == Join(done, From(fs, vs, i, offset))
      invariant out.data == old(out.data) + done.head && bodies.data == done.tail &&
        offset == HeadWidth(fs) + |done.tail|
      invariant fresh(bodies)
    {
      VariableStep(fs, vs, i, offset, done);
      RowFails(fs, vs);
      if offset >= 0x1_0000_0000 {
        WroteNothing(old(out.data), out.data, Row(fs, vs));
        return Err(SszError);
      }
      out.Write(ToLE(offset, 4));
      var n := SerializeTo(e, vs[i], bodies);
      WroteOk(done.tail, bodies.data, n, Serialize(e, vs[i]));
      if n.Err? {
        WroteNothing(old(out.data), out.data, Row(fs, vs));
        return Err(SszError);
      }
      done := Parts(done.head + ToLE(offset, OFFSET_WIDTH), done.tail + Serialize(e, vs[i]).value);
      offset := offset + n.value;
    }
    out.Write(bodies.data);
    FromEnd(fs, vs, done, offset);
    RowLength(fs, vs, done);
    WroteRow(old(out.data), out.data, offset, done.head + done.tail);
    return Ok(offset);
  }

  lemma OffsetTable(e: SszType, n: nat)
    requires !IsFixed(e)
    ensures HeadWidth(Repeat(e, n)) == 4 * n && OFFSET_WIDTH == 4 && OFFSET_LIMIT == 0x1_0000_0000
  {
    RepeatHeadWidth(e, n);
  }

  lemma RowFails(fs: seq<SszType>, vs: seq<Value>)
    requires AllTyped(vs, fs)
    ensures SerializeFields(fs, vs, HeadWidth(fs)).Err? ==> Row(fs, vs).Err?
    ensures OFFSET_WIDTH == 4 && OFFSET_LIMIT == 0x1_0000_0000
  {
  }

  /** Container.serialize: the leading part to the stream, the payloads to a tail that follows it. */
  method WriteContainer(fs: seq<SszType>, vs: seq<Value>, out: ByteStream) returns (r: SszResult<nat>)
    requires AllTyped(vs, fs)
    modifies out`data
    ensures Wrote(old(out.data), out.data, r, Row(fs, vs))
    decreases MaxDepth(fs), 1
  {
    hide *;
    SameCount(vs, fs);
    var offset := HeadWidth(fs);
    var tail := new ByteStream([]);
    ghost var done := Parts([], []);
    FromStart(fs, vs, offset);
    for i := 0 to |fs|
      invariant SerializeFields(fs, vs, HeadWidth(fs)) == Join(done, From(fs, vs, i, offset))
      invariant out.data == old(out.data) + done.head && tail.data == done.tail && offset == HeadWidth(fs) + |done.tail|
      invariant fresh(tail)
    {
      RowFails(fs, vs);
      if IsFixed(fs[i]) {
        FixedStep(fs, vs, i, offset, done);
        var n := SerializeTo(fs[i], vs[i], out);
        WroteOk(old(out.data) + done.head, out.data, n, Serialize(fs[i], vs[i]));
        done := Parts(done.head + Serialize(fs[i], vs[i]).value, done.tail);
      } else {
        VariableStep(fs, vs, i, offset, done);
        if offset >= 0x1_0000_0000 {
          WroteNothing(old(out.data), out.data, Row(fs, vs));
          return Err(SszError);
        }
        out.Write(ToLE(offset, 4));
        var n := SerializeTo(fs[i], vs[i], tail);
        WroteOk(done.tail, tail.data, n, Serialize(fs[i], vs[i]));
        if n.Err? {
          WroteNothing(old(out.data), out.data, Row(fs, vs));
          return Err(SszError);
        }
        done := Parts(done.head + ToLE(offset, OFFSET_WIDTH), done.tail + Serialize(fs[i], vs[i]).value);
        offset := offset + n.value;
      }
    }
    out.Write(tail.data);
    FromEnd(fs, vs, done, offset);
    RowLength(fs, vs, done);
    WroteRow(old(out.data), out.data, offset, done.head + done.tail);
    return Ok(offset);
  }

  lemma SameCount(vs: seq<Value>, fs: seq<SszType>)
    requires AllTyped(vs, fs)
    ensures |vs| == |fs|
  {
  }

  /** encode_bytes. */
  method EncodeBytes(t: SszType, v: Value) returns (r: SszResult<ByteString>)
    requires HasType(v, t)
    ensures r == Serialize(t, v)
  {
    hide Serialize;
    var stream := new ByteStream([]);
    var n := SerializeTo(t, v, stream);
    if n.Err? {
      OneError(Serialize(t, v).error);
      return Err(SszError);
    }
    assert [] + Serialize(t, v).value == Serialize(t, v).value;
    return Ok(stream.data);
  }

  lemma OneError(e: SszError)
    ensures e == SszError
  {
    match e
    case SszError =>
  }
}

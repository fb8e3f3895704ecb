/**
 SSZ canonicality: a byte string accepted at top level is the serialization of the value it
 decodes to.  Payloads are read one after another from a shared cursor, so the argument is
 global: no reader consumes less than its scope, hence none consumes more either.
 */
module SszCanonical {
  import opened Bytes
  import opened Bits
  import opened SszTypes
  import opened SszCodec
  import opened SszRows
  import SszRoundTrip
  import opened SszSize

  // ---- one unfolding of each row reader ----

  lemma ReadHeadUnfold(fs: seq<SszType>, data: ByteString, pos: nat)
    requires fs != [] && pos <= |data| && AllWellFormed(fs) && ReadHead(fs, data, pos).Ok?
    ensures WellFormed(fs[0]) && AllWellFormed(fs[1..])
    ensures var head := ReadHead(fs, data, pos).value;
      && |head.value| == |fs|
      && var mid := if IsFixed(fs[0]) then Deserialize(fs[0], data, pos, Width(fs[0])) else Err(SszError);
      && (IsFixed(fs[0]) ==>
            && mid.Ok? && head.value[0] == Inline(mid.value.value)
            && ReadHead(fs[1..], data, mid.value.next) == Ok(Read(head.value[1..], head.next)))
      && (!IsFixed(fs[0]) ==>
            && pos + OFFSET_WIDTH <= |data| && head.value[0] == Offset(FromLE(data[pos..pos + OFFSET_WIDTH]))
            && ReadHead(fs[1..], data, pos + OFFSET_WIDTH) == Ok(Read(head.value[1..], head.next)))
  {
    hide ReadHead, Deserialize, WellFormed, IsFixed, Width, FromLE;
    HeadStep(fs, data, pos);
  }

  lemma ReadTailUnfold(fs: seq<SszType>, slots: seq<Slot>, scope: nat, data: ByteString, pos: nat)
    requires fs != [] && |slots| == |fs| && pos <= |data| && AllWellFormed(fs)
    requires ReadTail(fs, slots, scope, data, pos).Ok?
    ensures WellFormed(fs[0]) && AllWellFormed(fs[1..])
    ensures var tail := ReadTail(fs, slots, scope, data, pos).value;
      && |tail.value| == |fs|
      && var end := NextStart(slots[1..], scope);
      && (slots[0].Inline? ==>
            && tail.value[0] == slots[0].value
            && ReadTail(fs[1..], slots[1..], scope, data, pos) == Ok(Read(tail.value[1..], tail.next)))
      && (slots[0].Offset? ==>
            && slots[0].start <= end
            && var body := Deserialize(fs[0], data, pos, end - slots[0].start);
            && body.Ok? && tail.value[0] == body.value.value
            && ReadTail(fs[1..], slots[1..], scope, data, body.value.next) == Ok(Read(tail.value[1..], tail.next)))
  {
    hide ReadTail, Deserialize, WellFormed;
    TailStep(fs, slots, scope, data, pos);
  }

  lemma NextStartUnfold(slots: seq<Slot>, scope: nat)
    ensures slots == [] ==> NextStart(slots, scope) == scope
    ensures slots != [] ==>
      NextStart(slots, scope) == if slots[0].Offset? then slots[0].start else NextStart(slots[1..], scope)
  {
  }

  lemma HeadWidthUnfold(fs: seq<SszType>)
    ensures OFFSET_WIDTH == 4
    ensures fs == [] ==> HeadWidth(fs) == 0
    ensures fs != [] ==>
      HeadWidth(fs) == (if IsFixed(fs[0]) then Width(fs[0]) else OFFSET_WIDTH) + HeadWidth(fs[1..])
  {
    hide IsFixed, Width;
  }

  lemma EmptyRowReads(data: ByteString, pos: nat, scope: nat)
    requires pos <= |data|
    ensures ReadHead([], data, pos) == Ok(Read([], pos))
    ensures ReadTail([], [], scope, data, pos) == Ok(Read([], pos))
  {
    HeadEnd(data, pos);
    TailEnd(scope, data, pos);
  }

  ghost predicate SlotsMatch(fs: seq<SszType>, slots: seq<Slot>)
  {
    |slots| == |fs| && forall i | 0 <= i < |fs| :: slots[i].Inline? == IsFixed(fs[i])
  }

  lemma SlotsMatchTail(fs: seq<SszType>, slots: seq<Slot>)
    requires SlotsMatch(fs, slots) && fs != []
    ensures |slots| == |fs| && slots[0].Inline? == IsFixed(fs[0]) && SlotsMatch(fs[1..], slots[1..])
  {
    hide IsFixed;
  }

  // ---- no reader consumes less than its scope ----

  lemma {:induction false} HeadConsumes(fs: seq<SszType>, data: ByteString, pos: nat)
    requires pos <= |data| && AllWellFormed(fs) && ReadHead(fs, data, pos).Ok?
    ensures ReadHead(fs, data, pos).value.next == pos + HeadWidth(fs)
    decreases MaxDepth(fs), 2, |fs|
  {
    hide *;
    HeadWidthUnfold(fs);
    if fs == [] {
      EmptyRowReads(data, pos, 0);
    } else {
      TailIsShallower(fs);
      ReadHeadUnfold(fs, data, pos);
      if IsFixed(fs[0]) {
        Consumes(fs[0], data, pos, Width(fs[0]));
        HeadConsumes(fs[1..], data, pos + Width(fs[0]));
      } else {
        HeadConsumes(fs[1..], data, pos + OFFSET_WIDTH);
      }
    }
  }

  lemma {:induction false} TailConsumes(fs: seq<SszType>, slots: seq<Slot>, scope: nat, data: ByteString, pos: nat)
    requires SlotsMatch(fs, slots) && |slots| == |fs| && pos <= |data| && AllWellFormed(fs)
    requires ReadTail(fs, slots, scope, data, pos).Ok?
    ensures NextStart(slots, scope) <= scope
    ensures ReadTail(fs, slots, scope, data, pos).value.next - pos >= scope - NextStart(slots, scope)
    ensures AllFixed(fs) ==>
      NextStart(slots, scope) == scope && ReadTail(fs, slots, scope, data, pos).value.next == pos
    decreases MaxDepth(fs), 2, |fs|
  {
    hide *;
    NextStartUnfold(slots, scope);
    if fs == [] {
      EmptyRowReads(data, pos, scope);
    } else {
      TailIsShallower(fs);
      SlotsMatchTail(fs, slots);
      ReadTailUnfold(fs, slots, scope, data, pos);
      AllFixedUnfold(fs);
      if IsFixed(fs[0]) {
        TailConsumes(fs[1..], slots[1..], scope, data, pos);
      } else {
        var span := NextStart(slots[1..], scope) - slots[0].start;
        Consumes(fs[0], data, pos, span);
        TailConsumes(fs[1..], slots[1..], scope, data, Deserialize(fs[0], data, pos, span).value.next);
      }
    }
  }

  lemma AllFixedUnfold(fs: seq<SszType>)
    requires fs != []
    ensures AllFixed(fs) <==> IsFixed(fs[0]) && AllFixed(fs[1..])
  {
    hide IsFixed;
    assert fs == [fs[0]] + fs[1..];
  }

  lemma ReadFieldsUnfold(fs: seq<SszType>, data: ByteString, pos: nat, scope: nat)
    requires pos <= |data| && AllWellFormed(fs) && ReadFields(fs, data, pos, scope).Ok?
    ensures ReadHead(fs, data, pos).Ok?
    ensures var head := ReadHead(fs, data, pos).value;
      && SlotsMatch(fs, head.value) && |head.value| == |fs|
      && (!AllFixed(fs) ==> NextStart(head.value, scope) == HeadWidth(fs))
      && ReadTail(fs, head.value, scope, data, head.next) == ReadFields(fs, data, pos, scope)
  {
    hide ReadHead, ReadTail, IsFixed, WellFormed;
  }

  lemma FieldsConsume(fs: seq<SszType>, data: ByteString, pos: nat, scope: nat)
    requires pos <= |data| && AllWellFormed(fs) && ReadFields(fs, data, pos, scope).Ok?
    ensures var next := ReadFields(fs, data, pos, scope).value.next;
      if AllFixed(fs) then next == pos + HeadWidth(fs) else next >= pos + scope
    decreases MaxDepth(fs), 3, 0
  {
    hide *;
    ReadFieldsUnfold(fs, data, pos, scope);
    var head := ReadHead(fs, data, pos).value;
    HeadConsumes(fs, data, pos);
    TailConsumes(fs, head.value, scope, data, head.next);
  }

  /** The number of fields that a composite read goes through. */
  ghost function RowCount(t: SszType, data: ByteString, pos: nat, scope: nat): nat
    requires !IsLeaf(t)
  {
    match t
    case VectorT(_, n) => n
    case ContainerT(_) => 0
    case ListT(e, _) =>
      if IsFixed(e) then (if Width(e) == 0 then 0 else scope / Width(e))
      else if pos + OFFSET_WIDTH <= |data| then FromLE(data[pos..pos + OFFSET_WIDTH]) / OFFSET_WIDTH
      else 0
  }

  /** How a successful composite read was reached, and what it read. */
  lemma CompositeUnfold(t: SszType, data: ByteString, pos: nat, scope: nat) returns (count: nat)
    requires !IsLeaf(t) && pos <= |data| && WellFormed(t) && Deserialize(t, data, pos, scope).Ok?
    requires !ZeroOffset(t, data, pos, scope) && !(t.ListT? && scope == 0)
    ensures count == RowCount(t, data, pos, scope)
    ensures AllWellFormed(FieldsOf(t, count))
    ensures ReadFields(FieldsOf(t, count), data, pos, scope).Ok?
    ensures var got := ReadFields(FieldsOf(t, count), data, pos, scope).value;
      Deserialize(t, data, pos, scope) == Ok(Read(SeqV(got.value), got.next))
    ensures AllFixed(FieldsOf(t, count)) ==>
      (IsFixed(t) && HeadWidth(FieldsOf(t, count)) == Width(t)) ||
      (!IsFixed(t) && HeadWidth(FieldsOf(t, count)) == scope)
    ensures !AllFixed(FieldsOf(t, count)) ==> !IsFixed(t)
    ensures t.VectorT? ==> count == t.length
    ensures t.ListT? ==> count <= t.limit
  {
    hide ReadFields, FromLE, Depth, MaxDepth;
    match t
    case VectorT(e, n) =>
      count := n;
      RepeatHeadWidth(e, n);
      assert n > 0 ==> FieldsOf(t, count)[0] == e;
    case ContainerT(fs) =>
      count := 0;
    case ListT(e, limit) =>
      if IsFixed(e) {
        count := scope / Width(e);
        Multiple(scope, Width(e));
      } else {
        count := FromLE(data[pos..pos + OFFSET_WIDTH]) / OFFSET_WIDTH;
        assert FieldsOf(t, count)[0] == e;
      }
      RepeatHeadWidth(e, count);
  }

  lemma Multiple(n: nat, d: nat)
    requires d > 0 && n % d == 0
    ensures d * (n / d) == n
  {
  }

  /** The list decoder is about to take its zero-first-offset path. */
  ghost predicate ZeroOffset(t: SszType, data: ByteString, pos: nat, scope: nat)
  {
    && t.ListT? && !IsFixed(t.elem) && scope >= OFFSET_WIDTH && pos + OFFSET_WIDTH <= |data|
    && FromLE(data[pos..pos + OFFSET_WIDTH]) == 0
  }

  lemma ZeroOffsetUnfold(t: SszType, data: ByteString, pos: nat, scope: nat)
    requires pos <= |data| && WellFormed(t) && Deserialize(t, data, pos, scope).Ok? && ZeroOffset(t, data, pos, scope)
    ensures WellFormed(t.elem) && !IsFixed(t.elem) && Depth(t.elem) < Depth(t) && !IsLeaf(t)
    ensures Deserialize(t.elem, data, pos + OFFSET_WIDTH, scope).Ok?
    ensures Deserialize(t, data, pos, scope).value.next ==
      Deserialize(t.elem, data, pos + OFFSET_WIDTH, scope).value.next
  {
    hide ReadComposite, FromLE, MaxDepth;
  }

  lemma EmptyListUnfold(t: SszType, data: ByteString, pos: nat)
    requires pos <= |data| && WellFormed(t) && t.ListT?
    ensures Deserialize(t, data, pos, 0) == Ok(Read(SeqV([]), pos))
    ensures !IsLeaf(t) && !IsFixed(t) && HasType(SeqV([]), t)
    ensures Serialize(t, SeqV([])) == Ok([])
  {
    ListEmptyCase(t, data, pos);
    SszRoundTrip.EmptyListBytes(t, SeqV([]));
  }

  lemma LeafUnfold(t: SszType, data: ByteString, pos: nat, scope: nat)
    requires IsLeaf(t) && pos <= |data| && WellFormed(t) && Deserialize(t, data, pos, scope).Ok?
    ensures pos + scope <= |data| && Deserialize(t, data, pos, scope).value.next == pos + scope
    ensures IsFixed(t) ==> scope == Width(t)
    ensures DecodeLeaf(t, data[pos..pos + scope]) == Ok(Deserialize(t, data, pos, scope).value.value)
  {
    hide DecodeLeaf, Width;
  }

  /** A fixed-size read consumes its width; a variable-size read consumes at least its scope. */
  lemma {:induction false} Consumes(t: SszType, data: ByteString, pos: nat, scope: nat)
    requires pos <= |data| && WellFormed(t) && Deserialize(t, data, pos, scope).Ok?
    ensures var next := Deserialize(t, data, pos, scope).value.next;
      if IsFixed(t) then next == pos + Width(t) else next >= pos + scope
    decreases Depth(t), 1, 0
  {
    hide *;
    if IsLeaf(t) {
      LeafUnfold(t, data, pos, scope);
    } else if ZeroOffset(t, data, pos, scope) {
      ZeroOffsetConsumes(t, data, pos, scope);
    } else if t.ListT? && scope == 0 {
      EmptyListUnfold(t, data, pos);
    } else {
      var count := CompositeUnfold(t, data, pos, scope);
      FieldsAreShallower(t, count);
      FieldsConsume(FieldsOf(t, count), data, pos, scope);
    }
  }

  /** The zero-first-offset path overruns its scope. */
  lemma {:induction false} ZeroOffsetConsumes(t: SszType, data: ByteString, pos: nat, scope: nat)
    requires pos <= |data| && WellFormed(t) && Deserialize(t, data, pos, scope).Ok? && ZeroOffset(t, data, pos, scope)
    ensures !IsFixed(t) && Deserialize(t, data, pos, scope).value.next > pos + scope
    decreases Depth(t), 0
  {
    assert !IsFixed(t);
    ZeroOffsetUnfold(t, data, pos, scope);
    Consumes(t.elem, data, pos + OFFSET_WIDTH, scope);
  }

  // ---- an exact read re-encodes to the bytes it read ----

  lemma LeafCanonical(t: SszType, s: ByteString)
    requires IsLeaf(t) && DecodeLeaf(t, s).Ok?
    ensures HasType(DecodeLeaf(t, s).value, t)
    ensures EncodeLeaf(t, DecodeLeaf(t, s).value) == s
  {
    match t
    case UintT(w) => FromLEBound(s); ToFromLE(s);
    case BooleanT => assert s == [s[0]];
    case BitvectorT(n) => BitvectorCanonical(n, s);
    case BitlistT(n) => BitlistCanonical(n, s);
    case _ =>
  }

  lemma OffsetReencodes(s: ByteString)
    requires |s| == OFFSET_WIDTH
    ensures FromLE(s) < OFFSET_LIMIT && ToLE(FromLE(s), OFFSET_WIDTH) == s
  {
    FromLEBound(s);
    ToFromLE(s);
    assert Pow256(2) == 0x1_0000;
    assert Pow256(OFFSET_WIDTH) == OFFSET_LIMIT;
  }

  /** One folding of the writer. */
  lemma WriteFold(fs: seq<SszType>, vs: seq<Value>, offset: nat, body: ByteString, rest: Parts)
    requires fs != [] && |vs| == |fs| && HasType(vs[0], fs[0]) && AllTyped(vs[1..], fs[1..])
    requires Serialize(fs[0], vs[0]) == Ok(body)
    requires !IsFixed(fs[0]) ==> offset < OFFSET_LIMIT
    requires SerializeFields(fs[1..], vs[1..], if IsFixed(fs[0]) then offset else offset + |body|) == Ok(rest)
    ensures AllTyped(vs, fs)
    ensures SerializeFields(fs, vs, offset) ==
            Ok(if IsFixed(fs[0]) then Parts(body + rest.head, rest.tail)
               else Parts(ToLE(offset, OFFSET_WIDTH) + rest.head, body + rest.tail))
  {
    hide Serialize, HasType, IsFixed, ToLE;
    assert AllTyped(vs, fs) by {
      forall i | 0 <= i < |fs|
        ensures HasType(vs[i], fs[i])
      {
        if i > 0 {
          assert vs[i] == vs[1..][i - 1] && fs[i] == fs[1..][i - 1];
        }
      }
    }
  }

  lemma EmptyRowWrites(offset: nat)
    ensures AllTyped([], []) && SerializeFields([], [], offset) == Ok(Parts([], []))
  {
  }

  lemma SliceJoin(data: ByteString, a: nat, b: nat, c: nat)
    requires a <= b <= c <= |data|
    ensures data[a..b] + data[b..c] == data[a..c]
  {
  }

  /** Head read at h, tail read at pos, and the tail took no more than its spans. */
  lemma {:induction false} RowExact(fs: seq<SszType>, data: ByteString, h: nat, scope: nat, pos: nat)
    requires h <= |data| && pos <= |data| && AllWellFormed(fs) && ReadHead(fs, data, h).Ok?
    requires var slots := ReadHead(fs, data, h).value.value;
      && SlotsMatch(fs, slots) && |slots| == |fs|
      && ReadTail(fs, slots, scope, data, pos).Ok?
      && ReadTail(fs, slots, scope, data, pos).value.next - pos == scope - NextStart(slots, scope)
    ensures var head := ReadHead(fs, data, h).value;
      var tail := ReadTail(fs, head.value, scope, data, pos).value;
      && AllTyped(tail.value, fs)
      && SerializeFields(fs, tail.value, NextStart(head.value, scope)) ==
         Ok(Parts(data[h..head.next], data[pos..tail.next]))
    decreases MaxDepth(fs), 2, |fs|
  {
    hide *;
    var head := ReadHead(fs, data, h).value;
    var slots := head.value;
    var tail := ReadTail(fs, slots, scope, data, pos).value;
    NextStartUnfold(slots, scope);
    HeadWidthUnfold(fs);
    if fs == [] {
      EmptyRowReads(data, pos, scope);
      EmptyRowReads(data, h, scope);
      EmptyRowWrites(NextStart(slots, scope));
    } else {
      TailIsShallower(fs);
      SlotsMatchTail(fs, slots);
      ReadHeadUnfold(fs, data, h);
      ReadTailUnfold(fs, slots, scope, data, pos);
      var w := if IsFixed(fs[0]) then Width(fs[0]) else OFFSET_WIDTH;
      var span := if IsFixed(fs[0]) then 0 else NextStart(slots[1..], scope) - slots[0].start;
      if IsFixed(fs[0]) {
        Consumes(fs[0], data, h, w);
        Exact(fs[0], data, h, w);
      } else {
        Consumes(fs[0], data, pos, span);
        var mid := Deserialize(fs[0], data, pos, span).value.next;
        TailConsumes(fs[1..], slots[1..], scope, data, mid);
        Exact(fs[0], data, pos, span);
        OffsetReencodes(data[h..h + w]);
      }
      RowExact(fs[1..], data, h + w, scope, pos + span);
      SliceJoin(data, h, h + w, head.next);
      SliceJoin(data, pos, pos + span, tail.next);
      WriteFold(fs, tail.value, NextStart(slots, scope),
                if IsFixed(fs[0]) then data[h..h + w] else data[pos..pos + span],
                Parts(data[h + w..head.next], data[pos + span..tail.next]));
    }
  }

  lemma CompositeFold(t: SszType, count: nat, vs: seq<Value>, parts: Parts)
    requires !IsLeaf(t) && WellFormed(t) && AllTyped(vs, FieldsOf(t, count))
    requires t.VectorT? ==> count == t.length
    requires t.ListT? ==> count <= t.limit
    requires SerializeFields(FieldsOf(t, count), vs, HeadWidth(FieldsOf(t, count))) == Ok(parts)
    ensures HasType(SeqV(vs), t) && Serialize(t, SeqV(vs)) == Ok(parts.head + parts.tail)
  {
    hide SerializeFields;
    assert HasType(SeqV(vs), t) by {
      var fs := FieldsOf(t, count);
      if !t.ContainerT? {
        assert forall x | x in vs :: HasType(x, t.elem) by {
          forall x | x in vs
            ensures HasType(x, t.elem)
          {
            var i :| 0 <= i < |vs| && vs[i] == x;
            assert HasType(vs[i], fs[i]);
          }
        }
      }
    }
    assert FieldsOf(t, |vs|) == FieldsOf(t, count);
  }

  /** A read that takes exactly its scope yields a value of the type, whose serialization it read. */
  lemma {:induction false} Exact(t: SszType, data: ByteString, pos: nat, scope: nat)
    requires pos <= |data| && WellFormed(t) && Deserialize(t, data, pos, scope).Ok?
    requires Deserialize(t, data, pos, scope).value.next == pos + scope
    ensures var v := Deserialize(t, data, pos, scope).value.value;
      HasType(v, t) && Serialize(t, v) == Ok(data[pos..pos + scope])
    decreases Depth(t), 0, 0
  {
    hide *;
    if IsLeaf(t) {
      LeafUnfold(t, data, pos, scope);
      LeafCanonical(t, data[pos..pos + scope]);
      LeafSerializes(t, Deserialize(t, data, pos, scope).value.value);
    } else if t.ListT? && scope == 0 {
      EmptyListUnfold(t, data, pos);
      assert data[pos..pos + scope] == [];
    } else {
      if ZeroOffset(t, data, pos, scope) {
        ZeroOffsetConsumes(t, data, pos, scope);
      }
      var count := CompositeUnfold(t, data, pos, scope);
      FieldsAreShallower(t, count);
      RowAtExact(FieldsOf(t, count), data, pos, scope);
      var got := ReadFields(FieldsOf(t, count), data, pos, scope).value;
      var mid := pos + HeadWidth(FieldsOf(t, count));
      CompositeFold(t, count, got.value, Parts(data[pos..mid], data[mid..pos + scope]));
      SliceJoin(data, pos, mid, pos + scope);
    }
  }

  lemma RowAtExact(fs: seq<SszType>, data: ByteString, pos: nat, scope: nat)
    requires pos <= |data| && AllWellFormed(fs) && ReadFields(fs, data, pos, scope).Ok?
    requires ReadFields(fs, data, pos, scope).value.next == pos + scope
    ensures var got := ReadFields(fs, data, pos, scope).value;
      var mid := pos + HeadWidth(fs);
      && AllTyped(got.value, fs) && mid <= pos + scope
      && SerializeFields(fs, got.value, HeadWidth(fs)) == Ok(Parts(data[pos..mid], data[mid..pos + scope]))
    decreases MaxDepth(fs), 3, 0
  {
    hide *;
    ReadFieldsUnfold(fs, data, pos, scope);
    var head := ReadHead(fs, data, pos).value;
    HeadConsumes(fs, data, pos);
    TailConsumes(fs, head.value, scope, data, head.next);
    RowExact(fs, data, pos, scope, head.next);
  }

  // ---- in a stream: exactly the zero first offset makes a read run over ----

  /** The read takes a zero first offset, here or in a nested read. */
  ghost predicate TookZero(t: SszType, data: ByteString, pos: nat, scope: nat)
    requires pos <= |data| && WellFormed(t)
    decreases Depth(t), 1, 0
  {
    if IsLeaf(t) || (t.ListT? && scope == 0) then false
    else if ZeroOffset(t, data, pos, scope) then true
    else
      var fs := FieldsOf(t, RowCount(t, data, pos, scope));
      FieldsAreShallower(t, RowCount(t, data, pos, scope));
      && AllWellFormed(fs) && ReadHead(fs, data, pos).Ok?
      && RowTookZero(fs, ReadHead(fs, data, pos).value.value, scope, data, ReadHead(fs, data, pos).value.next)
  }

  ghost predicate RowTookZero(fs: seq<SszType>, slots: seq<Slot>, scope: nat, data: ByteString, pos: nat)
    requires |slots| == |fs| && pos <= |data| && AllWellFormed(fs)
    decreases MaxDepth(fs), 2, |fs|
  {
    if fs == [] then false
    else
      TailIsShallower(fs);
      if slots[0].Inline? then RowTookZero(fs[1..], slots[1..], scope, data, pos)
      else
        var end := NextStart(slots[1..], scope);
        && end >= slots[0].start
        && (|| TookZero(fs[0], data, pos, end - slots[0].start)
            || (var body := Deserialize(fs[0], data, pos, end - slots[0].start);
                body.Ok? && RowTookZero(fs[1..], slots[1..], scope, data, body.value.next)))
  }

  lemma RowTookZeroUnfold(fs: seq<SszType>, slots: seq<Slot>, scope: nat, data: ByteString, pos: nat)
    requires |slots| == |fs| && pos <= |data| && AllWellFormed(fs)
    ensures fs == [] ==> !RowTookZero(fs, slots, scope, data, pos)
    ensures fs != [] ==> WellFormed(fs[0]) && AllWellFormed(fs[1..])
    ensures fs != [] && slots[0].Inline? ==>
      (RowTookZero(fs, slots, scope, data, pos) <==> RowTookZero(fs[1..], slots[1..], scope, data, pos))
    ensures fs != [] && slots[0].Offset? && NextStart(slots[1..], scope) >= slots[0].start ==>
      var span := NextStart(slots[1..], scope) - slots[0].start;
      Deserialize(fs[0], data, pos, span).Ok? ==>
      (RowTookZero(fs, slots, scope, data, pos) <==>
       TookZero(fs[0], data, pos, span) ||
       RowTookZero(fs[1..], slots[1..], scope, data, Deserialize(fs[0], data, pos, span).value.next))
  {
    hide Deserialize, WellFormed, TookZero, NextStart;
  }

  lemma {:induction false} TailExactly(fs: seq<SszType>, slots: seq<Slot>, scope: nat, data: ByteString, pos: nat)
    requires SlotsMatch(fs, slots) && |slots| == |fs| && pos <= |data| && AllWellFormed(fs)
    requires ReadTail(fs, slots, scope, data, pos).Ok?
    ensures ReadTail(fs, slots, scope, data, pos).value.next - pos == scope - NextStart(slots, scope) <==>
            !RowTookZero(fs, slots, scope, data, pos)
    decreases MaxDepth(fs), 2, |fs|
  {
    hide *;
    NextStartUnfold(slots, scope);
    RowTookZeroUnfold(fs, slots, scope, data, pos);
    if fs == [] {
      EmptyRowReads(data, pos, scope);
    } else {
      TailIsShallower(fs);
      SlotsMatchTail(fs, slots);
      ReadTailUnfold(fs, slots, scope, data, pos);
      if IsFixed(fs[0]) {
        TailExactly(fs[1..], slots[1..], scope, data, pos);
      } else {
        var span := NextStart(slots[1..], scope) - slots[0].start;
        var mid := Deserialize(fs[0], data, pos, span).value.next;
        Consumes(fs[0], data, pos, span);
        TailConsumes(fs[1..], slots[1..], scope, data, mid);
        OverrunExactly(fs[0], data, pos, span);
        TailExactly(fs[1..], slots[1..], scope, data, mid);
      }
    }
  }

  lemma TookZeroUnfold(t: SszType, data: ByteString, pos: nat, scope: nat)
    requires pos <= |data| && WellFormed(t)
    ensures IsLeaf(t) || (t.ListT? && scope == 0) ==> !TookZero(t, data, pos, scope)
    ensures !IsLeaf(t) && !(t.ListT? && scope == 0) && ZeroOffset(t, data, pos, scope) ==> TookZero(t, data, pos, scope)
    ensures !IsLeaf(t) && !(t.ListT? && scope == 0) && !ZeroOffset(t, data, pos, scope) ==>
      var fs := FieldsOf(t, RowCount(t, data, pos, scope));
      AllWellFormed(fs) && ReadHead(fs, data, pos).Ok? ==>
      (TookZero(t, data, pos, scope) <==>
       RowTookZero(fs, ReadHead(fs, data, pos).value.value, scope, data, ReadHead(fs, data, pos).value.next))
  {
    hide ReadHead, RowTookZero, WellFormed, FieldsOf, RowCount, ZeroOffset;
  }

  lemma ZeroOffsetScope(t: SszType, data: ByteString, pos: nat, scope: nat)
    requires ZeroOffset(t, data, pos, scope)
    ensures scope > 0 && !IsLeaf(t)
  {
  }

  /**
   Wherever it happens in a stream, a successful read of a variable-size type ends right behind its scope
   exactly when no zero first offset was taken, here or in a nested read; otherwise it ends later.
   */
  lemma {:induction false} OverrunExactly(t: SszType, data: ByteString, pos: nat, scope: nat)
    requires pos <= |data| && WellFormed(t) && !IsFixed(t) && Deserialize(t, data, pos, scope).Ok?
    ensures Deserialize(t, data, pos, scope).value.next >= pos + scope
    ensures Deserialize(t, data, pos, scope).value.next == pos + scope <==> !TookZero(t, data, pos, scope)
    decreases Depth(t), 0, 0
  {
    hide *;
    Consumes(t, data, pos, scope);
    TookZeroUnfold(t, data, pos, scope);
    if IsLeaf(t) {
      LeafUnfold(t, data, pos, scope);
    } else if ZeroOffset(t, data, pos, scope) {
      ZeroOffsetScope(t, data, pos, scope);
      ZeroOffsetConsumes(t, data, pos, scope);
    } else if t.ListT? && scope == 0 {
      EmptyListUnfold(t, data, pos);
    } else {
      var count := CompositeUnfold(t, data, pos, scope);
      FieldsAreShallower(t, count);
      var fs := FieldsOf(t, count);
      ReadFieldsUnfold(fs, data, pos, scope);
      var head := ReadHead(fs, data, pos).value;
      HeadConsumes(fs, data, pos);
      TailConsumes(fs, head.value, scope, data, head.next);
      TailExactly(fs, head.value, scope, data, head.next);
    }
  }

  /** Every accepted input is the one serialization of the value it decodes to, read without a zero first offset. */
  lemma Canonical(t: SszType, data: ByteString)
    requires WellFormed(t) && DecodeBytes(t, data).Ok?
    ensures var v := DecodeBytes(t, data).value;
      HasType(v, t) && Serialize(t, v) == Ok(data)
    ensures !IsFixed(t) ==> !TookZero(t, data, 0, |data|)
  {
    hide Deserialize, Serialize, TookZero;
    if IsLeaf(t) {
      LeafCanonical(t, data);
      LeafSerializes(t, DecodeBytes(t, data).value);
      TookZeroUnfold(t, data, 0, |data|);
    } else {
      Exact(t, data, 0, |data|);
      assert data[0..|data|] == data;
      if !IsFixed(t) {
        OverrunExactly(t, data, 0, |data|);
      }
    }
  }

  /** Two inputs that decode to the same value are the same input. */
  lemma DecodeInjective(t: SszType, a: ByteString, b: ByteString)
    requires WellFormed(t) && DecodeBytes(t, a).Ok? && DecodeBytes(t, b) == DecodeBytes(t, a)
    ensures a == b
  {
    Canonical(t, a);
    Canonical(t, b);
  }

  /** Only the top-level byte count gives this: inside a stream the zero offset is accepted. */
  lemma ZeroOffsetAcceptedInStream()
    ensures var t := ListT(ByteListT(8), 2);
      var data: ByteString := [0, 0, 0, 0, 7, 7, 7, 7];
      && WellFormed(t)
      && Deserialize(t, data, 0, 4) == Ok(Read(SeqV([BytesV([7, 7, 7, 7])]), 8))
      && DecodeBytes(t, data).Err?
  {
    var t := ListT(ByteListT(8), 2);
    var data: ByteString := [0, 0, 0, 0, 7, 7, 7, 7];
    var zero: ByteString := data[0..4];
    assert zero == [0, 0, 0, 0];
    assert FromLE([0, 0]) == 0;
    assert FromLE(zero) == 0 by {
      assert zero[1..][1..] == [0, 0];
    }
    assert data[4..8] == [7, 7, 7, 7];
  }
}

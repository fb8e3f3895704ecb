/**
 The SSZ wire format as functions: serialization, and deserialization by a cursor that only
 moves forward, with a byte budget (`scope`) for each value.
 */
module SszCodec {
  import opened Bytes
  import opened Bits
  import opened SszTypes

  /** Every failure is an SSZError subclass in the source; the model keeps only that it failed. */
  datatype SszError = SszError

  type SszResult<+T> = Result<T, SszError>

  // ---- serialization ----

  function EncodeLeaf(t: SszType, v: Value): (s: ByteString)
    requires IsLeaf(t) && HasType(v, t)
  {
    match t
    case UintT(w) => ToLE(v.n, w)
    case BooleanT => [if v.b then 1 else 0]
    case BytesT(_) => v.data
    case ByteListT(_) => v.data
    case BitvectorT(_) => EncodeBitvector(v.bits)
    case BitlistT(_) => EncodeBitlist(v.bits)
  }

  /** The two buffers of the writer: the leading part, and the payloads that follow it. */
  datatype Parts = Parts(head: ByteString, tail: ByteString)

  /** serialize; fails exactly when some offset is not a Uint32. */
  function Serialize(t: SszType, v: Value): (r: SszResult<ByteString>)
    requires HasType(v, t)
    decreases Depth(t), 0, 0
  {
    if IsLeaf(t) then Ok(EncodeLeaf(t, v))
    else
      var fs := FieldsOf(t, |v.elems|);
      FieldsAreShallower(t, |v.elems|);
      match SerializeFields(fs, v.elems, HeadWidth(fs))
      case Err(e) => Err(e)
      case Ok(parts) => Ok(parts.head + parts.tail)
  }

  /** Fields in order; `offset` is where the next payload will start. */
  function SerializeFields(fs: seq<SszType>, vs: seq<Value>, offset: nat): (r: SszResult<Parts>)
    requires AllTyped(vs, fs)
    decreases MaxDepth(fs), 1, |fs|
  {
    if fs == [] then Ok(Parts([], []))
    else
      TailIsShallower(fs);
      if !IsFixed(fs[0]) && offset >= OFFSET_LIMIT then Err(SszError)
      else
        match Serialize(fs[0], vs[0])
        case Err(e) => Err(e)
        case Ok(body) =>
          var next := if IsFixed(fs[0]) then offset else offset + |body|;
          match SerializeFields(fs[1..], vs[1..], next)
          case Err(e) => Err(e)
          case Ok(rest) =>
            if IsFixed(fs[0]) then Ok(Parts(body + rest.head, rest.tail))
            else Ok(Parts(ToLE(offset, OFFSET_WIDTH) + rest.head, body + rest.tail))
  }

  // ---- deserialization ----

  /** A value together with the cursor position after it. */
  datatype Read<+T> = Read(value: T, next: nat)

  /** stream.read(n), rejecting a short read. */
  function Take(data: ByteString, pos: nat, n: nat): (r: SszResult<Read<ByteString>>)
    requires pos <= |data|
    ensures r.Ok? ==> r.value.next == pos + n <= |data| && r.value.value == data[pos..pos + n]
  {
    if pos + n > |data| then Err(SszError) else Ok(Read(data[pos..pos + n], pos + n))
  }

  /** The overridden decode_bytes of the leaf types. */
  function DecodeLeaf(t: SszType, s: ByteString): (r: SszResult<Value>)
    requires IsLeaf(t)
  {
    match t
    case UintT(w) => if |s| != w then Err(SszError) else Ok(UintV(FromLE(s)))
    case BooleanT =>
      if |s| != 1 || s[0] > 1 then Err(SszError) else Ok(BoolV(s[0] == 1))
    case BytesT(n) => if |s| != n then Err(SszError) else Ok(BytesV(s))
    case ByteListT(n) => if |s| > n then Err(SszError) else Ok(BytesV(s))
    case BitvectorT(n) =>
      var bits := DecodeBitvector(n, s);
      if bits.None? then Err(SszError) else Ok(BitsV(bits.value))
    case BitlistT(n) =>
      var bits := DecodeBitlist(n, s);
      if bits.None? then Err(SszError) else Ok(BitsV(bits.value))
  }

  /** Leaf deserialize: fixed leaves insist on their own width as scope. */
  function ReadLeaf(t: SszType, data: ByteString, pos: nat, scope: nat): (r: SszResult<Read<Value>>)
    requires IsLeaf(t) && pos <= |data|
  {
    if IsFixed(t) && scope != Width(t) then Err(SszError)
    else
      match Take(data, pos, scope)
      case Err(e) => Err(e)
      case Ok(got) =>
        match DecodeLeaf(t, got.value)
        case Err(e) => Err(e)
        case Ok(v) => Ok(Read(v, got.next))
  }

  /** One slot of the leading part: the value itself, or the offset of its payload. */
  datatype Slot = Inline(value: Value) | Offset(start: nat)

  /** Phase 1: the leading part of a row of fields. */
  function ReadHead(fs: seq<SszType>, data: ByteString, pos: nat): (r: SszResult<Read<seq<Slot>>>)
    requires pos <= |data| && AllWellFormed(fs)
    ensures r.Ok? ==> pos <= r.value.next <= |data| && |r.value.value| == |fs|
    ensures r.Ok? ==> forall i | 0 <= i < |fs| :: r.value.value[i].Inline? == IsFixed(fs[i])
    decreases MaxDepth(fs), 2, |fs|
  {
    if fs == [] then Ok(Read([], pos))
    else
      TailIsShallower(fs);
      var first: SszResult<Read<Slot>> :=
        if IsFixed(fs[0]) then
          match Deserialize(fs[0], data, pos, Width(fs[0]))
          case Err(e) => Err(e)
          case Ok(got) => Ok(Read(Inline(got.value), got.next))
        else
          match Take(data, pos, OFFSET_WIDTH)
          case Err(e) => Err(e)
          case Ok(got) => Ok(Read(Offset(FromLE(got.value)), got.next));
      match first
      case Err(e) => Err(e)
      case Ok(slot) =>
        match ReadHead(fs[1..], data, slot.next)
        case Err(e) => Err(e)
        case Ok(rest) => Ok(Read([slot.value] + rest.value, rest.next))
  }

  /** The first offset among the slots, or the end of the budget. */
  function NextStart(slots: seq<Slot>, scope: nat): nat
  {
    if slots == [] then scope
    else if slots[0].Offset? then slots[0].start
    else NextStart(slots[1..], scope)
  }

  /** Phase 2: each payload gets the span from its offset to the next one. */
  function ReadTail(fs: seq<SszType>, slots: seq<Slot>, scope: nat, data: ByteString, pos: nat)
    : (r: SszResult<Read<seq<Value>>>)
    requires |slots| == |fs| && pos <= |data| && AllWellFormed(fs)
    ensures r.Ok? ==> pos <= r.value.next <= |data| && |r.value.value| == |fs|
    decreases MaxDepth(fs), 2, |fs|
  {
    if fs == [] then Ok(Read([], pos))
    else
      TailIsShallower(fs);
      var first: SszResult<Read<Value>> :=
        if slots[0].Inline? then Ok(Read(slots[0].value, pos))
        else
          var end := NextStart(slots[1..], scope);
          if end < slots[0].start then Err(SszError)
          else Deserialize(fs[0], data, pos, end - slots[0].start);
      match first
      case Err(e) => Err(e)
      case Ok(got) =>
        match ReadTail(fs[1..], slots[1..], scope, data, got.next)
        case Err(e) => Err(e)
        case Ok(rest) => Ok(Read([got.value] + rest.value, rest.next))
  }

  /** A row of fields: phase 1, the check of the first offset, phase 2. */
  function ReadFields(fs: seq<SszType>, data: ByteString, pos: nat, scope: nat)
    : (r: SszResult<Read<seq<Value>>>)
    requires pos <= |data| && AllWellFormed(fs)
    ensures r.Ok? ==> pos <= r.value.next <= |data| && |r.value.value| == |fs|
    decreases MaxDepth(fs), 3, 0
  {
    match ReadHead(fs, data, pos)
    case Err(e) => Err(e)
    case Ok(head) =>
      if !AllFixed(fs) && NextStart(head.value, scope) != HeadWidth(fs) then Err(SszError)
      else ReadTail(fs, head.value, scope, data, head.next)
  }

  /** deserialize(stream, scope) with the cursor at pos. */
  function Deserialize(t: SszType, data: ByteString, pos: nat, scope: nat)
    : (r: SszResult<Read<Value>>)
    requires pos <= |data| && WellFormed(t)
    ensures r.Ok? ==> pos <= r.value.next <= |data|
    decreases Depth(t), 1, 0
  {
    if IsLeaf(t) then ReadLeaf(t, data, pos, scope)
    else
      match t
      case VectorT(e, n) =>
        if IsFixed(e) && scope != Width(e) * n then Err(SszError)
        else ReadComposite(t, n, data, pos, scope)
      case ContainerT(fs) => ReadComposite(t, 0, data, pos, scope)
      case ListT(e, limit) =>
        if scope == 0 then Ok(Read(SeqV([]), pos))
        else if IsFixed(e) then
          if scope % Width(e) != 0 || scope / Width(e) > limit then Err(SszError)
          else ReadComposite(t, scope / Width(e), data, pos, scope)
        else if scope < OFFSET_WIDTH then Err(SszError)
        else
          match Take(data, pos, OFFSET_WIDTH)
          case Err(e) => Err(e)
          case Ok(got) =>
            var first := FromLE(got.value);
            if first > scope || first % OFFSET_WIDTH != 0 || first / OFFSET_WIDTH > limit then Err(SszError)
            else if first == 0 then
              // The table claims no elements, yet the single span from 0 to scope is still read.
              match Deserialize(e, data, got.next, scope)
              case Err(e) => Err(e)
              case Ok(only) =>
                if limit < 1 then Err(SszError) else Ok(Read(SeqV([only.value]), only.next))
            else ReadComposite(t, first / OFFSET_WIDTH, data, pos, scope)
  }

  function ReadComposite(t: SszType, count: nat, data: ByteString, pos: nat, scope: nat)
    : (r: SszResult<Read<Value>>)
    requires !IsLeaf(t) && pos <= |data| && WellFormed(t)
    ensures r.Ok? ==> pos <= r.value.next <= |data|
    decreases Depth(t), 0, 0
  {
    FieldsAreShallower(t, count);
    match ReadFields(FieldsOf(t, count), data, pos, scope)
    case Err(e) => Err(e)
    case Ok(got) => Ok(Read(SeqV(got.value), got.next))
  }

  /** decode_bytes: the leaf overrides, or one value that must use up the input. */
  function DecodeBytes(t: SszType, data: ByteString): (r: SszResult<Value>)
    requires WellFormed(t)
  {
    if IsLeaf(t) then DecodeLeaf(t, data)
    else
      match Deserialize(t, data, 0, |data|)
      case Err(e) => Err(e)
      case Ok(got) => if got.next != |data| then Err(SszError) else Ok(got.value)
  }
}

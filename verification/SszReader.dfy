/**
 deserialize as the source performs it: a cursor over a stream, with separate loops for fixed-size
 elements, offset tables and containers (src/lean_spec/spec/ssz/collections.py, container.py, ssz_base.py).
 */
module SszReader {
  import opened Bytes
  import opened ByteStreams
  import opened SszTypes
  import opened SszCodec
  import opened SszRows

  type Values = SszResult<Read<seq<Value>>>

  /** Either both fail, or the value was read and the cursor is behind it. */
  ghost predicate Matches<T(!new)>(r: SszResult<T>, pos: nat, spec: SszResult<Read<T>>)
  {
    match spec
    case Err(_) => r.Err?
    case Ok(got) => r == Ok(got.value) && pos == got.next
  }

  ghost function Wrap(r: Values): SszResult<Read<Value>>
  {
    match r
    case Err(x) => Err(x)
    case Ok(got) => Ok(Read(SeqV(got.value), got.next))
  }

  // ---- the three kinds of body ----

  /** n fixed-size elements back to back. */
  ghost function Elements(e: SszType, n: nat, data: ByteString, pos: nat): (r: Values)
    requires pos <= |data| && WellFormed(e) && IsFixed(e)
    ensures r.Ok? ==> pos <= r.value.next <= |data|
  {
    if n == 0 then Ok(Read([], pos))
    else
      match Deserialize(e, data, pos, Width(e))
      case Err(x) => Err(x)
      case Ok(first) => Then([first.value], Elements(e, n - 1, data, first.next))
  }

  /** A table of n offsets. */
  ghost function Table(n: nat, data: ByteString, pos: nat): (r: SszResult<Read<seq<nat>>>)
    requires pos <= |data|
    ensures r.Ok? ==> pos <= r.value.next <= |data| && |r.value.value| == n
  {
    if n == 0 then Ok(Read([], pos))
    else
      match Take(data, pos, OFFSET_WIDTH)
      case Err(x) => Err(x)
      case Ok(first) => Then([FromLE(first.value)], Table(n - 1, data, first.next))
  }

  /** One element in each span between neighbouring bounds. */
  ghost function Spans(e: SszType, bounds: seq<nat>, data: ByteString, pos: nat): (r: Values)
    requires pos <= |data| && WellFormed(e)
    ensures r.Ok? ==> pos <= r.value.next <= |data|
    decreases |bounds|
  {
    if |bounds| <= 1 then Ok(Read([], pos))
    else if bounds[1] < bounds[0] then Err(SszError)
    else
      match Deserialize(e, data, pos, bounds[1] - bounds[0])
      case Err(x) => Err(x)
      case Ok(first) => Then([first.value], Spans(e, bounds[1..], data, first.next))
  }

  // ---- rows of equal fields ----

  ghost function Inlines(vs: seq<Value>): seq<Slot>
  {
    if vs == [] then [] else [Inline(vs[0])] + Inlines(vs[1..])
  }

  ghost function Offsets(os: seq<nat>): (slots: seq<Slot>)
    ensures |slots| == |os|
  {
    if os == [] then [] else [Offset(os[0])] + Offsets(os[1..])
  }

  ghost function InlineSlots(r: Values): SszResult<Read<seq<Slot>>>
  {
    match r
    case Err(x) => Err(x)
    case Ok(got) => Ok(Read(Inlines(got.value), got.next))
  }

  ghost function OffsetSlots(r: SszResult<Read<seq<nat>>>): SszResult<Read<seq<Slot>>>
  {
    match r
    case Err(x) => Err(x)
    case Ok(got) => Ok(Read(Offsets(got.value), got.next))
  }

  lemma RepeatTail(e: SszType, n: nat)
    requires n > 0 && WellFormed(e)
    ensures Repeat(e, n)[1..] == Repeat(e, n - 1) && AllWellFormed(Repeat(e, n)) && AllWellFormed(Repeat(e, n - 1))
  {
  }

  lemma RepeatWellFormed(e: SszType, n: nat)
    requires WellFormed(e)
    ensures AllWellFormed(Repeat(e, n))
  {
  }

  lemma {:induction false} HeadOfFixed(e: SszType, n: nat, data: ByteString, pos: nat)
    requires pos <= |data| && WellFormed(e) && IsFixed(e) && AllWellFormed(Repeat(e, n))
    ensures ReadHead(Repeat(e, n), data, pos) == InlineSlots(Elements(e, n, data, pos))
    decreases n
  {
    hide Deserialize, WellFormed, Width, Repeat;
    if n > 0 {
      RepeatTail(e, n);
      var first := Deserialize(e, data, pos, Width(e));
      if first.Ok? {
        HeadOfFixed(e, n - 1, data, first.value.next);
        var rest := Elements(e, n - 1, data, first.value.next);
        if rest.Ok? {
          assert ([first.value.value] + rest.value.value)[1..] == rest.value.value;
        }
      }
    }
  }

  lemma {:induction false} TailOfFixed(e: SszType, vs: seq<Value>, scope: nat, data: ByteString, pos: nat)
    requires pos <= |data| && WellFormed(e) && AllWellFormed(Repeat(e, |vs|)) && |Inlines(vs)| == |vs|
    ensures ReadTail(Repeat(e, |vs|), Inlines(vs), scope, data, pos) == Ok(Read(vs, pos))
    decreases |vs|
  {
    hide Deserialize, WellFormed, Repeat;
    if vs != [] {
      RepeatTail(e, |vs|);
      InlinesLength(vs[1..]);
      TailOfFixed(e, vs[1..], scope, data, pos);
      assert Inlines(vs)[1..] == Inlines(vs[1..]);
      assert [vs[0]] + vs[1..] == vs;
    }
  }

  lemma {:induction false} InlinesLength(vs: seq<Value>)
    ensures |Inlines(vs)| == |vs|
  {
    if vs != [] {
      InlinesLength(vs[1..]);
    }
  }

  lemma FixedRow(e: SszType, n: nat, data: ByteString, pos: nat, scope: nat)
    requires pos <= |data| && WellFormed(e) && IsFixed(e) && AllWellFormed(Repeat(e, n))
    ensures ReadFields(Repeat(e, n), data, pos, scope) == Elements(e, n, data, pos)
  {
    hide ReadHead, ReadTail, WellFormed, Elements;
    HeadOfFixed(e, n, data, pos);
    var got := Elements(e, n, data, pos);
    if got.Ok? {
      InlinesLength(got.value.value);
      TailOfFixed(e, got.value.value, scope, data, got.value.next);
    }
  }

  lemma {:induction false} HeadOfVariable(e: SszType, n: nat, data: ByteString, pos: nat)
    requires pos <= |data| && WellFormed(e) && !IsFixed(e) && AllWellFormed(Repeat(e, n))
    ensures ReadHead(Repeat(e, n), data, pos) == OffsetSlots(Table(n, data, pos))
    decreases n
  {
    hide Deserialize, WellFormed, Repeat, FromLE;
    if n > 0 {
      RepeatTail(e, n);
      var first := Take(data, pos, OFFSET_WIDTH);
      if first.Ok? {
        HeadOfVariable(e, n - 1, data, first.value.next);
        var rest := Table(n - 1, data, first.value.next);
        if rest.Ok? {
          assert ([FromLE(first.value.value)] + rest.value.value)[1..] == rest.value.value;
        }
      }
    }
  }

  lemma {:induction false} TailOfVariable(e: SszType, os: seq<nat>, scope: nat, data: ByteString, pos: nat)
    requires pos <= |data| && WellFormed(e) && AllWellFormed(Repeat(e, |os|))
    ensures ReadTail(Repeat(e, |os|), Offsets(os), scope, data, pos) == Spans(e, os + [scope], data, pos)
    decreases |os|
  {
    hide Deserialize, WellFormed, Repeat;
    if os != [] {
      RepeatTail(e, |os|);
      var bounds := os + [scope];
      assert bounds[1..] == os[1..] + [scope];
      assert Offsets(os)[1..] == Offsets(os[1..]);
      assert NextStart(Offsets(os[1..]), scope) == bounds[1];
      if bounds[1] >= bounds[0] {
        var first := Deserialize(e, data, pos, bounds[1] - bounds[0]);
        if first.Ok? {
          TailOfVariable(e, os[1..], scope, data, first.value.next);
        }
      }
    }
  }

  /** A table of n offsets, the first right behind the table, and the spans it announces. */
  ghost function VectorBody(e: SszType, n: nat, data: ByteString, pos: nat, scope: nat): Values
    requires pos <= |data| && WellFormed(e) && n > 0
  {
    match Table(n, data, pos)
    case Err(x) => Err(x)
    case Ok(got) => if got.value[0] != 4 * n then Err(SszError) else Spans(e, got.value + [scope], data, got.next)
  }

  lemma VariableRow(e: SszType, n: nat, data: ByteString, pos: nat, scope: nat)
    requires pos <= |data| && WellFormed(e) && !IsFixed(e) && n > 0 && AllWellFormed(Repeat(e, n))
    ensures ReadFields(Repeat(e, n), data, pos, scope) == VectorBody(e, n, data, pos, scope)
  {
    hide ReadHead, ReadTail, WellFormed, Table, Spans, HeadWidth;
    HeadOfVariable(e, n, data, pos);
    RepeatHeadWidth(e, n);
    assert Repeat(e, n)[0] in Repeat(e, n);
    var got := Table(n, data, pos);
    if got.Ok? {
      TailOfVariable(e, got.value.value, scope, data, got.value.next);
    }
  }

  // ---- deserialize, case by case ----

  lemma VectorFixedCase(t: SszType, data: ByteString, pos: nat, scope: nat)
    requires pos <= |data| && WellFormed(t) && t.VectorT? && IsFixed(t.elem)
    ensures WellFormed(t.elem)
    ensures Deserialize(t, data, pos, scope) ==
            if scope != Width(t.elem) * t.length then Err(SszError) else Wrap(Elements(t.elem, t.length, data, pos))
  {
    hide ReadFields, Elements, Width;
    RepeatWellFormed(t.elem, t.length);
    FixedRow(t.elem, t.length, data, pos, scope);
  }

  lemma VectorVariableCase(t: SszType, data: ByteString, pos: nat, scope: nat)
    requires pos <= |data| && WellFormed(t) && t.VectorT? && !IsFixed(t.elem)
    ensures WellFormed(t.elem) && t.length > 0
    ensures Deserialize(t, data, pos, scope) == Wrap(VectorBody(t.elem, t.length, data, pos, scope))
  {
    hide ReadFields, Table, Spans;
    RepeatWellFormed(t.elem, t.length);
    VariableRow(t.elem, t.length, data, pos, scope);
  }

  lemma ContainerCase(t: SszType, data: ByteString, pos: nat, scope: nat)
    requires pos <= |data| && WellFormed(t) && t.ContainerT?
    ensures AllWellFormed(t.fields) && MaxDepth(t.fields) < Depth(t)
    ensures Deserialize(t, data, pos, scope) == Wrap(ReadFields(t.fields, data, pos, scope))
  {
    hide ReadFields;
    FieldsAreShallower(t, 0);
  }

  lemma ListFixedCase(t: SszType, data: ByteString, pos: nat, scope: nat)
    requires pos <= |data| && WellFormed(t) && t.ListT? && IsFixed(t.elem) && scope > 0
    ensures WellFormed(t.elem) && Width(t.elem) > 0
    ensures Deserialize(t, data, pos, scope) ==
            if scope % Width(t.elem) != 0 || scope / Width(t.elem) > t.limit then Err(SszError)
            else Wrap(Elements(t.elem, scope / Width(t.elem), data, pos))
  {
    hide ReadFields, Elements, Width;
    var n := scope / Width(t.elem);
    RepeatWellFormed(t.elem, n);
    FixedRow(t.elem, n, data, pos, scope);
  }

  /** A list of variable-size elements reads the table that its first offset announces. */
  ghost function ListBody(t: SszType, first: nat, data: ByteString, next: nat, scope: nat): SszResult<Read<Value>>
    requires next <= |data| && t.ListT? && WellFormed(t.elem)
  {
    match Table(if first < 4 then 0 else first / 4 - 1, data, next)
    case Err(x) => Err(x)
    case Ok(rest) =>
      match Spans(t.elem, [first] + rest.value + [scope], data, rest.next)
      case Err(x) => Err(x)
      case Ok(got) => if |got.value| > t.limit then Err(SszError) else Ok(Read(SeqV(got.value), got.next))
  }

  ghost function ListFrom(t: SszType, data: ByteString, pos: nat, scope: nat): SszResult<Read<Value>>
    requires pos <= |data| && t.ListT? && WellFormed(t.elem)
  {
    if scope < 4 then Err(SszError)
    else
      match Take(data, pos, 4)
      case Err(x) => Err(x)
      case Ok(got) =>
        var first := FromLE(got.value);
        if first > scope || first % 4 != 0 || first / 4 > t.limit then Err(SszError)
        else ListBody(t, first, data, got.next, scope)
  }

  lemma {:induction false} SpansLength(e: SszType, bounds: seq<nat>, data: ByteString, pos: nat)
    requires pos <= |data| && WellFormed(e) && Spans(e, bounds, data, pos).Ok? && bounds != []
    ensures |Spans(e, bounds, data, pos).value.value| == |bounds| - 1
    decreases |bounds|
  {
    hide Deserialize, WellFormed;
    if |bounds| > 1 {
      var first := Deserialize(e, data, pos, bounds[1] - bounds[0]);
      SpansLength(e, bounds[1..], data, first.value.next);
    }
  }

  lemma ListVariableCase(t: SszType, data: ByteString, pos: nat, scope: nat)
    requires pos <= |data| && WellFormed(t) && t.ListT? && !IsFixed(t.elem) && scope > 0
    ensures WellFormed(t.elem)
    ensures Deserialize(t, data, pos, scope) == ListFrom(t, data, pos, scope)
  {
    hide Take, ReadFields, Spans, FromLE, Table, ReadComposite;
    if scope >= 4 && Take(data, pos, 4).Ok? {
      var got := Take(data, pos, 4).value;
      var first := FromLE(got.value);
      if first <= scope && first % 4 == 0 && first / 4 <= t.limit {
        if first == 0 {
          ListZero(t, data, got.next, scope);
        } else {
          ListSome(t, first, data, pos, scope);
        }
      }
    }
  }

  ghost function Single(limit: nat, only: SszResult<Read<Value>>): SszResult<Read<Value>>
  {
    match only
    case Err(x) => Err(x)
    case Ok(got) => if limit < 1 then Err(SszError) else Ok(Read(SeqV([got.value]), got.next))
  }

  lemma ListZero(t: SszType, data: ByteString, next: nat, scope: nat)
    requires next <= |data| && t.ListT? && WellFormed(t.elem)
    ensures ListBody(t, 0, data, next, scope) == Single(t.limit, Deserialize(t.elem, data, next, scope))
  {
    hide Deserialize, WellFormed, Spans;
    assert [0] + [] + [scope] == [0, scope];
    assert [0, scope][1..] == [scope];
    SpansStep(t.elem, [0, scope], data, next);
    var only := Deserialize(t.elem, data, next, scope);
    if only.Ok? {
      SpansEnd(t.elem, [scope], data, only.value.next);
      assert [only.value.value] + [] == [only.value.value];
    }
  }

  lemma SpansStep(e: SszType, bounds: seq<nat>, data: ByteString, pos: nat)
    requires pos <= |data| && WellFormed(e) && |bounds| > 1
    ensures bounds[1] < bounds[0] ==> Spans(e, bounds, data, pos).Err?
    ensures bounds[1] >= bounds[0] ==>
      var first := Deserialize(e, data, pos, bounds[1] - bounds[0]);
      if first.Err? then Spans(e, bounds, data, pos) == Err(first.error)
      else Spans(e, bounds, data, pos) == Then([first.value.value], Spans(e, bounds[1..], data, first.value.next))
  {
  }

  lemma SpansEnd(e: SszType, bounds: seq<nat>, data: ByteString, pos: nat)
    requires pos <= |data| && WellFormed(e) && |bounds| <= 1
    ensures Spans(e, bounds, data, pos) == Ok(Read([], pos))
  {
  }

  lemma ListSome(t: SszType, first: nat, data: ByteString, pos: nat, scope: nat)
    requires pos <= |data| && t.ListT? && WellFormed(t) && !IsFixed(t.elem)
    requires Take(data, pos, 4).Ok? && first == FromLE(Take(data, pos, 4).value.value)
    requires 0 < first && first % 4 == 0 && first / 4 <= t.limit
    ensures ReadComposite(t, first / 4, data, pos, scope) ==
      ListBody(t, first, data, Take(data, pos, 4).value.next, scope)
  {
    hide ReadFields, Spans, FromLE, Table, Take;
    var n := first / 4;
    RepeatWellFormed(t.elem, n);
    VariableRow(t.elem, n, data, pos, scope);
    TableStep(n, data, pos);
    var next := Take(data, pos, 4).value.next;
    var rest := Table(n - 1, data, next);
    if rest.Ok? {
      var bounds := [first] + rest.value.value + [scope];
      if Spans(t.elem, bounds, data, rest.value.next).Ok? {
        SpansLength(t.elem, bounds, data, rest.value.next);
      }
    }
  }

  lemma TableStep(n: nat, data: ByteString, pos: nat)
    requires pos <= |data| && n > 0
    ensures Take(data, pos, 4).Err? ==> Table(n, data, pos).Err?
    ensures Take(data, pos, 4).Ok? ==>
      var first := Take(data, pos, 4).value;
      Table(n, data, pos) == Then([FromLE(first.value)], Table(n - 1, data, first.next))
  {
  }

  // ---- the source's loops ----

  lemma ThenNothing<T>(r: SszResult<Read<seq<T>>>)
    ensures Then([], r) == r
  {
    if r.Ok? {
      assert [] + r.value.value == r.value.value;
    }
  }

  lemma ThenThen<T>(a: seq<T>, b: seq<T>, r: SszResult<Read<seq<T>>>)
    ensures Then(a, Then(b, r)) == Then(a + b, r)
  {
    if r.Ok? {
      assert a + (b + r.value.value) == a + b + r.value.value;
    }
  }

  lemma ThenEnd<T>(a: seq<T>, pos: nat)
    ensures Then(a, Ok(Read([], pos))) == Ok(Read(a, pos))
  {
    assert a + [] == a;
  }

  /** Uint32.deserialize of an offset. */
  method ReadOffset(input: ByteStream) returns (r: SszResult<nat>)
    requires input.Valid()
    modifies input`pos
    ensures input.Valid() && r.Ok? == Take(input.data, old(input.pos), 4).Ok?
    ensures r.Ok? ==>
      var got := Take(input.data, old(input.pos), 4).value;
      r.value == FromLE(got.value) && input.pos == got.next
  {
    hide FromLE;
    var bytes := input.Read(4);
    if |bytes| != 4 {
      return Err(SszError);
    }
    return Ok(FromLE(bytes));
  }

  method ReadTable(n: nat, input: ByteStream) returns (r: SszResult<seq<nat>>)
    requires input.Valid()
    modifies input`pos
    ensures input.Valid() && Matches(r, input.pos, Table(n, input.data, old(input.pos)))
  {
    hide Take, FromLE, Table;
    ghost var start := input.pos;
    var offsets: seq<nat> := [];
    ThenNothing(Table(n, input.data, start));
    for i := 0 to n
      invariant input.Valid() && Table(n, input.data, start) == Then(offsets, Table(n - i, input.data, input.pos))
    {
      TableStep(n - i, input.data, input.pos);
      ghost var before := input.pos;
      var offset := ReadOffset(input);
      if offset.Err? {
        return Err(SszError);
      }
      ThenThen(offsets, [FromLE(Take(input.data, before, 4).value.value)], Table(n - i - 1, input.data, input.pos));
      offsets := offsets + [offset.value];
    }
    TableEnd(input.data, input.pos);
    ThenEnd(offsets, input.pos);
    return Ok(offsets);
  }

  lemma TableEnd(data: ByteString, pos: nat)
    requires pos <= |data|
    ensures Table(0, data, pos) == Ok(Read([], pos))
  {
  }

  ghost predicate Monotone(bounds: seq<nat>)
  {
    forall i | 0 < i < |bounds| :: bounds[i - 1] <= bounds[i]
  }

  /** _validate_offsets. */
  method ValidateOffsets(bounds: seq<nat>, scope: nat) returns (ok: bool)
    ensures ok <==> Monotone(bounds) && (bounds != [] ==> bounds[|bounds| - 1] <= scope)
  {
    if bounds == [] {
      return true;
    }
    for i := 1 to |bounds|
      invariant forall k | 0 < k < i :: bounds[k - 1] <= bounds[k]
    {
      if bounds[i] < bounds[i - 1] {
        return false;
      }
    }
    return bounds[|bounds| - 1] <= scope;
  }

  /** Reading the spans can succeed only when no bound falls below the one before it. */
  lemma {:induction false} SpansMonotone(e: SszType, bounds: seq<nat>, data: ByteString, pos: nat)
    requires pos <= |data| && WellFormed(e) && Spans(e, bounds, data, pos).Ok?
    ensures Monotone(bounds)
    decreases |bounds|
  {
    hide Deserialize, WellFormed, Spans;
    if |bounds| > 1 {
      SpansStep(e, bounds, data, pos);
      var first := Deserialize(e, data, pos, bounds[1] - bounds[0]);
      SpansMonotone(e, bounds[1..], data, first.value.next);
      forall i | 1 < i < |bounds|
        ensures bounds[i - 1] <= bounds[i]
      {
        assert bounds[1..][i - 2] <= bounds[1..][i - 1];
      }
    }
  }

  lemma {:induction false} MonotoneEnds(bounds: seq<nat>)
    requires Monotone(bounds) && bounds != []
    ensures bounds[0] <= bounds[|bounds| - 1]
    decreases |bounds|
  {
    if |bounds| > 1 {
      MonotoneEnds(bounds[..|bounds| - 1]);
    }
  }

  method ReadBodies(e: SszType, bounds: seq<nat>, input: ByteStream) returns (r: SszResult<seq<Value>>)
    requires input.Valid() && WellFormed(e) && Monotone(bounds) && bounds != []
    modifies input`pos
    ensures input.Valid() && Matches(r, input.pos, Spans(e, bounds, input.data, old(input.pos)))
    decreases Depth(e), 2
  {
    hide Deserialize, WellFormed, Spans, Depth;
    ghost var start := input.pos;
    var values: seq<Value> := [];
    assert bounds[0..] == bounds;
    ThenNothing(Spans(e, bounds, input.data, start));
    for i := 1 to |bounds|
      invariant input.Valid() &&
        Spans(e, bounds, input.data, start) == Then(values, Spans(e, bounds[i - 1..], input.data, input.pos))
    {
      SpansStep(e, bounds[i - 1..], input.data, input.pos);
      assert bounds[i - 1..][1..] == bounds[i..];
      var value := DeserializeFrom(e, input, bounds[i] - bounds[i - 1]);
      if value.Err? {
        return Err(SszError);
      }
      ThenThen(values, [value.value], Spans(e, bounds[i..], input.data, input.pos));
      values := values + [value.value];
    }
    SpansEnd(e, bounds[|bounds| - 1..], input.data, input.pos);
    ThenEnd(values, input.pos);
    return Ok(values);
  }

  method ReadElements(e: SszType, n: nat, input: ByteStream) returns (r: SszResult<seq<Value>>)
    requires input.Valid() && WellFormed(e) && IsFixed(e)
    modifies input`pos
    ensures input.Valid() && Matches(r, input.pos, Elements(e, n, input.data, old(input.pos)))
    decreases Depth(e), 2
  {
    hide Deserialize, WellFormed, Elements, Depth, Width;
    ghost var start := input.pos;
    var values: seq<Value> := [];
    ThenNothing(Elements(e, n, input.data, start));
    for i := 0 to n
      invariant input.Valid() &&
        Elements(e, n, input.data, start) == Then(values, Elements(e, n - i, input.data, input.pos))
    {
      ElementsStep(e, n - i, input.data, input.pos);
      var value := DeserializeFrom(e, input, Width(e));
      if value.Err? {
        return Err(SszError);
      }
      ThenThen(values, [value.value], Elements(e, n - i - 1, input.data, input.pos));
      values := values + [value.value];
    }
    ElementsEnd(e, input.data, input.pos);
    ThenEnd(values, input.pos);
    return Ok(values);
  }

  lemma ElementsStep(e: SszType, n: nat, data: ByteString, pos: nat)
    requires pos <= |data| && WellFormed(e) && IsFixed(e) && n > 0
    ensures var first := Deserialize(e, data, pos, Width(e));
      if first.Err? then Elements(e, n, data, pos) == Err(first.error)
      else Elements(e, n, data, pos) == Then([first.value.value], Elements(e, n - 1, data, first.value.next))
  {
  }

  lemma ElementsEnd(e: SszType, data: ByteString, pos: nat)
    requires pos <= |data| && WellFormed(e) && IsFixed(e)
    ensures Elements(e, 0, data, pos) == Ok(Read([], pos))
  {
  }

  /** deserialize of every type. */
  method DeserializeFrom(t: SszType, input: ByteStream, scope: nat) returns (r: SszResult<Value>)
    requires input.Valid() && WellFormed(t)
    modifies input`pos
    ensures input.Valid() && Matches(r, input.pos, Deserialize(t, input.data, old(input.pos), scope))
    decreases Depth(t), 1
  {
    hide Deserialize, WellFormed, Matches;
    if IsLeaf(t) {
      r := ReadLeafFrom(t, input, scope);
    } else if t.ContainerT? {
      ContainerCase(t, input.data, input.pos, scope);
      var values := ReadContainer(t.fields, input, scope);
      r := AsValue(values, input.pos, ReadFields(t.fields, input.data, old(input.pos), scope));
    } else if t.VectorT? {
      r := ReadVector(t, input, scope);
    } else {
      r := ReadList(t, input, scope);
    }
  }

  method AsValue(values: SszResult<seq<Value>>, pos: nat, ghost spec: Values) returns (r: SszResult<Value>)
    requires Matches(values, pos, spec)
    ensures Matches(r, pos, Wrap(spec))
  {
    return if values.Err? then Err(SszError) else Ok(SeqV(values.value));
  }

  method ReadLeafFrom(t: SszType, input: ByteStream, scope: nat) returns (r: SszResult<Value>)
    requires input.Valid() && WellFormed(t) && IsLeaf(t)
    modifies input`pos
    ensures input.Valid() && Matches(r, input.pos, Deserialize(t, input.data, old(input.pos), scope))
  {
    hide DecodeLeaf, Width;
    if IsFixed(t) && scope != Width(t) {
      return Err(SszError);
    }
    var bytes := input.Read(scope);
    if |bytes| != scope {
      return Err(SszError);
    }
    var v := DecodeLeaf(t, bytes);
    return v;
  }

  /** SSZVector.deserialize. */
  method ReadVector(t: SszType, input: ByteStream, scope: nat) returns (r: SszResult<Value>)
    requires input.Valid() && WellFormed(t) && t.VectorT?
    modifies input`pos
    ensures input.Valid() && Matches(r, input.pos, Deserialize(t, input.data, old(input.pos), scope))
    decreases Depth(t), 0
  {
    hide Deserialize, WellFormed, Elements, Table, Spans, Width;
    ghost var data, start := input.data, input.pos;
    if IsFixed(t.elem) {
      VectorFixedCase(t, data, start, scope);
      if scope != Width(t.elem) * t.length {
        return Err(SszError);
      }
      var values := ReadElements(t.elem, t.length, input);
      r := AsValue(values, input.pos, Elements(t.elem, t.length, data, start));
      return;
    }
    VectorVariableCase(t, data, start, scope);
    if scope < 4 * t.length {
      TooNarrow(t.elem, t.length, data, start, scope);
      return Err(SszError);
    }
    var offsets := ReadTable(t.length, input);
    if offsets.Err? || offsets.value[0] != 4 * t.length {
      return Err(SszError);
    }
    ghost var next := input.pos;
    var bounds := offsets.value + [scope];
    var ok := ValidateOffsets(bounds, scope);
    if !ok {
      SpansNeedOrder(t.elem, bounds, data, next);
      return Err(SszError);
    }
    var values := ReadBodies(t.elem, bounds, input);
    r := AsValue(values, input.pos, Spans(t.elem, bounds, data, next));
  }

  lemma SpansNeedOrder(e: SszType, bounds: seq<nat>, data: ByteString, pos: nat)
    requires pos <= |data| && WellFormed(e) && !Monotone(bounds)
    ensures Spans(e, bounds, data, pos).Err?
  {
    hide Spans, Monotone;
    if Spans(e, bounds, data, pos).Ok? {
      SpansMonotone(e, bounds, data, pos);
    }
  }

  lemma TooNarrow(e: SszType, n: nat, data: ByteString, pos: nat, scope: nat)
    requires pos <= |data| && WellFormed(e) && n > 0 && scope < 4 * n
    ensures VectorBody(e, n, data, pos, scope).Err?
  {
    hide Spans, Table, Monotone;
    var table := Table(n, data, pos);
    if table.Ok? && table.value.value[0] == 4 * n {
      var bounds := table.value.value + [scope];
      if Spans(e, bounds, data, table.value.next).Ok? {
        SpansMonotone(e, bounds, data, table.value.next);
        MonotoneEnds(bounds);
      }
    }
  }

  /** SSZList.deserialize. */
  method ReadList(t: SszType, input: ByteStream, scope: nat) returns (r: SszResult<Value>)
    requires input.Valid() && WellFormed(t) && t.ListT?
    modifies input`pos
    ensures input.Valid() && Matches(r, input.pos, Deserialize(t, input.data, old(input.pos), scope))
    decreases Depth(t), 0
  {
    hide Deserialize, WellFormed, Elements, Width;
    ghost var data, start := input.data, input.pos;
    if scope == 0 {
      ListEmptyCase(t, data, start);
      return Ok(SeqV([]));
    }
    if IsFixed(t.elem) {
      ListFixedCase(t, data, start, scope);
      var size := Width(t.elem);
      if scope % size != 0 || scope / size > t.limit {
        return Err(SszError);
      }
      var values := ReadElements(t.elem, scope / size, input);
      r := AsValue(values, input.pos, Elements(t.elem, scope / size, data, start));
    } else {
      ListVariableCase(t, data, start, scope);
      r := ReadListBody(t, input, scope);
    }
  }

  method ReadListBody(t: SszType, input: ByteStream, scope: nat) returns (r: SszResult<Value>)
    requires input.Valid() && t.ListT? && WellFormed(t.elem)
    modifies input`pos
    ensures input.Valid() && Matches(r, input.pos, ListFrom(t, input.data, old(input.pos), scope))
    decreases Depth(t.elem), 3
  {
    hide Deserialize, WellFormed, Table, Spans, Take, FromLE, Depth;
    ghost var data := input.data;
    if scope < 4 {
      return Err(SszError);
    }
    var first := ReadOffset(input);
    if first.Err? || first.value > scope || first.value % 4 != 0 {
      return Err(SszError);
    }
    var count := first.value / 4;
    if count > t.limit {
      return Err(SszError);
    }
    var rest := ReadTable(if first.value < 4 then 0 else count - 1, input);
    if rest.Err? {
      return Err(SszError);
    }
    ghost var next := input.pos;
    var bounds := [first.value] + rest.value + [scope];
    var ok := ValidateOffsets(bounds, scope);
    if !ok {
      SpansNeedOrder(t.elem, bounds, data, next);
      return Err(SszError);
    }
    var values := ReadBodies(t.elem, bounds, input);
    if values.Err? || |values.value| > t.limit {
      return Err(SszError);
    }
    return Ok(SeqV(values.value));
  }

  // ---- containers ----

  /** The offsets noted while reading the leading part. */
  ghost function StartsOf(slots: seq<Slot>): seq<nat>
  {
    if slots == [] then []
    else (if slots[0].Offset? then [slots[0].start] else []) + StartsOf(slots[1..])
  }

  lemma {:induction false} StartsSnoc(slots: seq<Slot>, last: Slot)
    ensures StartsOf(slots + [last]) == StartsOf(slots) + if last.Offset? then [last.start] else []
  {
    if slots == [] {
      assert [last][1..] == [];
    } else {
      StartsSnoc(slots[1..], last);
      assert (slots + [last])[1..] == slots[1..] + [last];
    }
  }

  lemma {:induction false} NextIsStart(slots: seq<Slot>, scope: nat)
    ensures NextStart(slots, scope) == (StartsOf(slots) + [scope])[0]
  {
    if slots != [] && slots[0].Inline? {
      NextIsStart(slots[1..], scope);
    }
  }

  lemma {:induction false} NoStarts(slots: seq<Slot>)
    ensures StartsOf(slots) == [] <==> forall i | 0 <= i < |slots| :: slots[i].Inline?
  {
    if slots != [] {
      NoStarts(slots[1..]);
      assert slots == [slots[0]] + slots[1..];
    }
  }

  lemma ShallowAt(fs: seq<SszType>, i: nat)
    requires i < |fs|
    ensures Depth(fs[i]) <= MaxDepth(fs) && fs[i..] != [] && fs[i..][0] == fs[i] && fs[i..][1..] == fs[i + 1..]
  {
    assert fs[i] in fs;
  }

  lemma SuffixWellFormed(fs: seq<SszType>, i: nat)
    requires AllWellFormed(fs) && i <= |fs|
    ensures AllWellFormed(fs[i..]) && fs[0..] == fs
  {
  }

  /** Phase 1: fixed fields in place, offsets noted, bytes counted. */
  method ReadLeading(fs: seq<SszType>, input: ByteStream)
    returns (head: SszResult<seq<Slot>>, starts: seq<nat>, bytesRead: nat)
    requires input.Valid() && AllWellFormed(fs)
    modifies input`pos
    ensures input.Valid() && Matches(head, input.pos, ReadHead(fs, input.data, old(input.pos)))
    ensures head.Ok? ==> starts == StartsOf(head.value) && bytesRead == HeadWidth(fs)
    decreases MaxDepth(fs), 2
  {
    hide Deserialize, WellFormed, AllWellFormed, ReadHead, HeadWidth, SlotWidth, Width, IsFixed, Take, FromLE, MaxDepth,
      Depth;
    ghost var start := input.pos;
    var slots: seq<Slot> := [];
    starts, bytesRead := [], 0;
    SuffixWellFormed(fs, 0);
    ThenNothing(ReadHead(fs, input.data, start));
    for i := 0 to |fs|
      invariant input.Valid() && AllWellFormed(fs[i..])
      invariant ReadHead(fs, input.data, start) == Then(slots, ReadHead(fs[i..], input.data, input.pos))
      invariant starts == StartsOf(slots) && bytesRead + HeadWidth(fs[i..]) == HeadWidth(fs)
    {
      ShallowAt(fs, i);
      HeadStep(fs[i..], input.data, input.pos);
      ghost var before := input.pos;
      var slot: Slot;
      if IsFixed(fs[i]) {
        var value := DeserializeFrom(fs[i], input, Width(fs[i]));
        if value.Err? {
          return Err(SszError), starts, bytesRead;
        }
        slot := Inline(value.value);
        bytesRead := bytesRead + Width(fs[i]);
      } else {
        var offset := ReadOffset(input);
        if offset.Err? {
          return Err(SszError), starts, bytesRead;
        }
        slot := Offset(offset.value);
        starts := starts + [offset.value];
        bytesRead := bytesRead + 4;
      }
      StartsSnoc(slots, slot);
      ThenThen(slots, [slot], ReadHead(fs[i + 1..], input.data, input.pos));
      slots := slots + [slot];
    }
    assert fs[|fs|..] == [];
    HeadEnd(input.data, input.pos);
    ThenEnd(slots, input.pos);
    head := Ok(slots);
  }

  lemma SlotsAt(slots: seq<Slot>, i: nat)
    requires i < |slots|
    ensures slots[i..][0] == slots[i] && slots[i..][1..] == slots[i + 1..]
    ensures StartsOf(slots[i..]) == (if slots[i].Offset? then [slots[i].start] else []) + StartsOf(slots[i + 1..])
  {
  }

  /** Phase 2: every payload spans from its offset to the next; the budget closes the last span. */
  method ReadPayloads(fs: seq<SszType>, slots: seq<Slot>, starts: seq<nat>, scope: nat, input: ByteStream)
    returns (r: SszResult<seq<Value>>)
    requires input.Valid() && AllWellFormed(fs) && |slots| == |fs| && starts == StartsOf(slots)
    modifies input`pos
    ensures input.Valid() && Matches(r, input.pos, ReadTail(fs, slots, scope, input.data, old(input.pos)))
    decreases MaxDepth(fs), 2
  {
    hide Deserialize, WellFormed, AllWellFormed, ReadTail, NextStart, StartsOf, MaxDepth, Depth;
    ghost var start := input.pos;
    var values: seq<Value> := [];
    var bounds := starts + [scope];
    var j := 0;
    SuffixWellFormed(fs, 0);
    assert slots[0..] == slots && starts[0..] == starts;
    ThenNothing(ReadTail(fs, slots, scope, input.data, start));
    for i := 0 to |fs|
      invariant input.Valid() && AllWellFormed(fs[i..]) && j <= |starts| && starts[j..] == StartsOf(slots[i..])
      invariant ReadTail(fs, slots, scope, input.data, start) ==
                Then(values, ReadTail(fs[i..], slots[i..], scope, input.data, input.pos))
    {
      ShallowAt(fs, i);
      SlotsAt(slots, i);
      TailStep(fs[i..], slots[i..], scope, input.data, input.pos);
      var value: Value;
      if slots[i].Inline? {
        value := slots[i].value;
      } else {
        NextIsStart(slots[i + 1..], scope);
        SecondStart(starts, j, scope, slots[i].start, StartsOf(slots[i + 1..]));
        if bounds[j + 1] < bounds[j] {
          return Err(SszError);
        }
        var got := DeserializeFrom(fs[i], input, bounds[j + 1] - bounds[j]);
        if got.Err? {
          return Err(SszError);
        }
        value := got.value;
        j := j + 1;
      }
      ThenThen(values, [value], ReadTail(fs[i + 1..], slots[i + 1..], scope, input.data, input.pos));
      values := values + [value];
    }
    assert fs[|fs|..] == [] && slots[|fs|..] == [];
    TailEnd(scope, input.data, input.pos);
    ThenEnd(values, input.pos);
    return Ok(values);
  }

  lemma SecondStart(starts: seq<nat>, j: nat, scope: nat, first: nat, rest: seq<nat>)
    requires j <= |starts| && starts[j..] == [first] + rest
    ensures j < |starts| && starts[j] == first && starts[j + 1..] == rest
    ensures (starts + [scope])[j] == first && (starts + [scope])[j + 1] == (rest + [scope])[0]
  {
    assert starts[j..][0] == first;
    assert starts[j..][1..] == rest;
    if rest != [] {
      assert starts[j + 1] == starts[j..][1] == rest[0];
    }
  }

  lemma RowCases(fs: seq<SszType>, data: ByteString, pos: nat, scope: nat)
    requires pos <= |data| && AllWellFormed(fs)
    ensures ReadHead(fs, data, pos).Err? ==> ReadFields(fs, data, pos, scope).Err?
    ensures ReadHead(fs, data, pos).Ok? ==>
      var head := ReadHead(fs, data, pos).value;
      && |head.value| == |fs| && (StartsOf(head.value) == [] <==> AllFixed(fs))
      && (StartsOf(head.value) != [] && StartsOf(head.value)[0] != HeadWidth(fs) ==>
        ReadFields(fs, data, pos, scope).Err?)
      && (StartsOf(head.value) == [] || StartsOf(head.value)[0] == HeadWidth(fs) ==>
            ReadFields(fs, data, pos, scope) == ReadTail(fs, head.value, scope, data, head.next))
  {
    hide ReadTail, WellFormed, HeadWidth, StartsOf, NextStart, IsFixed;
    var head := ReadHead(fs, data, pos);
    if head.Ok? {
      NextIsStart(head.value.value, scope);
      NoStarts(head.value.value);
    }
  }

  /** Container.deserialize. */
  method ReadContainer(fs: seq<SszType>, input: ByteStream, scope: nat) returns (r: SszResult<seq<Value>>)
    requires input.Valid() && AllWellFormed(fs)
    modifies input`pos
    ensures input.Valid() && Matches(r, input.pos, ReadFields(fs, input.data, old(input.pos), scope))
    decreases MaxDepth(fs), 3
  {
    hide ReadFields, ReadHead, ReadTail, HeadWidth, StartsOf, AllWellFormed, MaxDepth, AllFixed;
    RowCases(fs, input.data, input.pos, scope);
    var head, starts, bytesRead := ReadLeading(fs, input);
    if head.Err? {
      return Err(SszError);
    }
    if starts != [] && starts[0] != bytesRead {
      return Err(SszError);
    }
    r := ReadPayloads(fs, head.value, starts, scope, input);
  }

  /** decode_bytes: the leaf overrides, or one value that leaves nothing unread. */
  method DecodeAll(t: SszType, data: ByteString) returns (r: SszResult<Value>)
    requires WellFormed(t)
    ensures r.Ok? == DecodeBytes(t, data).Ok? && (r.Ok? ==> r == DecodeBytes(t, data))
  {
    hide Deserialize, DecodeLeaf, WellFormed;
    if IsLeaf(t) {
      return DecodeLeaf(t, data);
    }
    var stream := new ByteStream(data);
    r := DeserializeFrom(t, stream, |data|);
    if r.Ok? && |data| - stream.pos != 0 {
      return Err(SszError);
    }
  }
}

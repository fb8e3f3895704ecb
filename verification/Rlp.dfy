/** Recursive Length Prefix: Yellow Paper, Appendix B (src/lean_spec/node/networking/enr/rlp.py). */
module Rlp {
  import opened Bytes

  const STRING_BASE := 0x80
  const LIST_BASE := 0xC0
  const SHORT_FORM_MAX := 55

  datatype Item = Str(bytes: ByteString) | List(items: seq<Item>)

  datatype RlpError = RlpError

  type RlpResult<+T> = Result<T, RlpError>

  // ---- big-endian lengths ----

  function FromBE(s: ByteString): (n: nat)
    decreases |s|
  {
    if s == [] then 0 else FromBE(s[..|s| - 1]) * 256 + s[|s| - 1]
  }

  /** Without leading zeros. */
  function ToBE(n: nat): (s: ByteString)
    ensures n > 0 ==> |s| > 0 && s[0] > 0
  {
    if n == 0 then [] else ToBE(n / 256) + [n % 256]
  }

  lemma {:induction false} FromToBE(n: nat)
    ensures FromBE(ToBE(n)) == n
  {
    if n > 0 {
      FromToBE(n / 256);
      assert ToBE(n)[..|ToBE(n)| - 1] == ToBE(n / 256);
    }
  }

  lemma {:induction false} ToFromBE(s: ByteString)
    requires s == [] || s[0] > 0
    ensures ToBE(FromBE(s)) == s
    ensures s != [] ==> FromBE(s) > 0
    decreases |s|
  {
    hide ToBE, FromBE;
    if s == [] {
      ZeroBE();
    } else {
      var front, last := s[..|s| - 1], s[|s| - 1];
      ToFromBE(front);
      assert s == front + [last];
      FromBEStep(s);
      ToBEStep(FromBE(front), last);
    }
  }

  lemma ZeroBE()
    ensures FromBE([]) == 0 && ToBE(0) == []
  {
  }

  lemma FromBEStep(s: ByteString)
    requires s != []
    ensures FromBE(s) == FromBE(s[..|s| - 1]) * 256 + s[|s| - 1]
  {
  }

  lemma BEStep(n: nat, b: Byte)
    ensures (n * 256 + b) / 256 == n && (n * 256 + b) % 256 == b
  {
  }

  lemma ToBEStep(n: nat, b: Byte)
    requires n > 0 || b > 0
    ensures n * 256 + b > 0 && ToBE(n * 256 + b) == ToBE(n) + [b]
  {
    BEStep(n, b);
  }

  lemma {:induction false} ToBELength(n: nat, k: nat)
    requires n < Pow256(k)
    ensures |ToBE(n)| <= k
  {
    if n > 0 {
      ToBELength(n / 256, k - 1);
    }
  }

  lemma {:induction false} ToBEMonotone(a: nat, b: nat)
    requires a <= b
    ensures |ToBE(a)| <= |ToBE(b)|
  {
    if a > 0 {
      ToBEMonotone(a / 256, b / 256);
    }
  }

  lemma {:induction false} FromBEBound(s: ByteString)
    ensures FromBE(s) < Pow256(|s|)
    decreases |s|
  {
    if s != [] {
      FromBEBound(s[..|s| - 1]);
    }
  }

  // ---- encoding ----

  /** _with_length_prefix; fails when the prefix is no byte. */
  function WithLengthPrefix(payload: ByteString, base: nat): (r: RlpResult<ByteString>)
    requires base == STRING_BASE || base == LIST_BASE
  {
    if |payload| <= SHORT_FORM_MAX then Ok([base + |payload|] + payload)
    else
      var lengthBytes := ToBE(|payload|);
      if base + SHORT_FORM_MAX + |lengthBytes| > 255 then Err(RlpError)
      else Ok([base + SHORT_FORM_MAX + |lengthBytes|] + lengthBytes + payload)
  }

  /** encode_rlp. */
  function Encode(item: Item): (r: RlpResult<ByteString>)
    decreases item, 1
  {
    match item
    case Str(s) => if |s| == 1 && s[0] < STRING_BASE then Ok(s) else WithLengthPrefix(s, STRING_BASE)
    case List(items) =>
      match EncodeAll(items)
      case Err(e) => Err(e)
      case Ok(payload) => WithLengthPrefix(payload, LIST_BASE)
  }

  function EncodeAll(items: seq<Item>): (r: RlpResult<ByteString>)
    decreases items, 0
  {
    if items == [] then Ok([])
    else
      match Encode(items[0])
      case Err(e) => Err(e)
      case Ok(first) =>
        match EncodeAll(items[1..])
        case Err(e) => Err(e)
        case Ok(rest) => Ok(first + rest)
  }

  // ---- decoding ----

  datatype Span = Span(start: nat, end: nat)

  datatype Read<+T> = Read(value: T, next: nat)

  /** _decode_length. */
  function DecodeLength(data: ByteString, offset: nat, base: nat): (r: RlpResult<Span>)
    requires offset < |data| && base <= data[offset] < base + 64
    ensures r.Ok? ==> offset < r.value.start <= r.value.end <= |data|
  {
    var short := data[offset] - base;
    if short <= SHORT_FORM_MAX then
      if offset + 1 + short > |data| then Err(RlpError) else Ok(Span(offset + 1, offset + 1 + short))
    else
      var lengthStart := offset + 1;
      var lengthEnd := lengthStart + (short - SHORT_FORM_MAX);
      if lengthEnd > |data| then Err(RlpError)
      else if short - SHORT_FORM_MAX > 1 && data[lengthStart] == 0 then Err(RlpError)
      else
        var length := FromBE(data[lengthStart..lengthEnd]);
        if length <= SHORT_FORM_MAX || lengthEnd + length > |data| then Err(RlpError)
        else Ok(Span(lengthEnd, lengthEnd + length))
  }

  function BaseOf(prefix: Byte): (base: nat)
    requires prefix >= STRING_BASE
    ensures base == STRING_BASE || base == LIST_BASE
    ensures base <= prefix < base + 64
  {
    if prefix < LIST_BASE then STRING_BASE else LIST_BASE
  }

  /** _decode_item. */
  function DecodeItem(data: ByteString, offset: nat): (r: RlpResult<Read<Item>>)
    requires offset < |data|
    ensures r.Ok? ==> offset < r.value.next <= |data|
    decreases |data| - offset, 0
  {
    if data[offset] < STRING_BASE then Ok(Read(Str([data[offset]]), offset + 1))
    else
      match DecodeLength(data, offset, BaseOf(data[offset]))
      case Err(e) => Err(e)
      case Ok(span) =>
        if data[offset] < LIST_BASE then Ok(Read(Str(data[span.start..span.end]), span.end))
        else
          match DecodeItems(data, span.start, span.end)
          case Err(e) => Err(e)
          case Ok(items) => if items.next != span.end then Err(RlpError) else Ok(Read(List(items.value), span.end))
  }

  /** The cursor loop over a list payload: children are bounded by the buffer, not by the payload. */
  function DecodeItems(data: ByteString, cursor: nat, end: nat): (r: RlpResult<Read<seq<Item>>>)
    requires end <= |data|
    ensures r.Ok? ==> cursor <= r.value.next
    decreases |data| - cursor, 1
  {
    if cursor >= end then Ok(Read([], cursor))
    else
      match DecodeItem(data, cursor)
      case Err(e) => Err(e)
      case Ok(first) =>
        match DecodeItems(data, first.next, end)
        case Err(e) => Err(e)
        case Ok(rest) => Ok(Read([first.value] + rest.value, rest.next))
  }

  /** decode_rlp. */
  function Decode(data: ByteString): (r: RlpResult<Item>)
  {
    if data == [] then Err(RlpError)
    else
      match DecodeItem(data, 0)
      case Err(e) => Err(e)
      case Ok(got) => if got.next != |data| then Err(RlpError) else Ok(got.value)
  }

  /** What the items still to come add to those read so far. */
  function Append(items: seq<Item>, rest: RlpResult<Read<seq<Item>>>): RlpResult<Read<seq<Item>>>
  {
    match rest
    case Err(e) => Err(e)
    case Ok(got) => Ok(Read(items + got.value, got.next))
  }

  lemma AppendStep(items: seq<Item>, item: Item, rest: RlpResult<Read<seq<Item>>>)
    ensures Append(items + [item], rest) == Append(items, Append([item], rest))
  {
    if rest.Ok? {
      assert items + [item] + rest.value.value == items + ([item] + rest.value.value);
    }
  }

  lemma AppendNothing(rest: RlpResult<Read<seq<Item>>>)
    ensures Append([], rest) == rest
  {
    if rest.Ok? {
      assert [] + rest.value.value == rest.value.value;
    }
  }

  lemma ItemsUnfold(data: ByteString, cursor: nat, end: nat)
    requires end <= |data|
    ensures cursor >= end ==> DecodeItems(data, cursor, end) == Ok(Read([], cursor))
    ensures cursor < end ==>
      var first := DecodeItem(data, cursor);
      DecodeItems(data, cursor, end) ==
      if first.Err? then Err(first.error) else Append([first.value.value], DecodeItems(data, first.value.next, end))
  {
    hide DecodeItem;
  }

  /** _decode_item with its cursor loop. */
  method DecodeItemLoop(data: ByteString, offset: nat) returns (r: RlpResult<Read<Item>>)
    requires offset < |data|
    ensures r == DecodeItem(data, offset)
    decreases |data| - offset
  {
    hide DecodeLength, DecodeItems;
    var prefix := data[offset];
    if prefix < STRING_BASE {
      assert data[offset..offset + 1] == [prefix];
      return Ok(Read(Str(data[offset..offset + 1]), offset + 1));
    }
    var base := BaseOf(prefix);
    var span := DecodeLength(data, offset, base);
    if span.Err? {
      return Err(span.error);
    }
    var start, end := span.value.start, span.value.end;
    if base == STRING_BASE {
      return Ok(Read(Str(data[start..end]), end));
    }
    var items: seq<Item> := [];
    var cursor := start;
    AppendNothing(DecodeItems(data, start, end));
    while cursor < end
      invariant start <= cursor
      invariant DecodeItems(data, start, end) == Append(items, DecodeItems(data, cursor, end))
      decreases |data| - cursor
    {
      ItemsUnfold(data, cursor, end);
      var inner := DecodeItemLoop(data, cursor);
      if inner.Err? {
        return Err(inner.error);
      }
      AppendStep(items, inner.value.value, DecodeItems(data, inner.value.next, end));
      items := items + [inner.value.value];
      cursor := inner.value.next;
    }
    ItemsUnfold(data, cursor, end);
    assert items + [] == items;
    if cursor != end {
      return Err(RlpError);
    }
    return Ok(Read(List(items), end));
  }

  // ---- round trip ----

  lemma {:induction false} Pow256Monotone(a: nat, b: nat)
    requires a <= b
    ensures Pow256(a) <= Pow256(b)
  {
    if a < b {
      Pow256Monotone(a, b - 1);
    }
  }

  /** Bytes left for the length behind a long prefix. */
  function LengthRoom(base: nat): nat
  {
    if base == LIST_BASE then 8 else 72
  }

  lemma {:induction false} ToBEFits(n: nat, k: nat)
    ensures |ToBE(n)| <= k <==> n < Pow256(k)
  {
    hide ToBE, FromBE;
    if n < Pow256(k) {
      ToBELength(n, k);
    } else if |ToBE(n)| <= k {
      FromToBE(n);
      FromBEBound(ToBE(n));
      Pow256Monotone(|ToBE(n)|, k);
    }
  }

  /** Exactly the lists shorter than 2^64 bytes, and the strings shorter than 2^576, have a prefix. */
  lemma PrefixAccepts(payload: ByteString, base: nat)
    requires base == STRING_BASE || base == LIST_BASE
    ensures WithLengthPrefix(payload, base).Ok? <==> |payload| < Pow256(LengthRoom(base))
  {
    Pow256Monotone(1, LengthRoom(base));
    assert Pow256(1) == 256;
    hide ToBE, FromBE, Pow256;
    ToBEFits(|payload|, LengthRoom(base));
  }

  /** A length prefix reads back as the span of its payload. */
  lemma PrefixRoundTrip(payload: ByteString, base: nat, data: ByteString, offset: nat)
    requires base == STRING_BASE || base == LIST_BASE
    requires WithLengthPrefix(payload, base).Ok? && Holds(data, offset, WithLengthPrefix(payload, base).value)
    requires |payload| < Pow256(8)
    ensures var n := |WithLengthPrefix(payload, base).value|;
      && offset + n <= |data| && n > 0 && base <= data[offset] < base + 64
      && DecodeLength(data, offset, base) == Ok(Span(offset + n - |payload|, offset + n))
      && data[offset + n - |payload|..offset + n] == payload
  {
    hide ToBE, FromBE, Pow256;
    var s := WithLengthPrefix(payload, base).value;
    assert data[offset] == data[offset..offset + |s|][0] == s[0];
    if |payload| <= SHORT_FORM_MAX {
      HoldsSplit(data, offset, [base + |payload|], payload);
    } else {
      LongPrefixBytes(payload, base, data, offset);
      FromToBE(|payload|);
    }
  }

  lemma LongPrefixBytes(payload: ByteString, base: nat, data: ByteString, offset: nat)
    requires base == STRING_BASE || base == LIST_BASE
    requires |payload| > SHORT_FORM_MAX
    requires WithLengthPrefix(payload, base).Ok? && Holds(data, offset, WithLengthPrefix(payload, base).value)
    requires |payload| < Pow256(8)
    ensures var lb := ToBE(|payload|);
      && 1 <= |lb| <= 8 && lb[0] > 0
      && |WithLengthPrefix(payload, base).value| == 1 + |lb| + |payload|
      && offset + 1 + |lb| + |payload| <= |data|
      && data[offset] == base + SHORT_FORM_MAX + |lb|
      && data[offset + 1..offset + 1 + |lb|] == lb && data[offset + 1] == lb[0]
      && data[offset + 1 + |lb|..offset + 1 + |lb| + |payload|] == payload
  {
    hide ToBE, Pow256;
    var lb := ToBE(|payload|);
    ToBEFits(|payload|, 8);
    assert WithLengthPrefix(payload, base).value == [base + SHORT_FORM_MAX + |lb|] + (lb + payload);
    HoldsSplit(data, offset, [base + SHORT_FORM_MAX + |lb|], lb + payload);
    HoldsSplit(data, offset + 1, lb, payload);
    assert data[offset] == data[offset..offset + 1][0];
    assert data[offset + 1] == data[offset + 1..offset + 1 + |lb|][0] == lb[0];
  }

  lemma EncodeNonEmpty(item: Item)
    requires Encode(item).Ok?
    ensures |Encode(item).value| > 0
  {
    hide EncodeAll, ToBE;
  }

  /** A string whose length fits the eight bytes that a string prefix can announce; any list. */
  predicate Short(item: Item)
  {
    item.Str? ==> |item.bytes| < Pow256(8)
  }

  lemma StringRoundTrip(s: ByteString, data: ByteString, offset: nat)
    requires |s| < Pow256(8)
    requires Encode(Str(s)).Ok? && Holds(data, offset, Encode(Str(s)).value)
    ensures offset < |data| && DecodeItem(data, offset) == Ok(Read(Str(s), offset + |Encode(Str(s)).value|))
  {
    hide WithLengthPrefix, DecodeLength, Pow256;
    if |s| == 1 && s[0] < STRING_BASE {
      assert data[offset] == data[offset..offset + 1][0] == s[0];
      assert s == [s[0]];
    } else {
      PrefixRoundTrip(s, STRING_BASE, data, offset);
    }
  }

  lemma ListUnfold(items: seq<Item>)
    requires Encode(List(items)).Ok?
    ensures EncodeAll(items).Ok? && WithLengthPrefix(EncodeAll(items).value, LIST_BASE) == Encode(List(items))
    ensures |EncodeAll(items).value| < Pow256(8)
  {
    hide WithLengthPrefix, Pow256;
    PrefixAccepts(EncodeAll(items).value, LIST_BASE);
  }

  /** Inside a list that has a prefix, every string is short. */
  lemma ShortInside(item: Item)
    requires Encode(item).Ok? && |Encode(item).value| < Pow256(8)
    ensures Short(item)
  {
    hide EncodeAll, ToBE, Pow256;
  }

  lemma ShortString(s: ByteString)
    requires Short(Str(s))
    ensures |s| < Pow256(8)
  {
  }

  lemma AllUnfold(items: seq<Item>)
    requires EncodeAll(items).Ok?
    ensures items == [] ==> EncodeAll(items).value == []
    ensures items != [] ==>
      && Encode(items[0]).Ok? && EncodeAll(items[1..]).Ok?
      && EncodeAll(items).value == Encode(items[0]).value + EncodeAll(items[1..]).value
      && items == [items[0]] + items[1..]
  {
    hide Encode;
  }

  lemma ListFold(data: ByteString, offset: nat, span: Span, items: seq<Item>)
    requires offset < |data| && LIST_BASE <= data[offset] < LIST_BASE + 64
    requires DecodeLength(data, offset, LIST_BASE) == Ok(span)
    requires DecodeItems(data, span.start, span.end) == Ok(Read(items, span.end))
    ensures DecodeItem(data, offset) == Ok(Read(List(items), span.end))
  {
    hide DecodeLength, DecodeItems;
  }

  lemma {:induction false} RoundTripAt(item: Item, data: ByteString, offset: nat)
    requires Encode(item).Ok? && Short(item) && Holds(data, offset, Encode(item).value)
    ensures offset < |data| && DecodeItem(data, offset) == Ok(Read(item, offset + |Encode(item).value|))
    decreases item, 1
  {
    hide *;
    match item
    case Str(s) => ShortString(s); StringRoundTrip(s, data, offset);
    case List(items) =>
      ListUnfold(items);
      var payload := EncodeAll(items).value;
      BaseConstants();
      PrefixRoundTrip(payload, LIST_BASE, data, offset);
      var n := |Encode(item).value|;
      HoldsFrom(data, offset + n - |payload|, payload);
      RoundTripAll(items, data, offset + n - |payload|, offset + n);
      ListFold(data, offset, Span(offset + n - |payload|, offset + n), items);
  }

  lemma BaseConstants()
    ensures STRING_BASE == 0x80 && LIST_BASE == 0xC0 && SHORT_FORM_MAX == 55
  {
  }

  lemma HoldsFrom(data: ByteString, pos: nat, s: ByteString)
    requires pos + |s| <= |data| && data[pos..pos + |s|] == s
    ensures Holds(data, pos, s)
  {
  }

  lemma {:induction false} RoundTripAll(items: seq<Item>, data: ByteString, cursor: nat, end: nat)
    requires EncodeAll(items).Ok? && |EncodeAll(items).value| < Pow256(8) && Holds(data, cursor, EncodeAll(items).value)
    requires end == cursor + |EncodeAll(items).value| <= |data|
    ensures DecodeItems(data, cursor, end) == Ok(Read(items, end))
    decreases items, 0
  {
    hide *;
    AllUnfold(items);
    ItemsUnfold(data, cursor, end);
    if items != [] {
      var first, rest := Encode(items[0]).value, EncodeAll(items[1..]).value;
      HoldsSplit(data, cursor, first, rest);
      EncodeNonEmpty(items[0]);
      ShortInside(items[0]);
      RoundTripAt(items[0], data, cursor);
      RoundTripAll(items[1..], data, cursor + |first|, end);
      AppendIs([items[0]], items[1..], end);
    }
  }

  lemma AppendIs(a: seq<Item>, b: seq<Item>, next: nat)
    ensures Append(a, Ok(Read(b, next))) == Ok(Read(a + b, next))
  {
  }

  /** A string too long for its prefix is announced as a list. */
  lemma LongStringMisread(s: ByteString)
    requires Encode(Str(s)).Ok? && |s| >= Pow256(8)
    ensures |Encode(Str(s)).value| > 0 && Encode(Str(s)).value[0] >= LIST_BASE
  {
    assert |s| > SHORT_FORM_MAX by {
      Pow256Monotone(1, 8);
      assert Pow256(1) == 256;
    }
    hide ToBE, Pow256;
    ToBEFits(|s|, 8);
  }

  lemma ListPrefix(data: ByteString)
    requires data != [] && data[0] >= LIST_BASE
    ensures DecodeItem(data, 0).Ok? ==> DecodeItem(data, 0).value.value.List?
  {
    hide DecodeItems, DecodeLength;
  }

  /**
   Of the items that have an encoding, decode(encode(item)) == item exactly for lists and strings under 2^64
   bytes.
   */
  lemma RoundTrip(item: Item)
    requires Encode(item).Ok?
    ensures Decode(Encode(item).value) == Ok(item) <==> Short(item)
  {
    hide Encode, DecodeItem, Pow256;
    var s := Encode(item).value;
    assert s[0..|s|] == s;
    EncodeNonEmpty(item);
    if Short(item) {
      RoundTripAt(item, s, 0);
    } else {
      LongStringMisread(item.bytes);
      ListPrefix(s);
    }
  }

  // ---- canonicality ----

  /** No byte below 0x80 was written as 0x81 and the byte, here or inside. */
  predicate Plain(data: ByteString, offset: nat)
    requires offset < |data| && DecodeItem(data, offset).Ok?
    decreases |data| - offset, 0
  {
    data[offset] < STRING_BASE
    || (var span := DecodeLength(data, offset, BaseOf(data[offset])).value;
        if data[offset] < LIST_BASE then !(span.end - span.start == 1 && data[span.start] < STRING_BASE)
        else PlainItems(data, span.start, span.end))
  }

  predicate PlainItems(data: ByteString, cursor: nat, end: nat)
    requires end <= |data| && DecodeItems(data, cursor, end).Ok?
    decreases |data| - cursor, 1
  {
    cursor < end ==>
      Plain(data, cursor) && PlainItems(data, DecodeItem(data, cursor).value.next, end)
  }

  /** The prefix read is the one prefix of a payload of that length. */
  lemma PrefixReencodes(data: ByteString, offset: nat, base: nat, payload: ByteString)
    requires offset < |data| && base <= data[offset] < base + 64
    requires base == STRING_BASE || base == LIST_BASE
    requires DecodeLength(data, offset, base).Ok?
    requires var span := DecodeLength(data, offset, base).value; |payload| <= span.end - span.start
    ensures var span := DecodeLength(data, offset, base).value;
      && WithLengthPrefix(payload, base).Ok?
      && |WithLengthPrefix(payload, base).value| <= span.end - offset
      && (|payload| < span.end - span.start ==> |WithLengthPrefix(payload, base).value| < span.end - offset)
      && (payload == data[span.start..span.end] ==> WithLengthPrefix(payload, base).value == data[offset..span.end])
  {
    hide ToBE, FromBE;
    var span := DecodeLength(data, offset, base).value;
    var short := data[offset] - base;
    if short > SHORT_FORM_MAX {
      var lb := data[offset + 1..span.start];
      var n := span.end - span.start;
      assert lb[0] == data[offset + 1];
      NonzeroLead(lb, n);
      ToFromBE(lb);
      ToBEMonotone(|payload|, n);
      assert data[offset..span.end] == [data[offset]] + lb + data[span.start..span.end];
    } else {
      assert data[offset..span.end] == [data[offset]] + data[span.start..span.end];
    }
  }

  lemma NonzeroLead(lb: ByteString, n: nat)
    requires |lb| >= 1 && FromBE(lb) == n > 0 && (|lb| > 1 ==> lb[0] != 0)
    ensures lb[0] > 0
  {
    if |lb| == 1 {
      assert FromBE(lb[..0]) == 0;
    }
  }

  lemma StringReencodes(data: ByteString, offset: nat)
    requires offset < |data| && DecodeItem(data, offset).Ok? && data[offset] < LIST_BASE
    ensures Reencoded(data, offset)
  {
    hide WithLengthPrefix, DecodeLength, DecodeItems;
    if data[offset] < STRING_BASE {
      assert data[offset..offset + 1] == [data[offset]];
    } else {
      var span := DecodeLength(data, offset, STRING_BASE).value;
      PrefixReencodes(data, offset, STRING_BASE, data[span.start..span.end]);
    }
  }

  /** Re-encoding what was read at offset gives the bytes read if they were plain, fewer otherwise. */
  ghost predicate Reencoded(data: ByteString, offset: nat)
    requires offset < |data| && DecodeItem(data, offset).Ok?
  {
    var got := DecodeItem(data, offset).value;
    && Encode(got.value).Ok?
    && (Plain(data, offset) ==> Encode(got.value).value == data[offset..got.next])
    && (!Plain(data, offset) ==> |Encode(got.value).value| < got.next - offset)
  }

  ghost predicate AllReencoded(data: ByteString, cursor: nat, end: nat)
    requires end <= |data| && DecodeItems(data, cursor, end).Ok?
  {
    var got := DecodeItems(data, cursor, end).value;
    && got.next <= |data| && EncodeAll(got.value).Ok?
    && (PlainItems(data, cursor, end) ==> EncodeAll(got.value).value == data[cursor..got.next])
    && (!PlainItems(data, cursor, end) ==> |EncodeAll(got.value).value| < got.next - cursor)
  }

  lemma ListStep(data: ByteString, offset: nat)
    requires offset < |data| && DecodeItem(data, offset).Ok? && data[offset] >= LIST_BASE
    ensures DecodeLength(data, offset, LIST_BASE).Ok?
    ensures var span := DecodeLength(data, offset, LIST_BASE).value;
      && offset < span.start <= span.end <= |data|
      && DecodeItems(data, span.start, span.end).Ok?
      && var items := DecodeItems(data, span.start, span.end).value;
      && items.next == span.end
      && (AllReencoded(data, span.start, span.end) ==> Reencoded(data, offset))
  {
    hide WithLengthPrefix, DecodeLength, DecodeItems, EncodeAll, PlainItems;
    var span := DecodeLength(data, offset, LIST_BASE).value;
    var items := DecodeItems(data, span.start, span.end).value;
    if AllReencoded(data, span.start, span.end) {
      PrefixReencodes(data, offset, LIST_BASE, EncodeAll(items.value).value);
    }
  }

  lemma ItemsStep(data: ByteString, cursor: nat, end: nat)
    requires end <= |data| && DecodeItems(data, cursor, end).Ok? && cursor < end
    ensures DecodeItem(data, cursor).Ok?
    ensures var next := DecodeItem(data, cursor).value.next;
      && DecodeItems(data, next, end).Ok?
      && (Reencoded(data, cursor) && AllReencoded(data, next, end) ==> AllReencoded(data, cursor, end))
  {
    hide DecodeItem, Encode, Plain;
    var first := DecodeItem(data, cursor).value;
    if Reencoded(data, cursor) && AllReencoded(data, first.next, end) {
      var rest := DecodeItems(data, first.next, end).value;
      assert data[cursor..rest.next] == data[cursor..first.next] + data[first.next..rest.next];
      assert ([first.value] + rest.value)[1..] == rest.value;
    }
  }

  lemma ItemsEnd(data: ByteString, cursor: nat, end: nat)
    requires end <= cursor <= |data|
    ensures DecodeItems(data, cursor, end).Ok? && AllReencoded(data, cursor, end)
  {
  }

  lemma {:induction false} ReencodeAt(data: ByteString, offset: nat)
    requires offset < |data| && DecodeItem(data, offset).Ok?
    ensures Reencoded(data, offset)
    decreases |data| - offset, 0
  {
    hide *;
    BaseConstants();
    if data[offset] < LIST_BASE {
      StringReencodes(data, offset);
    } else {
      ListStep(data, offset);
      var span := DecodeLength(data, offset, LIST_BASE).value;
      ReencodeAll(data, span.start, span.end);
    }
  }

  lemma {:induction false} ReencodeAll(data: ByteString, cursor: nat, end: nat)
    requires cursor <= |data| && end <= |data| && DecodeItems(data, cursor, end).Ok?
    ensures AllReencoded(data, cursor, end)
    decreases |data| - cursor, 1
  {
    hide *;
    if cursor >= end {
      ItemsEnd(data, cursor, end);
    } else {
      ItemsStep(data, cursor, end);
      var next := DecodeItem(data, cursor).value.next;
      ReencodeAt(data, cursor);
      ReencodeAll(data, next, end);
    }
  }

  /** Re-encoding an accepted input never lengthens it, and reproduces it exactly when it was plain. */
  lemma Canonical(data: ByteString)
    requires Decode(data).Ok?
    ensures Encode(Decode(data).value).Ok?
    ensures |Encode(Decode(data).value).value| <= |data|
    ensures Encode(Decode(data).value).value == data <==> Plain(data, 0)
  {
    hide Encode, DecodeItem, Plain;
    ReencodeAt(data, 0);
    assert data[0..|data|] == data;
  }

  /** The decoder does accept a second encoding of a small byte. */
  lemma SecondEncodingAccepted()
    ensures Decode([0x81, 0x05]) == Ok(Str([0x05])) && Encode(Str([0x05])) == Ok([0x05])
    ensures !Plain([0x81, 0x05], 0)
  {
    var data: ByteString := [0x81, 0x05];
    assert data[1..2] == [0x05];
  }
}

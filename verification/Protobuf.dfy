/**
 The protobuf wire format of gossipsub RPCs (src/lean_spec/node/networking/gossipsub/rpc.py).

 Every decoder of the source walks its fields the same way and differs only in what it does with
 each one, so the walk is one function here, parameterised by that handler.
 */
module Protobuf {
  import opened Bytes
  import Varint

  const VARINT_MAX_BYTES := 10

  /** A decoded field: a number, a byte string, or a fixed-width value that is skipped. */
  datatype Token = Num(field: nat, value: nat) | Chunk(field: nat, data: ByteString) | Fixed(field: nat)

  datatype Read = Read(token: Token, consumed: nat)

  predicate Fits(n: nat)
  {
    n < Varint.Pow128(VARINT_MAX_BYTES)
  }

  // ---- encoding ----

  /** encode_uint64 and encode_bool. */
  function NumField(field: nat, value: nat): ByteString
  {
    Varint.Groups(8 * field) + Varint.Groups(value)
  }

  /** encode_length_delimited. */
  function Field(field: nat, data: ByteString): (s: ByteString)
    ensures |s| > 0
  {
    Varint.Groups(8 * field + 2) + Varint.Groups(|data|) + data
  }

  /** A field that is written only when it is not empty. */
  function OptionalField(field: nat, data: ByteString): ByteString
  {
    if data == [] then [] else Field(field, data)
  }

  /** A repeated field: one occurrence per element. */
  function Repeated(field: nat, items: seq<ByteString>): ByteString
  {
    if items == [] then [] else Field(field, items[0]) + Repeated(field, items[1..])
  }

  // ---- decoding ----

  function NextNum(field: nat, data: ByteString, pos: nat): Option<Read>
    requires pos <= |data|
  {
    match Varint.Decode(data[pos..], VARINT_MAX_BYTES)
    case Err(_) => None
    case Ok(d) => Some(Read(Num(field, d.value), pos + d.consumed))
  }

  function NextChunk(field: nat, data: ByteString, pos: nat): Option<Read>
    requires pos <= |data|
  {
    match Varint.Decode(data[pos..], VARINT_MAX_BYTES)
    case Err(_) => None
    case Ok(d) =>
      var start := pos + d.consumed;
      if start + d.value > |data| then None
      else Some(Read(Chunk(field, data[start..start + d.value]), start + d.value))
  }

  /** One field at the front.  Fixed-width fields are skipped without a bounds check, so they may run past the end. */
  function Next(data: ByteString): (r: Option<Read>)
    ensures r.Some? ==> r.value.consumed > 0
  {
    match Varint.Decode(data, VARINT_MAX_BYTES)
    case Err(_) => None
    case Ok(d) =>
      var field, wire := d.value / 8, d.value % 8;
      if wire == 0 then NextNum(field, data, d.consumed)
      else if wire == 2 then NextChunk(field, data, d.consumed)
      else if wire == 5 then Some(Read(Fixed(field), d.consumed + 4))
      else if wire == 1 then Some(Read(Fixed(field), d.consumed + 8))
      else None
  }

  function Drop(data: ByteString, n: nat): ByteString
  {
    if n <= |data| then data[n..] else []
  }

  /** All fields, or None when one is malformed. */
  function Tokens(data: ByteString): Option<seq<Token>>
    decreases |data|
  {
    if data == [] then Some([])
    else
      match Next(data)
      case None => None
      case Some(first) => Prepend([first.token], Tokens(Drop(data, first.consumed)))
  }

  function Prepend(front: seq<Token>, rest: Option<seq<Token>>): Option<seq<Token>>
  {
    if rest.None? then None else Some(front + rest.value)
  }

  /** Apply a field handler from left to right; None when it rejects a field. */
  function Fold<S>(step: (S, Token) -> Option<S>, s: S, tokens: seq<Token>): Option<S>
    decreases |tokens|
  {
    if tokens == [] then Some(s)
    else
      var front := Fold(step, s, tokens[..|tokens| - 1]);
      if front.None? then None else step(front.value, tokens[|tokens| - 1])
  }

  function Decode<S>(step: (S, Token) -> Option<S>, s: S, data: ByteString): Option<S>
  {
    match Tokens(data)
    case None => None
    case Some(tokens) => Fold(step, s, tokens)
  }

  // ---- the source's loops ----

  /** decode_tag, then _decode_length_at or _skip_field. */
  method ReadField(data: ByteString, start: nat) returns (r: Option<Read>)
    requires start < |data|
    ensures r == Next(data[start..])
  {
    hide Varint.Decode;
    var view := data[start..];
    var tag := Varint.DecodeVarint(view, 0, VARINT_MAX_BYTES);
    assert view[0..] == view;
    if tag.Err? {
      return None;
    }
    var field, wire, pos := tag.value.value / 8, tag.value.value % 8, tag.value.consumed;
    if wire == 0 {
      var number := Varint.DecodeVarint(view, pos, VARINT_MAX_BYTES);
      return if number.Err? then None else Some(Read(Num(field, number.value.value), pos + number.value.consumed));
    } else if wire == 2 {
      var length := Varint.DecodeVarint(view, pos, VARINT_MAX_BYTES);
      if length.Err? {
        return None;
      }
      pos := pos + length.value.consumed;
      if pos + length.value.value > |view| {
        return None;
      }
      return Some(Read(Chunk(field, view[pos..pos + length.value.value]), pos + length.value.value));
    } else if wire == 5 {
      return Some(Read(Fixed(field), pos + 4));
    } else if wire == 1 {
      return Some(Read(Fixed(field), pos + 8));
    }
    return None;
  }

  /** The loop of every decode: read a field, hand it over, move on. */
  method DecodeLoop<S>(step: (S, Token) -> Option<S>, init: S, data: ByteString) returns (r: Option<S>)
    ensures r == Decode(step, init, data)
  {
    hide Next, Fold;
    var s := init;
    var pos: nat := 0;
    ghost var seen: seq<Token> := [];
    FoldStart(step, init);
    assert data[0..] == data;
    PrependEmpty(Tokens(data));
    while pos < |data|
      invariant Tokens(data) == Prepend(seen, Tokens(Drop(data, pos)))
      invariant Fold(step, init, seen) == Some(s)
      decreases |data| - pos
    {
      var field := ReadField(data, pos);
      TokensStep(data[pos..]);
      if field.None? {
        return None;
      }
      var next := step(s, field.value.token);
      FoldSnoc(step, init, seen, field.value.token);
      DropDrop(data, pos, field.value.consumed);
      PrependAssoc(seen, field.value.token, Tokens(Drop(data, pos + field.value.consumed)));
      if next.None? {
        FoldStuck(step, init, seen + [field.value.token], Tokens(Drop(data, pos + field.value.consumed)));
        return None;
      }
      seen := seen + [field.value.token];
      s := next.value;
      pos := pos + field.value.consumed;
    }
    assert Drop(data, pos) == [];
    PrependNothing(seen);
    return Some(s);
  }

  // ---- laws of the walk ----

  lemma FoldStart<S>(step: (S, Token) -> Option<S>, s: S)
    ensures Fold(step, s, []) == Some(s)
  {
  }

  lemma FoldSnoc<S>(step: (S, Token) -> Option<S>, s: S, tokens: seq<Token>, t: Token)
    ensures Fold(step, s, tokens + [t]) ==
            if Fold(step, s, tokens).None? then None else step(Fold(step, s, tokens).value, t)
  {
    assert (tokens + [t])[..|tokens|] == tokens;
  }

  lemma {:induction false} FoldConcat<S>(step: (S, Token) -> Option<S>, s: S, a: seq<Token>, b: seq<Token>)
    ensures Fold(step, s, a + b) == if Fold(step, s, a).None? then None else Fold(step, Fold(step, s, a).value, b)
    decreases |b|
  {
    if b == [] {
      assert a + b == a;
    } else {
      var n := |b| - 1;
      assert a + b == (a + b[..n]) + [b[n]];
      FoldConcat(step, s, a, b[..n]);
      FoldSnoc(step, s, a + b[..n], b[n]);
    }
  }

  lemma FoldStuck<S>(step: (S, Token) -> Option<S>, s: S, tokens: seq<Token>, rest: Option<seq<Token>>)
    requires Fold(step, s, tokens).None?
    ensures Prepend(tokens, rest).Some? ==> Fold(step, s, Prepend(tokens, rest).value).None?
  {
    if rest.Some? {
      FoldConcat(step, s, tokens, rest.value);
    }
  }

  lemma TokensStep(data: ByteString)
    requires data != []
    ensures Tokens(data) == match Next(data)
                            case None => None
                            case Some(first) => Prepend([first.token], Tokens(Drop(data, first.consumed)))
  {
  }

  lemma DropDrop(data: ByteString, m: nat, n: nat)
    requires m <= |data|
    ensures Drop(data, m) == data[m..] && Drop(data[m..], n) == Drop(data, m + n)
  {
  }

  lemma PrependAssoc(seen: seq<Token>, t: Token, rest: Option<seq<Token>>)
    ensures Prepend(seen, Prepend([t], rest)) == Prepend(seen + [t], rest)
  {
    if rest.Some? {
      assert seen + ([t] + rest.value) == seen + [t] + rest.value;
    }
  }

  lemma PrependEmpty(rest: Option<seq<Token>>)
    ensures Prepend([], rest) == rest
  {
    if rest.Some? {
      assert [] + rest.value == rest.value;
    }
  }

  lemma PrependNothing(seen: seq<Token>)
    ensures Prepend(seen, Some([])) == Some(seen)
  {
    assert seen + [] == seen;
  }

  // ---- encoded fields are read back ----

  lemma VarintFits(value: nat, rest: ByteString)
    requires Fits(value)
    ensures Varint.Decode(Varint.Groups(value) + rest, VARINT_MAX_BYTES) ==
            Ok(Varint.Decoded(value, |Varint.Groups(value)|))
  {
    Varint.EncodeAccepts(value, VARINT_MAX_BYTES);
    Varint.RoundTrip(value, VARINT_MAX_BYTES, rest);
  }

  lemma SmallFits(field: nat)
    requires field < 16
    ensures Fits(8 * field) && Fits(8 * field + 2)
  {
    assert Varint.Pow128(2) == 0x4000;
    Varint.Pow128Grows(2, VARINT_MAX_BYTES);
  }

  lemma TagSplit(field: nat, wire: nat)
    requires wire < 8
    ensures (8 * field + wire) / 8 == field && (8 * field + wire) % 8 == wire
  {
  }

  lemma NextOf(data: ByteString, field: nat, wire: nat, consumed: nat)
    requires wire < 8 && Varint.Decode(data, VARINT_MAX_BYTES) == Ok(Varint.Decoded(8 * field + wire, consumed))
    ensures consumed <= |data|
    ensures wire == 0 ==> Next(data) == NextNum(field, data, consumed)
    ensures wire == 2 ==> Next(data) == NextChunk(field, data, consumed)
    ensures wire == 5 ==> Next(data) == Some(Read(Fixed(field), consumed + 4))
    ensures wire == 1 ==> Next(data) == Some(Read(Fixed(field), consumed + 8))
  {
    hide NextNum, NextChunk, Varint.DecodeFrom;
    TagSplit(field, wire);
  }

  lemma ChunkAt(field: nat, data: ByteString, rest: ByteString, all: ByteString, pos: nat)
    requires pos <= |all| && Fits(|data|) && all[pos..] == Varint.Groups(|data|) + (data + rest)
    ensures NextChunk(field, all, pos) ==
            Some(Read(Chunk(field, data), pos + |Varint.Groups(|data|)| + |data|))
  {
    hide Varint.Decode, Varint.Groups, Fits;
    var length := Varint.Groups(|data|);
    VarintFits(|data|, data + rest);
    var start := pos + |length|;
    assert all[start..start + |data|] == all[pos..][|length|..|length| + |data|];
    assert (length + (data + rest))[|length|..|length| + |data|] == data;
  }

  lemma NextField(field: nat, data: ByteString, rest: ByteString)
    requires field < 16 && Fits(|data|)
    ensures Next(Field(field, data) + rest) == Some(Read(Chunk(field, data), |Field(field, data)|))
  {
    hide Varint.Decode, Varint.Groups, Fits, Next, NextChunk;
    var tag, length := Varint.Groups(8 * field + 2), Varint.Groups(|data|);
    var all := Field(field, data) + rest;
    SmallFits(field);
    assert all == tag + (length + (data + rest));
    VarintFits(8 * field + 2, length + (data + rest));
    NextOf(all, field, 2, |tag|);
    assert all[|tag|..] == length + (data + rest);
    ChunkAt(field, data, rest, all, |tag|);
  }

  lemma NextNumField(field: nat, value: nat, rest: ByteString)
    requires field < 16 && Fits(value)
    ensures Next(NumField(field, value) + rest) == Some(Read(Num(field, value), |NumField(field, value)|))
  {
    hide Varint.Decode, Varint.Groups, Fits, Next;
    var tag, number := Varint.Groups(8 * field), Varint.Groups(value);
    var all := NumField(field, value) + rest;
    SmallFits(field);
    VarintFits(8 * field, number + rest);
    assert all == tag + (number + rest);
    NextOf(all, field, 0, |tag|);
    VarintFits(value, rest);
    assert all[|tag|..] == number + rest;
  }

  lemma TokensAfter(front: ByteString, t: Token, rest: ByteString)
    requires front != [] && Next(front + rest) == Some(Read(t, |front|))
    ensures Tokens(front + rest) == Prepend([t], Tokens(rest))
  {
    hide Next;
    assert Drop(front + rest, |front|) == rest;
  }

  lemma TokensField(field: nat, data: ByteString, rest: ByteString)
    requires field < 16 && Fits(|data|)
    ensures Tokens(Field(field, data) + rest) == Prepend([Chunk(field, data)], Tokens(rest))
  {
    hide *;
    NextField(field, data, rest);
    TokensAfter(Field(field, data), Chunk(field, data), rest);
  }

  lemma TokensNumField(field: nat, value: nat, rest: ByteString)
    requires field < 16 && Fits(value)
    ensures Tokens(NumField(field, value) + rest) == Prepend([Num(field, value)], Tokens(rest))
  {
    hide Varint.Groups, Tokens, Next;
    NextNumField(field, value, rest);
    TokensAfter(NumField(field, value), Num(field, value), rest);
  }

  lemma DecodeAfter<S>(step: (S, Token) -> Option<S>, s: S, t: Token, next: S, data: ByteString, rest: ByteString)
    requires Tokens(data) == Prepend([t], Tokens(rest)) && step(s, t) == Some(next)
    ensures Decode(step, s, data) == Decode(step, next, rest)
  {
    hide Tokens, Fold;
    FoldStart(step, s);
    FoldSnoc(step, s, [], t);
    assert [] + [t] == [t];
    if Tokens(rest).Some? {
      FoldConcat(step, s, [t], Tokens(rest).value);
    }
  }

  lemma DecodeEnd<S>(step: (S, Token) -> Option<S>, s: S)
    ensures Decode(step, s, []) == Some(s)
  {
  }

  lemma DecodeField<S>(step: (S, Token) -> Option<S>, s: S, next: S, field: nat, data: ByteString, rest: ByteString)
    requires field < 16 && Fits(|data|) && step(s, Chunk(field, data)) == Some(next)
    ensures Decode(step, s, Field(field, data) + rest) == Decode(step, next, rest)
  {
    hide *;
    TokensField(field, data, rest);
    DecodeAfter(step, s, Chunk(field, data), next, Field(field, data) + rest, rest);
  }

  lemma DecodeNumField<S>(step: (S, Token) -> Option<S>, s: S, next: S, field: nat, value: nat, rest: ByteString)
    requires field < 16 && Fits(value) && step(s, Num(field, value)) == Some(next)
    ensures Decode(step, s, NumField(field, value) + rest) == Decode(step, next, rest)
  {
    hide *;
    TokensNumField(field, value, rest);
    DecodeAfter(step, s, Num(field, value), next, NumField(field, value) + rest, rest);
  }

  lemma DecodeOptional<S>(step: (S, Token) -> Option<S>, s: S, next: S, field: nat, data: ByteString, rest: ByteString)
    requires field < 16 && Fits(|data|)
    requires if data == [] then next == s else step(s, Chunk(field, data)) == Some(next)
    ensures Decode(step, s, OptionalField(field, data) + rest) == Decode(step, next, rest)
  {
    hide Decode, Field, Fits;
    if data == [] {
      assert [] + rest == rest;
    } else {
      DecodeField(step, s, next, field, data, rest);
    }
  }

  /** A repeated field takes the decoder through one state per element. */
  lemma {:induction false} DecodeRepeated<S>(step: (S, Token) -> Option<S>, states: seq<S>, field: nat,
                                            items: seq<ByteString>, rest: ByteString)
    requires field < 16 && |states| == |items| + 1
    requires forall k | 0 <= k < |items| ::
      Fits(|items[k]|) && step(states[k], Chunk(field, items[k])) == Some(states[k + 1])
    ensures Decode(step, states[0], Repeated(field, items) + rest) == Decode(step, states[|items|], rest)
    decreases |items|
  {
    hide Decode, Field, Fits;
    if items == [] {
      assert Repeated(field, items) + rest == rest;
    } else {
      var tail := Repeated(field, items[1..]) + rest;
      assert Repeated(field, items) + rest == Field(field, items[0]) + tail;
      DecodeField(step, states[0], states[1], field, items[0], tail);
      DecodeRepeated(step, states[1..], field, items[1..], rest);
    }
  }

  // ---- lengths ----

  ghost predicate AllFit(items: seq<ByteString>)
  {
    forall k | 0 <= k < |items| :: Fits(|items[k]|)
  }

  lemma FitsBelow(a: nat, b: nat)
    requires a <= b && Fits(b)
    ensures Fits(a)
  {
  }

  lemma {:induction false} RepeatedLength(field: nat, items: seq<ByteString>, k: nat)
    requires k < |items|
    ensures |items[k]| <= |Repeated(field, items)|
  {
    if k > 0 {
      RepeatedLength(field, items[1..], k - 1);
    }
  }

  /** The loop over a repeated field; a length that does not fit its varint is refused. */
  method AppendRepeated(encoded: ByteString, field: nat, items: seq<ByteString>) returns (r: Option<ByteString>)
    requires field < 16
    ensures r == if AllFit(items) then Some(encoded + Repeated(field, items)) else None
  {
    hide Fits, Varint.Encode, Varint.Groups;
    var out := encoded;
    for i := 0 to |items|
      invariant forall k | 0 <= k < i :: Fits(|items[k]|)
      invariant encoded + Repeated(field, items) == out + Repeated(field, items[i..])
    {
      var tag := Varint.EncodeVarint(8 * field + 2, VARINT_MAX_BYTES);
      var length := Varint.EncodeVarint(|items[i]|, VARINT_MAX_BYTES);
      SmallFits(field);
      EncodeFits(8 * field + 2);
      EncodeFits(|items[i]|);
      if length.Err? {
        return None;
      }
      RepeatedStep(field, items[i..]);
      assert items[i..][1..] == items[i + 1..];
      out := out + (tag.value + length.value + items[i]);
    }
    assert out + [] == out;
    return Some(out);
  }

  lemma RepeatedStep(field: nat, items: seq<ByteString>)
    requires items != []
    ensures Repeated(field, items) ==
            Varint.Groups(8 * field + 2) + Varint.Groups(|items[0]|) + items[0] + Repeated(field, items[1..])
  {
  }

  lemma EncodeFits(value: nat)
    ensures Varint.Encode(value, VARINT_MAX_BYTES).Ok? <==> Fits(value)
    ensures Fits(value) ==> Varint.Encode(value, VARINT_MAX_BYTES).value == Varint.Groups(value)
  {
    Varint.EncodeAccepts(value, VARINT_MAX_BYTES);
  }
}

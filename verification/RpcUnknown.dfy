/**
 Fields that an RPC decoder does not know are skipped, and members that do not decode refuse the RPC
 (src/lean_spec/node/networking/gossipsub/rpc.py).
 */
module RpcUnknown {
  import opened Bytes
  import Varint
  import opened Protobuf
  import opened GossipRpc

  /** A row of fields that ends where the data does. */
  ghost predicate Whole(data: ByteString)
    decreases |data|
  {
    data == [] ||
    (Next(data).Some? && Next(data).value.consumed <= |data| && Whole(data[Next(data).value.consumed..]))
  }

  lemma NumStable(field: nat, a: ByteString, b: ByteString, pos: nat)
    requires pos <= |a| && NextNum(field, a, pos).Some?
    ensures NextNum(field, a + b, pos) == NextNum(field, a, pos)
  {
    hide Varint.DecodeFrom;
    assert (a + b)[pos..] == a[pos..] + b;
    Varint.DecodeStable(a[pos..], b, 0, VARINT_MAX_BYTES);
  }

  lemma ChunkStable(field: nat, a: ByteString, b: ByteString, pos: nat)
    requires pos <= |a| && NextChunk(field, a, pos).Some?
    ensures NextChunk(field, a + b, pos) == NextChunk(field, a, pos)
  {
    hide Varint.DecodeFrom;
    assert (a + b)[pos..] == a[pos..] + b;
    Varint.DecodeStable(a[pos..], b, 0, VARINT_MAX_BYTES);
    var d := Varint.Decode(a[pos..], VARINT_MAX_BYTES).value;
    var start := pos + d.consumed;
    assert (a + b)[start..start + d.value] == a[start..start + d.value];
  }

  /** More data after a field does not change how it is read. */
  lemma NextStable(a: ByteString, b: ByteString)
    requires Next(a).Some?
    ensures Next(a + b) == Next(a)
  {
    hide Varint.DecodeFrom, NextNum, NextChunk;
    Varint.DecodeStable(a, b, 0, VARINT_MAX_BYTES);
    var d := Varint.Decode(a, VARINT_MAX_BYTES).value;
    var field, wire := d.value / 8, d.value % 8;
    if wire == 0 {
      NumStable(field, a, b, d.consumed);
    } else if wire == 2 {
      ChunkStable(field, a, b, d.consumed);
    }
  }

  lemma PrependPrepend(t: Token, front: Option<seq<Token>>, rest: Option<seq<Token>>)
    requires front.Some?
    ensures Prepend([t], Prepend(front.value, rest)) == Prepend(Prepend([t], front).value, rest)
  {
    if rest.Some? {
      assert [t] + (front.value + rest.value) == [t] + front.value + rest.value;
    }
  }

  lemma {:induction false} TokensConcat(a: ByteString, b: ByteString)
    requires Whole(a)
    ensures Tokens(a).Some? && Tokens(a + b) == Prepend(Tokens(a).value, Tokens(b))
    decreases |a|
  {
    hide Next, Tokens, Prepend;
    if a == [] {
      NoTokens();
      PrependEmpty(Tokens(b));
      assert a + b == b;
    } else {
      var n := Next(a).value.consumed;
      TokensStep(a);
      TokensStep(a + b);
      NextStable(a, b);
      DropDrop(a, n, 0);
      assert Drop(a + b, n) == a[n..] + b;
      TokensConcat(a[n..], b);
      PrependSome(Next(a).value.token, Tokens(a[n..]));
      PrependPrepend(Next(a).value.token, Tokens(a[n..]), Tokens(b));
    }
  }

  lemma NoTokens()
    ensures Tokens([]) == Some([])
  {
  }

  lemma PrependSome(t: Token, rest: Option<seq<Token>>)
    ensures Prepend([t], rest).Some? <==> rest.Some?
  {
  }

  lemma DecodeConcat<S>(step: (S, Token) -> Option<S>, s: S, a: ByteString, b: ByteString)
    requires Whole(a)
    ensures Decode(step, s, a).None? && Tokens(b).Some? ==> Decode(step, s, a + b).None?
    ensures Tokens(b).None? ==> Decode(step, s, a + b).None?
    ensures Decode(step, s, a).Some? ==> Decode(step, s, a + b) == Decode(step, Decode(step, s, a).value, b)
  {
    hide Tokens, Fold, Whole;
    TokensConcat(a, b);
    if Tokens(b).Some? {
      FoldConcat(step, s, Tokens(a).value, Tokens(b).value);
    }
  }

  /** A field that the handler ignores can be taken out. */
  lemma SkipInserted<S(!new)>(step: (S, Token) -> Option<S>, s: S, a: ByteString, x: ByteString, t: Token,
                              b: ByteString)
    requires Whole(a) && Tokens(x + b) == Prepend([t], Tokens(b)) && forall u :: step(u, t) == Some(u)
    ensures Decode(step, s, a + (x + b)) == Decode(step, s, a + b)
  {
    hide Tokens, Decode, Whole;
    DecodeConcat(step, s, a, b);
    DecodeConcat(step, s, a, x + b);
    PrependSome(t, Tokens(b));
    if Decode(step, s, a).Some? {
      var u := Decode(step, s, a).value;
      DecodeAfter(step, u, t, u, x + b, b);
    }
  }

  /** A fixed-width field: wire type 5 carries four bytes, wire type 1 eight. */
  function FixedField(field: nat, wire: nat, body: ByteString): ByteString
  {
    Varint.Groups(8 * field + wire) + body
  }

  lemma TokensFixed(field: nat, wire: nat, body: ByteString, rest: ByteString)
    requires Fits(8 * field + wire) && ((wire == 5 && |body| == 4) || (wire == 1 && |body| == 8))
    ensures Tokens(FixedField(field, wire, body) + rest) == Prepend([Fixed(field)], Tokens(rest))
  {
    hide Varint.Groups, Varint.Decode, Fits, Tokens, Next;
    var tag := Varint.Groups(8 * field + wire);
    var x := FixedField(field, wire, body);
    assert x + rest == tag + (body + rest);
    VarintFits(8 * field + wire, body + rest);
    NextOf(x + rest, field, wire, |tag|);
    TokensAfter(x, Fixed(field), rest);
  }

  /** A fixed-width field with any number, inserted between fields, changes nothing. */
  lemma FixedSkipped(a: ByteString, field: nat, wire: nat, body: ByteString, b: ByteString)
    requires Whole(a) && Fits(8 * field + wire) && ((wire == 5 && |body| == 4) || (wire == 1 && |body| == 8))
    ensures DecodeRpc(a + (FixedField(field, wire, body) + b)) == DecodeRpc(a + b)
    ensures DecodeControl(a + (FixedField(field, wire, body) + b)) == DecodeControl(a + b)
    ensures DecodeMessage(a + (FixedField(field, wire, body) + b)) == DecodeMessage(a + b)
    ensures DecodeSub(a + (FixedField(field, wire, body) + b)) == DecodeSub(a + b)
    ensures DecodePrune(a + (FixedField(field, wire, body) + b)) == DecodePrune(a + b)
    ensures DecodeIHave(a + (FixedField(field, wire, body) + b)) == DecodeIHave(a + b)
    ensures DecodeIdList(a + (FixedField(field, wire, body) + b)) == DecodeIdList(a + b)
    ensures DecodeGraft(a + (FixedField(field, wire, body) + b)) == DecodeGraft(a + b)
  {
    hide Whole, Fits, Decode, Tokens, FixedField;
    TokensFixed(field, wire, body, b);
    var x := FixedField(field, wire, body);
    SkipInserted(RpcStep, NO_RPC, a, x, Fixed(field), b);
    SkipInserted(ControlStep, NO_CONTROL, a, x, Fixed(field), b);
    SkipInserted(MessageStep, NO_MESSAGE, a, x, Fixed(field), b);
    SkipInserted(SubStep, SubOpts(false, []), a, x, Fixed(field), b);
    SkipInserted(PruneStep, Prune([], 0), a, x, Fixed(field), b);
    SkipInserted(IHaveStep, IHave([], []), a, x, Fixed(field), b);
    SkipInserted(IdListStep, IdList([]), a, x, Fixed(field), b);
    SkipInserted(GraftStep, Graft([]), a, x, Fixed(field), b);
  }

  lemma TokensAnyNum(field: nat, value: nat, rest: ByteString)
    requires Fits(8 * field) && Fits(value)
    ensures Tokens(NumField(field, value) + rest) == Prepend([Num(field, value)], Tokens(rest))
  {
    hide Varint.Groups, Varint.Decode, Fits, Tokens, Next;
    var tag, number := Varint.Groups(8 * field), Varint.Groups(value);
    var all := NumField(field, value) + rest;
    assert all == tag + (number + rest) && all[|tag|..] == number + rest;
    VarintFits(8 * field, number + rest);
    VarintFits(value, rest);
    NextOf(all, field, 0, |tag|);
    TokensAfter(NumField(field, value), Num(field, value), rest);
  }

  lemma TokensAnyChunk(field: nat, data: ByteString, rest: ByteString)
    requires Fits(8 * field + 2) && Fits(|data|)
    ensures Tokens(Field(field, data) + rest) == Prepend([Chunk(field, data)], Tokens(rest))
  {
    hide Varint.Groups, Varint.Decode, Fits, Tokens, Next, NextChunk;
    var tag, length := Varint.Groups(8 * field + 2), Varint.Groups(|data|);
    var all := Field(field, data) + rest;
    assert all == tag + (length + (data + rest)) && all[|tag|..] == length + (data + rest);
    VarintFits(8 * field + 2, length + (data + rest));
    NextOf(all, field, 2, |tag|);
    ChunkAt(field, data, rest, all, |tag|);
    TokensAfter(Field(field, data), Chunk(field, data), rest);
  }

  /** So does a varint field with a number that the decoder does not know. */
  lemma UnknownNumSkipped(a: ByteString, field: nat, value: nat, b: ByteString)
    requires Whole(a) && Fits(8 * field) && Fits(value)
    ensures DecodeRpc(a + (NumField(field, value) + b)) == DecodeRpc(a + b)
    ensures DecodeControl(a + (NumField(field, value) + b)) == DecodeControl(a + b)
    ensures DecodeMessage(a + (NumField(field, value) + b)) == DecodeMessage(a + b)
    ensures field != 1 ==> DecodeSub(a + (NumField(field, value) + b)) == DecodeSub(a + b)
    ensures field != 3 ==> DecodePrune(a + (NumField(field, value) + b)) == DecodePrune(a + b)
  {
    hide Whole, Fits, Decode, Tokens, NumField;
    TokensAnyNum(field, value, b);
    var x, t := NumField(field, value), Num(field, value);
    SkipInserted(RpcStep, NO_RPC, a, x, t, b);
    SkipInserted(ControlStep, NO_CONTROL, a, x, t, b);
    SkipInserted(MessageStep, NO_MESSAGE, a, x, t, b);
    if field != 1 {
      SkipInserted(SubStep, SubOpts(false, []), a, x, t, b);
    }
    if field != 3 {
      SkipInserted(PruneStep, Prune([], 0), a, x, t, b);
    }
  }

  /** So does a length-delimited one. */
  lemma UnknownSkipped(a: ByteString, field: nat, data: ByteString, b: ByteString)
    requires Whole(a) && Fits(8 * field + 2) && Fits(|data|)
    ensures !(1 <= field <= 3) ==> DecodeRpc(a + (Field(field, data) + b)) == DecodeRpc(a + b)
    ensures !(1 <= field <= 5) ==> DecodeControl(a + (Field(field, data) + b)) == DecodeControl(a + b)
    ensures !(1 <= field <= 6) ==> DecodeMessage(a + (Field(field, data) + b)) == DecodeMessage(a + b)
    ensures field != 2 ==> DecodeSub(a + (Field(field, data) + b)) == DecodeSub(a + b)
    ensures !(1 <= field <= 2) ==> DecodeIHave(a + (Field(field, data) + b)) == DecodeIHave(a + b)
    ensures field != 1 ==> DecodeIdList(a + (Field(field, data) + b)) == DecodeIdList(a + b)
    ensures field != 1 ==> DecodeGraft(a + (Field(field, data) + b)) == DecodeGraft(a + b)
    ensures field != 1 ==> DecodePrune(a + (Field(field, data) + b)) == DecodePrune(a + b)
  {
    hide Whole, Fits, Decode, Tokens, Field;
    TokensAnyChunk(field, data, b);
    var x, t := Field(field, data), Chunk(field, data);
    if !(1 <= field <= 3) {
      SkipInserted(RpcStep, NO_RPC, a, x, t, b);
    }
    if !(1 <= field <= 5) {
      SkipInserted(ControlStep, NO_CONTROL, a, x, t, b);
    }
    if !(1 <= field <= 6) {
      SkipInserted(MessageStep, NO_MESSAGE, a, x, t, b);
    }
    if field != 2 {
      SkipInserted(SubStep, SubOpts(false, []), a, x, t, b);
    }
    if !(1 <= field <= 2) {
      SkipInserted(IHaveStep, IHave([], []), a, x, t, b);
    }
    if field != 1 {
      SkipInserted(IdListStep, IdList([]), a, x, t, b);
      SkipInserted(GraftStep, Graft([]), a, x, t, b);
      SkipInserted(PruneStep, Prune([], 0), a, x, t, b);
    }
  }

  // ---- a malformed member ----

  lemma DecodeStops<S>(step: (S, Token) -> Option<S>, s: S, t: Token, data: ByteString, rest: ByteString)
    requires Tokens(data) == Prepend([t], Tokens(rest)) && step(s, t) == None
    ensures Decode(step, s, data) == None
  {
    hide Tokens, Fold;
    FoldStart(step, s);
    FoldSnoc(step, s, [], t);
    assert [] + [t] == [t];
    if Tokens(rest).Some? {
      FoldConcat(step, s, [t], Tokens(rest).value);
    }
  }

  lemma RefusedAfter<S(!new)>(step: (S, Token) -> Option<S>, s: S, a: ByteString, x: ByteString, t: Token,
                              b: ByteString)
    requires Whole(a) && Tokens(x + b) == Prepend([t], Tokens(b)) && forall u :: step(u, t) == None
    ensures Decode(step, s, a + (x + b)) == None
  {
    hide Tokens, Decode, Whole;
    DecodeConcat(step, s, a, x + b);
    PrependSome(t, Tokens(b));
    if Decode(step, s, a).Some? {
      DecodeStops(step, Decode(step, s, a).value, t, x + b, b);
    }
  }

  /** An RPC with a subscription, message or control that does not decode is refused as a whole. */
  lemma MalformedRefused(a: ByteString, data: ByteString, b: ByteString)
    requires Whole(a) && Fits(|data|)
    ensures DecodeSub(data).None? ==> DecodeRpc(a + (Field(1, data) + b)).None?
    ensures DecodeMessage(data).None? ==> DecodeRpc(a + (Field(2, data) + b)).None?
    ensures DecodeControl(data).None? ==> DecodeRpc(a + (Field(3, data) + b)).None?
  {
    hide Whole, Fits, Decode, Tokens, Field;
    if DecodeSub(data).None? {
      TokensField(1, data, b);
      RefusedAfter(RpcStep, NO_RPC, a, Field(1, data), Chunk(1, data), b);
    }
    if DecodeMessage(data).None? {
      TokensField(2, data, b);
      RefusedAfter(RpcStep, NO_RPC, a, Field(2, data), Chunk(2, data), b);
    }
    if DecodeControl(data).None? {
      TokensField(3, data, b);
      RefusedAfter(RpcStep, NO_RPC, a, Field(3, data), Chunk(3, data), b);
    }
  }

  lemma TokensRefused(field: nat, wire: nat, rest: ByteString)
    requires wire in {3, 4, 6, 7} && Fits(8 * field + wire)
    ensures Tokens(Varint.Groups(8 * field + wire) + rest) == None
  {
    hide Varint.Groups, Varint.DecodeFrom, Fits;
    var tag := Varint.Groups(8 * field + wire);
    VarintFits(8 * field + wire, rest);
    TagSplit(field, wire);
    assert Next(tag + rest) == None;
  }

  /** So is one with a field of wire type 3, 4, 6 or 7. */
  lemma UnknownWireRefused(a: ByteString, field: nat, wire: nat, b: ByteString)
    requires Whole(a) && wire in {3, 4, 6, 7} && Fits(8 * field + wire)
    ensures DecodeRpc(a + (Varint.Groups(8 * field + wire) + b)) == None
  {
    hide Whole, Fits, Decode, Tokens, Varint.Groups;
    TokensRefused(field, wire, b);
    DecodeConcat(RpcStep, NO_RPC, a, Varint.Groups(8 * field + wire) + b);
  }

  /** So is a control with a member that does not decode. */
  lemma MalformedControlRefused(a: ByteString, data: ByteString, b: ByteString)
    requires Whole(a) && Fits(|data|)
    ensures DecodeIHave(data).None? ==> DecodeControl(a + (Field(1, data) + b)).None?
    ensures DecodeIdList(data).None? ==> DecodeControl(a + (Field(2, data) + b)).None?
    ensures DecodeGraft(data).None? ==> DecodeControl(a + (Field(3, data) + b)).None?
    ensures DecodePrune(data).None? ==> DecodeControl(a + (Field(4, data) + b)).None?
    ensures DecodeIdList(data).None? ==> DecodeControl(a + (Field(5, data) + b)).None?
  {
    hide Whole, Fits, Decode, Tokens, Field;
    if DecodeIHave(data).None? {
      TokensField(1, data, b);
      RefusedAfter(ControlStep, NO_CONTROL, a, Field(1, data), Chunk(1, data), b);
    }
    if DecodeIdList(data).None? {
      TokensField(2, data, b);
      RefusedAfter(ControlStep, NO_CONTROL, a, Field(2, data), Chunk(2, data), b);
      TokensField(5, data, b);
      RefusedAfter(ControlStep, NO_CONTROL, a, Field(5, data), Chunk(5, data), b);
    }
    if DecodeGraft(data).None? {
      TokensField(3, data, b);
      RefusedAfter(ControlStep, NO_CONTROL, a, Field(3, data), Chunk(3, data), b);
    }
    if DecodePrune(data).None? {
      TokensField(4, data, b);
      RefusedAfter(ControlStep, NO_CONTROL, a, Field(4, data), Chunk(4, data), b);
    }
  }

  // ---- encoded RPCs are whole ----

  lemma WholeField(field: nat, data: ByteString, rest: ByteString)
    requires field < 16 && Fits(|data|) && Whole(rest)
    ensures Whole(Field(field, data) + rest)
  {
    hide Fits, Next, Field;
    NextField(field, data, rest);
    assert (Field(field, data) + rest)[|Field(field, data)|..] == rest;
  }

  lemma {:induction false} WholeRepeated(field: nat, items: seq<ByteString>, rest: ByteString)
    requires field < 16 && Whole(rest) && forall k | 0 <= k < |items| :: Fits(|items[k]|)
    ensures Whole(Repeated(field, items) + rest)
    decreases |items|
  {
    hide Fits, Whole, Field;
    if items == [] {
      assert Repeated(field, items) + rest == rest;
    } else {
      WholeRepeated(field, items[1..], rest);
      WholeField(field, items[0], Repeated(field, items[1..]) + rest);
      assert Repeated(field, items) + rest == Field(field, items[0]) + (Repeated(field, items[1..]) + rest);
    }
  }

  lemma WholeRpc(r: Rpc)
    requires Encodable(r)
    ensures Whole(RpcBytes(r))
  {
    hide Fits, Whole, Field, Repeated, Map, ControlBytes;
    NothingIsWhole();
    ItemsFit(1, Map(SubBytes, r.subscriptions), |RpcBytes(r)|);
    ItemsFit(2, Map(MessageBytes, r.publish), |RpcBytes(r)|);
    if r.control.Some? && r.control.value != NO_CONTROL {
      var c := ControlBytes(r.control.value);
      FieldLength(3, c);
      FitsBelow(|c|, |RpcBytes(r)|);
      WholeField(3, c, []);
      assert Field(3, c) + [] == Field(3, c);
    }
    WholeRepeated(2, Map(MessageBytes, r.publish), ControlField(r.control));
    WholeRepeated(1, Map(SubBytes, r.subscriptions),
                  Repeated(2, Map(MessageBytes, r.publish)) + ControlField(r.control));
  }

  lemma NothingIsWhole()
    ensures Whole([])
  {
  }

  /** An encoded RPC with a fixed-width field in front of it or behind it decodes to the same RPC. */
  lemma FixedAround(r: Rpc, field: nat, wire: nat, body: ByteString)
    requires Encodable(r) && Fits(8 * field + wire)
    requires (wire == 5 && |body| == 4) || (wire == 1 && |body| == 8)
    ensures DecodeRpc(FixedField(field, wire, body) + RpcBytes(r)) == Some(Normal(r))
    ensures DecodeRpc(RpcBytes(r) + FixedField(field, wire, body)) == Some(Normal(r))
  {
    hide Encodable, DecodeRpc, Whole, RpcBytes, Fits, FixedField, Normal;
    var x, wireBytes := FixedField(field, wire, body), RpcBytes(r);
    NothingIsWhole();
    WholeRpc(r);
    RoundTrip(r);
    FixedSkipped([], field, wire, body, wireBytes);
    FixedSkipped(wireBytes, field, wire, body, []);
    assert [] + (x + wireBytes) == x + wireBytes && [] + wireBytes == wireBytes;
    assert wireBytes + (x + []) == wireBytes + x && wireBytes + [] == wireBytes;
  }
}

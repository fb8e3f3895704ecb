/**
 Gossipsub RPCs and their members (src/lean_spec/node/networking/gossipsub/rpc.py).

 Topics are their UTF-8 bytes.  IWANT and IDONTWANT carry the same list of ids.
 */
module GossipRpc {
  import opened Bytes
  import opened Protobuf

  datatype SubOpts = SubOpts(subscribe: bool, topic: ByteString)

  datatype Message = Message(fromPeer: ByteString, data: ByteString, seqno: ByteString, topic: ByteString,
                             signature: ByteString, key: ByteString)

  datatype IHave = IHave(topic: ByteString, ids: seq<ByteString>)

  datatype IdList = IdList(ids: seq<ByteString>)

  datatype Graft = Graft(topic: ByteString)

  datatype Prune = Prune(topic: ByteString, backoff: int)

  datatype Control = Control(ihave: seq<IHave>, iwant: seq<IdList>, graft: seq<Graft>, prune: seq<Prune>,
                             idontwant: seq<IdList>)

  datatype Rpc = Rpc(subscriptions: seq<SubOpts>, publish: seq<Message>, control: Option<Control>)

  const NO_MESSAGE := Message([], [], [], [], [], [])
  const NO_CONTROL := Control([], [], [], [], [])
  const NO_RPC := Rpc([], [], None)

  function Map<A, B>(f: A -> B, xs: seq<A>): (ys: seq<B>)
    ensures |ys| == |xs|
  {
    seq(|xs|, i requires 0 <= i < |xs| => f(xs[i]))
  }

  // ---- encoding ----

  function SubBytes(s: SubOpts): ByteString
  {
    NumField(1, if s.subscribe then 1 else 0) + Field(2, s.topic)
  }

  function MessageBytes(m: Message): ByteString
  {
    OptionalField(1, m.fromPeer) + (OptionalField(2, m.data) + (OptionalField(3, m.seqno) +
    (OptionalField(4, m.topic) + (OptionalField(5, m.signature) + OptionalField(6, m.key)))))
  }

  function IHaveBytes(h: IHave): ByteString
  {
    OptionalField(1, h.topic) + Repeated(2, h.ids)
  }

  function IdListBytes(l: IdList): ByteString
  {
    Repeated(1, l.ids)
  }

  function GraftBytes(g: Graft): ByteString
  {
    OptionalField(1, g.topic)
  }

  function BackoffBytes(backoff: int): ByteString
  {
    if backoff > 0 then NumField(3, backoff) else []
  }

  function PruneBytes(p: Prune): ByteString
  {
    OptionalField(1, p.topic) + BackoffBytes(p.backoff)
  }

  function ControlBytes(c: Control): ByteString
  {
    Repeated(1, Map(IHaveBytes, c.ihave)) + (Repeated(2, Map(IdListBytes, c.iwant)) +
    (Repeated(3, Map(GraftBytes, c.graft)) + (Repeated(4, Map(PruneBytes, c.prune)) +
    Repeated(5, Map(IdListBytes, c.idontwant)))))
  }

  function ControlField(c: Option<Control>): ByteString
  {
    if c.Some? && c.value != NO_CONTROL then Field(3, ControlBytes(c.value)) else []
  }

  function RpcBytes(r: Rpc): ByteString
  {
    Repeated(1, Map(SubBytes, r.subscriptions)) + (Repeated(2, Map(MessageBytes, r.publish)) + ControlField(r.control))
  }

  // ---- decoding: what each decoder does with a field ----

  function SubStep(s: SubOpts, t: Token): Option<SubOpts>
  {
    match t
    case Num(f, v) => Some(if f == 1 then s.(subscribe := v != 0) else s)
    case Chunk(f, d) => Some(if f == 2 then s.(topic := d) else s)
    case Fixed(_) => Some(s)
  }

  function DecodeSub(data: ByteString): Option<SubOpts>
  {
    Decode(SubStep, SubOpts(false, []), data)
  }

  function MessageStep(m: Message, t: Token): Option<Message>
  {
    if !t.Chunk? then Some(m)
    else if t.field == 1 then Some(m.(fromPeer := t.data))
    else if t.field == 2 then Some(m.(data := t.data))
    else if t.field == 3 then Some(m.(seqno := t.data))
    else if t.field == 4 then Some(m.(topic := t.data))
    else if t.field == 5 then Some(m.(signature := t.data))
    else if t.field == 6 then Some(m.(key := t.data))
    else Some(m)
  }

  function DecodeMessage(data: ByteString): Option<Message>
  {
    Decode(MessageStep, NO_MESSAGE, data)
  }

  function IHaveStep(h: IHave, t: Token): Option<IHave>
  {
    if !t.Chunk? then Some(h)
    else if t.field == 1 then Some(h.(topic := t.data))
    else if t.field == 2 then Some(h.(ids := h.ids + [t.data]))
    else Some(h)
  }

  function DecodeIHave(data: ByteString): Option<IHave>
  {
    Decode(IHaveStep, IHave([], []), data)
  }

  function IdListStep(l: IdList, t: Token): Option<IdList>
  {
    Some(if t.Chunk? && t.field == 1 then IdList(l.ids + [t.data]) else l)
  }

  function DecodeIdList(data: ByteString): Option<IdList>
  {
    Decode(IdListStep, IdList([]), data)
  }

  function GraftStep(g: Graft, t: Token): Option<Graft>
  {
    Some(if t.Chunk? && t.field == 1 then Graft(t.data) else g)
  }

  function DecodeGraft(data: ByteString): Option<Graft>
  {
    Decode(GraftStep, Graft([]), data)
  }

  function PruneStep(p: Prune, t: Token): Option<Prune>
  {
    match t
    case Num(f, v) => Some(if f == 3 then p.(backoff := v) else p)
    case Chunk(f, d) => Some(if f == 1 then p.(topic := d) else p)
    case Fixed(_) => Some(p)
  }

  function DecodePrune(data: ByteString): Option<Prune>
  {
    Decode(PruneStep, Prune([], 0), data)
  }

  function ControlStep(c: Control, t: Token): Option<Control>
  {
    if !t.Chunk? then Some(c)
    else if t.field == 1 then
      var d := DecodeIHave(t.data);
      if d.None? then None else Some(c.(ihave := c.ihave + [d.value]))
    else if t.field == 2 then
      var d := DecodeIdList(t.data);
      if d.None? then None else Some(c.(iwant := c.iwant + [d.value]))
    else if t.field == 3 then
      var d := DecodeGraft(t.data);
      if d.None? then None else Some(c.(graft := c.graft + [d.value]))
    else if t.field == 4 then
      var d := DecodePrune(t.data);
      if d.None? then None else Some(c.(prune := c.prune + [d.value]))
    else if t.field == 5 then
      var d := DecodeIdList(t.data);
      if d.None? then None else Some(c.(idontwant := c.idontwant + [d.value]))
    else Some(c)
  }

  function DecodeControl(data: ByteString): Option<Control>
  {
    Decode(ControlStep, NO_CONTROL, data)
  }

  function RpcStep(r: Rpc, t: Token): Option<Rpc>
  {
    if !t.Chunk? then Some(r)
    else if t.field == 1 then
      var d := DecodeSub(t.data);
      if d.None? then None else Some(r.(subscriptions := r.subscriptions + [d.value]))
    else if t.field == 2 then
      var d := DecodeMessage(t.data);
      if d.None? then None else Some(r.(publish := r.publish + [d.value]))
    else if t.field == 3 then
      var d := DecodeControl(t.data);
      if d.None? then None else Some(r.(control := d))
    else Some(r)
  }

  function DecodeRpc(data: ByteString): Option<Rpc>
  {
    Decode(RpcStep, NO_RPC, data)
  }

  // ---- round trip ----

  /** What a receiver sees: an empty control is absent, and a backoff that is not positive is zero. */
  function NormalPrune(p: Prune): Prune
  {
    if p.backoff > 0 then p else p.(backoff := 0)
  }

  function NormalControl(c: Control): Control
  {
    c.(prune := Map(NormalPrune, c.prune))
  }

  function Normal(r: Rpc): Rpc
  {
    r.(control := if r.control.Some? && r.control.value != NO_CONTROL then Some(NormalControl(r.control.value))
                  else None)
  }

  /** Backoffs fit a varint. */
  ghost predicate BackoffsFit(c: Control)
  {
    forall i | 0 <= i < |c.prune| :: c.prune[i].backoff > 0 ==> Fits(c.prune[i].backoff)
  }

  lemma SubRoundTrip(s: SubOpts)
    requires Fits(|SubBytes(s)|)
    ensures DecodeSub(SubBytes(s)) == Some(s)
  {
    hide Decode, Fits, NumField, Varint.Groups;
    var flag := if s.subscribe then 1 else 0;
    var zero, one := SubOpts(false, []), SubOpts(s.subscribe, []);
    SmallNumbers();
    FitsBelow(|s.topic|, |SubBytes(s)|);
    DecodeNumField(SubStep, zero, one, 1, flag, Field(2, s.topic));
    assert Field(2, s.topic) + [] == Field(2, s.topic);
    DecodeField(SubStep, one, s, 2, s.topic, []);
    DecodeEnd(SubStep, s);
  }

  lemma SmallNumbers()
    ensures Fits(0) && Fits(1)
  {
    SmallFits(1);
    FitsBelow(0, 8);
    FitsBelow(1, 8);
  }

  lemma MessageRoundTrip(m: Message)
    requires Fits(|MessageBytes(m)|)
    ensures DecodeMessage(MessageBytes(m)) == Some(m)
  {
    hide Decode, Fits, Field;
    MessageFits(m);
    var f6 := OptionalField(6, m.key);
    var f5 := OptionalField(5, m.signature) + f6;
    var f4 := OptionalField(4, m.topic) + f5;
    var f3 := OptionalField(3, m.seqno) + f4;
    var f2 := OptionalField(2, m.data) + f3;
    var m0 := NO_MESSAGE;
    var m1 := m0.(fromPeer := m.fromPeer);
    var m2 := m1.(data := m.data);
    var m3 := m2.(seqno := m.seqno);
    var m4 := m3.(topic := m.topic);
    var m5 := m4.(signature := m.signature);
    DecodeOptional(MessageStep, m0, m1, 1, m.fromPeer, f2);
    DecodeOptional(MessageStep, m1, m2, 2, m.data, f3);
    DecodeOptional(MessageStep, m2, m3, 3, m.seqno, f4);
    DecodeOptional(MessageStep, m3, m4, 4, m.topic, f5);
    DecodeOptional(MessageStep, m4, m5, 5, m.signature, f6);
    assert f6 + [] == f6;
    DecodeOptional(MessageStep, m5, m, 6, m.key, []);
    DecodeEnd(MessageStep, m);
  }

  lemma MessageFits(m: Message)
    requires Fits(|MessageBytes(m)|)
    ensures Fits(|m.fromPeer|) && Fits(|m.data|) && Fits(|m.seqno|) && Fits(|m.topic|) && Fits(|m.signature|) &&
      Fits(|m.key|)
  {
    hide Fits, Varint.Groups;
    FitsBelow(|m.fromPeer|, |MessageBytes(m)|);
    FitsBelow(|m.data|, |MessageBytes(m)|);
    FitsBelow(|m.seqno|, |MessageBytes(m)|);
    FitsBelow(|m.topic|, |MessageBytes(m)|);
    FitsBelow(|m.signature|, |MessageBytes(m)|);
    FitsBelow(|m.key|, |MessageBytes(m)|);
  }

  /** Every element of a repeated field fits when the field does. */
  lemma ItemsFit(field: nat, items: seq<ByteString>, total: nat)
    requires |Repeated(field, items)| <= total && Fits(total)
    ensures forall k | 0 <= k < |items| :: Fits(|items[k]|)
  {
    hide *;
    forall k | 0 <= k < |items|
      ensures Fits(|items[k]|)
    {
      RepeatedLength(field, items, k);
      FitsBelow(|items[k]|, total);
    }
  }

  lemma IHaveRoundTrip(h: IHave)
    requires Fits(|IHaveBytes(h)|)
    ensures DecodeIHave(IHaveBytes(h)) == Some(h)
  {
    hide Decode, Fits, Repeated, Varint.Groups;
    FitsBelow(|h.topic|, |IHaveBytes(h)|);
    ItemsFit(2, h.ids, |IHaveBytes(h)|);
    var states := seq(|h.ids| + 1, k requires 0 <= k <= |h.ids| => IHave(h.topic, h.ids[..k]));
    DecodeOptional(IHaveStep, IHave([], []), IHave(h.topic, []), 1, h.topic, Repeated(2, h.ids));
    forall k | 0 <= k < |h.ids|
      ensures IHaveStep(states[k], Chunk(2, h.ids[k])) == Some(states[k + 1])
    {
      assert h.ids[..k + 1] == h.ids[..k] + [h.ids[k]];
    }
    DecodeRepeated(IHaveStep, states, 2, h.ids, []);
    assert Repeated(2, h.ids) + [] == Repeated(2, h.ids);
    assert states[|h.ids|] == h;
    DecodeEnd(IHaveStep, h);
  }

  lemma IdListRoundTrip(l: IdList)
    requires Fits(|IdListBytes(l)|)
    ensures DecodeIdList(IdListBytes(l)) == Some(l)
  {
    hide Decode, Fits, Repeated;
    ItemsFit(1, l.ids, |IdListBytes(l)|);
    var states := seq(|l.ids| + 1, k requires 0 <= k <= |l.ids| => IdList(l.ids[..k]));
    forall k | 0 <= k < |l.ids|
      ensures IdListStep(states[k], Chunk(1, l.ids[k])) == Some(states[k + 1])
    {
      assert l.ids[..k + 1] == l.ids[..k] + [l.ids[k]];
    }
    DecodeRepeated(IdListStep, states, 1, l.ids, []);
    assert Repeated(1, l.ids) + [] == Repeated(1, l.ids);
    assert states[|l.ids|] == l;
    DecodeEnd(IdListStep, l);
  }

  lemma GraftRoundTrip(g: Graft)
    requires Fits(|GraftBytes(g)|)
    ensures DecodeGraft(GraftBytes(g)) == Some(g)
  {
    hide Decode, Fits, Varint.Groups;
    FitsBelow(|g.topic|, |GraftBytes(g)|);
    DecodeOptional(GraftStep, Graft([]), g, 1, g.topic, []);
    assert GraftBytes(g) + [] == GraftBytes(g);
    DecodeEnd(GraftStep, g);
  }

  lemma PruneRoundTrip(p: Prune)
    requires Fits(|PruneBytes(p)|) && (p.backoff > 0 ==> Fits(p.backoff))
    ensures DecodePrune(PruneBytes(p)) == Some(NormalPrune(p))
  {
    hide Decode, Fits, Varint.Groups, NumField;
    FitsBelow(|p.topic|, |PruneBytes(p)|);
    var one := Prune(p.topic, 0);
    DecodeOptional(PruneStep, Prune([], 0), one, 1, p.topic, BackoffBytes(p.backoff));
    if p.backoff > 0 {
      DecodeNumField(PruneStep, one, p, 3, p.backoff, []);
      assert NumField(3, p.backoff) + [] == NumField(3, p.backoff);
    }
    DecodeEnd(PruneStep, NormalPrune(p));
  }

  lemma IHavesRead(c: Control, start: Control, rest: ByteString)
    requires start.ihave == []
    requires forall k | 0 <= k < |c.ihave| :: Fits(|IHaveBytes(c.ihave[k])|)
    ensures Decode(ControlStep, start, Repeated(1, Map(IHaveBytes, c.ihave)) + rest) ==
            Decode(ControlStep, start.(ihave := c.ihave), rest)
  {
    hide Decode, Fits, Repeated, IHaveBytes;
    var items, read := Map(IHaveBytes, c.ihave), c.ihave;
    var states := seq(|items| + 1, k requires 0 <= k <= |items| => start.(ihave := read[..k]));
    forall k | 0 <= k < |items|
      ensures ControlStep(states[k], Chunk(1, items[k])) == Some(states[k + 1])
    {
      IHaveRoundTrip(c.ihave[k]);
      assert read[..k + 1] == read[..k] + [read[k]];
    }
    assert read[..|items|] == read && states[0] == start;
    DecodeRepeated(ControlStep, states, 1, items, rest);
  }

  lemma IWantsRead(c: Control, start: Control, rest: ByteString)
    requires start.iwant == []
    requires forall k | 0 <= k < |c.iwant| :: Fits(|IdListBytes(c.iwant[k])|)
    ensures Decode(ControlStep, start, Repeated(2, Map(IdListBytes, c.iwant)) + rest) ==
            Decode(ControlStep, start.(iwant := c.iwant), rest)
  {
    hide Decode, Fits, Repeated, IdListBytes;
    var items, read := Map(IdListBytes, c.iwant), c.iwant;
    var states := seq(|items| + 1, k requires 0 <= k <= |items| => start.(iwant := read[..k]));
    forall k | 0 <= k < |items|
      ensures ControlStep(states[k], Chunk(2, items[k])) == Some(states[k + 1])
    {
      IdListRoundTrip(c.iwant[k]);
      assert read[..k + 1] == read[..k] + [read[k]];
    }
    assert read[..|items|] == read && states[0] == start;
    DecodeRepeated(ControlStep, states, 2, items, rest);
  }

  lemma GraftsRead(c: Control, start: Control, rest: ByteString)
    requires start.graft == []
    requires forall k | 0 <= k < |c.graft| :: Fits(|GraftBytes(c.graft[k])|)
    ensures Decode(ControlStep, start, Repeated(3, Map(GraftBytes, c.graft)) + rest) ==
            Decode(ControlStep, start.(graft := c.graft), rest)
  {
    hide Decode, Fits, Repeated, GraftBytes;
    var items, read := Map(GraftBytes, c.graft), c.graft;
    var states := seq(|items| + 1, k requires 0 <= k <= |items| => start.(graft := read[..k]));
    forall k | 0 <= k < |items|
      ensures ControlStep(states[k], Chunk(3, items[k])) == Some(states[k + 1])
    {
      GraftRoundTrip(c.graft[k]);
      assert read[..k + 1] == read[..k] + [read[k]];
    }
    assert read[..|items|] == read && states[0] == start;
    DecodeRepeated(ControlStep, states, 3, items, rest);
  }

  lemma PrunesRead(c: Control, start: Control, rest: ByteString)
    requires start.prune == []
    requires BackoffsFit(c)
    requires forall k | 0 <= k < |c.prune| :: Fits(|PruneBytes(c.prune[k])|)
    ensures Decode(ControlStep, start, Repeated(4, Map(PruneBytes, c.prune)) + rest) ==
            Decode(ControlStep, start.(prune := Map(NormalPrune, c.prune)), rest)
  {
    hide Decode, Fits, Repeated, PruneBytes;
    var items, read := Map(PruneBytes, c.prune), Map(NormalPrune, c.prune);
    var states := seq(|items| + 1, k requires 0 <= k <= |items| => start.(prune := read[..k]));
    forall k | 0 <= k < |items|
      ensures ControlStep(states[k], Chunk(4, items[k])) == Some(states[k + 1])
    {
      PruneRoundTrip(c.prune[k]);
      assert read[..k + 1] == read[..k] + [read[k]];
    }
    assert read[..|items|] == read && states[0] == start;
    DecodeRepeated(ControlStep, states, 4, items, rest);
  }

  lemma IDontWantsRead(c: Control, start: Control, rest: ByteString)
    requires start.idontwant == []
    requires forall k | 0 <= k < |c.idontwant| :: Fits(|IdListBytes(c.idontwant[k])|)
    ensures Decode(ControlStep, start, Repeated(5, Map(IdListBytes, c.idontwant)) + rest) ==
            Decode(ControlStep, start.(idontwant := c.idontwant), rest)
  {
    hide Decode, Fits, Repeated, IdListBytes;
    var items, read := Map(IdListBytes, c.idontwant), c.idontwant;
    var states := seq(|items| + 1, k requires 0 <= k <= |items| => start.(idontwant := read[..k]));
    forall k | 0 <= k < |items|
      ensures ControlStep(states[k], Chunk(5, items[k])) == Some(states[k + 1])
    {
      IdListRoundTrip(c.idontwant[k]);
      assert read[..k + 1] == read[..k] + [read[k]];
    }
    assert read[..|items|] == read && states[0] == start;
    DecodeRepeated(ControlStep, states, 5, items, rest);
  }

  lemma ControlFits(c: Control)
    requires Fits(|ControlBytes(c)|)
    ensures forall k | 0 <= k < |c.ihave| :: Fits(|IHaveBytes(c.ihave[k])|)
    ensures forall k | 0 <= k < |c.iwant| :: Fits(|IdListBytes(c.iwant[k])|)
    ensures forall k | 0 <= k < |c.graft| :: Fits(|GraftBytes(c.graft[k])|)
    ensures forall k | 0 <= k < |c.prune| :: Fits(|PruneBytes(c.prune[k])|)
    ensures forall k | 0 <= k < |c.idontwant| :: Fits(|IdListBytes(c.idontwant[k])|)
  {
    hide Fits, Repeated, IHaveBytes, IdListBytes, GraftBytes, PruneBytes;
    MemberFits(1, IHaveBytes, c.ihave, |ControlBytes(c)|);
    MemberFits(2, IdListBytes, c.iwant, |ControlBytes(c)|);
    MemberFits(3, GraftBytes, c.graft, |ControlBytes(c)|);
    MemberFits(4, PruneBytes, c.prune, |ControlBytes(c)|);
    MemberFits(5, IdListBytes, c.idontwant, |ControlBytes(c)|);
  }

  lemma MemberFits<A>(field: nat, encode: A -> ByteString, items: seq<A>, total: nat)
    requires |Repeated(field, Map(encode, items))| <= total && Fits(total)
    ensures forall k | 0 <= k < |items| :: Fits(|encode(items[k])|)
  {
    hide Fits, Repeated;
    var encoded := Map(encode, items);
    ItemsFit(field, encoded, total);
    assert forall k | 0 <= k < |items| :: encoded[k] == encode(items[k]);
  }

  lemma ControlRoundTrip(c: Control)
    requires Fits(|ControlBytes(c)|) && BackoffsFit(c)
    ensures DecodeControl(ControlBytes(c)) == Some(NormalControl(c))
  {
    hide Decode, Fits, Repeated, BackoffsFit, Map;
    ControlFits(c);
    var f5 := Repeated(5, Map(IdListBytes, c.idontwant));
    var f4 := Repeated(4, Map(PruneBytes, c.prune)) + f5;
    var f3 := Repeated(3, Map(GraftBytes, c.graft)) + f4;
    var f2 := Repeated(2, Map(IdListBytes, c.iwant)) + f3;
    var c1 := NO_CONTROL.(ihave := c.ihave);
    var c2 := c1.(iwant := c.iwant);
    var c3 := c2.(graft := c.graft);
    var c4 := c3.(prune := Map(NormalPrune, c.prune));
    IHavesRead(c, NO_CONTROL, f2);
    IWantsRead(c, c1, f3);
    GraftsRead(c, c2, f4);
    PrunesRead(c, c3, f5);
    assert f5 + [] == f5;
    IDontWantsRead(c, c4, []);
    DecodeEnd(ControlStep, NormalControl(c));
  }

  lemma SubsRead(r: Rpc, start: Rpc, rest: ByteString)
    requires start.subscriptions == []
    requires forall k | 0 <= k < |r.subscriptions| :: Fits(|SubBytes(r.subscriptions[k])|)
    ensures Decode(RpcStep, start, Repeated(1, Map(SubBytes, r.subscriptions)) + rest) ==
            Decode(RpcStep, start.(subscriptions := r.subscriptions), rest)
  {
    hide Decode, Fits, Repeated, SubBytes;
    var items := Map(SubBytes, r.subscriptions);
    var states := seq(|items| + 1, k requires 0 <= k <= |items| => start.(subscriptions := r.subscriptions[..k]));
    forall k | 0 <= k < |items|
      ensures RpcStep(states[k], Chunk(1, items[k])) == Some(states[k + 1])
    {
      SubRoundTrip(r.subscriptions[k]);
      assert r.subscriptions[..k + 1] == r.subscriptions[..k] + [r.subscriptions[k]];
    }
    assert r.subscriptions[..|items|] == r.subscriptions && states[0] == start;
    DecodeRepeated(RpcStep, states, 1, items, rest);
  }

  lemma MessagesRead(r: Rpc, start: Rpc, rest: ByteString)
    requires start.publish == []
    requires forall k | 0 <= k < |r.publish| :: Fits(|MessageBytes(r.publish[k])|)
    ensures Decode(RpcStep, start, Repeated(2, Map(MessageBytes, r.publish)) + rest) ==
            Decode(RpcStep, start.(publish := r.publish), rest)
  {
    hide Decode, Fits, Repeated, MessageBytes;
    var items := Map(MessageBytes, r.publish);
    var states := seq(|items| + 1, k requires 0 <= k <= |items| => start.(publish := r.publish[..k]));
    forall k | 0 <= k < |items|
      ensures RpcStep(states[k], Chunk(2, items[k])) == Some(states[k + 1])
    {
      MessageRoundTrip(r.publish[k]);
      assert r.publish[..k + 1] == r.publish[..k] + [r.publish[k]];
    }
    assert r.publish[..|items|] == r.publish && states[0] == start;
    DecodeRepeated(RpcStep, states, 2, items, rest);
  }

  /** Every length and backoff that encoding writes fits its varint. */
  ghost predicate Encodable(r: Rpc)
  {
    Fits(|RpcBytes(r)|) && (r.control.Some? ==> BackoffsFit(r.control.value))
  }

  /** An encoded RPC is decoded back to itself, up to an empty control and backoffs that are not positive. */
  lemma RoundTrip(r: Rpc)
    requires Encodable(r)
    ensures DecodeRpc(RpcBytes(r)) == Some(Normal(r))
  {
    hide Decode, Fits, Repeated, BackoffsFit, Map, Field, ControlBytes, NormalControl;
    var f3 := ControlField(r.control);
    var f2 := Repeated(2, Map(MessageBytes, r.publish)) + f3;
    MemberFits(1, SubBytes, r.subscriptions, |RpcBytes(r)|);
    MemberFits(2, MessageBytes, r.publish, |RpcBytes(r)|);
    var r1 := NO_RPC.(subscriptions := r.subscriptions);
    var r2 := r1.(publish := r.publish);
    SubsRead(r, NO_RPC, f2);
    MessagesRead(r, r1, f3);
    if r.control.Some? && r.control.value != NO_CONTROL {
      var c := r.control.value;
      FieldLength(3, ControlBytes(c));
      FitsBelow(|ControlBytes(c)|, |RpcBytes(r)|);
      ControlRoundTrip(c);
      DecodeField(RpcStep, r2, Normal(r), 3, ControlBytes(c), []);
      assert f3 + [] == f3;
    }
    DecodeEnd(RpcStep, Normal(r));
  }

  lemma FieldLength(field: nat, data: ByteString)
    ensures |data| <= |Field(field, data)|
  {
  }

  lemma NormalPrunes(prunes: seq<Prune>)
    ensures Map(NormalPrune, prunes) == prunes <==> forall i | 0 <= i < |prunes| :: prunes[i].backoff >= 0
  {
    var read := Map(NormalPrune, prunes);
    assert forall i | 0 <= i < |prunes| :: read[i] == NormalPrune(prunes[i]);
    if i :| 0 <= i < |prunes| && prunes[i].backoff < 0 {
      assert read[i] != prunes[i];
    }
  }

  /** Nothing is lost exactly when the control is absent or not empty and no backoff is negative. */
  lemma RoundTripExact(r: Rpc)
    requires Encodable(r)
    ensures DecodeRpc(RpcBytes(r)) == Some(r) <==>
            r.control.None? || (r.control.value != NO_CONTROL &&
                                forall i | 0 <= i < |r.control.value.prune| :: r.control.value.prune[i].backoff >= 0)
  {
    hide DecodeRpc, RpcBytes, Map;
    RoundTrip(r);
    if r.control.Some? {
      NormalPrunes(r.control.value.prune);
    }
  }

  /** An RPC with an empty control, and one with a negative backoff, that come back changed. */
  lemma ComesBackChanged()
    ensures var r := Rpc([], [], Some(NO_CONTROL)); DecodeRpc(RpcBytes(r)) == Some(Rpc([], [], None))
    ensures var r := Rpc([], [], Some(NO_CONTROL.(prune := [Prune([], -1)])));
      DecodeRpc(RpcBytes(r)) == Some(Rpc([], [], Some(NO_CONTROL.(prune := [Prune([], 0)]))))
  {
    hide DecodeRpc, Repeated, Fits;
    var empty := Rpc([], [], Some(NO_CONTROL));
    SmallNumbers();
    NoItems();
    assert RpcBytes(empty) == [];
    RoundTrip(empty);
    var negative := Rpc([], [], Some(NO_CONTROL.(prune := [Prune([], -1)])));
    NegativeFits();
    RoundTrip(negative);
    assert Map(NormalPrune, [Prune([], -1)]) == [Prune([], 0)];
  }

  lemma NoItems()
    ensures Repeated(1, []) == [] && Repeated(2, []) == []
    ensures Map(SubBytes, []) == [] && Map(MessageBytes, []) == []
  {
  }

  lemma NegativeFits()
    ensures Fits(|RpcBytes(Rpc([], [], Some(NO_CONTROL.(prune := [Prune([], -1)]))))|)
  {
    var prune := Prune([], -1);
    var control := NO_CONTROL.(prune := [prune]);
    assert PruneBytes(prune) == [];
    var none: ByteString := [];
    assert Map(PruneBytes, [prune]) == [none] && [none][1..] == [];
    assert Map(IHaveBytes, []) == [] && Map(IdListBytes, []) == [] && Map(GraftBytes, []) == [];
    assert Varint.Groups(34) == [34] && Varint.Groups(0) == [0] && Varint.Groups(26) == [26] && Varint.Groups(2) == [2];
    assert Field(4, none) == [34, 0];
    assert Repeated(4, [none]) == [34, 0] + [];
    assert ControlBytes(control) == [34, 0];
    assert |RpcBytes(Rpc([], [], Some(control)))| == 4;
    SmallFits(1);
    FitsBelow(4, 8);
  }
}

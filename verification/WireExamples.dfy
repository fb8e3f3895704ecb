/** Encodings given byte for byte in the documentation and the tests of the repository. */
module WireExamples {
  import opened Bytes
  import Varint
  import SnappyTags
  import Rlp
  import opened Protobuf
  import opened GossipRpc

  /** 300, seven bits a byte with the low group first. */
  lemma VarintOf300()
    ensures Varint.Groups(300) == [0xAC, 0x02]
    ensures Varint.Decode([0xAC, 0x02], 10) == Ok(Varint.Decoded(300, 2))
  {
    assert [0xAC, 0x02][1..] == [0x02];
    assert Varint.DecodeFrom([0x02], 1, 10) == Ok(Varint.Decoded(2, 1));
  }

  /** Literals of 10 and 200 bytes, and copies of 6 bytes from 300 back and of 20 bytes from 1000 back. */
  lemma TagExamples()
    ensures SnappyTags.EncodeLiteralTag(10) == Ok([0x24])
    ensures SnappyTags.EncodeLiteralTag(200) == Ok([0xF0, 0xC7])
    ensures SnappyTags.EncodeCopyTag(6, 300) == Ok([0x29, 0x2C])
    ensures SnappyTags.EncodeCopyTag(20, 1000) == Ok([0x4E, 0xE8, 0x03])
  {
    assert ToLE(199, 1) == [0xC7] && [0xF0] + [0xC7] == [0xF0, 0xC7];
    assert ToLE(1000, 2) == [0xE8, 0x03] && [0x4E] + [0xE8, 0x03] == [0x4E, 0xE8, 0x03];
  }

  /** The nested list ["zw", [4], 1]. */
  lemma RlpList()
    ensures Rlp.Encode(Rlp.List([Rlp.Str([0x7A, 0x77]), Rlp.List([Rlp.Str([4])]), Rlp.Str([1])])) ==
      Ok([0xC6, 0x82, 0x7A, 0x77, 0xC1, 4, 1])
  {
    var zw, four, one := Rlp.Str([0x7A, 0x77]), Rlp.List([Rlp.Str([4])]), Rlp.Str([1]);
    assert [0x82] + [0x7A, 0x77] == [0x82, 0x7A, 0x77];
    assert Rlp.Encode(zw) == Ok([0x82, 0x7A, 0x77]);
    assert Rlp.Encode(one) == Ok([1]);
    assert [Rlp.Str([4])][1..] == [] && [4] + [] == [4];
    assert Rlp.Encode(Rlp.Str([4])) == Ok([4]);
    assert Rlp.EncodeAll([Rlp.Str([4])]) == Ok([4]);
    assert [0xC1] + [4] == [0xC1, 4];
    assert Rlp.Encode(four) == Ok([0xC1, 4]);
    assert [one][1..] == [] && [1] + [] == [1];
    assert Rlp.EncodeAll([one]) == Ok([1]);
    assert [four, one][1..] == [one];
    assert Rlp.EncodeAll([four, one]) == Ok([0xC1, 4] + [1]);
    assert [zw, four, one][1..] == [four, one];
    var payload: ByteString := [0x82, 0x7A, 0x77] + ([0xC1, 4] + [1]);
    assert Rlp.EncodeAll([zw, four, one]) == Ok(payload);
    assert [0xC6] + payload == [0xC6, 0x82, 0x7A, 0x77, 0xC1, 4, 1];
  }

  /** A string of 1024 bytes: two length bytes, most significant first. */
  lemma RlpLongString(s: ByteString)
    requires |s| == 1024
    ensures Rlp.Encode(Rlp.Str(s)) == Ok([0xB9, 4, 0] + s)
  {
    assert Rlp.ToBE(4) == [4];
    assert Rlp.ToBE(1024) == [4, 0];
    assert [0xB9] + [4, 0] + s == [0xB9, 4, 0] + s;
  }

  // ---- gossipsub RPCs ----

  lemma SmallGroups(n: nat)
    requires n < 128
    ensures Varint.Groups(n) == [n]
  {
  }

  lemma OneByteField(field: nat, b: Byte)
    requires field < 15
    ensures Field(field, [b]) == [8 * field + 2, 1, b]
  {
    SmallGroups(8 * field + 2);
    SmallGroups(1);
    hide Varint.Groups;
  }

  lemma SubExample()
    ensures SubBytes(SubOpts(true, [116])) == [8, 1, 18, 1, 116]
  {
    hide Varint.Groups, Field;
    SmallGroups(8);
    SmallGroups(1);
    OneByteField(2, 116);
  }

  lemma MessageExample()
    ensures MessageBytes(Message([1], [2], [3], [4], [5], [6])) ==
      [10, 1, 1, 18, 1, 2, 26, 1, 3, 34, 1, 4, 42, 1, 5, 50, 1, 6]
  {
    hide Field;
    OneByteField(1, 1);
    OneByteField(2, 2);
    OneByteField(3, 3);
    OneByteField(4, 4);
    OneByteField(5, 5);
    OneByteField(6, 6);
  }

  lemma OneItem(field: nat, item: ByteString)
    requires field < 15 && |item| < 128
    ensures Repeated(field, [item]) == [8 * field + 2, |item|] + item && Repeated(field, []) == []
  {
    SmallGroups(8 * field + 2);
    SmallGroups(|item|);
    hide Varint.Groups;
    assert [item][1..] == [];
  }

  lemma MapOne<A, B>(f: A -> B, x: A)
    ensures Map(f, [x]) == [f(x)] && Map(f, []) == []
  {
  }

  lemma ControlMembers()
    ensures IHaveBytes(IHave([116], [[7]])) == [10, 1, 116, 18, 1, 7]
    ensures IdListBytes(IdList([[8]])) == [10, 1, 8]
    ensures GraftBytes(Graft([116])) == [10, 1, 116]
    ensures PruneBytes(Prune([116], 60)) == [10, 1, 116, 24, 60]
  {
    hide Varint.Groups, Field, Repeated;
    OneByteField(1, 116);
    OneItem(2, [7]);
    OneItem(1, [8]);
    SmallGroups(24);
    SmallGroups(60);
  }

  /** One member of each kind: IHAVE, IWANT, GRAFT, PRUNE and IDONTWANT are fields 1 to 5. */
  lemma ControlExample()
    ensures ControlBytes(Control([IHave([116], [[7]])], [IdList([[8]])], [Graft([116])], [Prune([116], 60)],
                                 [IdList([[8]])])) ==
      [10, 6, 10, 1, 116, 18, 1, 7] + ([18, 3, 10, 1, 8] + ([26, 3, 10, 1, 116] + ([34, 5, 10, 1, 116, 24, 60] +
      [42, 3, 10, 1, 8])))
  {
    hide Repeated, Map, IHaveBytes, IdListBytes, GraftBytes, PruneBytes;
    ControlMembers();
    MapOne(IHaveBytes, IHave([116], [[7]]));
    MapOne(IdListBytes, IdList([[8]]));
    MapOne(GraftBytes, Graft([116]));
    MapOne(PruneBytes, Prune([116], 60));
    OneItem(1, [10, 1, 116, 18, 1, 7]);
    OneItem(2, [10, 1, 8]);
    OneItem(3, [10, 1, 116]);
    OneItem(4, [10, 1, 116, 24, 60]);
    OneItem(5, [10, 1, 8]);
  }

  /** An RPC with a subscription, a message that carries a topic, and a GRAFT. */
  lemma RpcExample()
    ensures RpcBytes(Rpc([SubOpts(true, [116])], [NO_MESSAGE.(topic := [116])],
                         Some(NO_CONTROL.(graft := [Graft([116])])))) ==
      [10, 5, 8, 1, 18, 1, 116] + ([18, 3, 34, 1, 116] + [26, 5, 26, 3, 10, 1, 116])
  {
    hide Repeated, Map, SubBytes, MessageBytes, ControlBytes, GraftBytes, Varint.Groups;
    SubExample();
    TopicOnly();
    GraftOnly();
    MapOne(SubBytes, SubOpts(true, [116]));
    MapOne(MessageBytes, NO_MESSAGE.(topic := [116]));
    OneItem(1, [8, 1, 18, 1, 116]);
    OneItem(2, [34, 1, 116]);
    SmallGroups(26);
    SmallGroups(5);
  }

  lemma TopicOnly()
    ensures MessageBytes(NO_MESSAGE.(topic := [116])) == [34, 1, 116]
  {
    hide Field;
    OneByteField(4, 116);
  }

  lemma GraftOnly()
    ensures ControlBytes(NO_CONTROL.(graft := [Graft([116])])) == [26, 3, 10, 1, 116]
  {
    hide Repeated, Map, GraftBytes, IHaveBytes, IdListBytes, PruneBytes;
    ControlMembers();
    MapOne(GraftBytes, Graft([116]));
    MapOne(IHaveBytes, IHave([], []));
    MapOne(IdListBytes, IdList([]));
    MapOne(PruneBytes, Prune([], 0));
    OneItem(1, []);
    OneItem(2, []);
    OneItem(3, [10, 1, 116]);
    OneItem(4, []);
    OneItem(5, []);
  }
}

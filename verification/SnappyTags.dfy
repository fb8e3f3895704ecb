/** Snappy tags: sections 2.1 and 2.2 of format_description.txt (src/lean_spec/node/snappy/encoding.py). */
module SnappyTags {
  import opened Bytes

  datatype TagError = TagError

  type TagResult<+T> = Result<T, TagError>

  datatype Tag = Literal(length: nat) | Copy(length: nat, offset: nat)

  /** A tag and the bytes it took. */
  datatype DecodedTag = DecodedTag(tag: Tag, size: nat)

  const MAX_LITERAL := 0x1_0000_0000

  /** encode_literal_tag. */
  function EncodeLiteralTag(length: nat): (r: TagResult<ByteString>)
    ensures r.Ok? <==> 1 <= length <= MAX_LITERAL
    ensures r.Ok? ==> 1 <= |r.value| <= 5
  {
    if length < 1 then Err(TagError)
    else if length <= 60 then Ok([(length - 1) * 4])
    else if length <= 256 then Ok([60 * 4] + ToLE(length - 1, 1))
    else if length <= 65536 then Ok([61 * 4] + ToLE(length - 1, 2))
    else if length <= 16777216 then Ok([62 * 4] + ToLE(length - 1, 3))
    else if length <= MAX_LITERAL then Ok([63 * 4] + ToLE(length - 1, 4))
    else Err(TagError)
  }

  /** encode_copy_tag: the shortest of the three forms; the last keeps only 32 bits of the offset. */
  function EncodeCopyTag(length: nat, offset: nat): (r: TagResult<ByteString>)
    ensures r.Ok? <==> 1 <= length <= 64 && 1 <= offset
    ensures r.Ok? ==> 2 <= |r.value| <= 5
    ensures r.Ok? && offset <= 65535 ==> |r.value| <= 3
  {
    if length < 1 || offset < 1 then Err(TagError)
    else if offset <= 2047 && 4 <= length <= 11 then
      Ok([offset / 256 % 8 * 32 + (length - 4) * 4 + 1, offset % 256])
    else if offset <= 65535 && length <= 64 then Ok([(length - 1) * 4 + 2] + ToLE(offset, 2))
    else if length <= 64 then Ok([(length - 1) * 4 + 3] + ToLE(offset, 4))
    else Err(TagError)
  }

  /** decode_tag on the input from its tag byte on. */
  function DecodeTag(s: ByteString): (r: TagResult<DecodedTag>)
    ensures r.Ok? ==> 1 <= r.value.size <= |s| && r.value.tag.length >= 1
  {
    if s == [] then Err(TagError)
    else
      var first: int := s[0];
      var kind, info := first % 4, first / 4;
      if kind == 0 then
        if info < 60 then Ok(DecodedTag(Literal(info + 1), 1))
        else
          var k := info - 59;
          if |s| < 1 + k then Err(TagError)
          else Ok(DecodedTag(Literal(FromLE(s[1..1 + k]) + 1), 1 + k))
      else if kind == 1 then
        if |s| < 2 then Err(TagError)
        else Ok(DecodedTag(Copy(info % 8 + 4, first / 32 * 256 + s[1]), 2))
      else
        var k := if kind == 2 then 2 else 4;
        if |s| < 1 + k then Err(TagError)
        else Ok(DecodedTag(Copy(info + 1, FromLE(s[1..1 + k])), 1 + k))
  }

  lemma Powers()
    ensures Pow256(1) == 256 && Pow256(2) == 65536 && Pow256(3) == 16777216 && Pow256(4) == 0x1_0000_0000
  {
    assert Pow256(2) == 65536;
  }

  /** A tag byte followed by k little-endian bytes decodes from those k bytes. */
  lemma LiteralForm(k: nat, n: nat, rest: ByteString)
    requires 1 <= k <= 4 && n < Pow256(k)
    ensures DecodeTag([(59 + k) * 4] + ToLE(n, k) + rest) == Ok(DecodedTag(Literal(n + 1), 1 + k))
  {
    var s := [(59 + k) * 4] + ToLE(n, k) + rest;
    assert s[1..1 + k] == ToLE(n, k);
    FromToLE(n, k);
  }

  lemma LiteralTagRoundTrip(length: nat, rest: ByteString)
    requires EncodeLiteralTag(length).Ok?
    ensures var t := EncodeLiteralTag(length).value;
      DecodeTag(t + rest) == Ok(DecodedTag(Literal(length), |t|))
  {
    Powers();
    if length > 60 {
      LiteralForm(|EncodeLiteralTag(length).value| - 1, length - 1, rest);
    }
  }

  lemma CopyForm(k: nat, length: nat, offset: nat, rest: ByteString)
    requires k == 2 || k == 4
    requires 1 <= length <= 64
    ensures DecodeTag([(length - 1) * 4 + (if k == 2 then 2 else 3)] + ToLE(offset, k) + rest) ==
            Ok(DecodedTag(Copy(length, FromLE(ToLE(offset, k))), 1 + k))
  {
    var s := [(length - 1) * 4 + (if k == 2 then 2 else 3)] + ToLE(offset, k) + rest;
    assert s[1..1 + k] == ToLE(offset, k);
  }

  lemma ShortCopyForm(length: nat, offset: nat, rest: ByteString)
    requires 1 <= offset <= 2047 && 4 <= length <= 11
    ensures DecodeTag([offset / 256 % 8 * 32 + (length - 4) * 4 + 1, offset % 256] + rest) ==
            Ok(DecodedTag(Copy(length, offset), 2))
  {
    var high := offset / 256;
    assert 0 <= high < 8;
    assert offset / 256 % 8 == high;
    var s := [high * 32 + (length - 4) * 4 + 1, offset % 256] + rest;
    assert s[0] / 4 == high * 8 + (length - 4);
    assert s[0] / 32 == high;
  }

  /** Copies come back unchanged exactly when the offset is a 32-bit value. */
  lemma CopyTagRoundTrip(length: nat, offset: nat, rest: ByteString)
    requires EncodeCopyTag(length, offset).Ok?
    ensures var t := EncodeCopyTag(length, offset).value;
      DecodeTag(t + rest) == Ok(DecodedTag(Copy(length, offset), |t|)) <==> offset < 0x1_0000_0000
  {
    Powers();
    hide FromLE, ToLE, DecodeTag, Pow256;
    if offset <= 2047 && 4 <= length <= 11 {
      ShortCopyForm(length, offset, rest);
    } else if offset <= 65535 {
      CopyForm(2, length, offset, rest);
      FromToLE(offset, 2);
    } else {
      CopyForm(4, length, offset, rest);
      if offset < 0x1_0000_0000 {
        FromToLE(offset, 4);
      } else {
        FromLEBound(ToLE(offset, 4));
      }
    }
  }

  /** No tag that reads as a literal is shorter than the one the encoder writes for it. */
  lemma LiteralTagShortest(s: ByteString)
    requires DecodeTag(s).Ok? && DecodeTag(s).value.tag.Literal?
    ensures var d := DecodeTag(s).value;
      EncodeLiteralTag(d.tag.length).Ok? && |EncodeLiteralTag(d.tag.length).value| <= d.size
  {
    Powers();
    hide FromLE, ToLE, Pow256;
    if s[0] / 4 >= 60 {
      FromLEBound(s[1..1 + (s[0] / 4 - 59)]);
    }
  }

  /** No tag that reads as a copy is shorter than the one the encoder writes for it; offset zero has none. */
  lemma CopyTagShortest(s: ByteString)
    requires DecodeTag(s).Ok? && DecodeTag(s).value.tag.Copy? && DecodeTag(s).value.tag.offset > 0
    ensures var d := DecodeTag(s).value;
      && EncodeCopyTag(d.tag.length, d.tag.offset).Ok?
      && |EncodeCopyTag(d.tag.length, d.tag.offset).value| <= d.size
  {
    Powers();
    hide FromLE, ToLE, Pow256;
    if s[0] % 4 == 2 {
      FromLEBound(s[1..3]);
    }
  }

  /** A copy whose offset does not survive its tag: it comes back as offset 1. */
  lemma WideOffsetCut()
    ensures var t := EncodeCopyTag(4, 0x1_0000_0001).value;
      DecodeTag(t) == Ok(DecodedTag(Copy(4, 1), 5)) && DecodeTag(t) != Ok(DecodedTag(Copy(4, 0x1_0000_0001), 5))
  {
    var t := EncodeCopyTag(4, 0x1_0000_0001).value;
    assert t == [15] + ToLE(0x1_0000_0001, 4);
    assert ToLE(0x1_0000_0001, 4) == [1] + ToLE(0x100_0000, 3) == [1, 0] + ToLE(0x1_0000, 2) == [1, 0, 0, 0];
    assert t[1..5] == [1, 0, 0, 0];
    var high: ByteString := [0, 0];
    assert FromLE(high) == 0;
    assert FromLE(t[1..5]) == 1 by {
      assert t[1..5][1..][1..] == high;
    }
  }
}

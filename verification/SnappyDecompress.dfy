/** Raw Snappy decompression (src/lean_spec/node/snappy/decompress.py). */
module SnappyDecompress {
  import opened Bytes
  import opened SnappyTags
  import Varint

  datatype SnappyError = SnappyError

  type SnappyResult<+T> = Result<T, SnappyError>

  const SNAPPY_VARINT_MAX_BYTES := 5

  /** n bytes appended one at a time, each read `offset` back: source and target may overlap. */
  function CopyBack(output: ByteString, offset: nat, n: nat): (r: ByteString)
    requires 1 <= offset <= |output|
    ensures |r| == |output| + n
    decreases n
  {
    if n == 0 then output else CopyBack(output + [output[|output| - offset]], offset, n - 1)
  }

  /** The tags of s, applied to the output so far, until `total` bytes are out. */
  function Run(s: ByteString, output: ByteString, total: nat): (r: SnappyResult<ByteString>)
    ensures r.Ok? ==> |r.value| == total
    decreases |s|
  {
    if |output| >= total then
      if |output| != total then Err(SnappyError) else Ok(output)
    else
      match DecodeTag(s)
      case Err(_) => Err(SnappyError)
      case Ok(d) =>
        var rest := s[d.size..];
        match d.tag
        case Literal(n) =>
          if n > |rest| then Err(SnappyError) else Run(rest[n..], output + rest[..n], total)
        case Copy(n, offset) =>
          if offset < 1 || offset > |output| || |output| + n > total then Err(SnappyError)
          else Run(rest, CopyBack(output, offset, n), total)
  }

  function Decompress(data: ByteString): (r: SnappyResult<ByteString>)
  {
    if data == [] then Err(SnappyError)
    else
      match Varint.Decode(data, SNAPPY_VARINT_MAX_BYTES)
      case Err(_) => Err(SnappyError)
      case Ok(d) => if d.value == 0 then Ok([]) else Run(data[d.consumed..], [], d.value)
  }

  /** _execute_copy. */
  method ExecuteCopy(output: ByteString, offset: nat, length: nat, maxLength: nat)
    returns (r: SnappyResult<ByteString>)
    ensures r == if offset < 1 || offset > |output| || |output| + length > maxLength then Err(SnappyError)
                 else Ok(CopyBack(output, offset, length))
  {
    if offset < 1 || offset > |output| || |output| + length > maxLength {
      return Err(SnappyError);
    }
    var grown := output;
    var srcPos := |output| - offset;
    for i := 0 to length
      invariant |grown| == |output| + i && srcPos == |grown| - offset
      invariant CopyBack(grown, offset, length - i) == CopyBack(output, offset, length)
    {
      grown := grown + [grown[srcPos]];
      srcPos := srcPos + 1;
    }
    return Ok(grown);
  }

  /** decompress. */
  method DecompressBytes(data: ByteString) returns (r: SnappyResult<ByteString>)
    ensures r == Decompress(data)
  {
    hide DecodeTag, CopyBack, Varint.DecodeFrom;
    if data == [] {
      return Err(SnappyError);
    }
    var header := Varint.DecodeVarint(data, 0, SNAPPY_VARINT_MAX_BYTES);
    assert data[0..] == data;
    if header.Err? {
      return Err(SnappyError);
    }
    var total := header.value.value;
    if total == 0 {
      return Ok([]);
    }
    var output: ByteString := [];
    var pos := header.value.consumed;
    while |output| < total
      invariant pos <= |data|
      invariant Decompress(data) == Run(data[pos..], output, total)
      decreases |data| - pos
    {
      if pos >= |data| {
        return Err(SnappyError);
      }
      var tag := DecodeTag(data[pos..]);
      if tag.Err? {
        return Err(SnappyError);
      }
      assert data[pos..][tag.value.size..] == data[pos + tag.value.size..];
      pos := pos + tag.value.size;
      match tag.value.tag
      case Literal(length) =>
        if pos + length > |data| {
          return Err(SnappyError);
        }
        assert data[pos..][..length] == data[pos..pos + length];
        assert data[pos..][length..] == data[pos + length..];
        output := output + data[pos..pos + length];
        pos := pos + length;
      case Copy(length, offset) =>
        var copied := ExecuteCopy(output, offset, length, total);
        if copied.Err? {
          return Err(SnappyError);
        }
        output := copied.value;
    }
    if |output| != total {
      return Err(SnappyError);
    }
    return Ok(output);
  }
}

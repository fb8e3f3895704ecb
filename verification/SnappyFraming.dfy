/** Snappy framing: sections 3 and 4.1-4.6 of framing_format.txt (src/lean_spec/node/snappy/framing.py). */
module SnappyFraming {
  import opened Bytes
  import opened Crc32c
  import opened SnappyDecompress
  import SnappyCompress
  import SnappyLaws

  const STREAM_IDENTIFIER: ByteString := [0xFF, 6, 0, 0, 0x73, 0x4E, 0x61, 0x50, 0x70, 0x59]
  const MAX_UNCOMPRESSED_CHUNK_SIZE := 65536
  const CHUNK_TYPE_COMPRESSED: Byte := 0
  const CHUNK_TYPE_UNCOMPRESSED: Byte := 1
  const CHUNK_TYPE_IDENTIFIER: Byte := 0xFF

  // ---- compression ----

  /** The payload of a chunk and its type: compressed if that is shorter. */
  function ChunkBody(chunk: ByteString): (r: (Byte, ByteString))
    requires |chunk| <= MAX_UNCOMPRESSED_CHUNK_SIZE
    ensures |r.1| <= |chunk|
  {
    SnappyLaws.RoundTrip(chunk);
    var compressed := SnappyCompress.Compress(chunk).value;
    if |compressed| < |chunk| then (CHUNK_TYPE_COMPRESSED, compressed) else (CHUNK_TYPE_UNCOMPRESSED, chunk)
  }

  /** [type: 1][length: 3 LE][masked crc: 4 LE][payload]. */
  function Frame(kind: Byte, checksum: nat, body: ByteString): (s: ByteString)
    ensures |s| == 8 + |body|
  {
    [kind] + ToLE(4 + |body|, 3) + ToLE(checksum, 4) + body
  }

  function FrameChunk(chunk: ByteString): (s: ByteString)
    requires |chunk| <= MAX_UNCOMPRESSED_CHUNK_SIZE
    ensures 8 <= |s| <= 8 + |chunk|
  {
    var (kind, body) := ChunkBody(chunk);
    Frame(kind, Checksum(chunk), body)
  }

  function ChunkLength(data: ByteString): (n: nat)
    ensures n <= |data| && n <= MAX_UNCOMPRESSED_CHUNK_SIZE && (data != [] ==> n > 0)
  {
    if |data| < MAX_UNCOMPRESSED_CHUNK_SIZE then |data| else MAX_UNCOMPRESSED_CHUNK_SIZE
  }

  function FrameChunks(data: ByteString): (s: ByteString)
    decreases |data|
  {
    if data == [] then []
    else
      var n := ChunkLength(data);
      FrameChunk(data[..n]) + FrameChunks(data[n..])
  }

  function FrameCompress(data: ByteString): (s: ByteString)
  {
    STREAM_IDENTIFIER + FrameChunks(data)
  }

  // ---- decompression ----

  /** What one chunk contributes to the output. */
  function ReadChunk(kind: Byte, body: ByteString): (r: SnappyResult<ByteString>)
  {
    if kind == CHUNK_TYPE_COMPRESSED || kind == CHUNK_TYPE_UNCOMPRESSED then
      if |body| < 4 then Err(SnappyError)
      else
        var payload: SnappyResult<ByteString> :=
          if kind == CHUNK_TYPE_COMPRESSED then Decompress(body[4..]) else Ok(body[4..]);
        if payload.Err? || |payload.value| > MAX_UNCOMPRESSED_CHUNK_SIZE then Err(SnappyError)
        else if FromLE(body[..4]) != Checksum(payload.value) then Err(SnappyError)
        else payload
    else if kind == CHUNK_TYPE_IDENTIFIER then
      if body != STREAM_IDENTIFIER[4..] then Err(SnappyError) else Ok([])
    else if kind <= 0x7F then Err(SnappyError)
    else Ok([])
  }

  function ReadChunks(s: ByteString): (r: SnappyResult<ByteString>)
    decreases |s|
  {
    if s == [] then Ok([])
    else if |s| < 4 then Err(SnappyError)
    else
      var length := FromLE(s[1..4]);
      if 4 + length > |s| then Err(SnappyError)
      else
        match ReadChunk(s[0], s[4..4 + length])
        case Err(e) => Err(e)
        case Ok(first) =>
          match ReadChunks(s[4 + length..])
          case Err(e) => Err(e)
          case Ok(rest) => Ok(first + rest)
  }

  function FrameDecompress(data: ByteString): (r: SnappyResult<ByteString>)
  {
    if |data| < |STREAM_IDENTIFIER| || data[..|STREAM_IDENTIFIER|] != STREAM_IDENTIFIER then Err(SnappyError)
    else ReadChunks(data[|STREAM_IDENTIFIER|..])
  }

  // ---- the source's loops ----

  /** frame_compress. */
  method FrameCompressBytes(table: seq<bv32>, data: ByteString) returns (output: ByteString)
    requires IsTable(table)
    ensures output == FrameCompress(data)
  {
    hide SnappyCompress.Compress, FrameChunk, IsTable, BitwiseCrc, MaskedValue;
    output := STREAM_IDENTIFIER;
    var offset: nat := 0;
    assert data[0..] == data;
    while offset < |data|
      invariant offset <= |data|
      invariant FrameCompress(data) == output + FrameChunks(data[offset..])
    {
      var end := if offset + MAX_UNCOMPRESSED_CHUNK_SIZE < |data| then offset + MAX_UNCOMPRESSED_CHUNK_SIZE else |data|;
      var framed := FrameChunkBytes(table, data[offset..end]);
      assert data[offset..][..ChunkLength(data[offset..])] == data[offset..end];
      assert data[offset..][ChunkLength(data[offset..])..] == data[end..];
      output := output + framed;
      offset := end;
    }
    assert data[offset..] == [];
    assert output + [] == output;
  }

  /** One iteration of frame_compress. */
  method FrameChunkBytes(table: seq<bv32>, chunk: ByteString) returns (s: ByteString)
    requires IsTable(table) && |chunk| <= MAX_UNCOMPRESSED_CHUNK_SIZE
    ensures s == FrameChunk(chunk)
  {
    hide SnappyCompress.CompressBlocks, IsTable, BitwiseCrc, MaskedValue;
    SnappyLaws.RoundTrip(chunk);
    var compressed := SnappyCompress.CompressBytes(chunk);
    var crc := Crc32cLoop(table, chunk);
    var checksum := MaskedValue(crc);
    var kind, body := CHUNK_TYPE_UNCOMPRESSED, chunk;
    if |compressed.value| < |chunk| {
      kind, body := CHUNK_TYPE_COMPRESSED, compressed.value;
    }
    s := [kind];
    s := s + ToLE(4 + |body|, 3);
    s := s + ToLE(checksum, 4);
    s := s + body;
  }

  /** What the rest of the stream adds to the output so far. */
  function Extend(output: ByteString, rest: SnappyResult<ByteString>): SnappyResult<ByteString>
  {
    match rest
    case Err(e) => Err(e)
    case Ok(s) => Ok(output + s)
  }

  lemma ExtendStep(output: ByteString, first: ByteString, rest: SnappyResult<ByteString>)
    ensures Extend(output + first, rest) == Extend(output, Extend(first, rest))
  {
    if rest.Ok? {
      assert output + first + rest.value == output + (first + rest.value);
    }
  }

  lemma ReadChunksUnfold(s: ByteString)
    requires |s| >= 4
    ensures var length := FromLE(s[1..4]);
      && (4 + length > |s| ==> ReadChunks(s) == Err(SnappyError))
      && (4 + length <= |s| ==>
            var first := ReadChunk(s[0], s[4..4 + length]);
            ReadChunks(s) == if first.Err? then Err(first.error) else Extend(first.value, ReadChunks(s[4 + length..])))
  {
    hide ReadChunk, FromLE;
  }

  /** frame_decompress. */
  method FrameDecompressBytes(table: seq<bv32>, data: ByteString) returns (r: SnappyResult<ByteString>)
    requires IsTable(table)
    ensures r == FrameDecompress(data)
  {
    hide ReadChunk, ReadChunks, FromLE, IsTable;
    if |data| < |STREAM_IDENTIFIER| || data[..|STREAM_IDENTIFIER|] != STREAM_IDENTIFIER {
      return Err(SnappyError);
    }
    var output: ByteString := [];
    var pos := |STREAM_IDENTIFIER|;
    ExtendNothing(ReadChunks(data[pos..]));
    while pos < |data|
      invariant pos <= |data|
      invariant FrameDecompress(data) == Extend(output, ReadChunks(data[pos..]))
    {
      if pos + 4 > |data| {
        ShortHeader(data[pos..]);
        return Err(SnappyError);
      }
      var kind := data[pos];
      var length := FromLE(data[pos + 1..pos + 4]);
      ReadChunksUnfold(data[pos..]);
      assert data[pos..][1..4] == data[pos + 1..pos + 4];
      pos := pos + 4;
      if pos + length > |data| {
        return Err(SnappyError);
      }
      var body := data[pos..pos + length];
      assert data[pos - 4..][4..4 + length] == body;
      assert data[pos - 4..][4 + length..] == data[pos + length..];
      pos := pos + length;
      var got := ReadChunkBytes(table, kind, body);
      if got.Err? {
        return got;
      }
      ExtendStep(output, got.value, ReadChunks(data[pos..]));
      output := output + got.value;
    }
    assert data[pos..] == [];
    NoChunks();
    assert output + [] == output;
    return Ok(output);
  }

  /** The chunk-type branches of frame_decompress. */
  method ReadChunkBytes(table: seq<bv32>, kind: Byte, body: ByteString) returns (r: SnappyResult<ByteString>)
    requires IsTable(table)
    ensures r == ReadChunk(kind, body)
  {
    hide BitwiseCrc, MaskedValue, IsTable, Decompress;
    if kind == CHUNK_TYPE_COMPRESSED || kind == CHUNK_TYPE_UNCOMPRESSED {
      if |body| < 4 {
        return Err(SnappyError);
      }
      var payload: SnappyResult<ByteString> := Ok(body[4..]);
      if kind == CHUNK_TYPE_COMPRESSED {
        payload := DecompressBytes(body[4..]);
      }
      if payload.Err? || |payload.value| > MAX_UNCOMPRESSED_CHUNK_SIZE {
        return Err(SnappyError);
      }
      var crc := Crc32cLoop(table, payload.value);
      if FromLE(body[..4]) != MaskedValue(crc) {
        return Err(SnappyError);
      }
      return payload;
    } else if kind == CHUNK_TYPE_IDENTIFIER {
      if body != STREAM_IDENTIFIER[4..] {
        return Err(SnappyError);
      }
      return Ok([]);
    } else if kind <= 0x7F {
      return Err(SnappyError);
    }
    return Ok([]);
  }

  lemma ShortHeader(s: ByteString)
    requires 0 < |s| < 4
    ensures ReadChunks(s) == Err(SnappyError)
  {
  }

  lemma NoChunks()
    ensures ReadChunks([]) == Ok([])
  {
  }

  lemma ExtendNothing(rest: SnappyResult<ByteString>)
    ensures Extend([], rest) == rest
  {
    if rest.Ok? {
      assert [] + rest.value == rest.value;
    }
  }

  // ---- laws ----

  lemma FrameParts(kind: Byte, checksum: nat, body: ByteString, rest: ByteString)
    requires 4 + |body| < 0x100_0000 && checksum < 0x1_0000_0000
    ensures var s := Frame(kind, checksum, body) + rest;
      && s[0] == kind && FromLE(s[1..4]) == 4 + |body|
      && FromLE(s[4..8 + |body|][..4]) == checksum && s[4..8 + |body|][4..] == body
      && s[8 + |body|..] == rest
  {
    var s := Frame(kind, checksum, body) + rest;
    hide FromLE, ToLE;
    assert s[1..4] == ToLE(4 + |body|, 3);
    assert s[4..8 + |body|][..4] == ToLE(checksum, 4);
    assert Pow256(2) == 0x1_0000 && Pow256(3) == 0x100_0000 && Pow256(4) == 0x1_0000_0000;
    FromToLE(4 + |body|, 3);
    FromToLE(checksum, 4);
  }

  lemma ChunkReadsBack(chunk: ByteString, body: ByteString)
    requires |chunk| <= MAX_UNCOMPRESSED_CHUNK_SIZE && |body| >= 4
    requires FromLE(body[..4]) == Checksum(chunk) && body[4..] == ChunkBody(chunk).1
    ensures ReadChunk(ChunkBody(chunk).0, body) == Ok(chunk)
  {
    hide Decompress, SnappyCompress.Compress, Checksum, FromLE;
    SnappyLaws.RoundTrip(chunk);
  }

  /** One framed chunk reads back as the chunk, whatever follows. */
  lemma ChunkRoundTrip(chunk: ByteString, rest: ByteString)
    requires |chunk| <= MAX_UNCOMPRESSED_CHUNK_SIZE
    ensures ReadChunks(FrameChunk(chunk) + rest) == Extend(chunk, ReadChunks(rest))
  {
    var (kind, body) := ChunkBody(chunk);
    var s := FrameChunk(chunk) + rest;
    hide ReadChunk, ReadChunks, ChunkBody, Frame, Checksum, FromLE;
    FrameParts(kind, Checksum(chunk), body, rest);
    ChunkReadsBack(chunk, s[4..8 + |body|]);
    ReadChunksUnfold(s);
  }

  lemma {:induction false} ChunksRoundTrip(data: ByteString)
    ensures ReadChunks(FrameChunks(data)) == Ok(data)
    decreases |data|
  {
    hide ReadChunks, FrameChunk;
    if data == [] {
      NoChunks();
    } else {
      var n := ChunkLength(data);
      ChunkRoundTrip(data[..n], FrameChunks(data[n..]));
      ChunksRoundTrip(data[n..]);
      assert data[..n] + data[n..] == data;
    }
  }

  /** frame_decompress(frame_compress(data)) == data. */
  lemma RoundTrip(data: ByteString)
    ensures FrameDecompress(FrameCompress(data)) == Ok(data)
  {
    hide ReadChunks, FrameChunks;
    ChunksRoundTrip(data);
    var s := FrameCompress(data);
    assert s[..|STREAM_IDENTIFIER|] == STREAM_IDENTIFIER;
    assert s[|STREAM_IDENTIFIER|..] == FrameChunks(data);
  }

  /** Chunks accepted on their own are accepted in front of any stream. */
  lemma {:induction false} ChunksConcat(a: ByteString, b: ByteString)
    requires ReadChunks(a).Ok?
    ensures ReadChunks(a + b) == Extend(ReadChunks(a).value, ReadChunks(b))
    decreases |a|
  {
    hide ReadChunks, ReadChunk, FromLE;
    if a == [] {
      NoChunks();
      ExtendNothing(ReadChunks(b));
      assert a + b == b;
    } else {
      if |a| < 4 {
        ShortHeader(a);
      }
      var length := FromLE(a[1..4]);
      ReadChunksUnfold(a);
      ReadChunksUnfold(a + b);
      assert (a + b)[1..4] == a[1..4];
      assert (a + b)[4..4 + length] == a[4..4 + length];
      assert (a + b)[4 + length..] == a[4 + length..] + b;
      ChunksConcat(a[4 + length..], b);
      ExtendStep(ReadChunk(a[0], a[4..4 + length]).value, ReadChunks(a[4 + length..]).value, ReadChunks(b));
    }
  }

  /** A stream identifier in the middle of a stream is skipped. */
  lemma IdentifierSkipped(rest: ByteString)
    ensures ReadChunks(STREAM_IDENTIFIER + rest) == ReadChunks(rest)
  {
    var s := STREAM_IDENTIFIER + rest;
    assert s[1..4] == [6, 0, 0];
    assert FromLE([6, 0, 0]) == 6 by {
      assert [6, 0, 0][1..] == [0, 0];
      assert FromLE([0, 0]) == 0;
    }
    hide ReadChunks, FromLE;
    ReadChunksUnfold(s);
    assert s[4..10] == STREAM_IDENTIFIER[4..];
    assert s[10..] == rest;
    ExtendNothing(ReadChunks(rest));
  }

  /** Two accepted streams, one after the other, give their outputs one after the other. */
  lemma Concatenation(a: ByteString, b: ByteString)
    requires FrameDecompress(a).Ok? && FrameDecompress(b).Ok?
    ensures FrameDecompress(a + b) == Ok(FrameDecompress(a).value + FrameDecompress(b).value)
  {
    hide ReadChunks;
    var n := |STREAM_IDENTIFIER|;
    assert (a + b)[..n] == a[..n];
    assert (a + b)[n..] == a[n..] + b;
    assert b == STREAM_IDENTIFIER + b[n..];
    ChunksConcat(a[n..], b);
    IdentifierSkipped(b[n..]);
  }

  /** A framed chunk cut short is an error, unless nothing of it arrived. */
  lemma CutChunk(chunk: ByteString, k: nat)
    requires |chunk| <= MAX_UNCOMPRESSED_CHUNK_SIZE && 0 < k < |FrameChunk(chunk)|
    ensures ReadChunks(FrameChunk(chunk)[..k]).Err?
  {
    var (kind, body) := ChunkBody(chunk);
    var s := FrameChunk(chunk);
    hide ReadChunk, ReadChunks, ChunkBody, Frame, Checksum, FromLE;
    if k < 4 {
      ShortHeader(s[..k]);
    } else {
      FrameParts(kind, Checksum(chunk), body, []);
      assert s + [] == s;
      assert s[..k][1..4] == s[1..4];
      ReadChunksUnfold(s[..k]);
    }
  }

  /** A proper prefix of the chunks never yields the full data. */
  lemma {:induction false} CutChunks(data: ByteString, k: nat)
    requires k < |FrameChunks(data)|
    ensures var r := ReadChunks(FrameChunks(data)[..k]); r.Ok? ==> |r.value| < |data|
    decreases |data|
  {
    hide ReadChunks, FrameChunk;
    var n := ChunkLength(data);
    var first, rest := FrameChunk(data[..n]), FrameChunks(data[n..]);
    if k == 0 {
      NoChunks();
      assert FrameChunks(data)[..k] == [];
    } else if k < |first| {
      assert FrameChunks(data)[..k] == first[..k];
      CutChunk(data[..n], k);
    } else {
      assert FrameChunks(data)[..k] == first + rest[..k - |first|];
      ChunkRoundTrip(data[..n], rest[..k - |first|]);
      CutChunks(data[n..], k - |first|);
    }
  }

  /** No proper prefix of a framed stream decompresses to as many bytes as the stream. */
  lemma PrefixIsShort(data: ByteString, k: nat)
    requires k < |FrameCompress(data)|
    ensures var r := FrameDecompress(FrameCompress(data)[..k]); r.Ok? ==> |r.value| < |data|
  {
    hide ReadChunks, FrameChunks;
    var n := |STREAM_IDENTIFIER|;
    if k >= n {
      assert FrameCompress(data)[..k][n..] == FrameChunks(data)[..k - n];
      CutChunks(data, k - n);
    }
  }

  lemma {:induction false} ChunksSize(data: ByteString)
    ensures |FrameChunks(data)| <= |data| + |data| / 6 + 8
    decreases |data|
  {
    hide FrameChunk;
    if data != [] {
      var n := ChunkLength(data);
      ChunksSize(data[n..]);
      if n == |data| {
        assert FrameChunks(data[n..]) == [];
      }
    }
  }
}

/** Reserved chunk types in a framed stream, and one frame written out (src/lean_spec/node/snappy/framing.py). */
module SnappyChunks {
  import opened Bytes
  import opened Crc32c
  import CrcPolynomial
  import opened SnappyDecompress
  import SnappyCompress
  import SnappyLaws
  import opened SnappyFraming

  /** "sNaPpY". */
  const MAGIC: ByteString := [0x73, 0x4E, 0x61, 0x50, 0x70, 0x59]

  /** A chunk of any type: [type: 1][length: 3 LE][body]. */
  function Chunk(kind: Byte, body: ByteString): ByteString
  {
    [kind] + ToLE(|body|, 3) + body
  }

  lemma ChunkParts(kind: Byte, body: ByteString, rest: ByteString)
    requires |body| < 0x100_0000
    ensures var s := Chunk(kind, body) + rest;
      && |s| == 4 + |body| + |rest| && s[0] == kind && FromLE(s[1..4]) == |body|
      && s[4..4 + |body|] == body && s[4 + |body|..] == rest
  {
    hide FromLE, ToLE;
    var s := Chunk(kind, body) + rest;
    assert s[1..4] == ToLE(|body|, 3);
    assert Pow256(2) == 0x1_0000 && Pow256(3) == 0x100_0000;
    FromToLE(|body|, 3);
  }

  lemma ReservedKinds(kind: Byte, body: ByteString)
    ensures 0x80 <= kind <= 0xFE ==> ReadChunk(kind, body) == Ok([])
    ensures 0x02 <= kind <= 0x7F ==> ReadChunk(kind, body) == Err(SnappyError)
    ensures kind == 0xFF ==> ReadChunk(kind, body) == if body == MAGIC then Ok([]) else Err(SnappyError)
  {
    hide Decompress, Checksum, FromLE;
  }

  lemma ReservedFront(kind: Byte, body: ByteString, rest: ByteString)
    requires |body| < 0x100_0000
    ensures 0x80 <= kind <= 0xFE ==> ReadChunks(Chunk(kind, body) + rest) == ReadChunks(rest)
    ensures 0x02 <= kind <= 0x7F ==> ReadChunks(Chunk(kind, body) + rest).Err?
    ensures kind == 0xFF && body == MAGIC ==> ReadChunks(Chunk(kind, body) + rest) == ReadChunks(rest)
    ensures kind == 0xFF && body != MAGIC ==> ReadChunks(Chunk(kind, body) + rest).Err?
  {
    hide *;
    ChunkParts(kind, body, rest);
    ReservedKinds(kind, body);
    ReadChunksUnfold(Chunk(kind, body) + rest);
    ExtendNothing(ReadChunks(rest));
  }

  lemma ChunksAfter(a: ByteString, rest: ByteString)
    requires FrameDecompress(a).Ok?
    ensures FrameDecompress(a + rest) == Extend(FrameDecompress(a).value, ReadChunks(rest))
  {
    hide ReadChunks;
    var n := |STREAM_IDENTIFIER|;
    assert (a + rest)[..n] == a[..n];
    assert (a + rest)[n..] == a[n..] + rest;
    ChunksConcat(a[n..], rest);
  }

  /**
   A chunk of a reserved type after an accepted stream: types 0x80-0xFE change nothing, whatever follows, and
   types 0x02-0x7F get the stream refused.  Type 0xFF is skipped with the magic bytes and refused with any others.
   */
  lemma ReservedChunk(a: ByteString, kind: Byte, body: ByteString, rest: ByteString)
    requires FrameDecompress(a).Ok? && |body| < 0x100_0000
    ensures 0x80 <= kind <= 0xFE ==> FrameDecompress(a + (Chunk(kind, body) + rest)) == FrameDecompress(a + rest)
    ensures 0x02 <= kind <= 0x7F ==> FrameDecompress(a + (Chunk(kind, body) + rest)).Err?
    ensures kind == 0xFF && body == MAGIC ==>
      FrameDecompress(a + (Chunk(kind, body) + rest)) == FrameDecompress(a + rest)
    ensures kind == 0xFF && body != MAGIC ==> FrameDecompress(a + (Chunk(kind, body) + rest)).Err?
  {
    hide FrameDecompress, ReadChunks, Chunk;
    ChunksAfter(a, rest);
    ChunksAfter(a, Chunk(kind, body) + rest);
    ReservedFront(kind, body, rest);
  }

  // ---- sizes ----

  /** No chunk yields more than 65536 bytes. */
  lemma ChunkWithinLimit(kind: Byte, body: ByteString)
    ensures ReadChunk(kind, body).Ok? ==> |ReadChunk(kind, body).value| <= 65536
  {
    hide Decompress, Checksum, FromLE;
  }

  /** Data is cut after every 65536 bytes, and a chunk is stored compressed exactly when that is shorter. */
  lemma ChunksCut(data: ByteString)
    requires data != []
    ensures var n := if |data| < 65536 then |data| else 65536;
      && FrameChunks(data) == FrameChunk(data[..n]) + FrameChunks(data[n..])
      && SnappyCompress.Compress(data[..n]).Ok?
      && var compressed := SnappyCompress.Compress(data[..n]).value;
         if |compressed| < n then FrameChunk(data[..n]) == Frame(0, Checksum(data[..n]), compressed)
         else FrameChunk(data[..n]) == Frame(1, Checksum(data[..n]), data[..n])
  {
    hide SnappyCompress.Compress, Checksum, Frame;
    SnappyLaws.RoundTrip(data[..ChunkLength(data)]);
  }

  // ---- one frame, byte for byte ----

  lemma ZeroSteps()
    ensures Word(0 as bv8) == 0 && CrcPolynomial.EightSteps(0xFFFF_FFFF ^ 0) == 0xAD82_ACAE
  {
  }

  lemma MaskedZero()
    ensures MaskCrc(0x527D_5351 as bv64) == 0x4925_8FD2
  {
  }

  lemma MaskedZeroNumber()
    ensures MaskedValue(0x527D_5351) == 0x4925_8FD2
  {
    MaskedZero();
    hide MaskCrc;
  }

  lemma ZeroChecksum()
    ensures Checksum([0]) == 0x4925_8FD2
  {
    hide CrcPolynomial.EightSteps, FeedBytes, MaskedValue;
    ZeroSteps();
    CrcPolynomial.FeedOne(0xFFFF_FFFF, 0, 0, [], 0xAD82_ACAE);
    CrcPolynomial.NothingFed(0xAD82_ACAE);
    assert [0] + [] == [0];
    MaskedZeroNumber();
  }

  lemma ZeroBody()
    ensures ChunkBody([0]) == (CHUNK_TYPE_UNCOMPRESSED, [0])
  {
    SnappyLaws.RoundTrip([0]);
    hide SnappyCompress.Compress;
    NothingDecodes();
  }

  lemma NothingDecodes()
    ensures Decompress([]).Err?
  {
  }

  lemma ZeroBytes()
    ensures ToLE(5, 3) == [5, 0, 0] && ToLE(0x4925_8FD2, 4) == [0xD2, 0x8F, 0x25, 0x49]
  {
  }

  /** The stream for a single zero byte: identifier, type, length, masked checksum, data. */
  lemma FrameOfZero()
    ensures FrameCompress([0]) ==
      [0xFF, 6, 0, 0, 0x73, 0x4E, 0x61, 0x50, 0x70, 0x59, 1, 5, 0, 0, 0xD2, 0x8F, 0x25, 0x49, 0]
  {
    hide ChunkBody, Checksum, ToLE;
    ZeroBody();
    ZeroChecksum();
    ZeroBytes();
    assert [0][..1] == [0] && [0][1..] == [];
    assert FrameChunks([0]) == FrameChunk([0]) + FrameChunks([]);
  }
}

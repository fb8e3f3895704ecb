/**
 The req/resp wire: codec (src/lean_spec/node/networking/reqresp/codec.py) and the incremental
 request reader (ReqRespServer._read_request in src/lean_spec/node/networking/reqresp/handler.py).
 */
module ReqResp {
  import opened Bytes
  import opened NetworkConfig
  import opened SnappyDecompress
  import opened SnappyFraming
  import Crc32c
  import Varint

  const VARINT_MAX_BYTES := 10

  datatype CodecError = CodecError

  type CodecResult<+T> = Result<T, CodecError>

  // ---- codec ----

  /** _encode_framed: [varint: length][snappy framed payload]. */
  function EncodeFramed(payload: ByteString): (r: CodecResult<ByteString>)
    ensures r.Ok? <==> |payload| <= MAX_PAYLOAD_SIZE
  {
    if |payload| > MAX_PAYLOAD_SIZE then Err(CodecError)
    else
      HeaderFits(payload);
      Ok(Varint.Encode(|payload|, VARINT_MAX_BYTES).value + FrameCompress(payload))
  }

  lemma HeaderFits(payload: ByteString)
    requires |payload| <= MAX_PAYLOAD_SIZE
    ensures Varint.Encode(|payload|, VARINT_MAX_BYTES).Ok?
    ensures Varint.Encode(|payload|, VARINT_MAX_BYTES).value == Varint.Groups(|payload|)
    ensures |Varint.Groups(|payload|)| <= VARINT_MAX_BYTES
  {
    Varint.EncodeAccepts(|payload|, VARINT_MAX_BYTES);
    assert Varint.Pow128(4) == 0x1000_0000;
    Varint.Pow128Grows(4, VARINT_MAX_BYTES);
    Varint.GroupsLength(|payload|, VARINT_MAX_BYTES);
  }

  /** _decode_framed on the bytes from its offset on. */
  function DecodeFramed(s: ByteString): (r: CodecResult<ByteString>)
  {
    match Varint.Decode(s, VARINT_MAX_BYTES)
    case Err(_) => Err(CodecError)
    case Ok(d) =>
      if d.value > MAX_PAYLOAD_SIZE then Err(CodecError)
      else
        match FrameDecompress(s[d.consumed..])
        case Err(_) => Err(CodecError)
        case Ok(payload) => if |payload| != d.value then Err(CodecError) else Ok(payload)
  }

  function EncodeRequest(payload: ByteString): (r: CodecResult<ByteString>)
  {
    EncodeFramed(payload)
  }

  function DecodeRequest(data: ByteString): (r: CodecResult<ByteString>)
  {
    if data == [] then Err(CodecError) else DecodeFramed(data)
  }

  datatype ResponseCode = Success | InvalidRequest | ServerError | ResourceUnavailable

  function CodeByte(code: ResponseCode): Byte
  {
    match code
    case Success => 0
    case InvalidRequest => 1
    case ServerError => 2
    case ResourceUnavailable => 3
  }

  /** Unknown codes up to 127 read as a server error, the rest as an invalid request. */
  function CodeOf(raw: Byte): ResponseCode
  {
    if raw == 0 then Success
    else if raw == 1 then InvalidRequest
    else if raw == 2 then ServerError
    else if raw == 3 then ResourceUnavailable
    else if raw <= 127 then ServerError
    else InvalidRequest
  }

  function EncodeResponse(code: ResponseCode, payload: ByteString): (r: CodecResult<ByteString>)
  {
    match EncodeFramed(payload)
    case Err(e) => Err(e)
    case Ok(s) => Ok([CodeByte(code)] + s)
  }

  function DecodeResponse(data: ByteString): (r: CodecResult<(ResponseCode, ByteString)>)
  {
    if |data| < 2 then Err(CodecError)
    else
      match DecodeFramed(data[1..])
      case Err(e) => Err(e)
      case Ok(payload) => Ok((CodeOf(data[0]), payload))
  }

  lemma FramedRoundTrip(payload: ByteString)
    requires |payload| <= MAX_PAYLOAD_SIZE
    ensures DecodeFramed(EncodeFramed(payload).value) == Ok(payload)
    ensures |EncodeFramed(payload).value| >= 1
  {
    hide FrameCompress, FrameDecompress, Varint.Groups, Varint.DecodeFrom;
    HeaderFits(payload);
    var header := Varint.Groups(|payload|);
    Varint.RoundTrip(|payload|, VARINT_MAX_BYTES, FrameCompress(payload));
    assert (header + FrameCompress(payload))[|header|..] == FrameCompress(payload);
    RoundTrip(payload);
  }

  /** Requests and responses of every code come back as sent. */
  lemma CodecRoundTrip(code: ResponseCode, payload: ByteString)
    requires |payload| <= MAX_PAYLOAD_SIZE
    ensures EncodeRequest(payload).Ok? && DecodeRequest(EncodeRequest(payload).value) == Ok(payload)
    ensures EncodeResponse(code, payload).Ok?
    ensures DecodeResponse(EncodeResponse(code, payload).value) == Ok((code, payload))
  {
    FramedRoundTrip(payload);
    hide EncodeFramed, DecodeFramed;
    assert EncodeResponse(code, payload).value[1..] == EncodeFramed(payload).value;
  }

  /** A framed payload behind any code byte: the four codes, then server errors, then invalid requests. */
  lemma AnyCode(raw: Byte, payload: ByteString)
    requires |payload| <= MAX_PAYLOAD_SIZE
    ensures EncodeFramed(payload).Ok?
    ensures var r := DecodeResponse([raw] + EncodeFramed(payload).value);
      && (raw == 0 ==> r == Ok((Success, payload)))
      && (raw == 1 ==> r == Ok((InvalidRequest, payload)))
      && (raw == 2 ==> r == Ok((ServerError, payload)))
      && (raw == 3 ==> r == Ok((ResourceUnavailable, payload)))
      && (4 <= raw <= 127 ==> r == Ok((ServerError, payload)))
      && (128 <= raw ==> r == Ok((InvalidRequest, payload)))
  {
    hide EncodeFramed, DecodeFramed;
    FramedRoundTrip(payload);
    var wire := EncodeFramed(payload).value;
    assert ([raw] + wire)[1..] == wire;
  }

  /** A length prefix of more than ten bytes is refused, and a body above the guard is given up. */
  lemma OverlongRefused(data: ByteString, compressed: ByteString, chunks: seq<ByteString>, declared: nat)
    ensures |data| >= 10 && (forall i | 0 <= i < 10 :: data[i] >= 128) ==> DecodeFramed(data).Err?
    ensures |compressed| > declared + declared / 6 + 1024 ==>
      ReadBody(compressed, chunks, declared) == Outcome([], chunks)
  {
    hide FrameDecompress, Varint.DecodeFrom;
    if |data| >= 10 && forall i | 0 <= i < 10 :: data[i] >= 128 {
      Varint.TooLongExactly(data, VARINT_MAX_BYTES);
    }
  }

  /** Neither side goes beyond 10 MiB, and the sender goes up to it. */
  lemma WithinLimit(payload: ByteString, data: ByteString)
    ensures EncodeRequest(payload).Ok? <==> |payload| <= 10 * 1024 * 1024
    ensures DecodeRequest(data).Ok? ==> |DecodeRequest(data).value| <= 10 * 1024 * 1024
  {
    hide FrameDecompress, FrameCompress;
  }

  // ---- the incremental reader ----

  /** What the reader returned, and the chunks it never read. */
  datatype Outcome = Outcome(result: ByteString, unread: seq<ByteString>)

  /** An exhausted source and an empty read both mean that the stream closed. */
  predicate Closed(chunks: seq<ByteString>)
  {
    chunks == [] || chunks[0] == []
  }

  function AfterClose(chunks: seq<ByteString>): seq<ByteString>
  {
    if chunks == [] then [] else chunks[1..]
  }

  /** First phase: buffer until a varint decodes. */
  function ReadPrefix(buffer: ByteString, chunks: seq<ByteString>): (r: Outcome)
    decreases |chunks|
  {
    if Closed(chunks) then Outcome(buffer, AfterClose(chunks))
    else
      var grown := buffer + chunks[0];
      match Varint.Decode(grown, VARINT_MAX_BYTES)
      case Err(_) => ReadPrefix(grown, chunks[1..])
      case Ok(d) =>
        if d.value > MAX_PAYLOAD_SIZE then Outcome([], chunks[1..])
        else ReadBody(grown[d.consumed..], chunks[1..], d.value)
  }

  /** The size guard. */
  function MaxCompressed(declared: nat): nat
  {
    declared + declared / 6 + 1024
  }

  /** Second phase: retry decompression after every read. */
  function ReadBody(compressed: ByteString, chunks: seq<ByteString>, declared: nat): (r: Outcome)
    decreases |chunks|
  {
    if |compressed| > MaxCompressed(declared) then Outcome([], chunks)
    else
      var attempt := FrameDecompress(compressed);
      if attempt.Ok? && |attempt.value| == declared then Outcome(attempt.value, chunks)
      else if Closed(chunks) then Outcome([], AfterClose(chunks))
      else ReadBody(compressed + chunks[0], chunks[1..], declared)
  }

  function ReadRequest(chunks: seq<ByteString>): (r: Outcome)
  {
    ReadPrefix([], chunks)
  }

  /** The inbound stream: each read returns the next chunk, and an empty one at the end. */
  class InboundStream {
    var chunks: seq<ByteString>

    constructor (chunks: seq<ByteString>)
      ensures this.chunks == chunks
    {
      this.chunks := chunks;
    }

    method Read() returns (chunk: ByteString)
      modifies this
      ensures Closed(old(chunks)) ==> chunk == [] && chunks == AfterClose(old(chunks))
      ensures !Closed(old(chunks)) ==> chunk == old(chunks)[0] != [] && chunks == old(chunks)[1..]
    {
      if chunks == [] {
        chunk := [];
      } else {
        chunk, chunks := chunks[0], chunks[1..];
      }
    }
  }

  /** _read_request. */
  method ReadRequestLoop(table: seq<bv32>, stream: InboundStream) returns (result: ByteString)
    requires Crc32c.IsTable(table)
    modifies stream
    ensures Outcome(result, stream.chunks) == ReadRequest(old(stream.chunks))
  {
    hide FrameDecompress, Varint.DecodeFrom, Crc32c.IsTable;
    var buffer: ByteString := [];
    var declared: Option<nat> := None;
    var varintSize: nat := 0;
    while declared.None?
      invariant declared.None? ==> ReadRequest(old(stream.chunks)) == ReadPrefix(buffer, stream.chunks)
      invariant declared.Some? ==> varintSize <= |buffer|
      invariant declared.Some? ==>
        ReadRequest(old(stream.chunks)) ==
        if declared.value > MAX_PAYLOAD_SIZE then Outcome([], stream.chunks)
        else ReadBody(buffer[varintSize..], stream.chunks, declared.value)
      decreases |stream.chunks|, declared.None?
    {
      var chunk := stream.Read();
      if chunk == [] {
        return buffer;
      }
      buffer := buffer + chunk;
      var header := Varint.DecodeVarint(buffer, 0, VARINT_MAX_BYTES);
      assert buffer[0..] == buffer;
      if header.Ok? {
        declared, varintSize := Some(header.value.value), header.value.consumed;
      }
    }
    if declared.value > MAX_PAYLOAD_SIZE {
      return [];
    }
    result := ReadBodyLoop(table, stream, buffer[varintSize..], declared.value);
  }

  method ReadBodyLoop(table: seq<bv32>, stream: InboundStream, first: ByteString, declared: nat)
    returns (result: ByteString)
    requires Crc32c.IsTable(table)
    modifies stream
    ensures Outcome(result, stream.chunks) == ReadBody(first, old(stream.chunks), declared)
  {
    hide FrameDecompress, Crc32c.IsTable;
    var compressed := first;
    while true
      invariant ReadBody(first, old(stream.chunks), declared) == ReadBody(compressed, stream.chunks, declared)
      decreases |stream.chunks|
    {
      if |compressed| > MaxCompressed(declared) {
        return [];
      }
      var attempt := FrameDecompressBytes(table, compressed);
      if attempt.Ok? && |attempt.value| == declared {
        return attempt.value;
      }
      var chunk := stream.Read();
      if chunk == [] {
        // The source tries once more here, on the same bytes that have just failed.
        return [];
      }
      compressed := compressed + chunk;
    }
  }

  // ---- every cut of an encoded request is read back whole ----

  function Concat(chunks: seq<ByteString>): ByteString
  {
    if chunks == [] then [] else chunks[0] + Concat(chunks[1..])
  }

  ghost predicate NoEmptyRead(chunks: seq<ByteString>)
  {
    forall i | 0 <= i < |chunks| :: chunks[i] != []
  }

  lemma WithinGuard(payload: ByteString)
    ensures |FrameCompress(payload)| <= MaxCompressed(|payload|)
  {
    hide FrameChunks;
    ChunksSize(payload);
  }

  lemma {:induction false} BodyReadsBack(payload: ByteString, compressed: ByteString, chunks: seq<ByteString>)
    requires NoEmptyRead(chunks) && compressed + Concat(chunks) == FrameCompress(payload)
    ensures ReadBody(compressed, chunks, |payload|) == Outcome(payload, [])
    decreases |chunks|
  {
    hide FrameCompress, FrameDecompress;
    WithinGuard(payload);
    if chunks == [] {
      assert compressed == FrameCompress(payload);
      RoundTrip(payload);
    } else {
      PrefixIsShort(payload, |compressed|);
      assert FrameCompress(payload)[..|compressed|] == compressed;
      assert compressed + chunks[0] + Concat(chunks[1..]) == compressed + Concat(chunks);
      BodyReadsBack(payload, compressed + chunks[0], chunks[1..]);
    }
  }

  lemma {:induction false} PrefixReadsBack(payload: ByteString, buffer: ByteString, chunks: seq<ByteString>)
    requires |payload| <= MAX_PAYLOAD_SIZE && NoEmptyRead(chunks)
    requires |buffer| < |Varint.Groups(|payload|)|
    requires buffer + Concat(chunks) == EncodeRequest(payload).value
    ensures ReadPrefix(buffer, chunks) == Outcome(payload, [])
    decreases |chunks|
  {
    hide FrameCompress, ReadBody, Varint.DecodeFrom, Varint.Groups;
    HeaderFits(payload);
    var header := Varint.Groups(|payload|);
    var wire := header + FrameCompress(payload);
    assert buffer + Concat(chunks) == wire;
    assert chunks != [];
    var grown := buffer + chunks[0];
    assert grown + Concat(chunks[1..]) == wire;
    assert grown == wire[..|grown|];
    if |grown| < |header| {
      assert grown == header[..|grown|];
      Varint.PrefixTruncated(|payload|, |grown|, 0, VARINT_MAX_BYTES);
      PrefixReadsBack(payload, grown, chunks[1..]);
    } else {
      var tail := grown[|header|..];
      assert grown == header + tail;
      Varint.RoundTrip(|payload|, VARINT_MAX_BYTES, tail);
      assert tail + Concat(chunks[1..]) == FrameCompress(payload) by {
        assert (grown + Concat(chunks[1..]))[|header|..] == wire[|header|..];
      }
      BodyReadsBack(payload, tail, chunks[1..]);
    }
  }

  /** However the encoded request is cut, the reader returns the payload, after the last read and not before. */
  lemma StreamingRead(payload: ByteString, chunks: seq<ByteString>)
    requires |payload| <= MAX_PAYLOAD_SIZE
    requires NoEmptyRead(chunks) && Concat(chunks) == EncodeRequest(payload).value
    ensures ReadRequest(chunks) == Outcome(payload, [])
  {
    hide FrameCompress, ReadPrefix;
    assert [] + Concat(chunks) == Concat(chunks);
    PrefixReadsBack(payload, [], chunks);
  }

  // ---- on arbitrary streams the reader accepts only what the whole-message decoder accepts ----

  /** The bytes of the reads that were made. */
  function Consumed(chunks: seq<ByteString>, o: Outcome): ByteString
  {
    if |o.unread| <= |chunks| then Concat(chunks[..|chunks| - |o.unread|]) else []
  }

  lemma ConsumedStep(chunks: seq<ByteString>, o: Outcome)
    requires chunks != [] && |o.unread| <= |chunks| - 1
    ensures Consumed(chunks, o) == chunks[0] + Consumed(chunks[1..], o)
  {
    var k := |chunks| - |o.unread|;
    assert chunks[..k][1..] == chunks[1..][..k - 1];
  }

  lemma ConsumedClose(chunks: seq<ByteString>, result: ByteString)
    requires Closed(chunks)
    ensures Consumed(chunks, Outcome(result, AfterClose(chunks))) == []
  {
    if chunks != [] {
      var made := chunks[..|chunks| - |chunks[1..]|];
      assert made == [chunks[0]] && made[1..] == [];
      assert chunks[0] + Concat([]) == [];
    }
  }

  lemma {:induction false} BodySound(header: ByteString, compressed: ByteString, chunks: seq<ByteString>, declared: nat)
    requires declared <= MAX_PAYLOAD_SIZE
    requires Varint.Decode(header + compressed, VARINT_MAX_BYTES) == Ok(Varint.Decoded(declared, |header|))
    ensures var o := ReadBody(compressed, chunks, declared);
      && |o.unread| <= |chunks|
      && (o.result != [] ==> DecodeFramed(header + compressed + Consumed(chunks, o)) == Ok(o.result))
    decreases |chunks|
  {
    hide FrameDecompress, Varint.DecodeFrom;
    var o := ReadBody(compressed, chunks, declared);
    if |compressed| > MaxCompressed(declared) {
    } else if FrameDecompress(compressed).Ok? && |FrameDecompress(compressed).value| == declared {
      assert chunks[..0] == [];
      var wire := header + compressed + Consumed(chunks, o);
      assert wire == header + compressed;
      assert wire[|header|..] == compressed;
    } else if !Closed(chunks) {
      var more := compressed + chunks[0];
      Varint.DecodeStable(header + compressed, chunks[0], 0, VARINT_MAX_BYTES);
      assert header + compressed + chunks[0] == header + more;
      BodySound(header, more, chunks[1..], declared);
      ConsumedStep(chunks, o);
      assert header + more + Consumed(chunks[1..], o) == header + compressed + Consumed(chunks, o);
    }
  }

  /** All bytes that arrive before the stream closes. */
  function UpToClose(chunks: seq<ByteString>): ByteString
  {
    if Closed(chunks) then [] else chunks[0] + UpToClose(chunks[1..])
  }

  lemma {:induction false} PrefixExact(buffer: ByteString, chunks: seq<ByteString>)
    requires Varint.Decode(buffer, VARINT_MAX_BYTES).Err?
    ensures var o := ReadPrefix(buffer, chunks);
      var all := buffer + UpToClose(chunks);
      && |o.unread| <= |chunks|
      && (Varint.Decode(all, VARINT_MAX_BYTES).Err? ==> o.result == all && buffer + Consumed(chunks, o) == all)
      && (Varint.Decode(all, VARINT_MAX_BYTES).Ok? ==>
            o.result == [] || DecodeFramed(buffer + Consumed(chunks, o)) == Ok(o.result))
    decreases |chunks|
  {
    hide ReadBody, DecodeFramed, Varint.DecodeFrom;
    var o := ReadPrefix(buffer, chunks);
    if Closed(chunks) {
      ConsumedClose(chunks, buffer);
      assert buffer + [] == buffer;
    } else {
      var grown := buffer + chunks[0];
      assert buffer + UpToClose(chunks) == grown + UpToClose(chunks[1..]);
      var d := Varint.Decode(grown, VARINT_MAX_BYTES);
      if d.Err? {
        PrefixExact(grown, chunks[1..]);
        ConsumedStep(chunks, o);
        assert grown + Consumed(chunks[1..], o) == buffer + Consumed(chunks, o);
      } else {
        Varint.DecodeStable(grown, UpToClose(chunks[1..]), 0, VARINT_MAX_BYTES);
        if d.value.value <= MAX_PAYLOAD_SIZE {
          var header, rest := grown[..d.value.consumed], grown[d.value.consumed..];
          assert header + rest == grown;
          BodySound(header, rest, chunks[1..], d.value.value);
          ConsumedStep(chunks, o);
          assert header + rest + Consumed(chunks[1..], o) == buffer + Consumed(chunks, o);
        }
      }
    }
  }

  /**
   On any stream at all, the result is empty or what the whole-message decoder makes of the bytes read,
   exactly when the stream is empty or a length prefix decodes before it closes; otherwise the reader
   returns everything that arrived, raw.
   */
  lemma ReaderSound(chunks: seq<ByteString>)
    ensures var o := ReadRequest(chunks);
      var all := UpToClose(chunks);
      (o.result == [] || DecodeRequest(Consumed(chunks, o)) == Ok(o.result)) <==>
      (all == [] || Varint.Decode(all, VARINT_MAX_BYTES).Ok?)
    ensures var all := UpToClose(chunks);
      Varint.Decode(all, VARINT_MAX_BYTES).Err? ==> ReadRequest(chunks).result == all
  {
    PrefixExact([], chunks);
    hide ReadPrefix, DecodeFramed, Varint.DecodeFrom;
    var wire, all := Consumed(chunks, ReadRequest(chunks)), UpToClose(chunks);
    assert [] + wire == wire && [] + all == all;
    Undecodable(wire);
  }

  lemma Undecodable(wire: ByteString)
    ensures Varint.Decode(wire, VARINT_MAX_BYTES).Err? ==> DecodeFramed(wire).Err?
  {
  }

  /** A stream that closes inside its length prefix: the raw byte comes back, which no request decodes to. */
  lemma RawBytesReturned()
    ensures var chunks: seq<ByteString> := [[0x80]];
      && ReadRequest(chunks).result == [0x80]
      && DecodeRequest(UpToClose(chunks)).Err?
  {
    var chunks: seq<ByteString> := [[0x80]];
    assert chunks[1..] == [] && [0x80] + [] == [0x80] && [] + [0x80] == [0x80];
    assert Varint.DecodeFrom([0x80][1..], 1, VARINT_MAX_BYTES) == Err(Varint.Truncated);
    assert Varint.Decode([0x80], VARINT_MAX_BYTES).Err?;
    assert UpToClose(chunks) == [0x80];
    ReaderSound(chunks);
    Undecodable([0x80]);
  }
}

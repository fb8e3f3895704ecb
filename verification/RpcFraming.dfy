/**
 Length-prefixed RPC frames on a gossipsub stream
 (src/lean_spec/node/networking/gossipsub/behavior.py: _send_rpc, _receive_loop).

 A read is a chunk of bytes; an empty chunk means that the peer has closed the stream.  The peer stays registered.
 */
module RpcFraming {
  import opened Bytes
  import opened GossipRpc
  import opened NetworkConfig
  import Protobuf
  import Varint

  /** The frames taken out of a buffer, what is left of it, and whether a frame declared too large a length. */
  datatype Scan = Scan(frames: seq<ByteString>, rest: ByteString, failed: bool)

  /** The inner loop: take complete frames until the buffer holds none. */
  function Drain(buffer: ByteString): Scan
    decreases |buffer|
  {
    if buffer == [] then Scan([], [], false)
    else
      match Varint.Decode(buffer, Protobuf.VARINT_MAX_BYTES)
      case Err(_) => Scan([], buffer, false)
      case Ok(d) =>
        var end := d.consumed + d.value;
        if d.value > MAX_PAYLOAD_SIZE then Scan([], buffer, true)
        else if |buffer| < end then Scan([], buffer, false)
        else Before([buffer[d.consumed..end]], Drain(buffer[end..]))
  }

  function Before(frames: seq<ByteString>, s: Scan): Scan
  {
    s.(frames := frames + s.frames)
  }

  /** The outer loop over the chunks as they are read. */
  function Feed(buffer: ByteString, chunks: seq<ByteString>): Scan
    decreases |chunks|
  {
    if chunks == [] || chunks[0] == [] then Scan([], buffer, false)
    else
      var now := Drain(buffer + chunks[0]);
      if now.failed then now else Before(now.frames, Feed(now.rest, chunks[1..]))
  }

  /** The bytes read before the stream closes. */
  function Received(chunks: seq<ByteString>): ByteString
  {
    if chunks == [] || chunks[0] == [] then [] else chunks[0] + Received(chunks[1..])
  }

  /** Frames that do not decode are skipped. */
  function Decoded(frames: seq<ByteString>): seq<Rpc>
  {
    if frames == [] then []
    else
      var r := DecodeRpc(frames[0]);
      (if r.Some? then [r.value] else []) + Decoded(frames[1..])
  }

  // ---- the source's loops ----

  method DrainBuffer(start: ByteString) returns (rpcs: seq<Rpc>, buffer: ByteString, failed: bool)
    ensures rpcs == Decoded(Drain(start).frames) && buffer == Drain(start).rest && failed == Drain(start).failed
  {
    hide Decoded, Drain, Varint.Decode;
    rpcs, buffer, failed := [], start, false;
    ghost var taken: seq<ByteString> := [];
    DecodedStart();
    BeforeNothing(Drain(start));
    while buffer != []
      invariant Drain(start) == Before(taken, Drain(buffer)) && rpcs == Decoded(taken) && !failed
      decreases |buffer|
    {
      DrainStep(buffer);
      var header := Varint.DecodeVarint(buffer, 0, Protobuf.VARINT_MAX_BYTES);
      assert buffer[0..] == buffer;
      if header.Err? {
        break;
      }
      var length, size := header.value.value, header.value.consumed;
      if length > MAX_PAYLOAD_SIZE {
        failed := true;
        break;
      }
      if |buffer| < size + length {
        break;
      }
      var frame := buffer[size..size + length];
      var rpc := Protobuf.DecodeLoop(RpcStep, NO_RPC, frame);
      DecodedSnoc(taken, frame);
      BeforeBefore(taken, [frame], Drain(buffer[size + length..]));
      taken := taken + [frame];
      buffer := buffer[size + length..];
      if rpc.Some? {
        rpcs := rpcs + [rpc.value];
      }
    }
    DrainStep(buffer);
    assert taken + [] == taken;
  }

  method ReceiveLoop(chunks: seq<ByteString>) returns (rpcs: seq<Rpc>, failed: bool)
    ensures rpcs == Decoded(Feed([], chunks).frames) && failed == Feed([], chunks).failed
  {
    hide Decoded, Drain;
    rpcs, failed := [], false;
    var buffer: ByteString := [];
    ghost var taken: seq<ByteString> := [];
    var i := 0;
    DecodedStart();
    BeforeNothing(Feed([], chunks));
    assert chunks[0..] == chunks;
    while i < |chunks| && chunks[i] != []
      invariant 0 <= i <= |chunks|
      invariant Feed([], chunks) == Before(taken, Feed(buffer, chunks[i..])) && rpcs == Decoded(taken)
    {
      var more, rest, bad := DrainBuffer(buffer + chunks[i]);
      ghost var now := Drain(buffer + chunks[i]);
      assert chunks[i..][1..] == chunks[i + 1..];
      DecodedConcat(taken, now.frames);
      rpcs := rpcs + more;
      if bad {
        return rpcs, true;
      }
      BeforeBefore(taken, now.frames, Feed(rest, chunks[i + 1..]));
      taken := taken + now.frames;
      buffer := rest;
      i := i + 1;
    }
    assert taken + [] == taken;
  }

  // ---- unfolding ----

  lemma DrainStep(buffer: ByteString)
    ensures buffer == [] ==> Drain(buffer) == Scan([], [], false)
    ensures buffer != [] ==>
      Drain(buffer) ==
        match Varint.Decode(buffer, Protobuf.VARINT_MAX_BYTES)
        case Err(_) => Scan([], buffer, false)
        case Ok(d) =>
          var end := d.consumed + d.value;
          if d.value > MAX_PAYLOAD_SIZE then Scan([], buffer, true)
          else if |buffer| < end then Scan([], buffer, false)
          else Before([buffer[d.consumed..end]], Drain(buffer[end..]))
  {
  }

  lemma BeforeNothing(s: Scan)
    ensures Before([], s) == s
  {
    assert [] + s.frames == s.frames;
  }

  lemma BeforeBefore(a: seq<ByteString>, b: seq<ByteString>, s: Scan)
    ensures Before(a, Before(b, s)) == Before(a + b, s)
  {
    assert a + (b + s.frames) == a + b + s.frames;
  }

  lemma DecodedStart()
    ensures Decoded([]) == []
  {
  }

  lemma {:induction false} DecodedConcat(a: seq<ByteString>, b: seq<ByteString>)
    ensures Decoded(a + b) == Decoded(a) + Decoded(b)
  {
    hide DecodeRpc, Decoded;
    if a == [] {
      DecodedStart();
      assert a + b == b && [] + Decoded(b) == Decoded(b);
    } else {
      DecodedConcat(a[1..], b);
      assert (a + b)[1..] == a[1..] + b;
      DecodedCons(a);
      DecodedCons(a + b);
      assert One(a[0]) + (Decoded(a[1..]) + Decoded(b)) == One(a[0]) + Decoded(a[1..]) + Decoded(b);
    }
  }

  function One(frame: ByteString): seq<Rpc>
  {
    if DecodeRpc(frame).Some? then [DecodeRpc(frame).value] else []
  }

  lemma DecodedCons(frames: seq<ByteString>)
    requires frames != []
    ensures Decoded(frames) == One(frames[0]) + Decoded(frames[1..])
  {
    hide DecodeRpc;
  }

  lemma DecodedSnoc(a: seq<ByteString>, frame: ByteString)
    ensures Decoded(a + [frame]) == Decoded(a) + if DecodeRpc(frame).Some? then [DecodeRpc(frame).value] else []
  {
    hide DecodeRpc;
    DecodedConcat(a, [frame]);
    assert [frame][1..] == [];
  }

  // ---- read boundaries do not matter ----

  /** Draining can stop at any point and go on when the rest of the bytes has arrived. */
  lemma {:induction false} DrainSplit(a: ByteString, b: ByteString)
    ensures Drain(a).failed ==> Drain(a + b).failed && Drain(a + b).frames == Drain(a).frames
    ensures !Drain(a).failed ==> Drain(a + b) == Before(Drain(a).frames, Drain(Drain(a).rest + b))
    decreases |a|
  {
    hide Varint.DecodeFrom, Drain;
    DrainStep(a);
    BeforeNothing(Drain(a + b));
    if a != [] && Varint.Decode(a, Protobuf.VARINT_MAX_BYTES).Ok? {
      var d := Varint.Decode(a, Protobuf.VARINT_MAX_BYTES).value;
      var end := d.consumed + d.value;
      Varint.DecodeStable(a, b, 0, Protobuf.VARINT_MAX_BYTES);
      DrainStep(a + b);
      if d.value <= MAX_PAYLOAD_SIZE && end <= |a| {
        DrainSplit(a[end..], b);
        assert (a + b)[end..] == a[end..] + b;
        assert (a + b)[d.consumed..end] == a[d.consumed..end];
        BeforeBefore([a[d.consumed..end]], Drain(a[end..]).frames, Drain(Drain(a[end..]).rest + b));
      }
    }
  }

  lemma {:induction false} FeedIsDrain(buffer: ByteString, chunks: seq<ByteString>)
    requires Drain(buffer) == Scan([], buffer, false)
    ensures Feed(buffer, chunks).frames == Drain(buffer + Received(chunks)).frames
    ensures Feed(buffer, chunks).failed == Drain(buffer + Received(chunks)).failed
    ensures !Feed(buffer, chunks).failed ==> Feed(buffer, chunks).rest == Drain(buffer + Received(chunks)).rest
    decreases |chunks|
  {
    hide Drain;
    if chunks == [] || chunks[0] == [] {
      assert buffer + [] == buffer;
    } else {
      var now, later := Drain(buffer + chunks[0]), Received(chunks[1..]);
      assert buffer + Received(chunks) == buffer + chunks[0] + later;
      DrainSplit(buffer + chunks[0], later);
      if !now.failed {
        DrainRest(buffer + chunks[0]);
        FeedIsDrain(now.rest, chunks[1..]);
      }
    }
  }

  lemma {:induction false} DrainRest(a: ByteString)
    requires !Drain(a).failed
    ensures Drain(Drain(a).rest) == Scan([], Drain(a).rest, false)
    decreases |a|
  {
    hide Varint.Decode, Drain;
    DrainStep(a);
    if a != [] && Varint.Decode(a, Protobuf.VARINT_MAX_BYTES).Ok? {
      var d := Varint.Decode(a, Protobuf.VARINT_MAX_BYTES).value;
      var end := d.consumed + d.value;
      if end <= |a| {
        DrainRest(a[end..]);
      }
    }
  }

  /** The frames, and the refusal of the stream, depend on the bytes received and not on how they were split. */
  lemma ChunkIndependence(chunks: seq<ByteString>)
    ensures Feed([], chunks).frames == Drain(Received(chunks)).frames
    ensures Feed([], chunks).failed == Drain(Received(chunks)).failed
    ensures !Feed([], chunks).failed ==> Feed([], chunks).rest == Drain(Received(chunks)).rest
  {
    hide Received, Feed;
    assert [] + Received(chunks) == Received(chunks);
    DrainStep([]);
    FeedIsDrain([], chunks);
  }

  // ---- an over-long length prefix stalls the stream, and nothing else does ----

  /** The buffer starts with ten bytes that all announce another. */
  predicate Overlong(b: ByteString)
  {
    |b| >= Protobuf.VARINT_MAX_BYTES && forall i | 0 <= i < Protobuf.VARINT_MAX_BYTES :: b[i] >= 128
  }

  /** Something came of the bytes: a frame, or the refusal of the stream. */
  predicate Moves(s: Scan)
  {
    s.failed || s.frames != []
  }

  lemma OverlongWaits(b: ByteString, more: ByteString)
    requires Overlong(b)
    ensures Drain(b + more) == Scan([], b + more, false)
  {
    hide Varint.DecodeFrom, Drain;
    Varint.TooLongExactly(b + more, Protobuf.VARINT_MAX_BYTES);
    DrainStep(b + more);
  }

  function Zeros(n: nat): (s: ByteString)
    ensures |s| == n
  {
    ToLE(0, n)
  }

  /** Once its length prefix has decoded, a frame can be completed. */
  lemma PrefixMoves(b: ByteString) returns (more: ByteString)
    requires Varint.Decode(b, Protobuf.VARINT_MAX_BYTES).Ok?
    ensures Moves(Drain(b + more))
  {
    hide Varint.DecodeFrom, Drain;
    var d := Varint.Decode(b, Protobuf.VARINT_MAX_BYTES).value;
    more := Zeros(d.consumed + d.value);
    Varint.DecodeStable(b, more, 0, Protobuf.VARINT_MAX_BYTES);
    DrainStep(b + more);
  }

  lemma NotOverlongMoves(b: ByteString) returns (more: ByteString)
    requires !Overlong(b)
    ensures Moves(Drain(b + more))
  {
    hide Varint.DecodeFrom, Drain, Moves;
    if Varint.Decode(b, Protobuf.VARINT_MAX_BYTES).Ok? {
      more := PrefixMoves(b);
    } else {
      Varint.TooLongExactly(b, Protobuf.VARINT_MAX_BYTES);
      Varint.DecodeErrors(b, 0, Protobuf.VARINT_MAX_BYTES);
      Varint.ZeroCompletes(b, 0, Protobuf.VARINT_MAX_BYTES);
      var rest := PrefixMoves(b + [0]);
      more := [0] + rest;
      assert b + more == b + [0] + rest;
    }
  }

  /** Some bytes can follow that complete a frame or get the stream refused, exactly when the buffer is not overlong. */
  lemma StallsExactly(b: ByteString)
    ensures (exists more :: Moves(Drain(b + more))) <==> !Overlong(b)
  {
    hide Drain, Overlong;
    if Overlong(b) {
      forall more: ByteString
        ensures !Moves(Drain(b + more))
      {
        OverlongWaits(b, more);
      }
    } else {
      var more := NotOverlongMoves(b);
    }
  }

  /** The bytes after those received yield another frame, or get the stream refused. */
  ghost predicate Advances(chunks: seq<ByteString>, more: ByteString)
  {
    var later := Drain(Received(chunks) + more);
    later.failed || |later.frames| > |Feed([], chunks).frames|
  }

  lemma AdvancesByRest(chunks: seq<ByteString>, more: ByteString)
    requires !Feed([], chunks).failed
    ensures Advances(chunks, more) <==> Moves(Drain(Feed([], chunks).rest + more))
    ensures Drain(Received(chunks) + more) == Before(Feed([], chunks).frames, Drain(Feed([], chunks).rest + more))
  {
    hide Drain, Feed, Received;
    ChunkIndependence(chunks);
    DrainSplit(Received(chunks), more);
  }

  /**
   At any point of any stream that was not refused: the stream can still advance, by some bytes, exactly when
   what is left in the buffer is not overlong.
   */
  lemma StreamStallsExactly(chunks: seq<ByteString>)
    requires !Feed([], chunks).failed
    ensures (exists more :: Advances(chunks, more)) <==> !Overlong(Feed([], chunks).rest)
  {
    hide Drain, Feed, Received, Overlong, Advances, Moves;
    var rest := Feed([], chunks).rest;
    StallsExactly(rest);
    if more :| Moves(Drain(rest + more)) {
      AdvancesByRest(chunks, more);
    }
    if more :| Advances(chunks, more) {
      AdvancesByRest(chunks, more);
    }
  }

  /** From then on, whatever follows, no frame is added, the stream is not refused, and the buffer keeps every byte. */
  lemma OverlongPrefixWaits(chunks: seq<ByteString>, more: ByteString)
    requires !Feed([], chunks).failed && Overlong(Feed([], chunks).rest)
    ensures Drain(Received(chunks) + more) == Scan(Feed([], chunks).frames, Feed([], chunks).rest + more, false)
  {
    hide Drain, Feed, Received, Overlong;
    AdvancesByRest(chunks, more);
    OverlongWaits(Feed([], chunks).rest, more);
    assert Feed([], chunks).frames + [] == Feed([], chunks).frames;
  }

  lemma ZeroPrefix(rest: ByteString)
    ensures Varint.Decode([0] + rest, Protobuf.VARINT_MAX_BYTES) == Ok(Varint.Decoded(0, 1))
  {
  }

  lemma EmptyFrameTaken(stuck: ByteString)
    requires Overlong(stuck)
    ensures Feed([], [[0] + stuck]) == Scan([[]], stuck, false)
  {
    hide Drain, Overlong, Varint.DecodeFrom;
    var chunk: ByteString := [0] + stuck;
    var none: ByteString := [];
    ZeroPrefix(stuck);
    DrainStep(chunk);
    assert chunk[1..] == stuck && chunk[1..1] == none;
    OverlongWaits(stuck, []);
    assert stuck + [] == stuck && [] + chunk == chunk && [none] + [] == [none];
    assert [chunk][1..] == [];
  }

  /** One read with an empty frame and ten bytes behind it: the frame is taken, and the stream is stuck. */
  lemma StuckBehindAFrame()
    ensures var stuck: ByteString := [128, 128, 128, 128, 128, 128, 128, 128, 128, 128];
      Overlong(stuck) && Feed([], [[0] + stuck]) == Scan([[]], stuck, false)
  {
    hide Feed;
    EmptyFrameTaken([128, 128, 128, 128, 128, 128, 128, 128, 128, 128]);
  }

  // ---- what is sent arrives ----

  /** _send_rpc. */
  function Frame(r: Rpc): ByteString
  {
    Varint.Groups(|RpcBytes(r)|) + RpcBytes(r)
  }

  function Stream(rpcs: seq<Rpc>): ByteString
  {
    if rpcs == [] then [] else Frame(rpcs[0]) + Stream(rpcs[1..])
  }

  /** The RPCs before the first one that is larger than a receiver accepts. */
  function Admitted(rpcs: seq<Rpc>): seq<Rpc>
  {
    if rpcs == [] || |RpcBytes(rpcs[0])| > MAX_PAYLOAD_SIZE then [] else [rpcs[0]] + Admitted(rpcs[1..])
  }

  lemma DrainFrame(r: Rpc, rest: ByteString)
    requires Encodable(r)
    ensures |RpcBytes(r)| > MAX_PAYLOAD_SIZE ==>
              Drain(Frame(r) + rest).failed && Drain(Frame(r) + rest).frames == []
    ensures |RpcBytes(r)| <= MAX_PAYLOAD_SIZE ==> Drain(Frame(r) + rest) == Before([RpcBytes(r)], Drain(rest))
  {
    hide Varint.Decode, Drain, RpcBytes, Varint.Groups, Protobuf.Fits;
    var head, body := Varint.Groups(|RpcBytes(r)|), RpcBytes(r);
    var all := Frame(r) + rest;
    assert all == head + (body + rest);
    Protobuf.VarintFits(|body|, body + rest);
    DrainStep(all);
    assert all[|head|..|head| + |body|] == body;
    assert all[|head| + |body|..] == rest;
  }

  lemma {:induction false} DrainStream(rpcs: seq<Rpc>)
    requires forall i | 0 <= i < |rpcs| :: Encodable(rpcs[i])
    ensures Decoded(Drain(Stream(rpcs)).frames) == Map(Normal, Admitted(rpcs))
    ensures Drain(Stream(rpcs)).failed <==> |Admitted(rpcs)| < |rpcs|
    decreases |rpcs|
  {
    hide Drain, Frame, DecodeRpc, RpcBytes, Normal, Encodable;
    if rpcs == [] {
      DrainStep([]);
    } else {
      DrainFrame(rpcs[0], Stream(rpcs[1..]));
      if |RpcBytes(rpcs[0])| <= MAX_PAYLOAD_SIZE {
        DrainStream(rpcs[1..]);
        RoundTrip(rpcs[0]);
        var more := Drain(Stream(rpcs[1..])).frames;
        assert ([RpcBytes(rpcs[0])] + more)[1..] == more;
        assert Map(Normal, Admitted(rpcs)) == [Normal(rpcs[0])] + Map(Normal, Admitted(rpcs[1..]));
      }
    }
  }

  /**
   However the stream of sent RPCs is cut into reads, the receiver decodes them all, in order, up to the
   first one above the size limit; and it refuses the stream exactly when there is such a one.
   */
  lemma SentArrives(rpcs: seq<Rpc>, chunks: seq<ByteString>)
    requires forall i | 0 <= i < |rpcs| :: Encodable(rpcs[i])
    requires Received(chunks) == Stream(rpcs)
    ensures Decoded(Feed([], chunks).frames) == Map(Normal, Admitted(rpcs))
    ensures Feed([], chunks).failed <==> exists i | 0 <= i < |rpcs| :: |RpcBytes(rpcs[i])| > MAX_PAYLOAD_SIZE
  {
    hide Feed, Drain, Received, Stream, Encodable;
    ChunkIndependence(chunks);
    DrainStream(rpcs);
    AdmittedAll(rpcs);
  }

  lemma {:induction false} AdmittedAll(rpcs: seq<Rpc>)
    ensures |Admitted(rpcs)| < |rpcs| <==> exists i | 0 <= i < |rpcs| :: |RpcBytes(rpcs[i])| > MAX_PAYLOAD_SIZE
    ensures |Admitted(rpcs)| <= |rpcs|
  {
    hide RpcBytes;
    if rpcs != [] {
      AdmittedAll(rpcs[1..]);
      if i :| 0 <= i < |rpcs[1..]| && |RpcBytes(rpcs[1..][i])| > MAX_PAYLOAD_SIZE {
        assert rpcs[i + 1] == rpcs[1..][i];
      }
    }
  }
}

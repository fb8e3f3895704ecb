/**
 What the frame checksum is for: a chunk changed within any four consecutive bytes is refused
 (src/lean_spec/node/snappy/framing.py).
 */
module CrcDetection {
  import opened Bytes
  import ByteWords
  import opened Crc32c
  import opened SnappyDecompress
  import opened SnappyFraming

  // ---- the register loses nothing ----

  /** The polynomial's top bit is set, so the bit shifted out can be told from the result. */
  lemma BitStepInjective(x: bv32, y: bv32)
    requires BitStep(x) == BitStep(y)
    ensures x == y
  {
  }

  lemma {:induction false} StepsInjective(x: bv32, y: bv32, n: nat)
    requires Steps(x, n) == Steps(y, n)
    ensures x == y
    decreases n
  {
    hide *;
    StepsUnfold(x, n);
    StepsUnfold(y, n);
    if n > 0 {
      StepsInjective(BitStep(x), BitStep(y), n - 1);
      BitStepInjective(x, y);
    }
  }

  lemma {:induction false} StepsAdd(c: bv32, m: nat, n: nat)
    ensures Steps(Steps(c, m), n) == Steps(c, m + n)
    decreases m
  {
    hide *;
    StepsUnfold(c, m);
    StepsUnfold(c, m + n);
    if m > 0 {
      StepsAdd(BitStep(c), m - 1, n);
    }
  }

  lemma XorInjective(a: bv32, b: bv32, c: bv32)
    ensures Xor(a, c) == Xor(b, c) ==> a == b
    ensures Xor(c, a) == Xor(c, b) ==> a == b
  {
  }

  lemma XorAssociates(a: bv32, b: bv32, c: bv32)
    ensures Xor(Xor(a, b), c) == Xor(a, Xor(b, c)) && Xor(a, 0) == a
  {
  }

  lemma FeedByte(c: bv32, b: bv8)
    ensures FeedBits(c, Word(b), 8) == Steps(Xor(c, Word(b)), 8)
  {
    hide *;
    FeedIsSteps(c, Word(b), 8);
    RestEight(Word(b));
    ByteFacts(c, b);
    ByteFacts(FeedBits(c, Word(b), 8), b);
  }

  lemma FeedBytesUnfold(c: bv32, data: ByteString)
    ensures data == [] ==> FeedBytes(c, data) == c
    ensures data != [] ==> FeedBytes(c, data) == FeedBytes(FeedBits(c, Word(data[0] as bv8), 8), data[1..])
  {
  }

  lemma {:induction false} FeedConcat(c: bv32, s: ByteString, t: ByteString)
    ensures FeedBytes(c, s + t) == FeedBytes(FeedBytes(c, s), t)
    decreases |s|
  {
    hide *;
    FeedBytesUnfold(c, s);
    FeedBytesUnfold(c, s + t);
    if s == [] {
      assert s + t == t;
    } else {
      assert (s + t)[1..] == s[1..] + t;
      FeedConcat(FeedBits(c, Word(s[0] as bv8), 8), s[1..], t);
    }
  }

  lemma {:induction false} FeedInjective(c: bv32, d: bv32, s: ByteString)
    requires FeedBytes(c, s) == FeedBytes(d, s)
    ensures c == d
    decreases |s|
  {
    hide *;
    FeedBytesUnfold(c, s);
    FeedBytesUnfold(d, s);
    if s != [] {
      var b := s[0] as bv8;
      FeedInjective(FeedBits(c, Word(b), 8), FeedBits(d, Word(b), 8), s[1..]);
      FeedByte(c, b);
      FeedByte(d, b);
      StepsInjective(Xor(c, Word(b)), Xor(d, Word(b)), 8);
      XorInjective(c, d, Word(b));
    }
  }

  // ---- up to four bytes enter the register as one word ----

  function Shl8(a: bv32): bv32 { a << 8 }

  function Pack(w: ByteString): bv32
  {
    if w == [] then 0 else Xor(Word(w[0] as bv8), Shl8(Pack(w[1..])))
  }

  /** The bits above the k low bytes. */
  function Above(k: nat): bv32
  {
    if k == 0 then 0xFFFF_FFFF else if k == 1 then 0xFFFF_FF00 else if k == 2 then 0xFFFF_0000
    else if k == 3 then 0xFF00_0000 else 0
  }

  function And(a: bv32, b: bv32): bv32 { a & b }

  lemma LowByteFacts(b: bv8)
    ensures And(Word(b), 0xFFFF_FF00) == 0 && LowByte(Word(b)) == b
  {
  }

  lemma JoinFacts(w: bv32, p: bv32)
    requires And(w, 0xFFFF_FF00) == 0
    ensures LowByte(Xor(w, Shl8(p))) == LowByte(w)
    ensures And(p, 0xFF00_0000) == 0 ==> Shr8(Xor(w, Shl8(p))) == p
  {
  }

  lemma ShiftBack(p: bv32)
    requires And(p, 0xFF00_0000) == 0
    ensures Shr8(Shl8(p)) == p && ClearLowByte(Shl8(p)) == Shl8(p)
  {
  }

  lemma JoinOne(w: bv32)
    requires w & 0xFFFF_FF00 == 0
    ensures (w ^ (0 << 8)) & 0xFFFF_FF00 == 0
  {
  }

  lemma JoinTwo(w: bv32, p: bv32)
    requires w & 0xFFFF_FF00 == 0 && p & 0xFFFF_FF00 == 0
    ensures (w ^ (p << 8)) & 0xFFFF_0000 == 0
  {
  }

  lemma JoinThree(w: bv32, p: bv32)
    requires w & 0xFFFF_FF00 == 0 && p & 0xFFFF_0000 == 0
    ensures (w ^ (p << 8)) & 0xFF00_0000 == 0
  {
  }

  lemma AllClear(p: bv32)
    requires p & 0xFFFF_FFFF == 0
    ensures p == 0
  {
  }

  /** One more byte in front. */
  lemma JoinBound(w: bv32, p: bv32, k: nat)
    requires k <= 3 && And(w, 0xFFFF_FF00) == 0 && And(p, Above(k)) == 0
    ensures And(Xor(w, Shl8(p)), Above(k + 1)) == 0
  {
    if k == 0 {
      AllClear(p);
      JoinOne(w);
    } else if k == 1 {
      JoinTwo(w, p);
    } else if k == 2 {
      JoinThree(w, p);
    } else {
      AndZero(w ^ (p << 8));
    }
  }

  lemma AndZero(p: bv32)
    ensures p & 0 == 0
  {
  }

  lemma ZeroAnd(p: bv32)
    ensures And(0, p) == 0
  {
  }

  lemma OneFitsThree(p: bv32)
    requires p & 0xFFFF_FF00 == 0
    ensures p & 0xFF00_0000 == 0
  {
  }

  lemma TwoFitThree(p: bv32)
    requires p & 0xFFFF_0000 == 0
    ensures p & 0xFF00_0000 == 0
  {
  }

  lemma {:induction false} PackBound(w: ByteString)
    requires |w| <= 4
    ensures And(Pack(w), Above(|w|)) == 0
  {
    hide Xor, Word, Shl8, And, LowByte, Above;
    if w == [] {
      ZeroAnd(Above(0));
    } else {
      PackBound(w[1..]);
      LowByteFacts(w[0] as bv8);
      JoinBound(Word(w[0] as bv8), Pack(w[1..]), |w| - 1);
    }
  }

  lemma PackSmall(w: ByteString)
    requires |w| <= 3
    ensures And(Pack(w), 0xFF00_0000) == 0
  {
    hide Pack;
    PackBound(w);
    var p := Pack(w);
    if |w| == 0 {
      PackUnfold(w);
      ZeroAnd(0xFF00_0000);
    } else if |w| == 1 {
      OneFitsThree(p);
    } else if |w| == 2 {
      TwoFitThree(p);
    }
  }

  lemma PackUnfold(w: ByteString)
    ensures Pack([]) == 0
    ensures w != [] ==> Pack(w) == Xor(Word(w[0] as bv8), Shl8(Pack(w[1..])))
  {
  }

  lemma {:induction false} PackInjective(a: ByteString, b: ByteString)
    requires |a| == |b| <= 4 && Pack(a) == Pack(b)
    ensures a == b
  {
    hide *;
    if a != [] {
      PackUnfold(a);
      PackUnfold(b);
      PackSmall(a[1..]);
      PackSmall(b[1..]);
      LowByteFacts(a[0] as bv8);
      LowByteFacts(b[0] as bv8);
      JoinFacts(Word(a[0] as bv8), Pack(a[1..]));
      JoinFacts(Word(b[0] as bv8), Pack(b[1..]));
      ByteWords.WordsDiffer(a[0], b[0]);
      PackInjective(a[1..], b[1..]);
      assert a == [a[0]] + a[1..] && b == [b[0]] + b[1..];
    }
  }

  /** Bytes not yet reached only shift while the first is fed. */
  lemma ShiftedIn(p: bv32)
    requires And(p, 0xFF00_0000) == 0
    ensures Steps(Shl8(p), 8) == p
  {
    hide *;
    ShiftBack(p);
    ClearedLow(Shl8(p));
    StepsShift(Shl8(p), 8);
    RestEight(Shl8(p));
  }

  lemma {:induction false} FeedIsPack(c: bv32, w: ByteString)
    requires |w| <= 4
    ensures FeedBytes(c, w) == Steps(Xor(c, Pack(w)), 8 * |w|)
    decreases |w|
  {
    hide *;
    FeedBytesUnfold(c, w);
    PackUnfold(w);
    if w == [] {
      StepsUnfold(c, 0);
      XorAssociates(c, 0, 0);
    } else {
      var b, p := w[0] as bv8, Pack(w[1..]);
      var x := Xor(c, Word(b));
      FeedByte(c, b);
      FeedIsPack(Steps(x, 8), w[1..]);
      PackSmall(w[1..]);
      ShiftedIn(p);
      StepsLinear(x, Shl8(p), 8);
      XorAssociates(c, Word(b), Shl8(p));
      StepsAdd(Xor(x, Shl8(p)), 8, 8 * |w[1..]|);
    }
  }

  // ---- detection ----

  /** Messages that differ only within four consecutive bytes have different CRCs. */
  lemma BurstDetected(p: ByteString, a: ByteString, b: ByteString, s: ByteString)
    requires |a| == |b| <= 4 && a != b
    ensures BitwiseCrc(p + a + s) != BitwiseCrc(p + b + s)
  {
    hide FeedBytes, Steps, Pack, Xor;
    var c := FeedBytes(0xFFFF_FFFF, p);
    FeedConcat(0xFFFF_FFFF, p + a, s);
    FeedConcat(0xFFFF_FFFF, p, a);
    FeedConcat(0xFFFF_FFFF, p + b, s);
    FeedConcat(0xFFFF_FFFF, p, b);
    XorInjective(FeedBytes(0xFFFF_FFFF, p + a + s), FeedBytes(0xFFFF_FFFF, p + b + s), 0xFFFF_FFFF);
    if BitwiseCrc(p + a + s) == BitwiseCrc(p + b + s) {
      FeedInjective(FeedBytes(c, a), FeedBytes(c, b), s);
      FeedIsPack(c, a);
      FeedIsPack(c, b);
      StepsInjective(Xor(c, Pack(a)), Xor(c, Pack(b)), 8 * |a|);
      XorInjective(Pack(a), Pack(b), c);
      PackInjective(a, b);
    }
  }

  function Wide(x: bv32): bv64 { x as bv64 }

  function Narrow(x: bv64): bv32
    requires x <= 0xFFFF_FFFF
  {
    x as bv32
  }

  function Number(x: bv32): nat { x as int }

  lemma WideInjective(x: bv32, y: bv32)
    ensures Wide(x) <= 0xFFFF_FFFF && Wide(y) <= 0xFFFF_FFFF
    ensures Wide(x) == Wide(y) ==> x == y
  {
  }

  lemma NarrowInjective(x: bv64, y: bv64)
    requires x <= 0xFFFF_FFFF && y <= 0xFFFF_FFFF && Narrow(x) == Narrow(y)
    ensures x == y
  {
  }

  lemma NumberBack(x: bv32)
    ensures Number(x) < 0x1_0000_0000 && Number(x) as bv32 == x
  {
  }

  lemma NumberInjective(x: bv32, y: bv32)
    requires Number(x) == Number(y)
    ensures x == y
  {
    hide Number;
    NumberBack(x);
    NumberBack(y);
  }

  lemma MaskedIs(x: bv32)
    ensures MaskCrc(Wide(x)) <= 0xFFFF_FFFF && MaskedValue(x) == Number(Narrow(MaskCrc(Wide(x))))
  {
    hide MaskCrc, UnmaskCrc;
    WideInjective(x, x);
    MaskBijection(Wide(x));
  }

  lemma MaskedInjective(x: bv32, y: bv32)
    requires MaskedValue(x) == MaskedValue(y)
    ensures x == y
  {
    hide *;
    MaskedIs(x);
    MaskedIs(y);
    NumberInjective(Narrow(MaskCrc(Wide(x))), Narrow(MaskCrc(Wide(y))));
    NarrowInjective(MaskCrc(Wide(x)), MaskCrc(Wide(y)));
    WideInjective(x, y);
    MaskBijection(Wide(x));
    MaskBijection(Wide(y));
  }

  /** The payload of a data chunk, before its checksum is looked at. */
  function Payload(kind: Byte, body: ByteString): SnappyResult<ByteString>
    requires |body| >= 4
  {
    if kind == CHUNK_TYPE_COMPRESSED then Decompress(body[4..]) else Ok(body[4..])
  }

  /** A chunk, compressed or not, whose payload differs within four bytes from the one summed is refused. */
  lemma CorruptChunkRefused(kind: Byte, body: ByteString, p: ByteString, a: ByteString, b: ByteString, s: ByteString)
    requires kind == CHUNK_TYPE_COMPRESSED || kind == CHUNK_TYPE_UNCOMPRESSED
    requires |a| == |b| <= 4 && a != b
    requires |body| >= 4 && FromLE(body[..4]) == Checksum(p + a + s) && Payload(kind, body) == Ok(p + b + s)
    ensures ReadChunk(kind, body).Err?
  {
    hide BitwiseCrc, MaskedValue, Decompress, FromLE;
    BurstDetected(p, a, b, s);
    if Checksum(p + a + s) == Checksum(p + b + s) {
      MaskedInjective(BitwiseCrc(p + a + s), BitwiseCrc(p + b + s));
    }
  }

  /** A stream with an uncompressed chunk changed within four bytes is refused, whatever surrounds the chunk. */
  lemma CorruptStreamRefused(before: ByteString, p: ByteString, a: ByteString, b: ByteString, s: ByteString,
                             rest: ByteString)
    requires FrameDecompress(before).Ok?
    requires |a| == |b| <= 4 && a != b && |p + a + s| <= MAX_UNCOMPRESSED_CHUNK_SIZE
    ensures FrameDecompress(before + (Frame(CHUNK_TYPE_UNCOMPRESSED, Checksum(p + a + s), p + b + s) + rest)).Err?
  {
    hide ReadChunk, ReadChunks, Frame, Checksum, FromLE;
    var chunk := Frame(CHUNK_TYPE_UNCOMPRESSED, Checksum(p + a + s), p + b + s);
    var tail := chunk + rest;
    FrameParts(CHUNK_TYPE_UNCOMPRESSED, Checksum(p + a + s), p + b + s, rest);
    CorruptChunkRefused(CHUNK_TYPE_UNCOMPRESSED, tail[4..8 + |p + b + s|], p, a, b, s);
    ReadChunksUnfold(tail);
    var n := |STREAM_IDENTIFIER|;
    ChunksConcat(before[n..], tail);
    assert (before + tail)[..n] == before[..n];
    assert (before + tail)[n..] == before[n..] + tail;
  }
}

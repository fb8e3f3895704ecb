/** What raw Snappy promises: nothing is lost, and nothing grows by more than the advertised bound. */
module SnappyLaws {
  import opened Bytes
  import opened SnappyTags
  import opened SnappyDecompress
  import opened SnappyCompress
  import Varint

  // ---- round trip ----

  lemma LiteralStep(lits: ByteString, rest: ByteString, output: ByteString, total: nat)
    requires 1 <= |lits| <= BLOCK_SIZE && |output| < total
    ensures Run(EmitLiteral(lits) + rest, output, total) == Run(rest, output + lits, total)
  {
    hide DecodeTag, EncodeLiteralTag, CopyBack;
    var tag := EncodeLiteralTag(|lits|).value;
    var s := EmitLiteral(lits) + rest;
    assert s == tag + (lits + rest);
    LiteralTagRoundTrip(|lits|, lits + rest);
    assert s[|tag|..] == lits + rest;
    assert (lits + rest)[..|lits|] == lits;
    assert (lits + rest)[|lits|..] == rest;
  }

  lemma CopyStep(n: nat, offset: nat, rest: ByteString, output: ByteString, total: nat)
    requires 1 <= n <= 64 && 1 <= offset <= |output| && offset < BLOCK_SIZE && |output| + n <= total
    ensures Run(EncodeCopyTag(n, offset).value + rest, output, total) == Run(rest, CopyBack(output, offset, n), total)
  {
    hide DecodeTag, EncodeCopyTag, CopyBack;
    var tag := EncodeCopyTag(n, offset).value;
    CopyTagRoundTrip(n, offset, rest);
    assert (tag + rest)[|tag|..] == rest;
  }

  /** Copying back over a match extends the output by the matched bytes, overlap or not. */
  lemma {:induction false} CopyBackMatch(prefix: ByteString, block: ByteString, p: nat, q: nat, n: nat)
    requires p < q && q + n <= |block| && Agree(block, p, q, n)
    ensures CopyBack(prefix + block[..q], q - p, n) == prefix + block[..q + n]
    decreases n
  {
    var output := prefix + block[..q];
    if n > 0 {
      assert block[p] == block[p..p + n][0] == block[q..q + n][0] == block[q];
      assert output + [output[|output| - (q - p)]] == prefix + block[..q + 1];
      assert block[p + 1..p + n] == block[p..p + n][1..];
      assert block[q + 1..q + n] == block[q..q + n][1..];
      CopyBackMatch(prefix, block, p + 1, q + 1, n - 1);
    }
  }

  lemma LiteralGap(prefix: ByteString, block: ByteString, lit: nat, pos: nat, rest: ByteString, total: nat)
    requires lit <= pos <= |block| <= BLOCK_SIZE && |prefix| + |block| <= total
    ensures Run(EmitLiteral(block[lit..pos]) + rest, prefix + block[..lit], total) ==
      Run(rest, prefix + block[..pos], total)
  {
    hide Run, EncodeLiteralTag;
    if lit < pos {
      LiteralStep(block[lit..pos], rest, prefix + block[..lit], total);
      assert prefix + block[..lit] + block[lit..pos] == prefix + block[..pos];
    } else {
      assert EmitLiteral(block[lit..pos]) + rest == rest;
    }
  }

  lemma JoinThree(a: ByteString, b: ByteString, c: ByteString, d: ByteString)
    ensures a + b + c + d == a + (b + (c + d))
  {
  }

  /** Whatever the hash table holds, decoding what the scan emits yields the block. */
  lemma {:induction false} ScanDecodes(
    block: ByteString, bits: nat, table: seq<int>, lit: nat, pos: nat,
    prefix: ByteString, after: ByteString, total: nat)
    requires |block| <= BLOCK_SIZE && bits <= 32 && lit <= pos <= |block| && TableOk(table, bits, pos)
    requires |prefix| + |block| <= total
    ensures Run(Scan(block, bits, table, lit, pos) + after, prefix + block[..lit], total) ==
            Run(after, prefix + block, total)
    decreases |block| - pos
  {
    hide Run, Scan, EmitLiteral, EncodeCopyTag, Hash4, FillSkips, ExtendMatch, CopyBack, MatchesAt;
    if pos >= |block| - INPUT_MARGIN_BYTES {
      ScanEnd(block, bits, table, lit, pos);
      LiteralGap(prefix, block, lit, |block|, after, total);
      assert block[lit..|block|] == block[lit..] && block[..|block|] == block;
    } else {
      var h := Hash4(block, pos, bits);
      var c := table[h];
      if c >= 0 && MatchesAt(block, c, pos) {
        var updated := table[h := pos];
        FourAgree(block, c, pos);
        var n := ExtendMatch(block, c, pos, 4);
        var next := pos + n;
        var filled := if next < |block| - INPUT_MARGIN_BYTES
                      then FillSkips(block, bits, updated, pos + 1, next - 1, next) else updated;
        ScanMatch(block, bits, table, lit, pos, filled);
        var tag := EncodeCopyTag(n, pos - c).value;
        var rest := Scan(block, bits, filled, next, next) + after;
        JoinThree(EmitLiteral(block[lit..pos]), tag, Scan(block, bits, filled, next, next), after);
        LiteralGap(prefix, block, lit, pos, tag + rest, total);
        CopyStep(n, pos - c, rest, prefix + block[..pos], total);
        CopyBackMatch(prefix, block, c, pos, n);
        ScanDecodes(block, bits, filled, next, next, prefix, after, total);
      } else {
        ScanMiss(block, bits, table, lit, pos);
        ScanDecodes(block, bits, table[h := pos], lit, pos + 1, prefix, after, total);
      }
    }
  }

  lemma FourAgree(data: ByteString, p: nat, q: nat)
    requires p <= q && q + 4 <= |data| && MatchesAt(data, p, q)
    ensures Agree(data, p, q, 4)
  {
  }

  lemma BlockDecodes(block: ByteString, prefix: ByteString, after: ByteString, total: nat)
    requires |block| <= BLOCK_SIZE && |prefix| + |block| <= total
    ensures Run(CompressBlock(block) + after, prefix, total) == Run(after, prefix + block, total)
  {
    hide Run, Scan, EmitLiteral, EmptyTable;
    assert prefix + block[..0] == prefix;
    if |block| < 4 {
      LiteralGap(prefix, block, 0, |block|, after, total);
      assert block[0..|block|] == block && block[..|block|] == block;
    } else {
      var bits := TableBits(|block|);
      ScanDecodes(block, bits, EmptyTable(bits), 0, 0, prefix, after, total);
    }
  }

  lemma {:induction false} BlocksDecode(data: ByteString, prefix: ByteString, total: nat)
    requires |prefix| + |data| == total
    ensures Run(CompressBlocks(data), prefix, total) == Ok(prefix + data)
    decreases |data|
  {
    hide Run, CompressBlock;
    if data == [] {
      RunDone(prefix);
      assert prefix + data == prefix;
    } else {
      var n := FirstBlock(data);
      BlockDecodes(data[..n], prefix, CompressBlocks(data[n..]), total);
      BlocksDecode(data[n..], prefix + data[..n], total);
      assert prefix + data[..n] + data[n..] == prefix + data;
    }
  }

  lemma RunDone(output: ByteString)
    ensures Run([], output, |output|) == Ok(output)
  {
  }

  /** The compressor accepts exactly the inputs shorter than 2^35 bytes. */
  lemma CompressAccepts(data: ByteString)
    ensures Compress(data).Ok? <==> |data| < 0x8_0000_0000
  {
    Varint.EncodeAccepts(|data|, SNAPPY_VARINT_MAX_BYTES);
    assert Varint.Pow128(3) == 0x20_0000;
    assert Varint.Pow128(5) == 0x8_0000_0000;
  }

  /** decompress(compress(data)) == data, for every input the compressor accepts. */
  lemma RoundTrip(data: ByteString)
    requires |data| < 0x8_0000_0000
    ensures Compress(data).Ok? && Decompress(Compress(data).value) == Ok(data)
  {
    CompressAccepts(data);
    hide Run, CompressBlocks, Varint.DecodeFrom, Varint.Groups;
    var header := Varint.Encode(|data|, SNAPPY_VARINT_MAX_BYTES).value;
    Varint.RoundTrip(|data|, SNAPPY_VARINT_MAX_BYTES, CompressBlocks(data));
    var s := header + CompressBlocks(data);
    assert s[|header|..] == CompressBlocks(data);
    BlocksDecode(data, [], |data|);
    assert [] + data == data;
  }

  // ---- size ----

  lemma LiteralSize(s: ByteString)
    requires |s| <= BLOCK_SIZE
    ensures |EmitLiteral(s)| <= |s| + |s| / 60 + (if s == [] then 0 else 1)
  {
  }

  /** A literal's overhead beyond one byte in sixty is paid for by the copy that follows it. */
  lemma {:induction false} ScanSize(block: ByteString, bits: nat, table: seq<int>, lit: nat, pos: nat)
    requires |block| <= BLOCK_SIZE && bits <= 32 && lit <= pos <= |block| && TableOk(table, bits, pos)
    ensures |Scan(block, bits, table, lit, pos)| <= (|block| - lit) + (|block| - lit) / 60 + 1
    decreases |block| - pos
  {
    hide Scan, EmitLiteral, EncodeCopyTag, Hash4, FillSkips, ExtendMatch, MatchesAt;
    if pos >= |block| - INPUT_MARGIN_BYTES {
      ScanEnd(block, bits, table, lit, pos);
      LiteralSize(block[lit..]);
    } else {
      var h := Hash4(block, pos, bits);
      var c := table[h];
      if c >= 0 && MatchesAt(block, c, pos) {
        var updated := table[h := pos];
        FourAgree(block, c, pos);
        var n := ExtendMatch(block, c, pos, 4);
        var next := pos + n;
        var filled := if next < |block| - INPUT_MARGIN_BYTES
                      then FillSkips(block, bits, updated, pos + 1, next - 1, next) else updated;
        ScanMatch(block, bits, table, lit, pos, filled);
        LiteralSize(block[lit..pos]);
        ScanSize(block, bits, filled, next, next);
        DivSum(pos - lit, |block| - next, |block| - lit);
      } else {
        ScanMiss(block, bits, table, lit, pos);
        ScanSize(block, bits, table[h := pos], lit, pos + 1);
      }
    }
  }

  lemma DivSum(a: nat, b: nat, c: nat)
    requires a + b <= c
    ensures a / 60 + b / 60 <= c / 60
  {
  }

  lemma BlockSize(block: ByteString)
    requires |block| <= BLOCK_SIZE
    ensures |CompressBlock(block)| <= |block| + |block| / 60 + 1
  {
    hide Scan, EmitLiteral, EmptyTable;
    if |block| < 4 {
      LiteralSize(block);
    } else {
      var bits := TableBits(|block|);
      ScanSize(block, bits, EmptyTable(bits), 0, 0);
    }
  }

  lemma {:induction false} BlocksSize(data: ByteString)
    ensures |CompressBlocks(data)| <= |data| + |data| / 30 + 1
    decreases |data|
  {
    hide CompressBlock;
    if data != [] {
      var n := FirstBlock(data);
      BlockSize(data[..n]);
      BlocksSize(data[n..]);
      if n == |data| {
        assert CompressBlocks(data[n..]) == [];
      }
    }
  }

  /** max_compressed_length. */
  function MaxCompressedLength(n: nat): nat
  {
    5 + n + n / 6 + 1
  }

  /** The advertised worst case, and a tighter one: one byte in thirty over the input. */
  lemma SizeBound(data: ByteString)
    requires Compress(data).Ok?
    ensures |Compress(data).value| <= 5 + |data| + |data| / 30 + 1
    ensures |Compress(data).value| <= MaxCompressedLength(|data|)
  {
    Varint.RoundTrip(|data|, SNAPPY_VARINT_MAX_BYTES, []);
    BlocksSize(data);
  }

  // ---- the declared length decides where the input ends ----

  lemma TagStable(s: ByteString, t: ByteString)
    requires DecodeTag(s).Ok?
    ensures DecodeTag(s + t) == DecodeTag(s)
  {
    hide FromLE;
    var k := DecodeTag(s).value.size;
    assert (s + t)[1..k] == s[1..k];
  }

  lemma {:induction false} RunStable(s: ByteString, output: ByteString, total: nat, t: ByteString)
    requires Run(s, output, total).Ok?
    ensures Run(s + t, output, total) == Run(s, output, total)
    decreases |s|
  {
    hide DecodeTag, CopyBack;
    if |output| < total {
      TagStable(s, t);
      var d := DecodeTag(s).value;
      var rest := s[d.size..];
      assert (s + t)[d.size..] == rest + t;
      match d.tag
      case Literal(n) =>
        assert (rest + t)[n..] == rest[n..] + t && (rest + t)[..n] == rest[..n];
        RunStable(rest[n..], output + rest[..n], total, t);
      case Copy(n, offset) =>
        RunStable(rest, CopyBack(output, offset, n), total, t);
    }
  }

  /** Bytes behind a complete stream change nothing. */
  lemma TrailingIgnored(data: ByteString, t: ByteString)
    requires Decompress(data).Ok?
    ensures Decompress(data + t) == Decompress(data)
  {
    hide Run, Varint.DecodeFrom;
    Varint.DecodeStable(data, t, 0, SNAPPY_VARINT_MAX_BYTES);
    var d := Varint.Decode(data, SNAPPY_VARINT_MAX_BYTES).value;
    assert (data + t)[d.consumed..] == data[d.consumed..] + t;
    if d.value > 0 {
      RunStable(data[d.consumed..], [], d.value, t);
    }
  }
}

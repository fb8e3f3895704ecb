/**
 The compressor finds repeats: a run of one byte shrinks to about a twentieth
 (src/lean_spec/node/snappy/compress.py).
 */
module SnappyRuns {
  import opened Bytes
  import opened SnappyTags
  import opened SnappyDecompress
  import opened SnappyCompress
  import opened SnappyLaws
  import Varint

  ghost predicate Constant(s: ByteString)
  {
    forall i | 0 <= i < |s| :: s[i] == s[0]
  }

  lemma ConstantSlice(s: ByteString, p: nat, q: nat)
    requires Constant(s) && p + 4 <= |s| && q + 4 <= |s|
    ensures s[p..p + 4] == s[q..q + 4]
  {
  }

  lemma SameHash(block: ByteString, p: nat, q: nat, bits: nat)
    requires Constant(block) && p + 4 <= |block| && q + 4 <= |block| && bits <= 32
    ensures Hash4(block, p, bits) == Hash4(block, q, bits) && MatchesAt(block, p, q)
  {
    hide Constant, TopBits, FromLE;
    ConstantSlice(block, p, q);
  }

  /** A slot that is in use stays in use. */
  lemma {:induction false} FillKeeps(data: ByteString, bits: nat, table: seq<int>, lo: nat, hi: nat, pos: nat,
                                     slot: nat)
    requires bits <= 32 && hi < pos && pos + 4 <= |data| && TableOk(table, bits, pos) && slot < |table| &&
      table[slot] >= 0
    ensures FillSkips(data, bits, table, lo, hi, pos)[slot] >= 0
    decreases hi - lo
  {
    hide Hash4, Pow2;
    if lo < hi {
      FillKeeps(data, bits, table[Hash4(data, lo, bits) := lo], lo + 2, hi, pos, slot);
    }
  }

  lemma {:induction false} FillGrows(data: ByteString, bits: nat, table: seq<int>, lo: nat, hi: nat, pos: nat,
                                     slot: nat, v: nat)
    requires bits <= 32 && hi < pos && pos + 4 <= |data| && TableOk(table, bits, pos)
    requires slot < |table| && table[slot] >= v && v <= lo
    ensures slot < |FillSkips(data, bits, table, lo, hi, pos)| && FillSkips(data, bits, table, lo, hi, pos)[slot] >= v
    decreases hi - lo
  {
    hide Hash4, Pow2;
    if lo < hi {
      FillGrows(data, bits, table[Hash4(data, lo, bits) := lo], lo + 2, hi, pos, slot, v);
    }
  }

  /** Every second position inside a match can be found by its hash, unless a later one took the slot. */
  lemma {:induction false} FillEnters(data: ByteString, bits: nat, table: seq<int>, lo: nat, hi: nat, pos: nat, p: nat)
    requires bits <= 32 && hi < pos && pos + 4 <= |data| && TableOk(table, bits, pos)
    requires lo <= p < hi && (p - lo) % 2 == 0
    ensures FillSkips(data, bits, table, lo, hi, pos)[Hash4(data, p, bits)] >= p
    decreases hi - lo
  {
    hide Hash4, Pow2;
    var h := Hash4(data, lo, bits);
    if p == lo {
      FillGrows(data, bits, table[h := lo], lo + 2, hi, pos, h, lo);
    } else {
      FillEnters(data, bits, table[h := lo], lo + 2, hi, pos, p);
    }
  }

  lemma CopySize(n: nat, offset: nat)
    requires 4 <= n <= 64 && 1 <= offset < BLOCK_SIZE
    ensures EncodeCopyTag(n, offset).Ok? && |EncodeCopyTag(n, offset).value| <= 3
  {
  }

  /** On a run, the match at pos reaches 64 bytes or the end of the block. */
  lemma RunMatch(block: ByteString, bits: nat, table: seq<int>, lit: nat, pos: nat)
    returns (next: nat, filled: seq<int>)
    requires Constant(block) && |block| <= BLOCK_SIZE && bits <= 32
    requires lit <= pos < |block| - INPUT_MARGIN_BYTES && TableOk(table, bits, pos) && table[Hash4(block, 0, bits)] >= 0
    ensures next == pos + 64 <= |block| || pos < next == |block|
    ensures TableOk(filled, bits, next) && filled[Hash4(block, 0, bits)] >= 0
    ensures |Scan(block, bits, table, lit, pos)| <=
            |EmitLiteral(block[lit..pos])| + 3 + |Scan(block, bits, filled, next, next)|
  {
    hide Scan, EmitLiteral, EncodeCopyTag, Hash4, FillSkips, ExtendMatch, MatchesAt, Pow2;
    var h := Hash4(block, pos, bits);
    SameHash(block, pos, 0, bits);
    var c := table[h];
    SameHash(block, c, pos, bits);
    FourAgree(block, c, pos);
    var n := ExtendMatch(block, c, pos, 4);
    next := pos + n;
    var updated := table[h := pos];
    if next < |block| - INPUT_MARGIN_BYTES {
      filled := FillSkips(block, bits, updated, pos + 1, next - 1, next);
      FillKeeps(block, bits, updated, pos + 1, next - 1, next, h);
    } else {
      filled := updated;
    }
    ScanMatch(block, bits, table, lit, pos, filled);
    CopySize(n, pos - c);
  }

  lemma {:induction false} RunScan(block: ByteString, bits: nat, table: seq<int>, pos: nat)
    requires Constant(block) && 4 <= |block| <= BLOCK_SIZE && bits <= 32 && pos <= |block|
    requires TableOk(table, bits, pos) && table[Hash4(block, 0, bits)] >= 0
    ensures |Scan(block, bits, table, pos, pos)| <= 3 * ((|block| - pos) / 64) + 19
    decreases |block| - pos
  {
    hide Scan, EmitLiteral, Hash4, Constant, TableOk;
    if pos >= |block| - INPUT_MARGIN_BYTES {
      ScanEnd(block, bits, table, pos, pos);
      LiteralSize(block[pos..]);
    } else {
      var next, filled := RunMatch(block, bits, table, pos, pos);
      LiteralSize(block[pos..pos]);
      if next == |block| {
        ScanEnd(block, bits, filled, next, next);
        LiteralSize(block[next..]);
      } else {
        RunScan(block, bits, filled, next);
      }
    }
  }

  lemma RunBlock(block: ByteString)
    requires Constant(block) && |block| <= BLOCK_SIZE
    ensures |CompressBlock(block)| <= |block| / 16 + 24
  {
    hide Scan, EmitLiteral, Hash4, Constant, Pow2;
    if |block| <= INPUT_MARGIN_BYTES + 1 {
      BlockSize(block);
    } else {
      var bits := TableBits(|block|);
      var empty := EmptyTable(bits);
      ScanMiss(block, bits, empty, 0, 0);
      var table := empty[Hash4(block, 0, bits) := 0];
      LiteralSize(block[0..1]);
      var next, filled := RunMatch(block, bits, table, 0, 1);
      RunScan(block, bits, filled, next);
    }
  }

  lemma ConstantParts(data: ByteString, n: nat)
    requires Constant(data) && n <= |data|
    ensures Constant(data[..n]) && Constant(data[n..])
  {
  }

  lemma {:induction false} RunBlocks(data: ByteString)
    requires Constant(data)
    ensures |CompressBlocks(data)| <= |data| / 15 + 24
    decreases |data|
  {
    hide CompressBlock, Constant;
    if data != [] {
      var n := FirstBlock(data);
      ConstantParts(data, n);
      RunBlock(data[..n]);
      RunBlocks(data[n..]);
      if n == |data| {
        assert CompressBlocks(data[n..]) == [];
      }
    }
  }

  /** A run of n equal bytes compresses to at most n / 15 + 29 bytes. */
  lemma RunsCompress(data: ByteString)
    requires Constant(data) && Compress(data).Ok?
    ensures |Compress(data).value| <= |data| / 15 + 29
  {
    hide CompressBlocks;
    Varint.RoundTrip(|data|, SNAPPY_VARINT_MAX_BYTES, []);
    RunBlocks(data);
  }

  // ---- where the search starts and stops ----

  lemma ScanStops(block: ByteString, bits: nat, table: seq<int>, lit: nat, pos: nat)
    requires |block| <= BLOCK_SIZE && bits <= 32 && lit <= pos <= |block| && TableOk(table, bits, pos)
    requires pos + 15 >= |block|
    ensures Scan(block, bits, table, lit, pos) == EmitLiteral(block[lit..])
  {
    hide Hash4, TableOk, ExtendMatch, FillSkips, EmitLiteral;
  }

  lemma ScanMisses(block: ByteString, bits: nat, table: seq<int>, lit: nat, pos: nat)
    requires |block| <= BLOCK_SIZE && bits <= 32 && lit <= pos && pos + 15 < |block| && TableOk(table, bits, pos)
    requires table[Hash4(block, pos, bits)] < 0
    ensures TableOk(table[Hash4(block, pos, bits) := pos], bits, pos + 1)
    ensures Scan(block, bits, table, lit, pos) ==
      Scan(block, bits, table[Hash4(block, pos, bits) := pos], lit, pos + 1)
  {
    hide Hash4, ExtendMatch, FillSkips, EmitLiteral;
  }

  /** A block of at most 16 bytes is one literal, whatever it holds. */
  lemma ShortBlock(block: ByteString)
    requires 0 < |block| <= 16
    ensures CompressBlock(block) == EncodeLiteralTag(|block|).value + block
  {
    hide Scan, Hash4, TableBits, EncodeLiteralTag, Pow2;
    if |block| >= 4 {
      var bits := TableBits(|block|);
      var table := EmptyTable(bits);
      if |block| == 16 {
        ScanMisses(block, bits, table, 0, 0);
        ScanStops(block, bits, table[Hash4(block, 0, bits) := 0], 0, 1);
      } else {
        ScanStops(block, bits, table, 0, 0);
      }
      assert block[0..] == block;
    }
  }

  lemma ScanHits(block: ByteString, bits: nat, table: seq<int>)
    requires Constant(block) && |block| == 17 && bits <= 32 && TableOk(table, bits, 1)
    requires table[Hash4(block, 1, bits)] == 0
    ensures Scan(block, bits, table, 0, 1) == EmitLiteral(block[..1]) + EncodeCopyTag(16, 1).value
  {
    hide Hash4, FillSkips, EmitLiteral, EncodeCopyTag;
    ConstantSlice(block, 0, 1);
    var n := ExtendMatch(block, 0, 1, 4);
    assert n == 16;
    var updated := table[Hash4(block, 1, bits) := 1];
    ScanStops(block, bits, updated, 17, 17);
    EmptyLiteral(block[17..]);
    var out := EmitLiteral(block[..1]) + EncodeCopyTag(16, 1).value;
    assert block[0..1] == block[..1] && out + [] == out;
  }

  lemma EmptyLiteral(s: ByteString)
    requires s == []
    ensures EmitLiteral(s) == []
  {
  }

  /** A run of 17 bytes is the shortest with a copy: its first byte, then a copy of 16 from one byte back. */
  lemma RunOf17(block: ByteString)
    requires Constant(block) && |block| == 17
    ensures CompressBlock(block) == [0, block[0], 62, 1, 0]
  {
    hide Scan, Hash4, TableBits, Pow2, Constant;
    var bits := TableBits(|block|);
    var table := EmptyTable(bits);
    var first := table[Hash4(block, 0, bits) := 0];
    ScanMisses(block, bits, table, 0, 0);
    SameHash(block, 0, 1, bits);
    ScanHits(block, bits, first);
    assert ToLE(1, 2) == [1, 0];
    assert block[..1] == [block[0]];
  }

  /** Four bytes that read as the number one hash to the multiplier. */
  lemma HashOfOne()
    ensures Hash4([1, 0, 0, 0], 0, 32) == 0x1E35_A7BD
  {
    var s: ByteString := [1, 0, 0, 0];
    assert s[0..4] == s && s[1..] == [0, 0, 0] && [0, 0, 0][1..] == [0, 0] && [0, 0][1..] == [0] && [0][1..] == [];
    assert FromLE([0, 0]) == 0;
    assert FromLE([0, 0, 0]) == 0;
    assert FromLE(s) == 1;
    assert Pow2(0) == 1;
  }
}

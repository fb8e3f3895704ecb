/** Raw Snappy compression: a greedy LZ77 matcher over a hash table (src/lean_spec/node/snappy/compress.py). */
module SnappyCompress {
  import opened Bytes
  import opened SnappyTags
  import opened SnappyDecompress
  import Varint

  const BLOCK_SIZE := 65536
  const INPUT_MARGIN_BYTES := 15
  const MIN_HASH_TABLE_BITS := 8
  const MAX_HASH_TABLE_BITS := 15
  const HASH_MULTIPLIER := 0x1E35A7BD

  // ---- the hash table ----

  function GrowBits(bits: nat, target: nat): (r: nat)
    requires bits <= MAX_HASH_TABLE_BITS
    ensures bits <= r <= MAX_HASH_TABLE_BITS
    ensures r == MAX_HASH_TABLE_BITS || target <= Pow2(r)
    ensures r == bits || Pow2(r - 1) < target
    decreases MAX_HASH_TABLE_BITS - bits
  {
    if Pow2(bits) < target && bits < MAX_HASH_TABLE_BITS then GrowBits(bits + 1, target) else bits
  }

  /** _compute_table_bits. */
  function TableBits(blockSize: nat): (bits: nat)
    ensures 8 <= bits <= 15
    ensures bits == 15 || blockSize / 4 <= Pow2(bits)
    ensures bits == 8 || Pow2(bits - 1) < blockSize / 4
  {
    GrowBits(MIN_HASH_TABLE_BITS, blockSize / 4)
  }

  /** The top `bits` bits of a 32-bit value. */
  function TopBits(x: nat, bits: nat): (h: nat)
    requires x < 0x1_0000_0000 && bits <= 32
    ensures h < Pow2(bits)
  {
    TopBitsBound(x, bits);
    x / Pow2(32 - bits)
  }

  lemma TopBitsBound(x: nat, bits: nat)
    requires x < 0x1_0000_0000 && bits <= 32
    ensures 0 <= x / Pow2(32 - bits) < Pow2(bits)
  {
    Pow2Sum(bits, 32 - bits);
    Pow2Eight(8);
    Pow2Eight(16);
    Pow2Eight(24);
    DivBound(x, Pow2(bits), Pow2(32 - bits));
  }

  lemma DivBound(x: nat, p: nat, q: nat)
    requires q > 0 && x < p * q
    ensures 0 <= x / q < p
  {
    var h := x / q;
    assert x == h * q + x % q;
    MulSign(h, q);
    MulSign(h - p, q);
    assert (h - p) * q == h * q - p * q;
  }

  /** _hash_4_bytes. */
  function Hash4(data: ByteString, pos: nat, bits: nat): (h: nat)
    requires pos + 4 <= |data| && bits <= 32
    ensures h < Pow2(bits)
  {
    TopBits(FromLE(data[pos..pos + 4]) * HASH_MULTIPLIER % 0x1_0000_0000, bits)
  }

  /** Slots hold -1 or a position already passed. */
  predicate TableOk(table: seq<int>, bits: nat, pos: nat)
  {
    |table| == Pow2(bits) && forall i | 0 <= i < |table| :: -1 <= table[i] < pos
  }

  /** Positions lo, lo + 2, ... below hi entered into the table. */
  function FillSkips(data: ByteString, bits: nat, table: seq<int>, lo: nat, hi: nat, pos: nat): (r: seq<int>)
    requires bits <= 32 && hi < pos && pos + 4 <= |data| && TableOk(table, bits, pos)
    ensures TableOk(r, bits, pos)
    decreases hi - lo
  {
    if lo >= hi then table
    else FillSkips(data, bits, table[Hash4(data, lo, bits) := lo], lo + 2, hi, pos)
  }

  // ---- matching ----

  /** _matches_at. */
  predicate MatchesAt(data: ByteString, p: nat, q: nat)
    requires p + 4 <= |data| && q + 4 <= |data|
  {
    data[p..p + 4] == data[q..q + 4]
  }

  predicate Agree(data: ByteString, p: nat, q: nat, n: nat)
    requires p <= q && q + n <= |data|
  {
    data[p..p + n] == data[q..q + n]
  }

  lemma AgreeStep(data: ByteString, p: nat, q: nat, n: nat)
    requires p <= q && q + n < |data| && Agree(data, p, q, n) && data[p + n] == data[q + n]
    ensures Agree(data, p, q, n + 1)
  {
    assert data[p..p + n + 1] == data[p..p + n] + [data[p + n]];
    assert data[q..q + n + 1] == data[q..q + n] + [data[q + n]];
  }

  /** _extend_match, from `n` bytes known to match. */
  function ExtendMatch(data: ByteString, p: nat, q: nat, n: nat): (r: nat)
    requires p <= q && q + n <= |data| && n <= 64 && Agree(data, p, q, n)
    ensures n <= r <= 64 && q + r <= |data| && Agree(data, p, q, r)
    ensures r == 64 || q + r == |data| || data[p + r] != data[q + r]
    decreases 64 - n
  {
    if n < 64 && q + n < |data| && data[p + n] == data[q + n] then
      AgreeStep(data, p, q, n);
      ExtendMatch(data, p, q, n + 1)
    else n
  }

  // ---- emission ----

  /** _emit_literal on at most one block of bytes. */
  function EmitLiteral(s: ByteString): (r: ByteString)
    requires |s| <= BLOCK_SIZE
  {
    if s == [] then [] else EncodeLiteralTag(|s|).value + s
  }

  /** The main loop from literal_start = lit and input_position = pos on, and the last literal. */
  function Scan(block: ByteString, bits: nat, table: seq<int>, lit: nat, pos: nat): (r: ByteString)
    requires |block| <= BLOCK_SIZE && bits <= 32 && lit <= pos <= |block| && TableOk(table, bits, pos)
    decreases |block| - pos
  {
    if pos >= |block| - INPUT_MARGIN_BYTES then EmitLiteral(block[lit..])
    else
      var h := Hash4(block, pos, bits);
      var candidate := table[h];
      var updated := table[h := pos];
      if candidate >= 0 && MatchesAt(block, candidate, pos) then
        var n := ExtendMatch(block, candidate, pos, 4);
        var next := pos + n;
        var filled := if next < |block| - INPUT_MARGIN_BYTES
                      then FillSkips(block, bits, updated, pos + 1, next - 1, next) else updated;
        EmitLiteral(block[lit..pos]) + EncodeCopyTag(n, pos - candidate).value
        + Scan(block, bits, filled, next, next)
      else Scan(block, bits, updated, lit, pos + 1)
  }

  function EmptyTable(bits: nat): (table: seq<int>)
    ensures TableOk(table, bits, 0)
  {
    seq(Pow2(bits), _ => -1)
  }

  function CompressBlock(block: ByteString): (r: ByteString)
    requires |block| <= BLOCK_SIZE
  {
    if |block| < 4 then EmitLiteral(block)
    else
      var bits := TableBits(|block|);
      Scan(block, bits, EmptyTable(bits), 0, 0)
  }

  function FirstBlock(data: ByteString): (n: nat)
    ensures n <= |data| && n <= BLOCK_SIZE && (data != [] ==> n > 0)
  {
    if |data| < BLOCK_SIZE then |data| else BLOCK_SIZE
  }

  function CompressBlocks(data: ByteString): (r: ByteString)
    decreases |data|
  {
    if data == [] then []
    else
      var n := FirstBlock(data);
      CompressBlock(data[..n]) + CompressBlocks(data[n..])
  }

  /** compress: fails exactly on inputs whose length does not fit the length prefix. */
  function Compress(data: ByteString): (r: Varint.VarintResult<ByteString>)
  {
    match Varint.Encode(|data|, SNAPPY_VARINT_MAX_BYTES)
    case Err(e) => Err(e)
    case Ok(header) => Ok(header + CompressBlocks(data))
  }

  // ---- the source's loops ----

  method ExtendMatchLoop(data: ByteString, p: nat, q: nat) returns (n: nat)
    requires p <= q && q + 4 <= |data| && Agree(data, p, q, 4)
    ensures n == ExtendMatch(data, p, q, 4)
  {
    n := 4;
    while n < 64 && q + n < |data| && data[p + n] == data[q + n]
      invariant q + n <= |data| && n <= 64 && Agree(data, p, q, n)
      invariant ExtendMatch(data, p, q, 4) == ExtendMatch(data, p, q, n)
      decreases 64 - n
    {
      AgreeStep(data, p, q, n);
      n := n + 1;
    }
  }

  method TableBitsLoop(blockSize: nat) returns (bits: nat)
    ensures bits == TableBits(blockSize)
  {
    hide Pow2;
    var target := blockSize / 4;
    bits := MIN_HASH_TABLE_BITS;
    while Pow2(bits) < target && bits < MAX_HASH_TABLE_BITS
      invariant bits <= MAX_HASH_TABLE_BITS
      invariant GrowBits(MIN_HASH_TABLE_BITS, target) == GrowBits(bits, target)
      decreases MAX_HASH_TABLE_BITS - bits
    {
      bits := bits + 1;
    }
  }

  method FillSkipsLoop(data: ByteString, bits: nat, table: array<int>, lo: nat, hi: nat, pos: nat)
    requires bits <= 32 && hi < pos && pos + 4 <= |data| && TableOk(table[..], bits, pos)
    modifies table
    ensures TableOk(table[..], bits, pos)
    ensures table[..] == FillSkips(data, bits, old(table[..]), lo, hi, pos)
  {
    hide Hash4, Pow2;
    var skip := lo;
    while skip < hi
      invariant TableOk(table[..], bits, pos)
      invariant FillSkips(data, bits, old(table[..]), lo, hi, pos) == FillSkips(data, bits, table[..], skip, hi, pos)
      decreases hi - skip
    {
      var h := Hash4(data, skip, bits);
      ghost var before := table[..];
      table[h] := skip;
      assert table[..] == before[h := skip];
      skip := skip + 2;
    }
  }

  lemma ScanMatch(block: ByteString, bits: nat, table: seq<int>, lit: nat, pos: nat, filled: seq<int>)
    requires |block| <= BLOCK_SIZE && bits <= 32 && lit <= pos < |block| - INPUT_MARGIN_BYTES &&
      TableOk(table, bits, pos)
    requires var c := table[Hash4(block, pos, bits)]; c >= 0 && MatchesAt(block, c, pos)
    requires var n := ExtendMatch(block, table[Hash4(block, pos, bits)], pos, 4);
      var updated := table[Hash4(block, pos, bits) := pos];
      filled == if pos + n < |block| - INPUT_MARGIN_BYTES
                then FillSkips(block, bits, updated, pos + 1, pos + n - 1, pos + n) else updated
    ensures var c := table[Hash4(block, pos, bits)];
      var n := ExtendMatch(block, c, pos, 4);
      && TableOk(filled, bits, pos + n)
      && Scan(block, bits, table, lit, pos) ==
         EmitLiteral(block[lit..pos]) + EncodeCopyTag(n, pos - c).value + Scan(block, bits, filled, pos + n, pos + n)
  {
    hide Hash4, Pow2, FillSkips, ExtendMatch, EncodeCopyTag, EmitLiteral;
  }

  lemma ScanMiss(block: ByteString, bits: nat, table: seq<int>, lit: nat, pos: nat)
    requires |block| <= BLOCK_SIZE && bits <= 32 && lit <= pos < |block| - INPUT_MARGIN_BYTES &&
      TableOk(table, bits, pos)
    requires var c := table[Hash4(block, pos, bits)]; c < 0 || !MatchesAt(block, c, pos)
    ensures var updated := table[Hash4(block, pos, bits) := pos];
      && TableOk(updated, bits, pos + 1)
      && Scan(block, bits, table, lit, pos) == Scan(block, bits, updated, lit, pos + 1)
  {
    hide Hash4, Pow2, FillSkips, ExtendMatch, EncodeCopyTag, EmitLiteral;
  }

  lemma ScanEnd(block: ByteString, bits: nat, table: seq<int>, lit: nat, pos: nat)
    requires |block| <= BLOCK_SIZE && bits <= 32 && lit <= pos <= |block| && TableOk(table, bits, pos)
    requires pos >= |block| - INPUT_MARGIN_BYTES
    ensures Scan(block, bits, table, lit, pos) == EmitLiteral(block[lit..])
  {
  }

  /** The branch of the main loop that found a match. */
  method TakeMatch(block: ByteString, bits: nat, table: array<int>, lit: nat, pos: nat, candidate: nat,
                   ghost before: seq<int>)
    returns (emitted: ByteString, next: nat)
    requires |block| <= BLOCK_SIZE && bits <= 32 && lit <= pos < |block| - INPUT_MARGIN_BYTES &&
      TableOk(before, bits, pos)
    requires before[Hash4(block, pos, bits)] == candidate && MatchesAt(block, candidate, pos)
    requires table[..] == before[Hash4(block, pos, bits) := pos]
    modifies table
    ensures pos < next <= |block| && TableOk(table[..], bits, next)
    ensures Scan(block, bits, before, lit, pos) == emitted + Scan(block, bits, table[..], next, next)
  {
    hide Hash4, Pow2, FillSkips, ExtendMatch, EncodeCopyTag, EmitLiteral, Scan;
    emitted := [];
    if pos > lit {
      emitted := EmitLiteral(block[lit..pos]);
    } else {
      EmitNothing(block[lit..pos]);
    }
    var n := ExtendMatchLoop(block, candidate, pos);
    emitted := emitted + EncodeCopyTag(n, pos - candidate).value;
    next := pos + n;
    if n > 1 && next < |block| - INPUT_MARGIN_BYTES {
      FillSkipsLoop(block, bits, table, next - n + 1, next - 1, next);
    }
    ScanMatch(block, bits, before, lit, pos, table[..]);
  }

  /** _compress_block. */
  method CompressBlockLoop(block: ByteString) returns (output: ByteString)
    requires |block| <= BLOCK_SIZE
    ensures output == CompressBlock(block)
  {
    hide Hash4, Pow2, EmitLiteral, Scan, FillSkips, ExtendMatch;
    if |block| < 4 {
      return EmitLiteral(block);
    }
    var bits := TableBitsLoop(|block|);
    var table := new int[Pow2(bits)](_ => -1);
    assert table[..] == EmptyTable(bits);
    output := [];
    var lit: nat, pos: nat := 0, 0;
    while pos < |block| - INPUT_MARGIN_BYTES
      invariant lit <= pos <= |block| && TableOk(table[..], bits, pos)
      invariant CompressBlock(block) == output + Scan(block, bits, table[..], lit, pos)
      decreases |block| - pos
    {
      ghost var before := table[..];
      var h := Hash4(block, pos, bits);
      var candidate := table[h];
      table[h] := pos;
      assert table[..] == before[h := pos];
      if candidate >= 0 && MatchesAt(block, candidate, pos) {
        var emitted, next := TakeMatch(block, bits, table, lit, pos, candidate, before);
        output := output + emitted;
        lit, pos := next, next;
      } else {
        ScanMiss(block, bits, before, lit, pos);
        pos := pos + 1;
      }
    }
    ScanEnd(block, bits, table[..], lit, pos);
    if lit < |block| {
      output := output + EmitLiteral(block[lit..]);
    } else {
      EmitNothing(block[lit..]);
    }
  }

  lemma EmitNothing(s: ByteString)
    requires s == []
    ensures EmitLiteral(s) == []
  {
  }

  /** compress. */
  method CompressBytes(data: ByteString) returns (r: Varint.VarintResult<ByteString>)
    ensures r == Compress(data)
  {
    hide CompressBlock;
    var header := Varint.EncodeVarint(|data|, SNAPPY_VARINT_MAX_BYTES);
    if header.Err? {
      return header;
    }
    var output := header.value;
    var offset: nat := 0;
    assert data[0..] == data;
    while offset < |data|
      invariant offset <= |data|
      invariant header.value + CompressBlocks(data) == output + CompressBlocks(data[offset..])
    {
      var end := if offset + BLOCK_SIZE < |data| then offset + BLOCK_SIZE else |data|;
      assert data[offset..][..FirstBlock(data[offset..])] == data[offset..end];
      assert data[offset..][FirstBlock(data[offset..])..] == data[end..];
      var compressed := CompressBlockLoop(data[offset..end]);
      output := output + compressed;
      offset := end;
    }
    assert data[offset..] == [];
    assert output + [] == output;
    return Ok(output);
  }
}

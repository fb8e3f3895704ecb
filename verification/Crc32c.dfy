/** CRC32C with its lookup table, and the CRC mask (src/lean_spec/node/snappy/framing.py). */
module Crc32c {
  import opened Bytes

  /** Castagnoli polynomial, bit-reversed. */
  const POLY: bv32 := 0x82F63B78

  // ---- word operations, named so that proofs can treat them abstractly ----

  function Xor(a: bv32, b: bv32): bv32 { a ^ b }

  function Shr1(a: bv32): bv32 { a >> 1 }

  function Shr8(a: bv32): bv32 { a >> 8 }

  function LowByte(a: bv32): bv8 { (a & 0xFF) as bv8 }

  function ClearLowByte(a: bv32): bv32 { a & 0xFFFF_FF00 }

  function LowBit(a: bv32): bv32 { a & 1 }

  function ClearLowBit(a: bv32): bv32 { a & 0xFFFF_FFFE }

  function Word(b: bv8): bv32 { b as bv32 }

  predicate IsOdd(a: bv32) { a & 1 == 1 }

  // ---- bit at a time: a shift register fed one message bit per step ----

  /** One step of the register with no input. */
  function BitStep(c: bv32): bv32
  {
    if c & 1 == 1 then (c >> 1) ^ POLY else c >> 1
  }

  /** The low n bits of m, least significant first, each added to the bit about to be shifted out. */
  function FeedBits(c: bv32, m: bv32, n: nat): bv32
    decreases n
  {
    if n == 0 then c else FeedBits(BitStep(Xor(c, LowBit(m))), Shr1(m), n - 1)
  }

  function FeedBytes(c: bv32, data: ByteString): bv32
    decreases |data|
  {
    if data == [] then c else FeedBytes(FeedBits(c, Word(data[0] as bv8), 8), data[1..])
  }

  /** The CRC of a message, defined on its bits. */
  function BitwiseCrc(data: ByteString): bv32
  {
    Xor(FeedBytes(0xFFFF_FFFF, data), 0xFFFF_FFFF)
  }

  // ---- byte at a time, with the table ----

  function Steps(c: bv32, n: nat): bv32
    decreases n
  {
    if n == 0 then c else Steps(BitStep(c), n - 1)
  }

  function Entry(i: bv8): bv32
  {
    Steps(Word(i), 8)
  }

  ghost predicate IsTable(table: seq<bv32>)
  {
    |table| == 256 && forall i: bv8 :: table[i as int] == Entry(i)
  }

  /** _crc32c_table. */
  method Crc32cTable() returns (table: seq<bv32>)
    ensures IsTable(table)
  {
    hide Steps, Word, BitStep;
    table := [];
    for i := 0 to 256
      invariant |table| == i
      invariant forall k | 0 <= k < i :: table[k] == Entry(k as bv8)
    {
      var crc := Word(i as bv8);
      for j := 0 to 8
        invariant Steps(crc, 8 - j) == Entry(i as bv8)
      {
        StepsUnfold(crc, 8 - j);
        crc := BitStep(crc);
      }
      StepsUnfold(crc, 0);
      table := table + [crc];
    }
    forall i: bv8
      ensures table[i as int] == Entry(i)
    {
      assert (i as int) as bv8 == i;
    }
  }

  /** _crc32c, with the table it indexes. */
  method Crc32cLoop(table: seq<bv32>, data: ByteString) returns (crc: bv32)
    requires IsTable(table)
    ensures crc == BitwiseCrc(data)
  {
    hide FeedBits, Entry, Xor, Word, Shr8, LowByte;
    crc := 0xFFFF_FFFF;
    assert data[0..] == data;
    for i := 0 to |data|
      invariant FeedBytes(0xFFFF_FFFF, data) == FeedBytes(crc, data[i..])
    {
      var byte := data[i] as bv8;
      TableStep(crc, byte);
      assert data[i..][1..] == data[i + 1..];
      crc := Xor(table[LowByte(Xor(crc, Word(byte))) as int], Shr8(crc));
    }
    assert data[|data|..] == [];
    crc := Xor(crc, 0xFFFF_FFFF);
  }

  // ---- why one lookup is eight steps ----

  lemma StepsUnfold(c: bv32, n: nat)
    ensures Steps(c, n) == if n == 0 then c else Steps(BitStep(c), n - 1)
  {
  }

  lemma FeedUnfold(c: bv32, m: bv32, n: nat)
    ensures FeedBits(c, m, n) == if n == 0 then c else FeedBits(BitStep(Xor(c, LowBit(m))), Shr1(m), n - 1)
  {
  }

  lemma StepCases(x: bv32)
    ensures x & 1 == 1 ==> BitStep(x) == (x >> 1) ^ POLY
    ensures x & 1 == 0 ==> BitStep(x) == x >> 1
  {
  }

  lemma XorFacts(x: bv32, y: bv32)
    ensures (x ^ y) >> 1 == (x >> 1) ^ (y >> 1)
    ensures (x ^ y) & 1 == (x & 1) ^ (y & 1)
    ensures (x & 1 == 0 || x & 1 == 1) && (y & 1 == 0 || y & 1 == 1)
  {
  }

  lemma XorCancel(a: bv32, b: bv32, p: bv32)
    ensures (a ^ p) ^ (b ^ p) == a ^ b
    ensures (a ^ p) ^ b == (a ^ b) ^ p && a ^ (b ^ p) == (a ^ b) ^ p
  {
  }

  lemma BitXor()
    ensures (0 as bv32) ^ 0 == 0 && (1 as bv32) ^ 1 == 0 && (1 as bv32) ^ 0 == 1 && (0 as bv32) ^ 1 == 1
  {
  }

  /** The register is linear over exclusive or. */
  lemma BitStepLinear(x: bv32, y: bv32)
    ensures BitStep(Xor(x, y)) == Xor(BitStep(x), BitStep(y))
  {
    XorFacts(x, y);
    XorCancel(x >> 1, y >> 1, POLY);
    BitXor();
    StepCases(x);
    StepCases(y);
    StepCases(x ^ y);
    hide BitStep;
  }

  lemma {:induction false} StepsLinear(x: bv32, y: bv32, n: nat)
    ensures Steps(Xor(x, y), n) == Xor(Steps(x, n), Steps(y, n))
    decreases n
  {
    hide *;
    StepsUnfold(x, n);
    StepsUnfold(y, n);
    StepsUnfold(Xor(x, y), n);
    if n > 0 {
      BitStepLinear(x, y);
      StepsLinear(BitStep(x), BitStep(y), n - 1);
    }
  }

  /** n right shifts by one. */
  function Rest(m: bv32, n: nat): bv32
    decreases n
  {
    if n == 0 then m else Rest(Shr1(m), n - 1)
  }

  lemma RestUnfold(m: bv32, n: nat)
    ensures Rest(m, n) == if n == 0 then m else Rest(Shr1(m), n - 1)
  {
  }

  /** Some of the low n bits of m are set. */
  predicate LowBitsSet(m: bv32, n: nat)
    decreases n
  {
    n > 0 && (IsOdd(m) || LowBitsSet(Shr1(m), n - 1))
  }

  lemma LowBitsUnfold(m: bv32, n: nat)
    requires !LowBitsSet(m, n) && n > 0
    ensures BitStep(m) == Shr1(m) && !LowBitsSet(Shr1(m), n - 1)
  {
    LowBitCases(m);
  }

  lemma LowBitCases(m: bv32)
    ensures m & 1 == 0 || m & 1 == 1
  {
  }

  /** Steps over clear bits only shift. */
  lemma {:induction false} StepsShift(m: bv32, n: nat)
    requires !LowBitsSet(m, n)
    ensures Steps(m, n) == Rest(m, n)
    decreases n
  {
    hide *;
    StepsUnfold(m, n);
    RestUnfold(m, n);
    if n > 0 {
      LowBitsUnfold(m, n);
      StepsShift(Shr1(m), n - 1);
    }
  }

  lemma ShiftFacts(x: bv32)
    ensures Shr1(Shr1(Shr1(Shr1(Shr1(Shr1(Shr1(Shr1(x)))))))) == Shr8(x)
  {
  }

  lemma RestEight(m: bv32)
    ensures Rest(m, 8) == Shr8(m)
  {
    hide *;
    ShiftFacts(m);
    var m1 := Shr1(m);
    var m2 := Shr1(m1);
    var m3 := Shr1(m2);
    var m4 := Shr1(m3);
    var m5 := Shr1(m4);
    var m6 := Shr1(m5);
    var m7 := Shr1(m6);
    RestUnfold(m, 8);
    RestUnfold(m1, 7);
    RestUnfold(m2, 6);
    RestUnfold(m3, 5);
    RestUnfold(m4, 4);
    RestUnfold(m5, 3);
    RestUnfold(m6, 2);
    RestUnfold(m7, 1);
    RestUnfold(Shr1(m7), 0);
  }

  lemma ClearFacts(x: bv32)
    ensures var m := ClearLowByte(x);
      && !IsOdd(m) && !IsOdd(Shr1(m)) && !IsOdd(Shr1(Shr1(m))) && !IsOdd(Shr1(Shr1(Shr1(m))))
      && !IsOdd(Shr1(Shr1(Shr1(Shr1(m))))) && !IsOdd(Shr1(Shr1(Shr1(Shr1(Shr1(m))))))
      && !IsOdd(Shr1(Shr1(Shr1(Shr1(Shr1(Shr1(m))))))) && !IsOdd(Shr1(Shr1(Shr1(Shr1(Shr1(Shr1(Shr1(m))))))))
  {
  }

  lemma LowBitsStep(m: bv32, n: nat)
    requires n > 0 && !IsOdd(m) && !LowBitsSet(Shr1(m), n - 1)
    ensures !LowBitsSet(m, n)
  {
    hide IsOdd, Shr1;
  }

  lemma ClearedLow(x: bv32)
    ensures !LowBitsSet(ClearLowByte(x), 8)
  {
    hide *;
    ClearFacts(x);
    var m := ClearLowByte(x);
    var m1 := Shr1(m);
    var m2 := Shr1(m1);
    var m3 := Shr1(m2);
    var m4 := Shr1(m3);
    var m5 := Shr1(m4);
    var m6 := Shr1(m5);
    var m7 := Shr1(m6);
    NoBits(Shr1(m7));
    LowBitsStep(m7, 1);
    LowBitsStep(m6, 2);
    LowBitsStep(m5, 3);
    LowBitsStep(m4, 4);
    LowBitsStep(m3, 5);
    LowBitsStep(m2, 6);
    LowBitsStep(m1, 7);
    LowBitsStep(m, 8);
  }

  lemma NoBits(m: bv32)
    ensures !LowBitsSet(m, 0)
  {
  }

  lemma WordFacts(x: bv32)
    ensures x == Xor(Word(LowByte(x)), ClearLowByte(x))
    ensures Shr8(ClearLowByte(x)) == Shr8(x)
  {
  }

  lemma LookupIsSteps(x: bv32)
    ensures Steps(x, 8) == Xor(Entry(LowByte(x)), Shr8(x))
  {
    EntryIs(LowByte(x));
    hide *;
    WordFacts(x);
    StepsLinear(Word(LowByte(x)), ClearLowByte(x), 8);
    ClearedLow(x);
    StepsShift(ClearLowByte(x), 8);
    RestEight(ClearLowByte(x));
  }

  lemma EntryIs(i: bv8)
    ensures Entry(i) == Steps(Word(i), 8)
  {
  }

  lemma MessageFacts(c: bv32, m: bv32)
    ensures Xor(c, m) == Xor(Xor(c, LowBit(m)), ClearLowBit(m))
    ensures BitStep(ClearLowBit(m)) == Shr1(m)
  {
    hide BitStep;
    EvenFacts(m);
    StepCases(ClearLowBit(m));
    SplitBit(c, m);
  }

  lemma EvenFacts(m: bv32)
    ensures ClearLowBit(m) & 1 == 0 && ClearLowBit(m) >> 1 == Shr1(m)
  {
  }

  lemma SplitBit(c: bv32, m: bv32)
    ensures Xor(c, m) == Xor(Xor(c, LowBit(m)), ClearLowBit(m))
  {
  }

  /** Feeding n bits one at a time is adding them all at once and stepping n times. */
  lemma {:induction false} FeedIsSteps(c: bv32, m: bv32, n: nat)
    ensures Xor(FeedBits(c, m, n), Rest(m, n)) == Steps(Xor(c, m), n)
    decreases n
  {
    hide *;
    FeedUnfold(c, m, n);
    StepsUnfold(Xor(c, m), n);
    RestUnfold(m, n);
    if n > 0 {
      MessageFacts(c, m);
      BitStepLinear(Xor(c, LowBit(m)), ClearLowBit(m));
      FeedIsSteps(BitStep(Xor(c, LowBit(m))), Shr1(m), n - 1);
    }
  }

  lemma ByteFacts(c: bv32, b: bv8)
    ensures Shr8(Word(b)) == 0 && Shr8(Xor(c, Word(b))) == Shr8(c)
    ensures Xor(c, 0) == c
  {
  }

  /** One table lookup advances the register by one byte. */
  lemma TableStep(c: bv32, b: bv8)
    ensures FeedBits(c, Word(b), 8) == Xor(Entry(LowByte(Xor(c, Word(b)))), Shr8(c))
  {
    hide *;
    FeedIsSteps(c, Word(b), 8);
    RestEight(Word(b));
    ByteFacts(c, b);
    ByteFacts(FeedBits(c, Word(b), 8), b);
    LookupIsSteps(Xor(c, Word(b)));
  }

  // ---- the mask ----

  const CRC32C_MASK_DELTA: bv64 := 0xA282_EAD8

  /** _mask_crc: the left shift is not cut to 32 bits before the addition. */
  function MaskCrc(crc: bv64): bv64
  {
    (((crc >> 15) | (crc << 17)) + CRC32C_MASK_DELTA) & 0xFFFF_FFFF
  }

  /** Subtract, then rotate left by 15 within 32 bits. */
  function UnmaskCrc(masked: bv64): bv64
  {
    var r := (masked - CRC32C_MASK_DELTA) & 0xFFFF_FFFF;
    ((r >> 17) | (r << 15)) & 0xFFFF_FFFF
  }

  /** The mask is a bijection on 32-bit values. */
  lemma MaskBijection(x: bv64)
    requires x <= 0xFFFF_FFFF
    ensures MaskCrc(x) <= 0xFFFF_FFFF && UnmaskCrc(MaskCrc(x)) == x
    ensures UnmaskCrc(x) <= 0xFFFF_FFFF && MaskCrc(UnmaskCrc(x)) == x
  {
    MaskThenUnmask(x);
    UnmaskThenMask(x);
  }

  lemma MaskThenUnmask(x: bv64)
    requires x <= 0xFFFF_FFFF
    ensures MaskCrc(x) <= 0xFFFF_FFFF && UnmaskCrc(MaskCrc(x)) == x
  {
  }

  lemma UnmaskThenMask(x: bv64)
    requires x <= 0xFFFF_FFFF
    ensures UnmaskCrc(x) <= 0xFFFF_FFFF && MaskCrc(UnmaskCrc(x)) == x
  {
  }

  function MaskedValue(crc: bv32): (n: nat)
    ensures n < 0x1_0000_0000
  {
    (MaskCrc(crc as bv64) as bv32) as int
  }

  /** The masked checksum stored in a frame. */
  function Checksum(data: ByteString): (n: nat)
    ensures n < 0x1_0000_0000
  {
    MaskedValue(BitwiseCrc(data))
  }
}

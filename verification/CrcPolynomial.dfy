/**
 The checksum as polynomial division: section "CRC32C" of framing.py names the Castagnoli polynomial in its
 unreversed form (src/lean_spec/node/snappy/framing.py).

 A polynomial over the two-element field is the sequence of its coefficients, highest degree first.
 */
module CrcPolynomial {
  import opened Bytes
  import opened Crc32c

  type Poly = seq<bool>

  /** The exponents of 0x1EDC6F41 below x^32. */
  const EXPONENTS: set<int> := {28, 27, 26, 25, 23, 22, 20, 19, 18, 14, 13, 11, 10, 9, 8, 6, 0}

  /** The generator without its leading term x^32. */
  function Generator(): (g: Poly)
    ensures |g| == 32
  {
    seq(32, i => 31 - i in EXPONENTS)
  }

  function Sum(p: Poly, q: Poly): (r: Poly)
    requires |p| == |q|
    ensures |r| == |p| && forall i | 0 <= i < |p| :: r[i] == (p[i] != q[i])
  {
    seq(|p|, i requires 0 <= i < |p| => p[i] != q[i])
  }

  /** Sum of q with the leading coefficients of p. */
  function SumFront(q: Poly, p: Poly): (r: Poly)
    requires |q| <= |p|
    ensures |r| == |p|
    ensures forall i | 0 <= i < |p| :: r[i] == if i < |q| then p[i] != q[i] else p[i]
  {
    Sum(q, p[..|q|]) + p[|q|..]
  }

  /** Long division by the generator: cancel the leading coefficient until 32 remain. */
  function Remainder(p: Poly): (r: Poly)
    requires |p| >= 32
    ensures |r| == 32
    decreases |p|
  {
    if |p| == 32 then p
    else Remainder(if p[0] then SumFront(Generator(), p[1..]) else p[1..])
  }

  function Zeros(n: nat): (p: Poly)
    ensures |p| == n && forall i | 0 <= i < n :: !p[i]
  {
    seq(n, _ => false)
  }

  function Ones(n: nat): (p: Poly)
    ensures |p| == n && forall i | 0 <= i < n :: p[i]
  {
    seq(n, _ => true)
  }

  /** The low n bits of a word, least significant first: the order in which bits are sent. */
  function BitsOf(c: bv32, n: nat): (p: Poly)
    ensures |p| == n
    decreases n
  {
    if n == 0 then [] else [IsOdd(c)] + BitsOf(Shr1(c), n - 1)
  }

  function MessageBits(data: ByteString): (p: Poly)
    ensures |p| == 8 * |data|
  {
    if data == [] then [] else BitsOf(Word(data[0] as bv8), 8) + MessageBits(data[1..])
  }

  // ---- bits of words ----

  lemma BitsUnfold(c: bv32, n: nat)
    ensures BitsOf(c, n) == if n == 0 then [] else [IsOdd(c)] + BitsOf(Shr1(c), n - 1)
  {
  }

  lemma XorBit(a: bv32, b: bv32)
    ensures IsOdd(Xor(a, b)) == (IsOdd(a) != IsOdd(b))
    ensures Shr1(Xor(a, b)) == Xor(Shr1(a), Shr1(b))
  {
  }

  lemma {:induction false} XorBits(a: bv32, b: bv32, n: nat)
    ensures BitsOf(Xor(a, b), n) == Sum(BitsOf(a, n), BitsOf(b, n))
    decreases n
  {
    hide *;
    BitsUnfold(a, n);
    BitsUnfold(b, n);
    BitsUnfold(Xor(a, b), n);
    if n > 0 {
      XorBit(a, b);
      XorBits(Shr1(a), Shr1(b), n - 1);
      SumStep(IsOdd(a), IsOdd(b), BitsOf(Shr1(a), n - 1), BitsOf(Shr1(b), n - 1));
    } else {
      assert Sum([], []) == [];
    }
  }

  lemma SumStep(x: bool, y: bool, p: Poly, q: Poly)
    requires |p| == |q|
    ensures Sum([x] + p, [y] + q) == [x != y] + Sum(p, q)
  {
  }

  lemma {:induction false} BitsSnoc(c: bv32, n: nat)
    ensures BitsOf(c, n + 1) == BitsOf(c, n) + [IsOdd(Rest(c, n))]
    decreases n
  {
    hide *;
    BitsUnfold(c, n + 1);
    BitsUnfold(c, n);
    RestUnfold(c, n);
    if n > 0 {
      BitsSnoc(Shr1(c), n - 1);
    } else {
      BitsUnfold(Shr1(c), 0);
    }
  }

  lemma {:induction false} RestAdd(c: bv32, m: nat, n: nat)
    ensures Rest(c, m + n) == Rest(Rest(c, m), n)
    decreases m
  {
    hide *;
    RestUnfold(c, m);
    RestUnfold(c, m + n);
    if m > 0 {
      RestAdd(Shr1(c), m - 1, n);
    }
  }

  lemma ShiftedOut(c: bv32)
    ensures Shr8(Shr8(Shr8(Shr8(c)))) == 0 && !IsOdd(0)
  {
  }

  lemma NothingLeft(c: bv32)
    ensures !IsOdd(Rest(c, 32))
  {
    hide *;
    RestAdd(c, 8, 24);
    RestEight(c);
    RestAdd(Shr8(c), 8, 16);
    RestEight(Shr8(c));
    RestAdd(Shr8(Shr8(c)), 8, 8);
    RestEight(Shr8(Shr8(c)));
    RestEight(Shr8(Shr8(Shr8(c))));
    ShiftedOut(c);
  }

  /** A right shift multiplies by x and drops the leading coefficient. */
  lemma ShiftBits(c: bv32)
    ensures BitsOf(Shr1(c), 32) == BitsOf(c, 32)[1..] + [false]
    ensures BitsOf(c, 32)[0] == IsOdd(c)
  {
    hide *;
    BitsUnfold(c, 33);
    BitsUnfold(c, 32);
    BitsSnoc(c, 32);
    NothingLeft(c);
    assert BitsOf(c, 33)[1..] == BitsOf(Shr1(c), 32);
    assert (BitsOf(c, 32) + [false])[1..] == BitsOf(c, 32)[1..] + [false];
  }

  // ---- the constant ----

  function LowBits(c: bv32): Poly
  {
    [c & 1 == 1, c & 2 == 2, c & 4 == 4, c & 8 == 8, c & 16 == 16, c & 32 == 32, c & 64 == 64, c & 128 == 128]
  }

  lemma EightOdds(c: bv32)
    ensures var c1 := Shr1(c); var c2 := Shr1(c1); var c3 := Shr1(c2); var c4 := Shr1(c3); var c5 := Shr1(c4);
      var c6 := Shr1(c5); var c7 := Shr1(c6);
      LowBits(c) == [IsOdd(c), IsOdd(c1), IsOdd(c2), IsOdd(c3), IsOdd(c4), IsOdd(c5), IsOdd(c6), IsOdd(c7)]
  {
  }

  lemma FourCons(a: bool, b: bool, c: bool, d: bool, rest: Poly)
    ensures [a] + ([b] + ([c] + ([d] + rest))) == [a, b, c, d] + rest
  {
  }

  lemma FourBits(c: bv32, n: nat)
    ensures var c1 := Shr1(c); var c2 := Shr1(c1); var c3 := Shr1(c2);
      BitsOf(c, n + 4) == [IsOdd(c), IsOdd(c1), IsOdd(c2), IsOdd(c3)] + BitsOf(Shr1(c3), n)
  {
    hide *;
    var c1 := Shr1(c);
    var c2 := Shr1(c1);
    var c3 := Shr1(c2);
    BitsUnfold(c, n + 4);
    BitsUnfold(c1, n + 3);
    BitsUnfold(c2, n + 2);
    BitsUnfold(c3, n + 1);
    FourCons(IsOdd(c), IsOdd(c1), IsOdd(c2), IsOdd(c3), BitsOf(Shr1(c3), n));
  }

  lemma EightBits(c: bv32, n: nat)
    ensures BitsOf(c, n + 8) == LowBits(c) + BitsOf(Shr8(c), n)
  {
    hide *;
    EightOdds(c);
    ShiftFacts(c);
    var c4 := Shr1(Shr1(Shr1(Shr1(c))));
    FourBits(c, n + 4);
    FourBits(c4, n);
  }

  lemma PolyBytes()
    ensures Shr8(POLY) == 0x82F63B && Shr8(0x82F63B) == 0x82F6 && Shr8(0x82F6) == 0x82
    ensures LowBits(POLY) == [false, false, false, true, true, true, true, false]
    ensures LowBits(0x82F63B) == [true, true, false, true, true, true, false, false]
    ensures LowBits(0x82F6) == [false, true, true, false, true, true, true, true]
    ensures LowBits(0x82) == [false, true, false, false, false, false, false, true]
  {
  }

  /** The constant in the code is the generator, bit-reversed. */
  lemma PolyIsGenerator()
    ensures BitsOf(POLY, 32) == Generator()
  {
    PolyBytes();
    EightBits(POLY, 24);
    EightBits(0x82F63B, 16);
    EightBits(0x82F6, 8);
    EightBits(0x82, 0);
    assert BitsOf(Shr8(0x82), 0) == [];
    hide BitsOf, LowBits, Shr8;
    assert Generator() == [false, false, false, true, true, true, true, false] +
      [true, true, false, true, true, true, false, false] + [false, true, true, false, true, true, true, true] +
      [false, true, false, false, false, false, false, true];
  }

  // ---- the register as the running remainder ----

  function BitWord(b: bool): bv32
  {
    if b then 1 else 0
  }

  function FeedSeq(c: bv32, p: Poly): bv32
    decreases |p|
  {
    if p == [] then c else FeedSeq(BitStep(Xor(c, BitWord(p[0]))), p[1..])
  }

  lemma FeedSeqUnfold(c: bv32, p: Poly)
    ensures FeedSeq(c, p) == if p == [] then c else FeedSeq(BitStep(Xor(c, BitWord(p[0]))), p[1..])
  {
  }

  lemma LowBitWord(m: bv32)
    ensures LowBit(m) == BitWord(IsOdd(m))
  {
  }

  lemma {:induction false} FeedBitsIsSeq(c: bv32, m: bv32, n: nat)
    ensures FeedBits(c, m, n) == FeedSeq(c, BitsOf(m, n))
    decreases n
  {
    hide *;
    FeedUnfold(c, m, n);
    BitsUnfold(m, n);
    FeedSeqUnfold(c, BitsOf(m, n));
    if n > 0 {
      LowBitWord(m);
      assert BitsOf(m, n)[1..] == BitsOf(Shr1(m), n - 1);
      FeedBitsIsSeq(BitStep(Xor(c, LowBit(m))), Shr1(m), n - 1);
    }
  }

  lemma {:induction false} FeedSeqConcat(c: bv32, p: Poly, q: Poly)
    ensures FeedSeq(c, p + q) == FeedSeq(FeedSeq(c, p), q)
    decreases |p|
  {
    hide *;
    FeedSeqUnfold(c, p);
    FeedSeqUnfold(c, p + q);
    if p == [] {
      assert p + q == q;
    } else {
      assert (p + q)[1..] == p[1..] + q;
      FeedSeqConcat(BitStep(Xor(c, BitWord(p[0]))), p[1..], q);
    }
  }

  lemma MessageUnfold(c: bv32, data: ByteString)
    ensures data == [] ==> FeedBytes(c, data) == c && MessageBits(data) == []
    ensures data != [] ==>
      && FeedBytes(c, data) == FeedBytes(FeedBits(c, Word(data[0] as bv8), 8), data[1..])
      && MessageBits(data) == BitsOf(Word(data[0] as bv8), 8) + MessageBits(data[1..])
  {
    hide FeedBits, Word, BitsOf;
  }

  lemma {:induction false} FeedBytesIsSeq(c: bv32, data: ByteString)
    ensures FeedBytes(c, data) == FeedSeq(c, MessageBits(data))
    decreases |data|
  {
    hide *;
    MessageUnfold(c, data);
    if data == [] {
      FeedSeqUnfold(c, []);
    } else {
      var m := Word(data[0] as bv8);
      FeedBitsIsSeq(c, m, 8);
      FeedBytesIsSeq(FeedBits(c, m, 8), data[1..]);
      FeedSeqConcat(c, BitsOf(m, 8), MessageBits(data[1..]));
    }
  }

  lemma StepWords(x: bv32)
    ensures BitStep(x) == if IsOdd(x) then Xor(Shr1(x), POLY) else Shr1(x)
  {
  }

  /** One register step: multiply by x, and cancel the leading coefficient with the generator. */
  lemma StepBits(x: bv32)
    ensures var shifted := BitsOf(x, 32)[1..] + [false];
      BitsOf(BitStep(x), 32) == if BitsOf(x, 32)[0] then Sum(shifted, Generator()) else shifted
  {
    hide *;
    StepWords(x);
    ShiftBits(x);
    XorBits(Shr1(x), POLY, 32);
    PolyIsGenerator();
  }

  lemma BitWordBits(b: bool)
    ensures IsOdd(BitWord(b)) == b && Shr1(BitWord(b)) == 0
  {
  }

  lemma {:induction false} ZeroBits(n: nat)
    ensures BitsOf(0, n) == Zeros(n)
  {
    if n > 0 {
      ZeroBits(n - 1);
    }
  }

  /** Adding a message bit changes the leading coefficient only. */
  lemma FrontBit(c: bv32, b: bool)
    ensures BitsOf(Xor(c, BitWord(b)), 32) == [BitsOf(c, 32)[0] != b] + BitsOf(c, 32)[1..]
  {
    hide *;
    BitWordBits(b);
    BitsUnfold(BitWord(b), 32);
    ZeroBits(31);
    XorBits(c, BitWord(b), 32);
    assert BitsOf(BitWord(b), 32) == [b] + Zeros(31);
  }

  lemma DivideUnfold(p: Poly)
    requires |p| >= 32
    ensures |p| == 32 ==> Remainder(p) == p
    ensures |p| > 32 ==> Remainder(p) == Remainder(if p[0] then SumFront(Generator(), p[1..]) else p[1..])
  {
    hide Generator, SumFront;
  }

  /** One division step on the message with the register added in front is one register step. */
  lemma DivideStep(r: Poly, r': Poly, g: Poly, q: Poly)
    requires |r| == |r'| == |g| == 32 && |q| > 32
    requires var x := [r[0] != q[0]] + r[1..]; var shifted := x[1..] + [false];
      r' == if x[0] then Sum(shifted, g) else shifted
    ensures var p := SumFront(r, q);
      SumFront(r', q[1..]) == if p[0] then SumFront(g, p[1..]) else p[1..]
  {
    hide Sum, SumFront;
  }

  /** Feeding a message leaves the remainder of the message times x^32, with the register added in front. */
  lemma {:induction false} FeedIsRemainder(c: bv32, p: Poly)
    ensures BitsOf(FeedSeq(c, p), 32) == Remainder(SumFront(BitsOf(c, 32), p + Zeros(32)))
    decreases |p|
  {
    hide *;
    FeedSeqUnfold(c, p);
    var q := p + Zeros(32);
    DivideUnfold(SumFront(BitsOf(c, 32), q));
    if p == [] {
      assert SumFront(BitsOf(c, 32), q) == BitsOf(c, 32);
    } else {
      var x := Xor(c, BitWord(p[0]));
      var r := BitsOf(c, 32);
      FrontBit(c, p[0]);
      StepBits(x);
      DivideStep(r, BitsOf(BitStep(x), 32), Generator(), q);
      assert q[1..] == p[1..] + Zeros(32);
      FeedIsRemainder(BitStep(x), p[1..]);
    }
  }

  lemma AllOnesWord()
    ensures Shr8(0xFFFF_FFFF) == 0xFF_FFFF && Shr8(0xFF_FFFF) == 0xFFFF && Shr8(0xFFFF) == 0xFF
    ensures LowBits(0xFFFF_FFFF) == LowBits(0xFF_FFFF) == LowBits(0xFFFF) == LowBits(0xFF)
    ensures LowBits(0xFF) == [true, true, true, true, true, true, true, true]
  {
  }

  lemma AllOnesBits()
    ensures BitsOf(0xFFFF_FFFF, 32) == Ones(32)
  {
    hide *;
    AllOnesWord();
    EightBits(0xFFFF_FFFF, 24);
    EightBits(0xFF_FFFF, 16);
    EightBits(0xFFFF, 8);
    EightBits(0xFF, 0);
    BitsUnfold(Shr8(0xFF), 0);
  }

  /**
   The CRC is the remainder, by the Castagnoli polynomial, of the message bits times x^32 with the first 32
   coefficients inverted; the remainder is inverted in turn.
   */
  lemma CrcIsRemainder(data: ByteString)
    ensures BitsOf(BitwiseCrc(data), 32) ==
      Sum(Remainder(SumFront(Ones(32), MessageBits(data) + Zeros(32))), Ones(32))
  {
    hide FeedBytes, BitsOf, Remainder, SumFront, MessageBits, Sum, Ones, Zeros;
    AllOnesBits();
    FeedBytesIsSeq(0xFFFF_FFFF, data);
    FeedIsRemainder(0xFFFF_FFFF, MessageBits(data));
    XorBits(FeedBytes(0xFFFF_FFFF, data), 0xFFFF_FFFF, 32);
  }

  // ---- the check value ----

  function EightSteps(x: bv32): bv32
  {
    BitStep(BitStep(BitStep(BitStep(BitStep(BitStep(BitStep(BitStep(x))))))))
  }

  lemma FeedEight(c: bv32, b: bv8)
    ensures FeedBits(c, Word(b), 8) == EightSteps(c ^ (b as bv32))
  {
    var x := Xor(c, Word(b));
    hide BitStep, FeedBits, Steps, Shr8, Rest;
    FeedIsSteps(c, Word(b), 8);
    RestEight(Word(b));
    ByteFacts(c, b);
    ByteFacts(FeedBits(c, Word(b), 8), b);
    StepsUnfold(x, 8);
    StepsUnfold(BitStep(x), 7);
    StepsUnfold(BitStep(BitStep(x)), 6);
    StepsUnfold(BitStep(BitStep(BitStep(x))), 5);
    StepsUnfold(BitStep(BitStep(BitStep(BitStep(x)))), 4);
    StepsUnfold(BitStep(BitStep(BitStep(BitStep(BitStep(x))))), 3);
    StepsUnfold(BitStep(BitStep(BitStep(BitStep(BitStep(BitStep(x)))))), 2);
    StepsUnfold(BitStep(BitStep(BitStep(BitStep(BitStep(BitStep(BitStep(x))))))), 1);
    StepsUnfold(EightSteps(x), 0);
  }

  lemma DigitSteps()
    ensures EightSteps(0xFFFF_FFFF ^ 0x31) == 0x6F0A_661C
    ensures EightSteps(0x6F0A_661C ^ 0x32) == 0x8CAA_3B9F
    ensures EightSteps(0x8CAA_3B9F ^ 0x33) == 0xEF84_D04D
    ensures EightSteps(0xEF84_D04D ^ 0x34) == 0x09C5_0B11
    ensures EightSteps(0x09C5_0B11 ^ 0x35) == 0xE72E_DCCA
    ensures EightSteps(0xE72E_DCCA ^ 0x36) == 0xBECA_8E79
    ensures EightSteps(0xBECA_8E79 ^ 0x37) == 0xEDBD_6815
    ensures EightSteps(0xEDBD_6815 ^ 0x38) == 0x9F78_7F65
    ensures EightSteps(0x9F78_7F65 ^ 0x39) == 0x1CF9_6D7C
  {
  }

  lemma DigitWords()
    ensures Word(49 as bv8) == 0x31
    ensures Word(50 as bv8) == 0x32
    ensures Word(51 as bv8) == 0x33
    ensures Word(52 as bv8) == 0x34
    ensures Word(53 as bv8) == 0x35
    ensures Word(54 as bv8) == 0x36
    ensures Word(55 as bv8) == 0x37
    ensures Word(56 as bv8) == 0x38
    ensures Word(57 as bv8) == 0x39
  {
  }

  lemma FeedOne(c: bv32, b: Byte, w: bv32, rest: ByteString, c': bv32)
    requires Word(b as bv8) == w && EightSteps(c ^ w) == c'
    ensures FeedBytes(c, [b] + rest) == FeedBytes(c', rest)
  {
    hide FeedBits, EightSteps, BitStep;
    FeedEight(c, b as bv8);
    assert ([b] + rest)[1..] == rest;
  }

  lemma FirstDigits(rest: ByteString)
    ensures FeedBytes(0xFFFF_FFFF, [49, 50, 51] + rest) == FeedBytes(0xEF84_D04D, rest)
  {
    hide *;
    DigitSteps();
    DigitWords();
    FeedOne(0xFFFF_FFFF, 49, 0x31, [50, 51] + rest, 0x6F0A_661C);
    FeedOne(0x6F0A_661C, 50, 0x32, [51] + rest, 0x8CAA_3B9F);
    FeedOne(0x8CAA_3B9F, 51, 0x33, rest, 0xEF84_D04D);
    assert [49, 50, 51] + rest == [49] + ([50, 51] + rest);
    assert [50, 51] + rest == [50] + ([51] + rest);
  }

  lemma MiddleDigits(rest: ByteString)
    ensures FeedBytes(0xEF84_D04D, [52, 53, 54] + rest) == FeedBytes(0xBECA_8E79, rest)
  {
    hide *;
    DigitSteps();
    DigitWords();
    FeedOne(0xEF84_D04D, 52, 0x34, [53, 54] + rest, 0x09C5_0B11);
    FeedOne(0x09C5_0B11, 53, 0x35, [54] + rest, 0xE72E_DCCA);
    FeedOne(0xE72E_DCCA, 54, 0x36, rest, 0xBECA_8E79);
    assert [52, 53, 54] + rest == [52] + ([53, 54] + rest);
    assert [53, 54] + rest == [53] + ([54] + rest);
  }

  lemma LastDigits(rest: ByteString)
    ensures FeedBytes(0xBECA_8E79, [55, 56, 57] + rest) == FeedBytes(0x1CF9_6D7C, rest)
  {
    hide *;
    DigitSteps();
    DigitWords();
    FeedOne(0xBECA_8E79, 55, 0x37, [56, 57] + rest, 0xEDBD_6815);
    FeedOne(0xEDBD_6815, 56, 0x38, [57] + rest, 0x9F78_7F65);
    FeedOne(0x9F78_7F65, 57, 0x39, rest, 0x1CF9_6D7C);
    assert [55, 56, 57] + rest == [55] + ([56, 57] + rest);
    assert [56, 57] + rest == [56] + ([57] + rest);
  }

  lemma NothingFed(c: bv32)
    ensures FeedBytes(c, []) == c
  {
  }

  /** The check value of CRC-32C: the checksum of the nine digits "123456789". */
  lemma CheckValue()
    ensures BitwiseCrc([49, 50, 51, 52, 53, 54, 55, 56, 57]) == 0xE306_9283
  {
    hide FeedBytes, EightSteps, BitStep;
    var middle, last: ByteString := [52, 53, 54, 55, 56, 57], [55, 56, 57];
    FirstDigits(middle);
    MiddleDigits(last);
    LastDigits([]);
    assert [49, 50, 51] + middle == [49, 50, 51, 52, 53, 54, 55, 56, 57];
    assert [52, 53, 54] + last == middle && last + [] == last;
    NothingFed(0x1CF9_6D7C);
  }
}

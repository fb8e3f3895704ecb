/** Bit packing for SSZ bitfields (src/lean_spec/spec/ssz/bitfields.py). */
module Bits {
  import opened Bytes

  /** sum(1 << i for i, bit in enumerate(bits) if bit). */
  function PackBits(bits: seq<bool>): nat
  {
    if bits == [] then 0 else (if bits[0] then 1 else 0) + 2 * PackBits(bits[1..])
  }

  /** (b >> j) & 1. */
  predicate ByteBit(b: Byte, j: nat)
  {
    b / Pow2(j) % 2 == 1
  }

  predicate BitAt(data: ByteString, i: nat)
    requires i / 8 < |data|
  {
    ByteBit(data[i / 8], i % 8)
  }

  function ExtractBits(data: ByteString, n: nat): (bits: seq<bool>)
    requires n <= 8 * |data|
  {
    seq(n, i requires 0 <= i < n => BitAt(data, i))
  }

  /** Python's int.bit_length. */
  function BitLength(x: nat): nat
  {
    if x == 0 then 0 else 1 + BitLength(x / 2)
  }

  function BytesForBits(n: nat): nat
  {
    (n + 7) / 8
  }

  function EncodeBitvector(bits: seq<bool>): (s: ByteString)
    ensures |s| == BytesForBits(|bits|)
  {
    ToLE(PackBits(bits), BytesForBits(|bits|))
  }

  /** Fails on a wrong byte count or on a set padding bit in the last byte. */
  function DecodeBitvector(n: nat, data: ByteString): Option<seq<bool>>
  {
    if |data| != BytesForBits(n) then None
    else if n % 8 != 0 && data[|data| - 1] / Pow2(n % 8) != 0 then None
    else Some(ExtractBits(data, n))
  }

  /** Data bits, then one delimiter bit just past them. */
  function EncodeBitlist(bits: seq<bool>): (s: ByteString)
    ensures |s| == BytesForBits(|bits| + 1)
  {
    if |bits| == 0 then [1]
    else ToLE(PackBits(bits) + Pow2(|bits|), BytesForBits(|bits| + 1))
  }

  /** Fails on empty input, a missing delimiter, trailing zero bytes, or too many bits. */
  function DecodeBitlist(limit: nat, data: ByteString): Option<seq<bool>>
  {
    if |data| == 0 then None
    else
      var packed := FromLE(data);
      if packed == 0 then None
      else
        var delimiter := BitLength(packed) - 1;
        if delimiter / 8 != |data| - 1 then None
        else if delimiter > limit then None
        else Some(ExtractBits(data, delimiter))
  }

  // ---- bits of an integer ----

  /** Bit i of x, by repeated halving. */
  predicate NatBit(x: nat, i: nat)
  {
    if i == 0 then x % 2 == 1 else NatBit(x / 2, i - 1)
  }

  function LowBits(x: nat, n: nat): (bits: seq<bool>)
    ensures |bits| == n
  {
    if n == 0 then [] else [x % 2 == 1] + LowBits(x / 2, n - 1)
  }

  /** x >> n. */
  function High(x: nat, n: nat): nat
  {
    if n == 0 then x else High(x / 2, n - 1)
  }

  lemma {:induction false} LowBitsAt(x: nat, n: nat, i: nat)
    requires i < n
    ensures LowBits(x, n)[i] == NatBit(x, i)
  {
    if i > 0 {
      LowBitsAt(x / 2, n - 1, i - 1);
    }
  }

  lemma {:induction false} SplitAt(x: nat, n: nat)
    ensures x == PackBits(LowBits(x, n)) + Pow2(n) * High(x, n)
  {
    if n > 0 {
      SplitAt(x / 2, n - 1);
      assert LowBits(x, n)[1..] == LowBits(x / 2, n - 1);
      MulTwice(Pow2(n - 1), High(x / 2, n - 1));
    }
  }

  lemma {:induction false} PackBound(bits: seq<bool>)
    ensures PackBits(bits) < Pow2(|bits|)
  {
    if bits != [] {
      PackBound(bits[1..]);
    }
  }

  /** Adding anything above bit n leaves the low n bits alone. */
  lemma {:induction false} LowBitsOfPack(bits: seq<bool>, above: nat)
    ensures LowBits(PackBits(bits) + Pow2(|bits|) * above, |bits|) == bits
  {
    if bits != [] {
      var x := PackBits(bits) + Pow2(|bits|) * above;
      var m := Pow2(|bits| - 1) * above;
      MulTwice(Pow2(|bits| - 1), above);
      assert x / 2 == PackBits(bits[1..]) + m;
      LowBitsOfPack(bits[1..], above);
      assert bits == [bits[0]] + bits[1..];
    }
  }

  lemma {:induction false} BitLengthBounds(x: nat)
    requires x > 0
    ensures BitLength(x) > 0 && Pow2(BitLength(x) - 1) <= x < Pow2(BitLength(x))
  {
    if x > 1 {
      BitLengthBounds(x / 2);
    }
  }

  lemma {:induction false} BitLengthUnique(x: nat, k: nat)
    requires Pow2(k) <= x < Pow2(k + 1)
    ensures BitLength(x) == k + 1
  {
    hide *;
    BitLengthBounds(x);
    var b := BitLength(x);
    if b < k + 1 {
      Pow2Monotone(b, k);
    } else if b > k + 1 {
      Pow2Monotone(k + 1, b - 1);
    }
  }

  // ---- bits of a byte string are the bits of its little-endian value ----

  lemma {:induction false} ShiftIsNatBit(x: nat, j: nat)
    ensures (x / Pow2(j) % 2 == 1) == NatBit(x, j)
  {
    if j > 0 {
      ShiftIsNatBit(x / 2, j - 1);
      DivTwice(x, Pow2(j - 1));
    }
  }

  lemma DivTwice(x: nat, p: nat)
    requires p > 0
    ensures x / (2 * p) == x / 2 / p
  {
    var q := x / 2 / p;
    var r := x / 2 % p;
    assert x / 2 == q * p + r;
    assert x == q * (2 * p) + (2 * r + x % 2);
    assert 0 <= 2 * r + x % 2 < 2 * p;
    DivUnique(x, 2 * p, q, 2 * r + x % 2);
  }

  lemma {:induction false} NatBitLow(b: nat, k: nat, above: nat, i: nat)
    requires i < k
    ensures NatBit(b + Pow2(k) * above, i) == NatBit(b, i)
  {
    var m := Pow2(k - 1) * above;
    MulTwice(Pow2(k - 1), above);
    assert (b + 2 * m) / 2 == b / 2 + m;
    if i > 0 {
      NatBitLow(b / 2, k - 1, above, i - 1);
    }
  }

  lemma {:induction false} NatBitHigh(x: nat, k: nat, i: nat)
    ensures NatBit(x, k + i) == NatBit(High(x, k), i)
  {
    if k > 0 {
      NatBitHigh(x / 2, k - 1, i);
    }
  }

  lemma HighEight(b: Byte, rest: nat)
    ensures High(b + 256 * rest, 8) == rest
  {
    SplitAt(b + 256 * rest, 8);
    PackBound(LowBits(b + 256 * rest, 8));
    Pow2Eight(0);
  }

  lemma {:induction false} BitAtIsNatBit(data: ByteString, i: nat)
    requires i / 8 < |data|
    ensures BitAt(data, i) == NatBit(FromLE(data), i)
  {
    hide ByteBit, NatBit, Pow2;
    var rest := FromLE(data[1..]);
    Pow2Eight(0);
    if i < 8 {
      assert ByteBit(data[0], i) == NatBit(data[0], i) by {
        ByteBitIsNatBit(data[0], i);
      }
      NatBitLow(data[0], 8, rest, i);
    } else {
      BitAtIsNatBit(data[1..], i - 8);
      HighEight(data[0], rest);
      NatBitHigh(FromLE(data), 8, i - 8);
      assert data[i / 8] == data[1..][(i - 8) / 8];
    }
  }

  lemma ByteBitIsNatBit(b: Byte, j: nat)
    ensures ByteBit(b, j) == NatBit(b, j)
  {
    hide NatBit;
    ShiftIsNatBit(b, j);
  }

  lemma ExtractIsLowBits(data: ByteString, n: nat)
    requires n <= 8 * |data|
    ensures ExtractBits(data, n) == LowBits(FromLE(data), n)
  {
    forall i | 0 <= i < n
      ensures ExtractBits(data, n)[i] == LowBits(FromLE(data), n)[i]
    {
      BitAtIsNatBit(data, i);
      LowBitsAt(FromLE(data), n, i);
    }
  }

  lemma {:induction false} Pow256IsPow2(k: nat)
    ensures Pow256(k) == Pow2(8 * k)
  {
    if k > 0 {
      Pow256IsPow2(k - 1);
      Pow2Eight(8 * (k - 1));
    }
  }

  /** The padding check of the last byte decides exactly whether the value fits in n bits. */
  lemma {:induction false} PaddingIsBound(data: ByteString, n: nat)
    requires n > 0 && |data| == BytesForBits(n)
    ensures FromLE(data) < Pow2(n) <==> (n % 8 != 0 ==> data[|data| - 1] / Pow2(n % 8) == 0)
  {
    if n <= 8 {
      OneByte(data);
      Pow2Eight(0);
      if n < 8 {
        QuotientZero(data[0], Pow2(n));
      }
    } else {
      PaddingStep(data, n);
      PaddingIsBound(data[1..], n - 8);
    }
  }

  lemma PaddingStep(data: ByteString, n: nat)
    requires n > 8 && |data| == BytesForBits(n)
    ensures |data[1..]| == BytesForBits(n - 8) && (n - 8) % 8 == n % 8
    ensures data[1..][|data[1..]| - 1] == data[|data| - 1]
    ensures FromLE(data) < Pow2(n) <==> FromLE(data[1..]) < Pow2(n - 8)
  {
    hide Pow2;
    Pow2Eight(n - 8);
  }

  lemma OneByte(data: ByteString)
    requires |data| == 1
    ensures FromLE(data) == data[0]
  {
    assert FromLE(data[1..]) == 0;
  }

  // ---- the four codec laws ----

  lemma BitvectorRoundTrip(bits: seq<bool>)
    ensures DecodeBitvector(|bits|, EncodeBitvector(bits)) == Some(bits)
  {
    var n := |bits|;
    var w := BytesForBits(n);
    var s := EncodeBitvector(bits);
    hide Pow2, Pow256, FromLE, ToLE;
    PackBound(bits);
    FitsBytes(n, w);
    FromToLE(PackBits(bits), w);
    if n > 0 {
      PaddingIsBound(s, n);
    }
    ExtractIsLowBits(s, n);
    LowBitsOfPack(bits, 0);
  }

  lemma BitvectorCanonical(n: nat, data: ByteString)
    requires DecodeBitvector(n, data).Some?
    ensures |DecodeBitvector(n, data).value| == n
    ensures EncodeBitvector(DecodeBitvector(n, data).value) == data
  {
    if n > 0 {
      PaddingIsBound(data, n);
    }
    assert PackBits(ExtractBits(data, n)) == FromLE(data) by {
      BytesForBitsBound(n);
      ExtractIsLowBits(data, n);
      PackLowBits(FromLE(data), n);
    }
    ToFromLE(data);
  }

  lemma PackLowBits(x: nat, n: nat)
    requires x < Pow2(n)
    ensures PackBits(LowBits(x, n)) == x
  {
    hide *;
    SplitAt(x, n);
    HighZero(x, n);
  }

  lemma HighZero(x: nat, n: nat)
    requires x < Pow2(n)
    ensures High(x, n) == 0
  {
    SplitAt(x, n);
    MulSign(High(x, n), Pow2(n));
  }

  lemma HighOne(x: nat, n: nat)
    requires Pow2(n) <= x < 2 * Pow2(n)
    ensures High(x, n) == 1
  {
    SplitAt(x, n);
    PackBound(LowBits(x, n));
    MulSign(High(x, n), Pow2(n));
  }

  lemma BitlistRoundTrip(limit: nat, bits: seq<bool>)
    requires |bits| <= limit
    ensures DecodeBitlist(limit, EncodeBitlist(bits)) == Some(bits)
  {
    var n := |bits|;
    var s := EncodeBitlist(bits);
    var x := PackBits(bits) + Pow2(n);
    hide EncodeBitlist, PackBits, Pow2, FromLE, BitLength, ExtractBits, LowBits;
    EncodeBitlistValue(bits);
    DelimitedBound(bits);
    BitLengthUnique(x, n);
    ExtractIsLowBits(s, n);
    LowBitsOfPack(bits, 1);
  }

  lemma FitsBytes(n: nat, w: nat)
    requires n <= 8 * w
    ensures Pow2(n) <= Pow256(w)
  {
    hide *;
    Pow256IsPow2(w);
    Pow2Monotone(n, 8 * w);
  }

  lemma DelimitedBound(bits: seq<bool>)
    ensures Pow2(|bits|) <= PackBits(bits) + Pow2(|bits|) < Pow2(|bits| + 1)
  {
    PackBound(bits);
    assert Pow2(|bits| + 1) == 2 * Pow2(|bits|);
  }

  lemma EncodeBitlistValue(bits: seq<bool>)
    ensures FromLE(EncodeBitlist(bits)) == PackBits(bits) + Pow2(|bits|)
  {
    hide FromLE, ToLE;
    if bits == [] {
      OneByte([1]);
    } else {
      DelimitedFits(bits);
    }
  }

  lemma DelimitedFits(bits: seq<bool>)
    ensures var x := PackBits(bits) + Pow2(|bits|); FromLE(ToLE(x, BytesForBits(|bits| + 1))) == x
  {
    hide *;
    var w := BytesForBits(|bits| + 1);
    DelimitedBound(bits);
    BytesForBitsBound(|bits| + 1);
    FitsBytes(|bits| + 1, w);
    FromToLE(PackBits(bits) + Pow2(|bits|), w);
  }

  lemma BytesForBitsBound(n: nat)
    ensures n <= 8 * BytesForBits(n)
  {
  }

  lemma BitlistDecoded(limit: nat, data: ByteString)
    requires DecodeBitlist(limit, data).Some?
    ensures FromLE(data) > 0 && BitLength(FromLE(data)) > 0
    ensures var d := BitLength(FromLE(data)) - 1;
      && |data| == BytesForBits(d + 1) && d <= 8 * |data| && d <= limit
      && DecodeBitlist(limit, data).value == ExtractBits(data, d)
  {
    hide ExtractBits, FromLE;
  }

  lemma BitlistEncoded(bits: seq<bool>, data: ByteString)
    requires FromLE(data) == PackBits(bits) + Pow2(|bits|) && |data| == BytesForBits(|bits| + 1)
    ensures EncodeBitlist(bits) == data
  {
    hide FromLE, ToLE;
    ToFromLE(data);
    if bits == [] {
      OneByte(data);
    }
  }

  lemma PowerDoubles(n: nat)
    ensures Pow2(n + 1) == 2 * Pow2(n)
  {
  }

  lemma BitlistCanonical(limit: nat, data: ByteString)
    requires DecodeBitlist(limit, data).Some?
    ensures |DecodeBitlist(limit, data).value| <= limit
    ensures EncodeBitlist(DecodeBitlist(limit, data).value) == data
  {
    hide *;
    BitlistDecoded(limit, data);
    var x := FromLE(data);
    var d := BitLength(x) - 1;
    BitLengthBounds(x);
    PowerDoubles(d);
    ExtractIsLowBits(data, d);
    SplitAt(x, d);
    HighOne(x, d);
    BitlistEncoded(LowBits(x, d), data);
  }
}

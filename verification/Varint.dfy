/** Unsigned LEB128 varints (src/lean_spec/node/networking/varint.py). */
module Varint {
  import opened Bytes

  datatype VarintError = TooLarge | Truncated | TooLong

  type VarintResult<+T> = Result<T, VarintError>

  datatype Decoded = Decoded(value: nat, consumed: nat)

  function Pow128(k: nat): (p: nat)
    ensures p > 0
  {
    if k == 0 then 1 else 128 * Pow128(k - 1)
  }

  /** Seven bits a byte, low group first, continuation bit on all but the last. */
  function Groups(value: nat): (s: ByteString)
    ensures |s| > 0
  {
    if value < 0x80 then [value] else [value % 128 + 128] + Groups(value / 128)
  }

  /** value >> (7 * maxBytes). */
  function Excess(value: nat, maxBytes: nat): int
  {
    value / Pow128(maxBytes)
  }

  function Encode(value: nat, maxBytes: nat): (r: VarintResult<ByteString>)
  {
    if Excess(value, maxBytes) != 0 then Err(TooLarge) else Ok(Groups(value))
  }

  /** Decoding of s when `taken` bytes have been read before it. */
  function DecodeFrom(s: ByteString, taken: nat, maxBytes: nat): (r: VarintResult<Decoded>)
    ensures r.Ok? ==> 0 < r.value.consumed <= |s|
  {
    if s == [] then Err(Truncated)
    else if s[0] < 128 then Ok(Decoded(s[0], 1))
    else if taken + 1 >= maxBytes then Err(TooLong)
    else
      match DecodeFrom(s[1..], taken + 1, maxBytes)
      case Err(e) => Err(e)
      case Ok(rest) => Ok(Decoded(s[0] - 128 + 128 * rest.value, 1 + rest.consumed))
  }

  function Decode(s: ByteString, maxBytes: nat): (r: VarintResult<Decoded>)
    ensures r.Ok? ==> 0 < r.value.consumed <= |s|
  {
    DecodeFrom(s, 0, maxBytes)
  }

  // ---- the source's loops ----

  /** encode_varint. */
  method EncodeVarint(value: nat, maxBytes: nat) returns (r: VarintResult<ByteString>)
    ensures r == Encode(value, maxBytes)
  {
    hide Excess;
    if Excess(value, maxBytes) != 0 {
      return Err(TooLarge);
    }
    var encoded: ByteString := [];
    var left := value;
    while left >= 0x80
      invariant Groups(value) == encoded + Groups(left)
    {
      encoded := encoded + [left % 128 + 128];
      left := left / 128;
    }
    return Ok(encoded + [left]);
  }

  /** x << (7 * groups). */
  function ShiftLeft(x: nat, groups: nat): nat
  {
    x * Pow128(groups)
  }

  /** What a finished decode of the rest contributes once `taken` groups are accumulated. */
  function Resume(acc: nat, taken: nat, rest: VarintResult<Decoded>): VarintResult<Decoded>
  {
    match rest
    case Err(e) => Err(e)
    case Ok(d) => Ok(Decoded(acc + ShiftLeft(d.value, taken), taken + d.consumed))
  }

  lemma MulAssoc(v: nat, c: nat, p: nat)
    ensures v * (c * p) == (c * v) * p
  {
  }

  lemma MulAdd(a: nat, b: nat, p: nat)
    ensures (a + b) * p == a * p + b * p
  {
  }

  lemma ResumeStart(rest: VarintResult<Decoded>)
    ensures Resume(0, 0, rest) == rest
  {
  }

  lemma ResumeStep(acc: nat, taken: nat, b: Byte, rest: VarintResult<Decoded>)
    requires b >= 128
    ensures Resume(acc + ShiftLeft(b - 128, taken), taken + 1, rest) ==
            Resume(acc, taken, match rest
                               case Err(e) => Err(e)
                               case Ok(d) => Ok(Decoded(b - 128 + 128 * d.value, 1 + d.consumed)))
  {
    if rest.Ok? {
      var p, v := Pow128(taken), rest.value.value;
      calc {
        ShiftLeft(b - 128, taken) + ShiftLeft(v, taken + 1);
        (b - 128) * p + v * (128 * p);
        { MulAssoc(v, 128, p); }
        (b - 128) * p + (128 * v) * p;
        { MulAdd(b - 128, 128 * v, p); }
        (b - 128 + 128 * v) * p;
      }
    }
  }

  /** decode_varint: `shift` counts groups of seven bits, and the groups do not overlap, so `|=` is `+`. */
  method DecodeVarint(data: ByteString, offset: nat, maxBytes: nat) returns (r: VarintResult<Decoded>)
    requires offset <= |data|
    ensures r == Decode(data[offset..], maxBytes)
  {
    hide ShiftLeft;
    var value: nat, shift: nat, pos: nat := 0, 0, offset;
    ResumeStart(DecodeFrom(data[offset..], 0, maxBytes));
    while true
      invariant offset <= pos <= |data| && pos - offset == shift
      invariant Decode(data[offset..], maxBytes) == Resume(value, shift, DecodeFrom(data[pos..], shift, maxBytes))
      decreases |data| - pos
    {
      if pos >= |data| {
        return Err(Truncated);
      }
      var byte := data[pos];
      pos := pos + 1;
      if byte < 128 {
        value := value + ShiftLeft(byte, shift);
        return Ok(Decoded(value, pos - offset));
      }
      if pos - offset >= maxBytes {
        return Err(TooLong);
      }
      assert data[pos - 1..][1..] == data[pos..];
      ResumeStep(value, shift, byte, DecodeFrom(data[pos..], shift + 1, maxBytes));
      value := value + ShiftLeft(byte - 128, shift);
      shift := shift + 1;
    }
  }

  // ---- laws ----

  lemma {:induction false} Pow128Grows(a: nat, b: nat)
    requires a <= b
    ensures Pow128(a) <= Pow128(b)
    decreases b - a
  {
    if a < b {
      Pow128Grows(a, b - 1);
    }
  }

  lemma {:induction false} GroupsLength(value: nat, maxBytes: nat)
    requires value < Pow128(maxBytes) && maxBytes > 0
    ensures |Groups(value)| <= maxBytes
  {
    if value >= 0x80 {
      assert maxBytes > 1 by {
        assert Pow128(1) == 128;
      }
      GroupsLength(value / 128, maxBytes - 1);
    }
  }

  lemma EncodeAccepts(value: nat, maxBytes: nat)
    ensures Encode(value, maxBytes).Ok? <==> value < Pow128(maxBytes)
  {
    QuotientZero(value, Pow128(maxBytes));
  }

  lemma {:induction false} DecodeGroups(value: nat, taken: nat, maxBytes: nat, rest: ByteString)
    requires taken + |Groups(value)| <= maxBytes
    ensures DecodeFrom(Groups(value) + rest, taken, maxBytes) == Ok(Decoded(value, |Groups(value)|))
  {
    var s := Groups(value);
    if value >= 0x80 {
      DecodeGroups(value / 128, taken + 1, maxBytes, rest);
      assert (s + rest)[1..] == Groups(value / 128) + rest;
    }
  }

  /** An encoded value is read back, with its exact byte count, whatever follows it. */
  lemma RoundTrip(value: nat, maxBytes: nat, rest: ByteString)
    requires maxBytes > 0 && Encode(value, maxBytes).Ok?
    ensures var s := Encode(value, maxBytes).value;
      |s| <= maxBytes && Decode(s + rest, maxBytes) == Ok(Decoded(value, |s|))
  {
    EncodeAccepts(value, maxBytes);
    GroupsLength(value, maxBytes);
    DecodeGroups(value, 0, maxBytes, rest);
  }

  /** A proper prefix of an encoding is reported as truncated, never as another value. */
  lemma {:induction false} PrefixTruncated(value: nat, k: nat, taken: nat, maxBytes: nat)
    requires k < |Groups(value)| && taken + |Groups(value)| <= maxBytes
    ensures DecodeFrom(Groups(value)[..k], taken, maxBytes) == Err(Truncated)
  {
    if k > 0 {
      PrefixTruncated(value / 128, k - 1, taken + 1, maxBytes);
      assert Groups(value)[..k][1..] == Groups(value / 128)[..k - 1];
    }
  }

  /** A decode looks no further than the bytes it consumes. */
  lemma {:induction false} DecodeStable(s: ByteString, t: ByteString, taken: nat, maxBytes: nat)
    requires DecodeFrom(s, taken, maxBytes).Ok?
    ensures DecodeFrom(s + t, taken, maxBytes) == DecodeFrom(s, taken, maxBytes)
  {
    if s[0] >= 128 {
      DecodeStable(s[1..], t, taken + 1, maxBytes);
      assert (s + t)[1..] == s[1..] + t;
    }
  }

  lemma {:induction false} TooLongFrom(s: ByteString, taken: nat, maxBytes: nat)
    requires taken < maxBytes
    ensures DecodeFrom(s, taken, maxBytes) == Err(TooLong) <==>
            |s| >= maxBytes - taken && forall i | 0 <= i < maxBytes - taken :: s[i] >= 128
  {
    if s != [] && s[0] >= 128 && taken + 1 < maxBytes {
      TooLongFrom(s[1..], taken + 1, maxBytes);
      assert forall i | 1 <= i < |s| :: s[i] == s[1..][i - 1];
    }
  }

  /** Rejected as too long: exactly when the first maxBytes bytes all announce another. */
  lemma TooLongExactly(s: ByteString, maxBytes: nat)
    requires maxBytes > 0
    ensures Decode(s, maxBytes) == Err(TooLong) <==> |s| >= maxBytes && forall i | 0 <= i < maxBytes :: s[i] >= 128
  {
    TooLongFrom(s, 0, maxBytes);
  }

  /** A decoded value fits in the groups it was read from. */
  lemma {:induction false} DecodeBound(s: ByteString, taken: nat, maxBytes: nat)
    requires DecodeFrom(s, taken, maxBytes).Ok?
    ensures DecodeFrom(s, taken, maxBytes).value.value < Pow128(DecodeFrom(s, taken, maxBytes).value.consumed)
    ensures taken < maxBytes ==> taken + DecodeFrom(s, taken, maxBytes).value.consumed <= maxBytes
  {
    if s[0] >= 128 {
      DecodeBound(s[1..], taken + 1, maxBytes);
    } else {
      assert Pow128(1) == 128;
    }
  }

  lemma {:induction false} DecodeThenGroups(s: ByteString, taken: nat, maxBytes: nat)
    requires DecodeFrom(s, taken, maxBytes).Ok?
    ensures var d := DecodeFrom(s, taken, maxBytes).value;
      && (Groups(d.value) == s[..d.consumed] <==> d.consumed == 1 || s[d.consumed - 1] != 0)
      && (s[d.consumed - 1] != 0 ==> d.value > 0)
  {
    if s[0] >= 128 {
      DecodeThenGroups(s[1..], taken + 1, maxBytes);
      var d := DecodeFrom(s, taken, maxBytes).value;
      var rest := DecodeFrom(s[1..], taken + 1, maxBytes).value;
      assert s[..d.consumed] == [s[0]] + s[1..][..rest.consumed];
      if rest.value > 0 {
        GroupsStep(s[0], rest.value);
        assert ([s[0]] + Groups(rest.value))[1..] == Groups(rest.value);
        assert ([s[0]] + s[1..][..rest.consumed])[1..] == s[1..][..rest.consumed];
      }
    }
  }

  lemma GroupsStep(b: Byte, rest: nat)
    requires b >= 128 && rest > 0
    ensures Groups(b - 128 + 128 * rest) == [b] + Groups(rest)
  {
    var value := b - 128 + 128 * rest;
    assert value % 128 == b - 128 && value / 128 == rest;
  }

  /**
   A decoded value re-encodes, in no more bytes than it was read from, and to those very bytes exactly when
   the last of several is not zero: the decoder does accept padded encodings.
   */
  lemma Reencodes(s: ByteString, maxBytes: nat)
    requires maxBytes > 0 && Decode(s, maxBytes).Ok?
    ensures var d := Decode(s, maxBytes).value;
      && Encode(d.value, maxBytes).Ok?
      && |Encode(d.value, maxBytes).value| <= d.consumed
      && (Encode(d.value, maxBytes).value == s[..d.consumed] <==> d.consumed == 1 || s[d.consumed - 1] != 0)
  {
    hide DecodeFrom, Groups, Pow128;
    var d := Decode(s, maxBytes).value;
    DecodeBound(s, 0, maxBytes);
    Pow128Grows(d.consumed, maxBytes);
    EncodeAccepts(d.value, maxBytes);
    GroupsLength(d.value, d.consumed);
    DecodeThenGroups(s, 0, maxBytes);
  }

  /** Two bytes that decode to zero, whose encoding is one byte. */
  lemma PaddedAccepted()
    ensures Decode([0x80, 0x00], 10) == Ok(Decoded(0, 2)) && Encode(0, 10) == Ok([0x00])
  {
    var s: ByteString := [0x80, 0x00];
    assert s[1..] == [0x00];
    assert DecodeFrom(s[1..], 1, 10) == Ok(Decoded(0, 1));
    EncodeAccepts(0, 10);
  }

  /** Decoding fails in two ways only. */
  lemma {:induction false} DecodeErrors(s: ByteString, taken: nat, maxBytes: nat)
    ensures DecodeFrom(s, taken, maxBytes).Err? ==>
            DecodeFrom(s, taken, maxBytes) == Err(Truncated) || DecodeFrom(s, taken, maxBytes) == Err(TooLong)
  {
    if s != [] && s[0] >= 128 && taken + 1 < maxBytes {
      DecodeErrors(s[1..], taken + 1, maxBytes);
    }
  }

  /** One zero byte completes a truncated varint. */
  lemma {:induction false} ZeroCompletes(s: ByteString, taken: nat, maxBytes: nat)
    requires DecodeFrom(s, taken, maxBytes) == Err(Truncated)
    ensures DecodeFrom(s + [0], taken, maxBytes).Ok?
  {
    if s != [] {
      ZeroCompletes(s[1..], taken + 1, maxBytes);
      assert (s + [0])[1..] == s[1..] + [0];
    }
  }
}

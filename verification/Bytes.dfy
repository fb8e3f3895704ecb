/** Bytes, results, and the little-endian integer codec shared by every other module. */
module Bytes {
  type Byte = x: int | 0 <= x < 256

  type ByteString = seq<Byte>

  datatype Option<+T> = None | Some(value: T)

  datatype Result<+T, +E> = Ok(value: T) | Err(error: E)

  function Pow2(k: nat): (p: nat)
    ensures p > 0
  {
    if k == 0 then 1 else 2 * Pow2(k - 1)
  }

  function Pow256(k: nat): (p: nat)
    ensures p > 0
  {
    if k == 0 then 1 else 256 * Pow256(k - 1)
  }

  /** Little-endian value of a byte string: Python's int.from_bytes(s, "little"). */
  function FromLE(s: ByteString): (n: nat)
  {
    if s == [] then 0 else s[0] + 256 * FromLE(s[1..])
  }

  /** The low `width` bytes of n: Python's n.to_bytes(width, "little") whenever n fits. */
  function ToLE(n: nat, width: nat): (s: ByteString)
    ensures |s| == width
  {
    if width == 0 then [] else [n % 256] + ToLE(n / 256, width - 1)
  }

  lemma {:induction false} FromLEBound(s: ByteString)
    ensures FromLE(s) < Pow256(|s|)
  {
    if s != [] {
      FromLEBound(s[1..]);
    }
  }

  lemma {:induction false} FromToLE(n: nat, width: nat)
    requires n < Pow256(width)
    ensures FromLE(ToLE(n, width)) == n
  {
    if width > 0 {
      FromToLE(n / 256, width - 1);
      assert ToLE(n, width)[1..] == ToLE(n / 256, width - 1);
    }
  }

  lemma ByteSplit(b: Byte, rest: nat)
    ensures (b + 256 * rest) % 256 == b && (b + 256 * rest) / 256 == rest
  {
  }

  lemma {:induction false} ToFromLE(s: ByteString)
    ensures ToLE(FromLE(s), |s|) == s
  {
    if s != [] {
      ToFromLE(s[1..]);
      ByteSplit(s[0], FromLE(s[1..]));
      assert s == [s[0]] + s[1..];
    }
  }

  /** The bytes s lie at pos. */
  ghost predicate Holds(data: ByteString, pos: nat, s: ByteString)
  {
    pos + |s| <= |data| && data[pos..pos + |s|] == s
  }

  lemma HoldsSplit(data: ByteString, pos: nat, a: ByteString, b: ByteString)
    requires Holds(data, pos, a + b)
    ensures Holds(data, pos, a) && Holds(data, pos + |a|, b)
  {
    assert data[pos..pos + |a|] == data[pos..pos + |a + b|][..|a|] == (a + b)[..|a|];
    assert data[pos + |a|..pos + |a| + |b|] == data[pos..pos + |a + b|][|a|..] == (a + b)[|a|..];
  }

  lemma {:induction false} Pow2Sum(a: nat, b: nat)
    ensures Pow2(a + b) == Pow2(a) * Pow2(b)
  {
    if a > 0 {
      Pow2Sum(a - 1, b);
      MulTwice(Pow2(a - 1), Pow2(b));
    }
  }

  lemma Pow2Eight(k: nat)
    ensures Pow2(k + 8) == 256 * Pow2(k)
    ensures Pow2(8) == 256
  {
    assert Pow2(k + 2) == 4 * Pow2(k);
    assert Pow2(k + 4) == 4 * Pow2(k + 2);
    assert Pow2(k + 6) == 4 * Pow2(k + 4);
    assert Pow2(k + 8) == 4 * Pow2(k + 6);
    assert Pow2(4) == 16;
    assert Pow2(6) == 64;
  }

  lemma MulTwice(a: int, b: int)
    ensures (2 * a) * b == 2 * (a * b)
  {
  }

  lemma {:induction false} Pow2Monotone(a: nat, b: nat)
    requires a <= b
    ensures Pow2(a) <= Pow2(b)
  {
    if a < b {
      Pow2Monotone(a, b - 1);
    }
  }

  lemma MulSign(e: int, d: int)
    requires d > 0
    ensures e >= 2 ==> e * d >= 2 * d
    ensures e >= 1 ==> e * d >= d
    ensures e <= -1 ==> e * d <= -d
  {
  }

  lemma DivUnique(x: int, d: int, q: int, r: int)
    requires d > 0 && x == q * d + r && 0 <= r < d
    ensures x / d == q
  {
    var e := x / d - q;
    assert x == (x / d) * d + x % d;
    assert (x / d) * d - q * d == e * d;
    assert e * d == r - x % d;
    MulSign(e, d);
  }

  lemma QuotientZero(x: nat, p: nat)
    requires p > 0
    ensures x / p == 0 <==> x < p
  {
    if x < p {
      DivUnique(x, p, 0, x);
    } else {
      assert x == x / p * p + x % p;
    }
  }
}

/**
 The aborting digit decode and the target-sum filter of XMSS message encoding
 (src/lean_spec/spec/crypto/xmss/encoding.py).

 Field elements are their canonical representatives below the prime; the hash that produces them is not modelled.
 */
module XmssEncoding {
  import opened Bytes

  function Pow(b: nat, n: nat): (r: nat)
    ensures b > 0 ==> r > 0
  {
    if n == 0 then 1 else b * Pow(b, n - 1)
  }

  datatype Config = Config(prime: nat, base: nat, z: nat, q: nat, dimension: nat, targetSum: nat)

  /** The positive fields and the decomposition Q * BASE^Z == P - 1 that the configuration validates. */
  ghost predicate Valid(cfg: Config)
  {
    && cfg.base > 0 && cfg.z > 0 && cfg.q > 0 && cfg.dimension > 0 && cfg.targetSum > 0
    && cfg.q * Pow(cfg.base, cfg.z) == cfg.prime - 1
  }

  function Threshold(cfg: Config): nat
  {
    cfg.q * Pow(cfg.base, cfg.z)
  }

  // ---- division with remainder ----

  function Quot(d: nat, b: nat): nat
    requires b > 0
  {
    QuotientSign(d, b);
    d / b
  }

  function Rem(d: nat, b: nat): (r: nat)
    requires b > 0
    ensures r < b
  {
    d % b
  }

  function Combine(r: nat, b: nat, e: nat): nat
  {
    r + b * e
  }

  lemma QuotientSign(d: nat, b: nat)
    requires b > 0
    ensures d / b >= 0
  {
    assert d == d / b * b + d % b;
    MulSign(d / b, b);
  }

  lemma SplitCombine(d: nat, b: nat)
    requires b > 0
    ensures Combine(Rem(d, b), b, Quot(d, b)) == d
  {
  }

  lemma CombineSplit(r: nat, b: nat, e: nat)
    requires r < b
    ensures Quot(Combine(r, b, e), b) == e && Rem(Combine(r, b, e), b) == r
  {
    var d := r + b * e;
    DivUnique(d, b, e, r);
    assert d == d / b * b + d % b;
  }

  lemma MulLess(b: nat, d: nat, e: nat)
    requires b > 0 && d < e
    ensures b * d + b <= b * e
  {
    assert b * (e - d) >= b by { MulSign(e - d, b); }
  }

  lemma QuotBound(d: nat, b: nat, p: nat)
    requires b > 0
    ensures d < b * p <==> Quot(d, b) < p
  {
    var e := Quot(d, b);
    SplitCombine(d, b);
    if e < p {
      MulLess(b, e, p);
    } else if e > p {
      MulLess(b, p, e);
    }
  }

  // ---- the encoding ----

  /** The n low digits of d, least significant first. */
  function Digits(d: nat, base: nat, n: nat): seq<nat>
    requires base > 0
    decreases n
  {
    if n == 0 then [] else [Rem(d, base)] + Digits(Quot(d, base), base, n - 1)
  }

  function AllDigits(cfg: Config, elements: seq<nat>): seq<nat>
    requires cfg.base > 0 && cfg.q > 0
  {
    if elements == [] then []
    else Digits(Quot(elements[0], cfg.q), cfg.base, cfg.z) + AllDigits(cfg, elements[1..])
  }

  lemma {:induction false} DigitsBound(d: nat, base: nat, n: nat)
    requires base > 0
    ensures |Digits(d, base, n)| == n && forall i | 0 <= i < n :: Digits(d, base, n)[i] < base
    decreases n
  {
    hide Quot, Rem;
    if n > 0 {
      DigitsBound(Quot(d, base), base, n - 1);
    }
  }

  lemma {:induction false} AllDigitsBound(cfg: Config, elements: seq<nat>)
    requires cfg.base > 0 && cfg.q > 0
    ensures |AllDigits(cfg, elements)| == |elements| * cfg.z
    ensures forall i | 0 <= i < |AllDigits(cfg, elements)| :: AllDigits(cfg, elements)[i] < cfg.base
  {
    hide Digits, Quot;
    if elements != [] {
      DigitsBound(Quot(elements[0], cfg.q), cfg.base, cfg.z);
      AllDigitsBound(cfg, elements[1..]);
      MulSuccessor(|elements| - 1, cfg.z);
    }
  }

  predicate Accepted(cfg: Config, elements: seq<nat>)
  {
    forall i | 0 <= i < |elements| :: elements[i] < Threshold(cfg)
  }

  function Prefix(s: seq<nat>, n: nat): seq<nat>
  {
    if n <= |s| then s[..n] else s
  }

  /** aborting_decode. */
  function Decode(cfg: Config, elements: seq<nat>): Option<seq<nat>>
    requires cfg.base > 0 && cfg.q > 0
  {
    if Accepted(cfg, elements) then Some(Prefix(AllDigits(cfg, elements), cfg.dimension)) else None
  }

  function Sum(s: seq<nat>): nat
  {
    if s == [] then 0 else s[0] + Sum(s[1..])
  }

  /** target_sum_encode on the hash output. */
  function TargetSumEncode(cfg: Config, elements: seq<nat>): Option<seq<nat>>
    requires cfg.base > 0 && cfg.q > 0
  {
    var codeword := Decode(cfg, elements);
    if codeword.Some? && Sum(codeword.value) == cfg.targetSum then codeword else None
  }

  // ---- the source's loops ----

  method AbortingDecode(cfg: Config, elements: seq<nat>) returns (r: Option<seq<nat>>)
    requires cfg.base > 0 && cfg.q > 0
    ensures r == Decode(cfg, elements)
  {
    hide Digits, AllDigits, Threshold;
    var threshold := Threshold(cfg);
    var digits: seq<nat> := [];
    AllDigitsEnd(cfg);
    for i := 0 to |elements|
      invariant forall k | 0 <= k < i :: elements[k] < threshold
      invariant digits == AllDigits(cfg, elements[..i])
    {
      if elements[i] >= threshold {
        return None;
      }
      digits := AppendDigits(digits, Quot(elements[i], cfg.q), cfg.base, cfg.z);
      assert elements[..i + 1] == elements[..i] + [elements[i]];
      AllDigitsSnoc(cfg, elements[..i], elements[i]);
    }
    assert elements[..|elements|] == elements;
    return Some(Prefix(digits, cfg.dimension));
  }

  method AppendDigits(digits: seq<nat>, value: nat, base: nat, n: nat) returns (r: seq<nat>)
    requires base > 0
    ensures r == digits + Digits(value, base, n)
  {
    hide Quot, Rem;
    r := digits;
    var quotient := value;
    for k := 0 to n
      invariant digits + Digits(value, base, n) == r + Digits(quotient, base, n - k)
    {
      r := r + [Rem(quotient, base)];
      quotient := Quot(quotient, base);
    }
  }

  lemma AllDigitsEnd(cfg: Config)
    requires cfg.base > 0 && cfg.q > 0
    ensures AllDigits(cfg, []) == []
  {
  }

  lemma {:induction false} AllDigitsSnoc(cfg: Config, elements: seq<nat>, x: nat)
    requires cfg.base > 0 && cfg.q > 0
    ensures AllDigits(cfg, elements + [x]) == AllDigits(cfg, elements) + Digits(Quot(x, cfg.q), cfg.base, cfg.z)
  {
    hide Digits;
    if elements == [] {
      assert [x][1..] == [];
    } else {
      AllDigitsSnoc(cfg, elements[1..], x);
      assert (elements + [x])[1..] == elements[1..] + [x];
    }
  }

  // ---- what the digits mean ----

  /** The number with the given digits, least significant first. */
  function ValueOf(digits: seq<nat>, base: nat): nat
  {
    if digits == [] then 0 else Combine(digits[0], base, ValueOf(digits[1..], base))
  }

  lemma {:induction false} DigitsValue(d: nat, base: nat, n: nat)
    requires base > 0 && d < Pow(base, n)
    ensures ValueOf(Digits(d, base, n), base) == d
    decreases n
  {
    hide Quot, Rem, Combine;
    if n > 0 {
      QuotBound(d, base, Pow(base, n - 1));
      DigitsValue(Quot(d, base), base, n - 1);
      SplitCombine(d, base);
    }
  }

  /** The digits of an accepted element are, least significant first, those of the group of Q that holds it. */
  lemma ElementDigits(cfg: Config, x: nat)
    requires Valid(cfg) && x < cfg.prime - 1
    ensures AllDigits(cfg, [x]) == Digits(Quot(x, cfg.q), cfg.base, cfg.z)
    ensures var d := ValueOf(AllDigits(cfg, [x]), cfg.base); cfg.q * d <= x < cfg.q * d + cfg.q
  {
    hide Digits, Pow, ValueOf;
    AllDigitsSnoc(cfg, [], x);
    AllDigitsEnd(cfg);
    assert [] + [x] == [x] && [] + Digits(Quot(x, cfg.q), cfg.base, cfg.z) == Digits(Quot(x, cfg.q), cfg.base, cfg.z);
    QuotBound(x, cfg.q, Pow(cfg.base, cfg.z));
    DigitsValue(Quot(x, cfg.q), cfg.base, cfg.z);
    SplitCombine(x, cfg.q);
  }

  // ---- only P - 1 is rejected ----

  lemma OnlyTopRejected(cfg: Config, elements: seq<nat>)
    requires Valid(cfg) && forall i | 0 <= i < |elements| :: elements[i] < cfg.prime
    ensures Decode(cfg, elements).None? <==> cfg.prime - 1 in elements
  {
    hide Pow, AllDigits;
  }

  // ---- counting ----

  ghost function Range(n: nat): set<nat>
  {
    if n == 0 then {} else Range(n - 1) + {n - 1}
  }

  lemma {:induction false} InRange(n: nat, i: nat)
    ensures i in Range(n) <==> i < n
  {
    if n > 0 {
      InRange(n - 1, i);
    }
  }

  lemma {:induction false} RangeCount(n: nat)
    ensures |Range(n)| == n
  {
    if n > 0 {
      RangeCount(n - 1);
      InRange(n - 1, n - 1);
    }
  }

  /** Numbers with low digit r and the rest from s. */
  ghost function WithDigit(r: nat, b: nat, s: set<nat>): set<nat>
  {
    set e | e in s :: Combine(r, b, e)
  }

  lemma InWithDigit(r: nat, b: nat, s: set<nat>, d: nat)
    requires r < b
    ensures d in WithDigit(r, b, s) <==> Rem(d, b) == r && Quot(d, b) in s
  {
    hide Rem, Quot, Combine;
    SplitCombine(d, b);
    if d in WithDigit(r, b, s) {
      var e :| e in s && d == Combine(r, b, e);
      CombineSplit(r, b, e);
    }
  }

  lemma {:induction false} WithDigitCount(r: nat, b: nat, s: set<nat>)
    requires r < b
    ensures |WithDigit(r, b, s)| == |s|
    decreases |s|
  {
    hide *;
    if s == {} {
      NoDigits(r, b);
    } else {
      var e :| e in s;
      WithDigitCount(r, b, s - {e});
      CombineSplit(r, b, e);
      forall d
        ensures d in WithDigit(r, b, s) <==> d in WithDigit(r, b, s - {e}) || d == Combine(r, b, e)
        ensures d == Combine(r, b, e) ==> d !in WithDigit(r, b, s - {e})
      {
        InWithDigit(r, b, s, d);
        InWithDigit(r, b, s - {e}, d);
        SplitCombine(d, b);
      }
      assert WithDigit(r, b, s) == WithDigit(r, b, s - {e}) + {Combine(r, b, e)};
    }
  }

  lemma NoDigits(r: nat, b: nat)
    ensures WithDigit(r, b, {}) == {}
  {
  }

  /** Numbers of m digits that start with the digits h. */
  ghost function WithDigits(base: nat, m: nat, h: seq<nat>): set<nat>
    requires base > 0
  {
    set d | d in Range(Pow(base, m)) && h <= Digits(d, base, m)
  }

  lemma FirstDigit(base: nat, m: nat, h: seq<nat>, d: nat)
    requires base > 0 && 0 < |h| <= m
    ensures d in WithDigits(base, m, h) <==> Rem(d, base) == h[0] && Quot(d, base) in WithDigits(base, m - 1, h[1..])
  {
    hide Rem, Quot, Range;
    var s, rest := Digits(d, base, m), Digits(Quot(d, base), base, m - 1);
    assert s == [Rem(d, base)] + rest;
    PrefixStep(h, Rem(d, base), rest);
    InRange(Pow(base, m), d);
    InRange(Pow(base, m - 1), Quot(d, base));
    QuotBound(d, base, Pow(base, m - 1));
  }

  lemma PrefixStep(h: seq<nat>, first: nat, rest: seq<nat>)
    requires h != []
    ensures h <= [first] + rest <==> h[0] == first && h[1..] <= rest
  {
    assert h == [h[0]] + h[1..];
  }

  lemma {:induction false} WithDigitsCount(base: nat, m: nat, h: seq<nat>)
    requires base > 0 && |h| <= m && forall i | 0 <= i < |h| :: h[i] < base
    ensures |WithDigits(base, m, h)| == Pow(base, m - |h|)
    decreases |h|
  {
    hide *;
    if h == [] {
      AllNumbers(base, m);
    } else {
      var rest := WithDigits(base, m - 1, h[1..]);
      WithDigitsCount(base, m - 1, h[1..]);
      WithDigitCount(h[0], base, rest);
      forall d
        ensures d in WithDigits(base, m, h) <==> d in WithDigit(h[0], base, rest)
      {
        FirstDigit(base, m, h, d);
        InWithDigit(h[0], base, rest, d);
      }
      assert WithDigits(base, m, h) == WithDigit(h[0], base, rest);
    }
  }

  lemma AllNumbers(base: nat, m: nat)
    requires base > 0
    ensures |WithDigits(base, m, [])| == Pow(base, m)
  {
    hide Range, Pow, Digits;
    RangeCount(Pow(base, m));
    assert WithDigits(base, m, []) == Range(Pow(base, m));
  }

  /** The first n numbers whose quotient by q is d. */
  ghost function Block(q: nat, d: nat, n: nat): set<nat>
  {
    if n == 0 then {} else Block(q, d, n - 1) + {Combine(n - 1, q, d)}
  }

  lemma {:induction false} InBlock(q: nat, d: nat, n: nat, x: nat)
    requires 0 < q && n <= q
    ensures x in Block(q, d, n) <==> Quot(x, q) == d && Rem(x, q) < n
  {
    hide Quot, Rem, Combine;
    if n > 0 {
      InBlock(q, d, n - 1, x);
      CombineSplit(n - 1, q, d);
      SplitCombine(x, q);
    }
  }

  lemma {:induction false} BlockCount(q: nat, d: nat, n: nat)
    requires 0 < q && n <= q
    ensures |Block(q, d, n)| == n
  {
    hide Quot, Rem, Combine;
    if n > 0 {
      BlockCount(q, d, n - 1);
      InBlock(q, d, n - 1, Combine(n - 1, q, d));
      CombineSplit(n - 1, q, d);
    }
  }

  lemma {:induction false} BlocksCount(q: nat, s: set<nat>, all: set<nat>)
    requires q > 0
    requires forall x :: x in all <==> Quot(x, q) in s
    ensures |all| == q * |s|
    decreases |s|
  {
    hide *;
    if s == {} {
      assert all == {};
      MulZero(q);
    } else {
      var d :| d in s;
      var block := Block(q, d, q);
      forall x
        ensures x in block <==> Quot(x, q) == d
      {
        InBlock(q, d, q, x);
      }
      BlockCount(q, d, q);
      BlocksCount(q, s - {d}, all - block);
      assert all == (all - block) + block;
      assert |s| == |s - {d}| + 1;
      MulSuccessor(|s - {d}|, q);
    }
  }

  lemma MulZero(q: nat)
    ensures q * 0 == 0
  {
  }

  /** Accepted field elements whose digits start with h. */
  ghost function Elements(cfg: Config, h: seq<nat>): set<nat>
    requires Valid(cfg)
  {
    set x | x in Range(cfg.prime) && x < Threshold(cfg) && h <= Digits(Quot(x, cfg.q), cfg.base, cfg.z)
  }

  lemma InElements(cfg: Config, h: seq<nat>, x: nat)
    requires Valid(cfg)
    ensures x in Elements(cfg, h) <==> Quot(x, cfg.q) in WithDigits(cfg.base, cfg.z, h)
  {
    hide Digits, Pow, Quot, Range;
    InRange(cfg.prime, x);
    InRange(Pow(cfg.base, cfg.z), Quot(x, cfg.q));
    QuotBound(x, cfg.q, Pow(cfg.base, cfg.z));
  }

  lemma ElementsCount(cfg: Config, h: seq<nat>)
    requires Valid(cfg) && |h| <= cfg.z && forall i | 0 <= i < |h| :: h[i] < cfg.base
    ensures |Elements(cfg, h)| == cfg.q * Pow(cfg.base, cfg.z - |h|)
  {
    hide *;
    ValidBase(cfg);
    var quotients := WithDigits(cfg.base, cfg.z, h);
    WithDigitsCount(cfg.base, cfg.z, h);
    forall x
      ensures x in Elements(cfg, h) <==> Quot(x, cfg.q) in quotients
    {
      InElements(cfg, h, x);
    }
    BlocksCount(cfg.q, quotients, Elements(cfg, h));
  }

  /** Accepted field elements whose digits are w. */
  ghost function Decoding(cfg: Config, w: seq<nat>): set<nat>
    requires Valid(cfg)
  {
    set x | x in Range(cfg.prime) && x < Threshold(cfg) && Digits(Quot(x, cfg.q), cfg.base, cfg.z) == w
  }

  /** Exactly Q field elements decode to each vector of Z digits. */
  lemma ElementEquidistribution(cfg: Config, w: seq<nat>)
    requires Valid(cfg) && |w| == cfg.z && forall i | 0 <= i < |w| :: w[i] < cfg.base
    ensures |Decoding(cfg, w)| == cfg.q
  {
    hide Digits, Range, Quot;
    ElementsCount(cfg, w);
    assert Pow(cfg.base, 0) == 1;
    forall x
      ensures x in Elements(cfg, w) <==> x in Decoding(cfg, w)
    {
      DigitsBound(Quot(x, cfg.q), cfg.base, cfg.z);
    }
    assert Elements(cfg, w) == Decoding(cfg, w);
  }

  // ---- vectors of field elements ----

  ghost function Vectors(p: nat, m: nat): set<seq<nat>>
  {
    if m == 0 then {[]} else Product(Range(p), Vectors(p, m - 1))
  }

  ghost function Product(a: set<nat>, b: set<seq<nat>>): set<seq<nat>>
  {
    set x, v | x in a && v in b :: [x] + v
  }

  lemma InProduct(a: set<nat>, b: set<seq<nat>>, v: seq<nat>)
    ensures v in Product(a, b) <==> v != [] && v[0] in a && v[1..] in b
  {
    if v != [] {
      assert v == [v[0]] + v[1..];
    }
    if v in Product(a, b) {
      var x, t :| x in a && t in b && v == [x] + t;
      assert v[1..] == t;
    }
  }

  lemma {:induction false} InVectors(p: nat, m: nat, v: seq<nat>)
    ensures v in Vectors(p, m) <==> |v| == m && forall i | 0 <= i < m :: v[i] < p
    decreases m
  {
    hide Product, Range;
    if m > 0 {
      InProduct(Range(p), Vectors(p, m - 1), v);
      if v != [] {
        InVectors(p, m - 1, v[1..]);
        InRange(p, v[0]);
        assert |v| == m ==> forall i | 1 <= i < m :: v[i] == v[1..][i - 1];
      }
    }
  }

  lemma {:induction false} ProductCount(a: set<nat>, b: set<seq<nat>>)
    ensures |Product(a, b)| == |a| * |b|
    decreases |a|
  {
    hide Product;
    if a == {} {
      ProductEmpty(b);
    } else {
      var x :| x in a;
      ProductCount(a - {x}, b);
      ProductStep(a, b, x);
      RowCount(x, b);
      assert |a| == |a - {x}| + 1;
      MulSuccessor(|a - {x}|, |b|);
    }
  }

  lemma MulSuccessor(a: nat, b: nat)
    ensures (a + 1) * b == a * b + b
  {
  }

  lemma ProductEmpty(b: set<seq<nat>>)
    ensures Product({}, b) == {}
  {
  }

  lemma ProductStep(a: set<nat>, b: set<seq<nat>>, x: nat)
    requires x in a
    ensures Product(a, b) == Product(a - {x}, b) + Product({x}, b)
    ensures Product(a - {x}, b) !! Product({x}, b)
  {
    hide Product;
    forall v: seq<nat>
      ensures v in Product(a, b) <==> v in Product(a - {x}, b) || v in Product({x}, b)
      ensures !(v in Product(a - {x}, b) && v in Product({x}, b))
    {
      InProduct(a, b, v);
      InProduct(a - {x}, b, v);
      InProduct({x}, b, v);
    }
  }

  lemma {:induction false} RowCount(x: nat, b: set<seq<nat>>)
    ensures |Product({x}, b)| == |b|
    decreases |b|
  {
    hide Product;
    if b == {} {
      forall v: seq<nat>
        ensures v !in Product({x}, b)
      {
        InProduct({x}, b, v);
      }
      assert Product({x}, b) == {};
    } else {
      var t :| t in b;
      RowCount(x, b - {t});
      forall v: seq<nat>
        ensures v in Product({x}, b) <==> v in Product({x}, b - {t}) || v == [x] + t
        ensures v == [x] + t ==> v !in Product({x}, b - {t})
      {
        InProduct({x}, b, v);
        InProduct({x}, b - {t}, v);
        if v != [] && v[0] == x && v[1..] == t {
          assert v == [x] + t;
        }
      }
      assert Product({x}, b) == Product({x}, b - {t}) + {[x] + t};
    }
  }

  // ---- codewords ----

  /** Accepted vectors of m field elements whose digits start with c. */
  ghost function Matching(cfg: Config, m: nat, c: seq<nat>): set<seq<nat>>
    requires Valid(cfg)
  {
    set v | v in Vectors(cfg.prime, m) && Accepted(cfg, v) && c <= AllDigits(cfg, v)
  }

  function Least(a: nat, b: nat): nat
  {
    if a <= b then a else b
  }

  lemma MatchingStep(cfg: Config, m: nat, c: seq<nat>, v: seq<nat>)
    requires Valid(cfg) && m > 0
    ensures var k := Least(|c|, cfg.z);
      v in Matching(cfg, m, c) <==> v in Product(Elements(cfg, c[..k]), Matching(cfg, m - 1, c[k..]))
  {
    hide Digits, Product, Vectors, Range, Pow, Quot;
    var k := Least(|c|, cfg.z);
    InProduct(Elements(cfg, c[..k]), Matching(cfg, m - 1, c[k..]), v);
    InVectors(cfg.prime, m, v);
    if v != [] {
      InRange(cfg.prime, v[0]);
      InVectors(cfg.prime, m - 1, v[1..]);
      var first, rest := Digits(Quot(v[0], cfg.q), cfg.base, cfg.z), AllDigits(cfg, v[1..]);
      DigitsBound(Quot(v[0], cfg.q), cfg.base, cfg.z);
      SplitPrefix(c, first, rest);
      assert Accepted(cfg, v) <==> v[0] < Threshold(cfg) && Accepted(cfg, v[1..]) by {
        assert v == [v[0]] + v[1..];
      }
    }
  }

  lemma SplitPrefix(c: seq<nat>, first: seq<nat>, rest: seq<nat>)
    ensures var k := Least(|c|, |first|);
      c <= first + rest <==> c[..k] <= first && c[k..] <= rest
  {
    var k := Least(|c|, |first|);
    assert c == c[..k] + c[k..];
    if |c| > |first| && c[..k] <= first {
      assert c[..k] == first;
    }
  }

  lemma {:induction false} MatchingCount(cfg: Config, m: nat, c: seq<nat>)
    requires Valid(cfg) && |c| <= m * cfg.z && forall i | 0 <= i < |c| :: c[i] < cfg.base
    ensures |Matching(cfg, m, c)| == Pow(cfg.q, m) * Pow(cfg.base, m * cfg.z - |c|)
    decreases m
  {
    hide *;
    if m == 0 {
      NothingToMatch(cfg, c);
    } else {
      var k := Least(|c|, cfg.z);
      LeastBound(|c|, cfg.z);
      MulSuccessor(m - 1, cfg.z);
      ValidBase(cfg);
      MatchingCount(cfg, m - 1, c[k..]);
      ElementsCount(cfg, c[..k]);
      ProductCount(Elements(cfg, c[..k]), Matching(cfg, m - 1, c[k..]));
      forall v: seq<nat>
        ensures v in Matching(cfg, m, c) <==> v in Product(Elements(cfg, c[..k]), Matching(cfg, m - 1, c[k..]))
      {
        MatchingStep(cfg, m, c, v);
      }
      assert Matching(cfg, m, c) == Product(Elements(cfg, c[..k]), Matching(cfg, m - 1, c[k..]));
      CountProduct(cfg.q, cfg.base, m, cfg.z - k, (m - 1) * cfg.z - |c[k..]|);
    }
  }

  lemma ValidBase(cfg: Config)
    requires Valid(cfg)
    ensures cfg.base > 0 && cfg.q > 0
  {
  }

  lemma LeastBound(a: nat, b: nat)
    ensures Least(a, b) <= a && Least(a, b) <= b && (Least(a, b) == a || Least(a, b) == b)
  {
  }

  lemma NothingToMatch(cfg: Config, c: seq<nat>)
    requires Valid(cfg) && |c| <= 0 * cfg.z
    ensures |Matching(cfg, 0, c)| == Pow(cfg.q, 0) * Pow(cfg.base, 0 * cfg.z - |c|)
  {
    assert c == [];
    assert Matching(cfg, 0, c) == {[]};
  }

  lemma CountProduct(q: nat, base: nat, m: nat, a: nat, b: nat)
    requires m > 0
    ensures (q * Pow(base, a)) * (Pow(q, m - 1) * Pow(base, b)) == Pow(q, m) * Pow(base, a + b)
  {
    hide Pow;
    PowSum(base, a, b);
    PowStep(q, m);
    Rearrange(q, Pow(base, a), Pow(q, m - 1), Pow(base, b));
  }

  lemma PowStep(b: nat, n: nat)
    requires n > 0
    ensures Pow(b, n) == b * Pow(b, n - 1)
  {
  }

  lemma Rearrange(q: nat, a: nat, r: nat, b: nat)
    ensures (q * a) * (r * b) == (q * r) * (a * b)
  {
    MulAssociative(q, a, r * b);
    MulAssociative(a, r, b);
    MulAssociative(r, a, b);
    MulAssociative(q, r, a * b);
  }

  lemma MulAssociative(a: nat, b: nat, c: nat)
    ensures (a * b) * c == a * (b * c)
  {
  }

  lemma {:induction false} PowSum(base: nat, a: nat, b: nat)
    ensures Pow(base, a + b) == Pow(base, a) * Pow(base, b)
  {
    if a > 0 {
      PowSum(base, a - 1, b);
      MulAssociative(base, Pow(base, a - 1), Pow(base, b));
    }
  }

  /** Vectors of m field elements that decode to the codeword c. */
  ghost function Preimages(cfg: Config, m: nat, c: seq<nat>): set<seq<nat>>
    requires Valid(cfg)
  {
    set v | v in Vectors(cfg.prime, m) && Decode(cfg, v) == Some(c)
  }

  lemma PrefixIs(s: seq<nat>, c: seq<nat>)
    requires |c| <= |s|
    ensures Prefix(s, |c|) == c <==> c <= s
  {
  }

  lemma DecodesTo(cfg: Config, m: nat, c: seq<nat>, v: seq<nat>)
    requires Valid(cfg) && |c| == cfg.dimension <= m * cfg.z && v in Vectors(cfg.prime, m)
    ensures Decode(cfg, v) == Some(c) <==> Accepted(cfg, v) && c <= AllDigits(cfg, v)
  {
    hide AllDigits, Pow, Vectors, Accepted, Prefix;
    InVectors(cfg.prime, m, v);
    AllDigitsBound(cfg, v);
    PrefixIs(AllDigits(cfg, v), c);
  }

  /** The number of vectors that decode to a codeword does not depend on the codeword. */
  lemma CodewordEquidistribution(cfg: Config, m: nat, c: seq<nat>)
    requires Valid(cfg) && cfg.dimension <= m * cfg.z
    requires |c| == cfg.dimension && forall i | 0 <= i < |c| :: c[i] < cfg.base
    ensures |Preimages(cfg, m, c)| == Pow(cfg.q, m) * Pow(cfg.base, m * cfg.z - cfg.dimension)
  {
    hide AllDigits, Pow, Vectors, Accepted, Decode, Valid;
    MatchingCount(cfg, m, c);
    ValidBase(cfg);
    forall v | v in Vectors(cfg.prime, m)
      ensures Decode(cfg, v) == Some(c) <==> Accepted(cfg, v) && c <= AllDigits(cfg, v)
    {
      DecodesTo(cfg, m, c, v);
    }
    assert Preimages(cfg, m, c) == Matching(cfg, m, c);
  }

  // ---- the target sum ----

  /** On the layer of target sum 6, the codeword 5, 0, 1, 0 is accepted and 2, 2, 2, 2 is not. */
  lemma LayerExamples(cfg: Config, elements: seq<nat>)
    requires cfg.base > 0 && cfg.q > 0 && cfg.targetSum == 6
    ensures Decode(cfg, elements) == Some([5, 0, 1, 0]) ==> TargetSumEncode(cfg, elements) == Some([5, 0, 1, 0])
    ensures Decode(cfg, elements) == Some([2, 2, 2, 2]) ==> TargetSumEncode(cfg, elements) == None
  {
    hide Decode;
    assert Sum([5, 0, 1, 0]) == 6 by {
      assert [5, 0, 1, 0][1..] == [0, 1, 0] && [0, 1, 0][1..] == [1, 0] && [1, 0][1..] == [0] && [0][1..] == [];
      assert Sum([1, 0]) == 1;
    }
    assert Sum([2, 2, 2, 2]) == 8 by {
      assert [2, 2, 2, 2][1..] == [2, 2, 2] && [2, 2, 2][1..] == [2, 2] && [2, 2][1..] == [2] && [2][1..] == [];
      assert Sum([2, 2]) == 4;
    }
  }

  /** Vectors of m field elements that encode to the codeword c. */
  ghost function Encoding(cfg: Config, m: nat, c: seq<nat>): set<seq<nat>>
    requires Valid(cfg)
  {
    set v | v in Vectors(cfg.prime, m) && TargetSumEncode(cfg, v) == Some(c)
  }

  /** Every codeword on the target-sum layer is encoded equally often, and no other codeword at all. */
  lemma LayerEquidistribution(cfg: Config, m: nat, c: seq<nat>)
    requires Valid(cfg) && cfg.dimension <= m * cfg.z
    requires |c| == cfg.dimension && forall i | 0 <= i < |c| :: c[i] < cfg.base
    ensures |Encoding(cfg, m, c)| ==
      if Sum(c) == cfg.targetSum then Pow(cfg.q, m) * Pow(cfg.base, m * cfg.z - cfg.dimension) else 0
  {
    hide Pow, Vectors, Decode, Sum;
    CodewordEquidistribution(cfg, m, c);
    if Sum(c) == cfg.targetSum {
      assert Encoding(cfg, m, c) == Preimages(cfg, m, c);
    } else {
      assert Encoding(cfg, m, c) == {};
    }
  }

  /** A codeword that encodes has the full dimension, digits below the base, and the target sum. */
  lemma EncodedCodeword(cfg: Config, elements: seq<nat>)
    requires Valid(cfg) && cfg.dimension <= |elements| * cfg.z && TargetSumEncode(cfg, elements).Some?
    ensures var c := TargetSumEncode(cfg, elements).value;
      |c| == cfg.dimension && Sum(c) == cfg.targetSum && forall i | 0 <= i < |c| :: c[i] < cfg.base
  {
    hide AllDigits;
    AllDigitsBound(cfg, elements);
  }

  lemma {:induction false} SumOrder(c: seq<nat>, d: seq<nat>)
    requires |c| == |d| && forall i | 0 <= i < |c| :: c[i] <= d[i]
    ensures Sum(c) <= Sum(d) && (Sum(c) == Sum(d) ==> c == d)
  {
    if c != [] {
      SumOrder(c[1..], d[1..]);
      assert c == [c[0]] + c[1..] && d == [d[0]] + d[1..];
    }
  }

  /** Distinct codewords on the target-sum layer are incomparable: each has a digit above the other's. */
  lemma Incomparable(cfg: Config, a: seq<nat>, b: seq<nat>)
    requires Valid(cfg) && cfg.dimension <= |a| * cfg.z && cfg.dimension <= |b| * cfg.z
    requires TargetSumEncode(cfg, a).Some? && TargetSumEncode(cfg, b).Some?
    requires TargetSumEncode(cfg, a) != TargetSumEncode(cfg, b)
    ensures var c, d := TargetSumEncode(cfg, a).value, TargetSumEncode(cfg, b).value;
      && |c| == |d| == cfg.dimension
      && (exists i | 0 <= i < cfg.dimension :: c[i] > d[i])
      && (exists i | 0 <= i < cfg.dimension :: d[i] > c[i])
  {
    hide AllDigits, Sum, Accepted;
    EncodedCodeword(cfg, a);
    EncodedCodeword(cfg, b);
    var c, d := TargetSumEncode(cfg, a).value, TargetSumEncode(cfg, b).value;
    if forall i | 0 <= i < cfg.dimension :: c[i] <= d[i] {
      SumOrder(c, d);
    }
    if forall i | 0 <= i < cfg.dimension :: d[i] <= c[i] {
      SumOrder(d, c);
    }
  }
}

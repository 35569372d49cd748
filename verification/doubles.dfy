/**
 * Just enough of IEEE 754 binary64 arithmetic to state what Python computes
 * for `n * 0.3` and `n * 0.7` with a non-negative integer `n`: the exact
 * product rounded to the nearest double, ties to an even significand.
 *
 * A double constant `c / 2^s` with a 53-bit significand `c` is kept as the
 * pair `(c, s)`; a product is returned as its numerator over the same
 * `2^s`, so comparing it with an integer stays in integer arithmetic.
 */
module Doubles {

  /** Bits in a binary64 significand. */
  const Precision := 53

  function Pow2(k: nat): (p: nat)
    ensures p >= 1
  {
    if k == 0 then 1 else 2 * Pow2(k - 1)
  }

  lemma {:induction false} Pow2Add(a: nat, b: nat)
    ensures Pow2(a + b) == Pow2(a) * Pow2(b)
    decreases a
  {
    if a > 0 {
      Pow2Add(a - 1, b);
    }
  }

  lemma {:induction false} Pow2Mono(a: nat, b: nat)
    requires a <= b
    ensures Pow2(a) <= Pow2(b)
    decreases b
  {
    if a < b {
      Pow2Mono(a, b - 1);
    }
  }

  /** The powers of two the binade arguments below need. */
  lemma Pow2Values()
    ensures Pow2(2) == 4 && Pow2(3) == 8 && Pow2(5) == 32 && Pow2(6) == 64
    ensures Pow2(52) == 4503599627370496
    ensures Pow2(53) == 9007199254740992
    ensures Pow2(54) == 18014398509481984
    ensures Pow2(55) == 36028797018963968
    ensures Pow2(56) == 72057594037927936
    ensures Pow2(57) == 144115188075855872
    ensures Pow2(58) == 288230376151711744
    ensures Pow2(59) == 576460752303423488
  {
    assert Pow2(10) == 1024;
    Pow2Add(10, 10);
    Pow2Add(20, 20);
    Pow2Add(40, 10);
    Pow2Add(50, 2);
    Pow2Add(50, 3);
    Pow2Add(50, 4);
    Pow2Add(50, 5);
    Pow2Add(50, 6);
    Pow2Add(50, 7);
    Pow2Add(50, 8);
    Pow2Add(50, 9);
  }

  /** The position of the highest set bit: `floor(log2(x))`. */
  function Log2(x: nat): (e: nat)
    requires x >= 1
    ensures Pow2(e) <= x < Pow2(e + 1)
  {
    if x == 1 then 0 else 1 + Log2(x / 2)
  }

  /** The binade of `x` determines its logarithm. */
  lemma Log2Unique(x: nat, e: nat)
    requires Pow2(e) <= x < Pow2(e + 1)
    ensures Log2(x) == e
  {
    var f := Log2(x);
    if f < e {
      Pow2Mono(f + 1, e);
    }
    if f > e {
      Pow2Mono(e + 1, f);
    }
  }

  function Dist(a: nat, b: nat): nat {
    if a >= b then a - b else b - a
  }

  /** `x / d` rounded to the nearest integer, ties to even. */
  function RoundDiv(x: nat, d: nat): (q: nat)
    requires d >= 1
    ensures 2 * Dist(q * d, x) <= d
  {
    var q := x / d;
    var r := x % d;
    if 2 * r > d || (2 * r == d && q % 2 == 1) then
      RoundUp(x, d, q, r);
      q + 1
    else
      RoundDown(x, d, q, r);
      q
  }

  lemma RoundDown(x: nat, d: nat, q: nat, r: nat)
    requires d >= 1 && q == x / d && r == x % d && 2 * r <= d
    ensures Dist(q * d, x) == r
  {
    assert x == q * d + r;
  }

  lemma RoundUp(x: nat, d: nat, q: nat, r: nat)
    requires d >= 1 && q == x / d && r == x % d && 2 * r >= d
    ensures Dist((q + 1) * d, x) == d - r
  {
    assert x == q * d + r && r < d;
    assert (q + 1) * d == q * d + d;
  }

  /** Cancelling a positive factor keeps a strict order. */
  lemma MulCancel(a: int, b: int, u: int)
    requires u >= 1 && a * u < b * u
    ensures a < b
  {
    assert (b - a) * u == b * u - a * u;
    assert (b - a) * u > 0;
  }

  /** A multiple of `u` within half of `u` of a value below `k * u` is at most `k` times `u`. */
  lemma RoundedBelow(q: nat, u: nat, p: nat, k: nat)
    requires u >= 1 && p < k * u && 2 * Dist(q * u, p) <= u
    ensures q <= k
  {
    assert q * u <= p + u;
    assert (k + 1) * u == k * u + u;
    MulCancel(q, k + 1, u);
  }

  lemma {:induction false} Log2AtLeast(x: nat, k: nat)
    requires x >= Pow2(k)
    ensures Log2(x) >= k
    decreases k
  {
    if k > 0 {
      assert x / 2 >= Pow2(k - 1);
      Log2AtLeast(x / 2, k - 1);
    }
  }

  /** The unit in the last place of a double holding `p` (`p` at least `2^53`). */
  function Ulp(p: nat): (u: nat)
    requires p >= Pow2(Precision)
    ensures u >= 1
  {
    Pow2(UlpExp(p))
  }

  /** The exponent of the ulp: the number of bits of `p` beyond 53. */
  function UlpExp(p: nat): nat
    requires p >= Pow2(Precision)
  {
    Log2AtLeast(p, Precision);
    Log2(p) - 52
  }

  /** `p` lies between `2^52` and `2^53` ulps. */
  lemma UlpBounds(p: nat)
    requires p >= Pow2(Precision)
    ensures Ulp(p) * Pow2(Precision - 1) <= p < Ulp(p) * Pow2(Precision)
  {
    var e := Log2(p);
    Log2AtLeast(p, Precision);
    var a := e - 52;
    assert UlpExp(p) == a;
    BinadeScale(p, e, a, Precision - 1);
  }

  /** A value in the binade of `2^(a+k)` lies between `2^k` and `2^(k+1)` times `2^a`. */
  lemma BinadeScale(p: nat, e: nat, a: nat, k: nat)
    requires Pow2(e) <= p < Pow2(e + 1) && e == a + k
    ensures Pow2(a) * Pow2(k) <= p < Pow2(a) * Pow2(k + 1)
  {
    Pow2Add(a, k);
    Pow2Add(a, k + 1);
  }

  /** In the binade `[2^e, 2^(e+1))` the ulp is `2^(e-52)`. */
  lemma UlpOfBinade(p: nat, e: nat)
    requires Precision <= e && Pow2(e) <= p < Pow2(e + 1)
    ensures p >= Pow2(Precision)
    ensures Ulp(p) == Pow2(e - 52)
  {
    Pow2Mono(Precision, e);
    Log2Unique(p, e);
    var a := e - 52;
    assert UlpExp(p) == a;
    assert Ulp(p) == Pow2(a);
  }

  /**
   * A value of at least `2^53` rounded to a double: a multiple of its ulp
   * with at most 53 significant bits, the nearer one, ties to even.
   */
  function RoundToDouble(p: nat): (m: nat)
    requires p >= Pow2(Precision)
    ensures 2 * Dist(m, p) <= Ulp(p)
    ensures exists k: nat :: k <= Pow2(Precision) && m == k * Ulp(p)
  {
    var ulp := Ulp(p);
    var q := RoundDiv(p, ulp);
    UlpBounds(p);
    RoundedBelow(q, ulp, p, Pow2(Precision));
    q * ulp
  }

  /** On a tie `RoundDiv` picks the even quotient. */
  lemma RoundDivTiesEven(x: nat, d: nat)
    requires d >= 1
    ensures 2 * Dist(RoundDiv(x, d) * d, x) == d ==> RoundDiv(x, d) % 2 == 0
  {
    var q := x / d;
    var r := x % d;
    var n := RoundDiv(x, d);
    if 2 * r > d || (2 * r == d && q % 2 == 1) {
      assert n == q + 1;
      RoundUp(x, d, q, r);
      assert Dist(n * d, x) == d - r;
    } else {
      assert n == q;
      RoundDown(x, d, q, r);
      assert Dist(n * d, x) == r;
    }
  }

  /** On a tie the rounding picks the even neighbour: an even multiple of the ulp. */
  lemma RoundToDoubleTiesEven(p: nat)
    requires p >= Pow2(Precision)
    ensures 2 * Dist(RoundToDouble(p), p) == Ulp(p) ==> exists k: nat :: RoundToDouble(p) == k * (2 * Ulp(p))
  {
    var u := Ulp(p);
    var q := RoundDiv(p, u);
    assert RoundToDouble(p) == (q as int) * u;
    if 2 * Dist(q * u, p) == u {
      RoundDivTiesEven(p, u);
      EvenTimes(q, u);
    }
  }

  /** An even multiple of `u` is a multiple of `2 * u`. */
  lemma EvenTimes(q: nat, u: nat)
    requires q % 2 == 0
    ensures exists k: nat :: q * u == k * (2 * u)
  {
    var h := q / 2;
    assert q == 2 * h;
    assert q * u == h * (2 * u);
  }

  /** A value in the binade `[2^e, 2^(e+1))` is rounded to within half of `2^(e-52)`. */
  lemma RoundedWithin(p: nat, e: nat)
    requires Precision <= e && Pow2(e) <= p < Pow2(e + 1)
    ensures p >= Pow2(Precision)
    ensures 2 * Dist(RoundToDouble(p), p) <= Pow2(e - 52)
  {
    UlpOfBinade(p, e);
    assert 2 * Dist(RoundToDouble(p), p) <= Ulp(p);
  }

  /**
   * `n * (c / 2^s)` as a double, where `c / 2^s` is a double with the
   * 53-bit significand `c`, returned as its numerator over the same `2^s`.
   * A product below `2^53` is exact; a larger one is rounded.
   */
  function TimesDouble(n: nat, c: nat): nat {
    if n * c < Pow2(Precision) then n * c else RoundToDouble(n * c)
  }
}

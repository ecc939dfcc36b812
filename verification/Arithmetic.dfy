/** Facts about division and remainder that the solver needs spelled out. */
module Arithmetic {

  /** Rounding up to a multiple, as Align does. */
  function AlignUp(value: nat, align: nat): (r: nat)
    requires align > 0
  {
    (value + align - 1) / align * align
  }

  function Pow2(e: nat): (n: nat)
    ensures n > 0
  {
    if e == 0 then 1 else 2 * Pow2(e - 1)
  }

  lemma Regroup(k: nat, r: nat, b: nat)
    ensures (r * 0x100 + b) * k == 0x100 * k * r + k * b
  {
  }

  lemma TimesByte(k: nat, b: nat)
    requires b <= 0xFF
    ensures 0 <= k * b <= k * 0xFF
  {
    assert k * 0xFF == k * b + k * (0xFF - b);
  }

  lemma DivideTwice(v: nat, k: nat)
    requires k > 0
    ensures v / k / 0x100 == v / (0x100 * k)
  {
    var q := v / k;
    var r, b := q / 0x100, q % 0x100;
    Regroup(k, r, b);
    TimesByte(k, b);
    DivisionIs(v, 0x100 * k, r, k * b + v % k);
  }

  lemma DivisionIs(v: nat, d: nat, q: nat, r: nat)
    requires d > 0 && v == d * q + r && r < d
    ensures v / d == q
  {
    var e: int := v / d - q;
    assert v == d * (v / d) + v % d;
    assert d * e == r - v % d;
    assert e >= 1 ==> d * e >= d;
    assert e <= -1 ==> d * e + d <= 0;
  }

  lemma IntRemainder(v: int, d: nat, q: int, r: nat)
    requires d > 0 && v == d * q + r && r < d
    ensures v % d == r
  {
    var e := v / d - q;
    assert v == d * (v / d) + v % d;
    assert d * e == r - v % d;
    assert e >= 1 ==> d * e >= d;
    assert e <= -1 ==> d * e + d <= 0;
  }

  lemma SameRemainder(v: int, u: int, d: nat, k: int)
    requires d > 0 && v == u + d * k
    ensures v % d == u % d
  {
    assert u == d * (u / d) + u % d;
    assert v == d * (u / d + k) + u % d;
    IntRemainder(v, d, u / d + k, u % d);
  }

  lemma ModMultiple(q: int, a: nat)
    requires a > 0
    ensures q * a % a == 0
  {
    var r, d := q * a % a, q * a / a;
    assert q * a == a * d + r;
    assert a * (q - d) == r;
    assert q - d >= 1 ==> a * (q - d) >= a;
    assert q - d <= -1 ==> a * (q - d) + a <= 0;
  }

  lemma MultipleIs(p: int, n: nat) returns (k: int)
    requires n > 0 && p % n == 0
    ensures p == n * k
  {
    k := p / n;
  }

  /** Multiples of n add up, and none lies strictly between two neighbours. */
  lemma Multiples(p: int, q: int, n: nat)
    requires n > 0 && p % n == 0
    ensures (p + n) % n == 0 && (p - n) % n == 0
    ensures q % n == 0 && p <= q < p + n ==> q == p
    ensures q % n == 0 <==> (q - p) % n == 0
  {
    var k := MultipleIs(p, n);
    assert p + n == (k + 1) * n && p - n == (k - 1) * n;
    ModMultiple(k + 1, n);
    ModMultiple(k - 1, n);
    if q % n == 0 {
      var j := MultipleIs(q, n);
      assert q - p == (j - k) * n;
      ModMultiple(j - k, n);
      assert j - k >= 1 ==> n * (j - k) >= n;
      assert j - k <= -1 ==> n * (j - k) <= 0 - n;
    }
    if (q - p) % n == 0 {
      var j := MultipleIs(q - p, n);
      assert q == (j + k) * n;
      ModMultiple(j + k, n);
    }
  }

  lemma TimesAtLeast(p: nat, q: nat)
    requires p >= 1
    ensures p * q >= q
  {
    if p > 1 {
      TimesAtLeast(p - 1, q);
      assert p * q == (p - 1) * q + q;
    }
  }

  lemma QuotientBound(x: nat, p: nat)
    requires p > 0
    ensures 0 <= x / p <= x
  {
    var q := x / p;
    TimesAtLeast(p, q);
    assert x == p * q + x % p;
  }

  /** Rounding up gives the next multiple. */
  lemma AlignUpIs(v: nat, a: nat)
    requires a > 0
    ensures v <= AlignUp(v, a) < v + a && AlignUp(v, a) % a == 0
  {
    var k := (v + a - 1) / a;
    assert v + a - 1 == a * k + (v + a - 1) % a;
    ModMultiple(k, a);
  }
}

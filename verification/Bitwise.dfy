/** Bitwise operators on numbers of any width. */
module Bitwise {
  import opened Arithmetic

  // ----- Exclusive or -----

  /** Bitwise exclusive or. */
  function Xor(x: nat, y: nat): (r: nat)
  {
    if x == 0 && y == 0 then 0 else (x % 2 + y % 2) % 2 + 2 * Xor(x / 2, y / 2)
  }

  lemma XorUnfold(x: nat, y: nat)
    ensures Xor(x, y) == (x % 2 + y % 2) % 2 + 2 * Xor(x / 2, y / 2)
  {
  }

  lemma Bits(bit: nat, rest: nat)
    requires bit < 2
    ensures (bit + 2 * rest) % 2 == bit && (bit + 2 * rest) / 2 == rest
  {
  }

  lemma XorParts(x: nat, y: nat)
    ensures Xor(x, y) % 2 == (x % 2 + y % 2) % 2 && Xor(x, y) / 2 == Xor(x / 2, y / 2)
  {
    hide Xor;
    XorUnfold(x, y);
    Bits((x % 2 + y % 2) % 2, Xor(x / 2, y / 2));
  }

  lemma XorZero()
    ensures Xor(0, 0) == 0
  {
  }

  lemma BitTwice(p: nat, q: nat)
    requires p < 2 && q < 2
    ensures ((p + q) % 2 + q) % 2 == p
  {
  }

  lemma {:induction false} XorTwice(x: nat, y: nat)
    ensures Xor(Xor(x, y), y) == x
    decreases x + y
  {
    hide Xor;
    if x == 0 && y == 0 {
      XorZero();
    } else {
      XorTwice(x / 2, y / 2);
      XorParts(x, y);
      XorUnfold(Xor(x, y), y);
      BitTwice(x % 2, y % 2);
    }
  }

  lemma {:induction false} XorBound(x: nat, y: nat, n: nat)
    requires x < Pow2(n) && y < Pow2(n)
    ensures Xor(x, y) < Pow2(n)
    decreases n
  {
    if n > 0 && (x != 0 || y != 0) {
      XorBound(x / 2, y / 2, n - 1);
    }
  }

  lemma Halves(x: nat, n: nat)
    requires n > 0
    ensures x % Pow2(n) % 2 == x % 2 && x % Pow2(n) / 2 == x / 2 % Pow2(n - 1)
  {
    HalvesOf(x, x / 2, Pow2(n - 1));
  }

  lemma HalvesOf(x: nat, h: nat, p: nat)
    requires p > 0 && h == x / 2
    ensures x % (2 * p) == 2 * (h % p) + x % 2
  {
    var q, r := h / p, h % p;
    assert h == p * q + r;
    assert 2 * (p * q) == (2 * p) * q;
    RemainderIs(x, 2 * p, q, 2 * r + x % 2);
  }

  lemma RemainderIs(v: nat, d: nat, q: nat, r: nat)
    requires d > 0 && v == d * q + r && r < d
    ensures v % d == r
  {
    DivisionIs(v, d, q, r);
  }

  /** The low bits of an exclusive or depend on low bits only. */
  lemma {:induction false} XorLow(x: nat, y: nat, n: nat)
    ensures Xor(x, y) % Pow2(n) == Xor(x % Pow2(n), y % Pow2(n))
    decreases n
  {
    if n == 0 {
      assert Pow2(0) == 1;
    } else {
      XorLow(x / 2, y / 2, n - 1);
      Halves(x, n);
      Halves(y, n);
      Halves(Xor(x, y), n);
      XorParts(x, y);
      XorParts(x % Pow2(n), y % Pow2(n));
    }
  }

  // ----- Inclusive or -----

  /** Bitwise inclusive or. */
  function Or(x: nat, y: nat): (r: nat)
  {
    if x == 0 && y == 0 then 0 else (if x % 2 + y % 2 > 0 then 1 else 0) + 2 * Or(x / 2, y / 2)
  }

  lemma {:induction false} OrOfZero(y: nat)
    ensures Or(0, y) == y
  {
    if y > 0 {
      OrOfZero(y / 2);
    }
  }

  lemma HalfMultiple(y: nat, n: nat)
    requires n > 0 && y % Pow2(n) == 0
    ensures y % 2 == 0 && y / 2 % Pow2(n - 1) == 0
  {
    Halves(y, n);
  }

  /** Numbers whose bits do not meet: below 2^n, and a multiple of 2^n. */
  lemma {:induction false} OrIsSum(x: nat, y: nat, n: nat)
    requires x < Pow2(n) && y % Pow2(n) == 0
    ensures Or(x, y) == x + y
    decreases n
  {
    if n == 0 {
      OrOfZero(y);
    } else {
      HalfMultiple(y, n);
      OrIsSum(x / 2, y / 2, n - 1);
    }
  }

  // ----- Bit by bit -----

  /** Bit i of a number. */
  function Bit(x: nat, i: nat): (b: nat) { x / Pow2(i) % 2 }

  lemma HalfBit(x: nat, i: nat)
    ensures Bit(x, i + 1) == Bit(x / 2, i) && Bit(x, 0) == x % 2
  {
    var p, h := Pow2(i), x / 2;
    var q, r := h / p, h % p;
    assert h == p * q + r;
    assert 2 * (p * q) == (2 * p) * q;
    DivisionIs(x, 2 * p, q, 2 * r + x % 2);
  }

  /** An exclusive or has the bits in which the two differ. */
  lemma {:induction false} XorBit(x: nat, y: nat, i: nat)
    ensures Bit(Xor(x, y), i) == if Bit(x, i) == Bit(y, i) then 0 else 1
    decreases i
  {
    hide Xor, Bit;
    XorParts(x, y);
    if i == 0 {
      HalfBit(x, 0);
      HalfBit(y, 0);
      HalfBit(Xor(x, y), 0);
    } else {
      XorBit(x / 2, y / 2, i - 1);
      HalfBit(x, i - 1);
      HalfBit(y, i - 1);
      HalfBit(Xor(x, y), i - 1);
    }
  }

  lemma OrParts(x: nat, y: nat)
    ensures Or(x, y) % 2 == (if x % 2 == 1 || y % 2 == 1 then 1 else 0) && Or(x, y) / 2 == Or(x / 2, y / 2)
  {
    Bits(if x % 2 + y % 2 > 0 then 1 else 0, Or(x / 2, y / 2));
  }

  /** An inclusive or has the bits of either. */
  lemma {:induction false} OrBit(x: nat, y: nat, i: nat)
    ensures Bit(Or(x, y), i) == if Bit(x, i) == 1 || Bit(y, i) == 1 then 1 else 0
    decreases i
  {
    hide Or, Bit;
    OrParts(x, y);
    if i == 0 {
      HalfBit(x, 0);
      HalfBit(y, 0);
      HalfBit(Or(x, y), 0);
    } else {
      OrBit(x / 2, y / 2, i - 1);
      HalfBit(x, i - 1);
      HalfBit(y, i - 1);
      HalfBit(Or(x, y), i - 1);
    }
  }

  lemma DivideByDouble(x: nat, p: nat)
    requires p > 0
    ensures x / (2 * p) == x / 2 / p
  {
    var h := x / 2;
    var q, r := h / p, h % p;
    assert h == p * q + r;
    assert 2 * (p * q) == (2 * p) * q;
    DivisionIs(x, 2 * p, q, 2 * r + x % 2);
  }

  /** Dividing by 2^k drops the lowest k bits. */
  lemma {:induction false} QuotientBit(x: nat, k: nat, i: nat, q: nat)
    requires q == x / Pow2(k)
    ensures Bit(q, i) == Bit(x, i + k)
    decreases k
  {
    hide Bit;
    if k > 0 {
      DivideByDouble(x, Pow2(k - 1));
      QuotientBit(x / 2, k - 1, i, q);
      HalfBit(x, i + k - 1);
    }
  }

  /** A remainder by 2^n has the lowest n bits. */
  lemma {:induction false} RemainderBit(x: nat, n: nat, i: nat)
    requires i < n
    ensures Bit(x % Pow2(n), i) == Bit(x, i)
    decreases i
  {
    hide Bit, Pow2;
    Halves(x, n);
    if i == 0 {
      HalfBit(x, 0);
      HalfBit(x % Pow2(n), 0);
    } else {
      RemainderBit(x / 2, n - 1, i - 1);
      HalfBit(x, i - 1);
      HalfBit(x % Pow2(n), i - 1);
    }
  }

  /** Multiplying by 2^k moves the bits up and leaves zeros. */
  lemma {:induction false} ProductBit(x: nat, k: nat, i: nat)
    ensures Bit(x * Pow2(k), i) == if i < k then 0 else Bit(x, i - k)
    decreases k
  {
    hide Bit;
    if k > 0 {
      assert x * Pow2(k) == 2 * (x * Pow2(k - 1));
      Bits(0, x * Pow2(k - 1));
      if i == 0 {
        HalfBit(x * Pow2(k), 0);
      } else {
        HalfBit(x * Pow2(k), i - 1);
        ProductBit(x, k - 1, i - 1);
      }
    }
  }
}

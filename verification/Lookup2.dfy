/** The reversible mixer of lookup2, on words of any width. */
module Lookup2 {
  import opened Arithmetic
  import opened Bitwise

  // ----- Words -----

  /** Words of `size` values: 2^32 or 2^64. */
  function Sub(x: nat, y: nat, size: nat): (r: nat)
    requires size > 0
    ensures r < size
  {
    (x - y) % size
  }

  function Right(x: nat, k: nat): (r: nat)
  {
    QuotientBound(x, Pow2(k));
    x / Pow2(k)
  }

  function Left(x: nat, k: nat, size: nat): (r: nat)
    requires size > 0
    ensures r < size
  {
    x * Pow2(k) % size
  }

  /** Shifting right drops k bits; shifting left in words of n bits moves the others up. */
  lemma ShiftedBits(x: nat, k: nat, n: nat, i: nat)
    requires i < n
    ensures Bit(Right(x, k), i) == Bit(x, i + k)
    ensures Bit(Left(x, k, Pow2(n)), i) == if i < k then 0 else Bit(x, i - k)
  {
    hide Bit, Pow2;
    QuotientBit(x, k, i, Right(x, k));
    RemainderBit(x * Pow2(k), n, i);
    ProductBit(x, k, i);
  }

  /** Subtracting in words of n bits: the word that adds up to the first again. */
  lemma SubAdds(x: nat, y: nat, size: nat)
    requires x < size && y < size
    ensures Sub(x, y, size) + y == x || Sub(x, y, size) + y == x + size
  {
    hide Sub;
    SubIs(x, y, size);
  }

  // ----- The mixer -----

  /** One line: x -= y; x -= z; x ^= w. */
  function Step(x: nat, y: nat, z: nat, w: nat, size: nat): (r: nat)
    requires size > 0
  {
    Xor(Sub(Sub(x, y, size), z, size), w)
  }

  function Unstep(x: nat, y: nat, z: nat, w: nat, size: nat): (r: nat)
    requires size > 0
  {
    (Xor(x, w) + z + y) % size
  }

  datatype Triple = Triple(a: nat, b: nat, c: nat)

  function Mix(t: Triple, size: nat): (r: Triple)
    requires size > 0
  {
    var a1 := Step(t.a, t.b, t.c, Right(t.c, 13), size);
    var b1 := Step(t.b, t.c, a1, Left(a1, 8, size), size);
    var c1 := Step(t.c, a1, b1, Right(b1, 13), size);
    var a2 := Step(a1, b1, c1, Right(c1, 12), size);
    var b2 := Step(b1, c1, a2, Left(a2, 16, size), size);
    var c2 := Step(c1, a2, b2, Right(b2, 5), size);
    var a3 := Step(a2, b2, c2, Right(c2, 3), size);
    var b3 := Step(b2, c2, a3, Left(a3, 10, size), size);
    var c3 := Step(c2, a3, b3, Right(b3, 15), size);
    Triple(a3, b3, c3)
  }

  /** The lines undone, last first. */
  function Unmix(t: Triple, size: nat): (r: Triple)
    requires size > 0
  {
    var c2 := Unstep(t.c, t.a, t.b, Right(t.b, 15), size);
    var b2 := Unstep(t.b, c2, t.a, Left(t.a, 10, size), size);
    var a2 := Unstep(t.a, b2, c2, Right(c2, 3), size);
    var c1 := Unstep(c2, a2, b2, Right(b2, 5), size);
    var b1 := Unstep(b2, c1, a2, Left(a2, 16, size), size);
    var a1 := Unstep(a2, b1, c1, Right(c1, 12), size);
    var c0 := Unstep(c1, a1, b1, Right(b1, 13), size);
    var b0 := Unstep(b1, c0, a1, Left(a1, 8, size), size);
    var a0 := Unstep(a1, b0, c0, Right(c0, 13), size);
    Triple(a0, b0, c0)
  }

  predicate Words(t: Triple, size: nat) { t.a < size && t.b < size && t.c < size }

  lemma SubIs(x: nat, y: nat, size: nat)
    requires x < size && y < size
    ensures Sub(x, y, size) == if x >= y then x - y else x - y + size
  {
    if x >= y {
      RemainderIs(x - y, size, 0, x - y);
    } else {
      SignedRemainder(x - y, size);
    }
  }

  lemma SignedRemainder(v: int, size: nat)
    requires size > 0 && 0 <= v + size && v < 0
    ensures v % size == v + size
  {
    IntRemainder(v, size, -1, v + size);
  }

  /** Adding back what was subtracted. */
  lemma SubThenAdd(x: nat, y: nat, z: nat, size: nat)
    requires x < size && y < size && z < size
    ensures (Sub(Sub(x, y, size), z, size) + z + y) % size == x
  {
    SubIs(x, y, size);
    SubIs(Sub(x, y, size), z, size);
    var v := Sub(Sub(x, y, size), z, size) + z + y;
    assert v in {x, x + size, x + 2 * size};
    RemainderIs(v, size, if v == x then 0 else if v == x + size then 1 else 2, x);
  }

  lemma AddThenSub(x: nat, y: nat, z: nat, size: nat)
    requires x < size && y < size && z < size
    ensures (x + z + y) % size < size && Sub(Sub((x + z + y) % size, y, size), z, size) == x
  {
    var v := x + z + y;
    if v < size {
      RemainderIs(v, size, 0, v);
    } else if v < 2 * size {
      RemainderIs(v, size, 1, v - size);
    } else {
      RemainderIs(v, size, 2, v - 2 * size);
    }
    SubIs(v % size, y, size);
    SubIs(Sub(v % size, y, size), z, size);
  }

  lemma StepInverse(x: nat, y: nat, z: nat, w: nat, n: nat)
    requires x < Pow2(n) && y < Pow2(n) && z < Pow2(n) && w < Pow2(n)
    ensures Step(x, y, z, w, Pow2(n)) < Pow2(n) && Unstep(x, y, z, w, Pow2(n)) < Pow2(n)
    ensures Unstep(Step(x, y, z, w, Pow2(n)), y, z, w, Pow2(n)) == x
    ensures Step(Unstep(x, y, z, w, Pow2(n)), y, z, w, Pow2(n)) == x
  {
    hide Xor, Pow2, Sub;
    var s := Sub(Sub(x, y, Pow2(n)), z, Pow2(n));
    XorBound(s, w, n);
    XorTwice(s, w);
    SubThenAdd(x, y, z, Pow2(n));
    XorBound(x, w, n);
    XorTwice(x, w);
    AddThenSub(Xor(x, w), y, z, Pow2(n));
  }

  lemma RightBound(x: nat, k: nat, size: nat)
    requires x < size
    ensures Right(x, k) < size
  {
    QuotientBound(x, Pow2(k));
  }

  /** Undoing what was done. */
  lemma UnmixMix(t: Triple, n: nat)
    requires Words(t, Pow2(n))
    ensures Words(Mix(t, Pow2(n)), Pow2(n)) && Unmix(Mix(t, Pow2(n)), Pow2(n)) == t
  {
    hide Step, Unstep, Right, Left, Pow2;
    var size := Pow2(n);
    var a, b, c := t.a, t.b, t.c;
    RightBound(c, 13, size);
    StepInverse(a, b, c, Right(c, 13), n);
    a := Step(a, b, c, Right(c, 13), size);
    StepInverse(b, c, a, Left(a, 8, size), n);
    b := Step(b, c, a, Left(a, 8, size), size);
    RightBound(b, 13, size);
    StepInverse(c, a, b, Right(b, 13), n);
    c := Step(c, a, b, Right(b, 13), size);
    RightBound(c, 12, size);
    StepInverse(a, b, c, Right(c, 12), n);
    a := Step(a, b, c, Right(c, 12), size);
    StepInverse(b, c, a, Left(a, 16, size), n);
    b := Step(b, c, a, Left(a, 16, size), size);
    RightBound(b, 5, size);
    StepInverse(c, a, b, Right(b, 5), n);
    c := Step(c, a, b, Right(b, 5), size);
    RightBound(c, 3, size);
    StepInverse(a, b, c, Right(c, 3), n);
    a := Step(a, b, c, Right(c, 3), size);
    StepInverse(b, c, a, Left(a, 10, size), n);
    b := Step(b, c, a, Left(a, 10, size), size);
    RightBound(b, 15, size);
    StepInverse(c, a, b, Right(b, 15), n);
  }

  /** Doing what was undone. */
  lemma MixUnmix(t: Triple, n: nat)
    requires Words(t, Pow2(n))
    ensures Words(Unmix(t, Pow2(n)), Pow2(n)) && Mix(Unmix(t, Pow2(n)), Pow2(n)) == t
  {
    hide Step, Unstep, Right, Left, Pow2;
    var size := Pow2(n);
    var a, b, c := t.a, t.b, t.c;
    RightBound(b, 15, size);
    StepInverse(c, a, b, Right(b, 15), n);
    c := Unstep(c, a, b, Right(b, 15), size);
    StepInverse(b, c, a, Left(a, 10, size), n);
    b := Unstep(b, c, a, Left(a, 10, size), size);
    RightBound(c, 3, size);
    StepInverse(a, b, c, Right(c, 3), n);
    a := Unstep(a, b, c, Right(c, 3), size);
    RightBound(b, 5, size);
    StepInverse(c, a, b, Right(b, 5), n);
    c := Unstep(c, a, b, Right(b, 5), size);
    StepInverse(b, c, a, Left(a, 16, size), n);
    b := Unstep(b, c, a, Left(a, 16, size), size);
    RightBound(c, 12, size);
    StepInverse(a, b, c, Right(c, 12), n);
    a := Unstep(a, b, c, Right(c, 12), size);
    RightBound(b, 13, size);
    StepInverse(c, a, b, Right(b, 13), n);
    c := Unstep(c, a, b, Right(b, 13), size);
    StepInverse(b, c, a, Left(a, 8, size), n);
    b := Unstep(b, c, a, Left(a, 8, size), size);
    RightBound(c, 13, size);
    StepInverse(a, b, c, Right(c, 13), n);
  }

  /** mix, as the macro runs it on words of n bits: the three words can be had back. */
  method RunMix(a0: nat, b0: nat, c0: nat, n: nat) returns (a: nat, b: nat, c: nat)
    requires Words(Triple(a0, b0, c0), Pow2(n))
    ensures Words(Triple(a, b, c), Pow2(n)) && Unmix(Triple(a, b, c), Pow2(n)) == Triple(a0, b0, c0)
    ensures Triple(a, b, c) == Mix(Triple(a0, b0, c0), Pow2(n))
  {
    hide Unmix, Words, Xor, Right, Left, Sub, Pow2;
    var size := Pow2(n);
    a, b, c := a0, b0, c0;
    a := Sub(a, b, size); a := Sub(a, c, size); a := Xor(a, Right(c, 13));
    b := Sub(b, c, size); b := Sub(b, a, size); b := Xor(b, Left(a, 8, size));
    c := Sub(c, a, size); c := Sub(c, b, size); c := Xor(c, Right(b, 13));
    a := Sub(a, b, size); a := Sub(a, c, size); a := Xor(a, Right(c, 12));
    b := Sub(b, c, size); b := Sub(b, a, size); b := Xor(b, Left(a, 16, size));
    c := Sub(c, a, size); c := Sub(c, b, size); c := Xor(c, Right(b, 5));
    a := Sub(a, b, size); a := Sub(a, c, size); a := Xor(a, Right(c, 3));
    b := Sub(b, c, size); b := Sub(b, a, size); b := Xor(b, Left(a, 10, size));
    c := Sub(c, a, size); c := Sub(c, b, size); c := Xor(c, Right(b, 15));
    UnmixMix(Triple(a0, b0, c0), n);
  }

  // ----- 32-bit values in 64-bit words -----

  /** mix2: masks keep the high half out of right shifts. */
  function Mix2(t: Triple, size: nat, low: nat): (r: Triple)
    requires size > 0 && low > 0
  {
    var a1 := Step(t.a, t.b, t.c, Right(t.c, 13), size);
    var b1 := Step(t.b, t.c, a1, Left(a1, 8, size), size);
    var c1 := Step(t.c, a1, b1, Right(b1 % low, 13), size);
    var a2 := Step(a1, b1, c1, Right(c1 % low, 12), size);
    var b2 := Step(b1, c1, a2, Left(a2, 16, size), size) % low;
    var c2 := Step(c1, a2, b2, Right(b2, 5), size) % low;
    var a3 := Step(a2, b2, c2, Right(c2, 3), size) % low;
    var b3 := Step(b2, c2, a3, Left(a3, 10, size), size) % low;
    var c3 := Step(c2, a3, b3, Right(b3, 15), size) % low;
    Triple(a3, b3, c3)
  }

  lemma ModOfMod(v: int, low: nat, k: nat)
    requires low > 0 && k > 0
    ensures low * k > 0 && v % (low * k) % low == v % low
  {
    assert low * k >= low;
    var m := low * k;
    var q, r := v / m, v % m;
    assert v == m * q + r;
    var q', r' := r / low, r % low;
    assert r == low * q' + r';
    assert v == low * (k * q + q') + r' by {
      assert m * q == low * (k * q);
      assert low * (k * q + q') == low * (k * q) + low * q';
    }
    IntRemainder(v, low, k * q + q', r');
  }

  lemma SubLow(x: nat, y: nat, low: nat, k: nat)
    requires low > 0 && k > 0 && low * k > 0
    ensures Sub(x, y, low * k) % low == Sub(x % low, y % low, low)
  {
    ModOfMod(x - y, low, k);
    var p, q := x / low, y / low;
    assert x == low * p + x % low && y == low * q + y % low;
    assert x - y == (x % low - y % low) + low * (p - q);
    SameRemainder(x - y, x % low - y % low, low, p - q);
  }

  lemma LeftLow(x: nat, s: nat, low: nat, k: nat)
    requires low > 0 && k > 0 && low * k > 0
    ensures Left(x, s, low * k) % low == Left(x % low, s, low)
  {
    var p := Pow2(s);
    ModOfMod(x * p, low, k);
    var q := x / low;
    assert x == low * q + x % low;
    assert x * p == x % low * p + low * (q * p);
    SameRemainder(x * p, x % low * p, low, q * p);
  }

  lemma SmallMod(x: nat, d: nat)
    requires x < d
    ensures x % d == x
  {
  }

  /** A line on wider words, seen through its low bits. */
  lemma StepLow(x: nat, y: nat, z: nat, w: nat, n: nat, k: nat)
    requires k > 0 && Pow2(n) * k > 0
    ensures Step(x, y, z, w, Pow2(n) * k) % Pow2(n)
         == Step(x % Pow2(n), y % Pow2(n), z % Pow2(n), w % Pow2(n), Pow2(n))
    ensures Step(x % Pow2(n), y % Pow2(n), z % Pow2(n), w % Pow2(n), Pow2(n)) < Pow2(n)
  {
    hide Xor, Pow2, Sub;
    var low, s := Pow2(n), Sub(x, y, Pow2(n) * k);
    SubLow(x, y, low, k);
    SubLow(s, z, low, k);
    XorLow(Sub(s, z, low * k), w, n);
    XorBound(Sub(Sub(x % low, y % low, low), z % low, low), w % low, n);
  }

  /** mix2 on words that are wide enough, holding narrow values, is the narrow mix. */
  lemma Mix2IsMix(t: Triple, n: nat, k: nat)
    requires k > 0 && Pow2(n) * k > 0 && Words(t, Pow2(n))
    ensures Mix2(t, Pow2(n) * k, Pow2(n)) == Mix(t, Pow2(n))
  {
    hide Step, Right, Left, Pow2;
    var low, size := Pow2(n), Pow2(n) * k;
    var a, b, c := t.a, t.b, t.c;
    SmallMod(a, low);
    SmallMod(b, low);
    SmallMod(c, low);
    RightBound(c, 13, low);
    SmallMod(Right(c, 13), low);
    StepLow(a, b, c, Right(c, 13), n, k);
    var a1 := Step(a, b, c, Right(c, 13), size);
    LeftLow(a1, 8, low, k);
    StepLow(b, c, a1, Left(a1, 8, size), n, k);
    var b1 := Step(b, c, a1, Left(a1, 8, size), size);
    RightBound(b1 % low, 13, low);
    SmallMod(Right(b1 % low, 13), low);
    StepLow(c, a1, b1, Right(b1 % low, 13), n, k);
    var c1 := Step(c, a1, b1, Right(b1 % low, 13), size);
    RightBound(c1 % low, 12, low);
    SmallMod(Right(c1 % low, 12), low);
    StepLow(a1, b1, c1, Right(c1 % low, 12), n, k);
    var a2 := Step(a1, b1, c1, Right(c1 % low, 12), size);
    LeftLow(a2, 16, low, k);
    StepLow(b1, c1, a2, Left(a2, 16, size), n, k);
    SecondHalf(a2, Step(b1, c1, a2, Left(a2, 16, size), size) % low, c1, n, k);
  }

  /** Lines six to nine, whose words are masked. */
  function Tail(a2: nat, b2: nat, c1: nat, size: nat, low: nat): (r: Triple)
    requires size > 0 && low > 0
  {
    var c2 := Step(c1, a2, b2, Right(b2, 5), size) % low;
    var a3 := Step(a2, b2, c2, Right(c2, 3), size) % low;
    var b3 := Step(b2, c2, a3, Left(a3, 10, size), size) % low;
    var c3 := Step(c2, a3, b3, Right(b3, 15), size) % low;
    Triple(a3, b3, c3)
  }

  lemma SecondHalf(a2: nat, b2: nat, c1: nat, n: nat, k: nat)
    requires k > 0 && Pow2(n) * k > 0 && b2 < Pow2(n)
    ensures Tail(a2, b2, c1, Pow2(n) * k, Pow2(n)) == Tail(a2 % Pow2(n), b2, c1 % Pow2(n), Pow2(n), Pow2(n))
    ensures var low := Pow2(n);
      var c2 := Step(c1 % low, a2 % low, b2, Right(b2, 5), low);
      var a3 := Step(a2 % low, b2, c2, Right(c2, 3), low);
      var b3 := Step(b2, c2, a3, Left(a3, 10, low), low);
      Tail(a2 % low, b2, c1 % low, low, low) == Triple(a3, b3, Step(c2, a3, b3, Right(b3, 15), low))
  {
    hide Step, Right, Left, Pow2;
    var low, size := Pow2(n), Pow2(n) * k;
    SmallMod(b2, low);
    RightBound(b2, 5, low);
    SmallMod(Right(b2, 5), low);
    StepLow(c1, a2, b2, Right(b2, 5), n, k);
    var c2 := Step(c1, a2, b2, Right(b2, 5), size) % low;
    SmallMod(c2, low);
    RightBound(c2, 3, low);
    SmallMod(Right(c2, 3), low);
    StepLow(a2, b2, c2, Right(c2, 3), n, k);
    var a3 := Step(a2, b2, c2, Right(c2, 3), size) % low;
    SmallMod(a3, low);
    LeftLow(a3, 10, low, k);
    StepLow(b2, c2, a3, Left(a3, 10, size), n, k);
    var b3 := Step(b2, c2, a3, Left(a3, 10, size), size) % low;
    SmallMod(b3, low);
    RightBound(b3, 15, low);
    SmallMod(Right(b3, 15), low);
    StepLow(c2, a3, b3, Right(b3, 15), n, k);
    SmallMod(Step(c2, a3, b3, Right(b3, 15), size) % low, low);
  }
}

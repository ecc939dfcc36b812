/** LEB128 numbers (section 7.6 of DWARF Version 5), as the symbol resolver reads them. */
module Leb128 {
  import opened Arithmetic
  import opened Bitwise
  import opened Bytes
  import opened Options

  datatype Reading = Reading(value: nat, next: nat)

  /** What one group contributes to a 64-bit number. */
  function Part(group: byte, scale: nat): (n: nat) { group % 0x80 * scale % TWO64 }

  /** Groups of seven bits from p on, the first one worth `scale` = 2^bit. Groups past bit
      63 are ignored, and what a group has above bit 63 is shifted out. None when the
      number runs past the buffer. */
  function Groups(b: seq<byte>, p: nat, bit: nat, scale: nat): (r: Option<Reading>)
    decreases |b| - p
  {
    if p >= |b| then None
    else
      var part := if bit > 63 then 0 else Part(b[p], scale);
      if b[p] < 0x80 then Some(Reading(part, p + 1))
      else
        var rest := Groups(b, p + 1, if bit > 63 then bit else bit + 7, if bit > 63 then scale else scale * 0x80);
        if rest.None? then None else Some(Reading(part + rest.value.value, rest.value.next))
  }

  function Uleb(b: seq<byte>, p: nat): (r: Option<Reading>)
  {
    Groups(b, p, 0, 1)
  }

  lemma {:induction false} GroupsNext(b: seq<byte>, p: nat, bit: nat, scale: nat)
    requires Groups(b, p, bit, scale).Some?
    ensures p < Groups(b, p, bit, scale).value.next <= |b|
    decreases |b| - p
  {
    if b[p] >= 0x80 {
      GroupsNext(b, p + 1, if bit > 63 then bit else bit + 7, if bit > 63 then scale else scale * 0x80);
    }
  }

  lemma Pow2Sum(m: nat, n: nat)
    ensures Pow2(m + n) == Pow2(m) * Pow2(n)
  {
    if m > 0 {
      Pow2Sum(m - 1, n);
      assert Pow2(m + n) == 2 * Pow2(m - 1 + n);
      assert 2 * (Pow2(m - 1) * Pow2(n)) == (2 * Pow2(m - 1)) * Pow2(n);
    }
  }

  lemma SmallPow2()
    ensures Pow2(0) == 1 && Pow2(7) == 0x80 && Pow2(8) == 0x100 && Pow128(0) == 1
  {
  }

  lemma Pow2Is64()
    ensures Pow2(64) == TWO64 && Pow2(7) == 0x80
  {
    hide Pow2;
    SmallPow2();
    Pow2Sum(8, 8);
    Pow2Sum(16, 16);
    Pow2Sum(32, 32);
  }

  /** What a group contributes has no bit below `bit`, and fits in 64. */
  lemma PartBits(group: byte, bit: nat)
    requires bit <= 63
    ensures Part(group, Pow2(bit)) % Pow2(bit) == 0
    ensures Part(group, Pow2(bit)) + Pow2(bit) <= TWO64 && Part(group, Pow2(bit)) + Pow2(bit) <= Pow2(bit + 7)
  {
    hide Pow2;
    var x, s, c := group % 0x80, Pow2(bit), Pow2(64 - bit);
    Pow2Is64();
    Pow2Sum(bit, 64 - bit);
    Pow2Sum(bit, 7);
    ScaledRemainder(x, s, c);
    BelowTimes(x, 0x80, s);
  }

  /** Cutting a scaled number cuts the number. */
  lemma ScaledRemainder(x: nat, s: nat, c: nat)
    requires s > 0 && c > 0
    ensures s * c > 0
    ensures var r := x * s % (s * c); r % s == 0 && r + s <= s * c && r <= x * s
  {
    TimesAtLeast(s, c);
    var q, r := x / c, x % c;
    assert x * s == s * c * q + r * s by {
      assert x == c * q + r;
      assert c * q * s == s * c * q;
    }
    BelowTimes(r, c, s);
    RemainderIs(x * s, s * c, q, r * s);
    ModMultiple(r, s);
    QuotientBound(x, c);
    assert s * c * q >= 0;
  }

  lemma BelowTimes(r: nat, c: nat, s: nat)
    requires r < c
    ensures r * s + s <= s * c
  {
    assert s * c == r * s + (c - r) * s;
    TimesAtLeast(c - r, s);
  }

  /** The groups never overlap: or-ing the next one in adds it. */
  lemma GroupAdds(result: nat, group: byte, bit: nat)
    requires bit <= 63 && result < Pow2(bit)
    ensures var sum := Or(result, Part(group, Pow2(bit)));
      sum == result + Part(group, Pow2(bit)) && sum < TWO64 && sum < Pow2(bit + 7)
  {
    hide Or, Part, Pow2;
    PartBits(group, bit);
    OrIsSum(result, Part(group, Pow2(bit)), bit);
  }

  /** read_uleb128. */
  method ReadUleb128(b: seq<byte>, p: nat) returns (r: Option<Reading>)
    ensures r == Uleb(b, p)
  {
    hide Pow2, Or, Part;
    var q: nat, result: nat, bit: nat, scale: nat := p, 0, 0, 1;
    SmallPow2();
    while true
      invariant p <= q && Uleb(b, p) == Added(result, Groups(b, q, bit, scale))
      invariant scale == Pow2(bit) && (bit <= 63 ==> result < scale)
      decreases |b| - q
    {
      if q >= |b| {
        return None;
      }
      if bit <= 63 {
        GroupAdds(result, b[q], bit);
        Pow2Is64();
        Pow2Sum(bit, 7);
        result := Or(result, Part(b[q], scale));
        bit, scale := bit + 7, scale * 0x80;
      }
      q := q + 1;
      if b[q - 1] < 0x80 {
        return Some(Reading(result, q));
      }
    }
  }

  function Added(n: nat, r: Option<Reading>): (s: Option<Reading>)
  {
    if r.None? then None else Some(Reading(n + r.value.value, r.value.next))
  }

  // ----- Writing -----

  function Encode(v: nat): (s: seq<byte>)
  {
    if v < 0x80 then [v] else [v % 0x80 + 0x80] + Encode(v / 0x80)
  }

  lemma SplitScaled(v: nat, scale: nat)
    ensures v % 0x80 * scale + v / 0x80 * (scale * 0x80) == v * scale
    ensures v % 0x80 * scale <= v * scale && v / 0x80 * (scale * 0x80) <= v * scale
  {
    assert v == v % 0x80 + v / 0x80 * 0x80;
    assert v / 0x80 * 0x80 * scale == v / 0x80 * (scale * 0x80);
    assert (v % 0x80 + v / 0x80 * 0x80) * scale == v % 0x80 * scale + v / 0x80 * 0x80 * scale;
    assert v % 0x80 * scale >= 0 && v / 0x80 * (scale * 0x80) >= 0;
  }

  lemma EncodedTail(b: seq<byte>, p: nat, v: nat)
    requires v >= 0x80 && p + |Encode(v)| <= |b| && b[p..p + |Encode(v)|] == Encode(v)
    ensures b[p] == v % 0x80 + 0x80 && |Encode(v)| == 1 + |Encode(v / 0x80)|
    ensures b[p + 1..p + 1 + |Encode(v / 0x80)|] == Encode(v / 0x80)
  {
    var rest := Encode(v / 0x80);
    assert Encode(v) == [v % 0x80 + 0x80] + rest;
    assert b[p] == b[p..p + |Encode(v)|][0];
    assert b[p + 1..p + 1 + |rest|] == b[p..p + |Encode(v)|][1..];
  }

  lemma SmallPart(group: byte, low: nat, scale: nat)
    requires group % 0x80 == low && low * scale < TWO64
    ensures Part(group, scale) == low * scale
  {
  }

  lemma {:induction false} GroupsOfEncoding(b: seq<byte>, p: nat, v: nat, bit: nat, scale: nat)
    requires p + |Encode(v)| <= |b| && b[p..p + |Encode(v)|] == Encode(v)
    requires v * scale < TWO64 && bit <= 63 && scale == Pow2(bit)
    ensures Groups(b, p, bit, scale) == Some(Reading(v * scale, p + |Encode(v)|))
    decreases v
  {
    hide Pow2, Part;
    if v < 0x80 {
      assert b[p] == b[p..p + |Encode(v)|][0];
      SmallPart(v, v, scale);
    } else {
      EncodedTail(b, p, v);
      SplitScaled(v, scale);
      ScaleStep(v, bit);
      SmallPart(b[p], v % 0x80, scale);
      var low, high := v % 0x80 * scale, v / 0x80 * (scale * 0x80);
      GroupsOfEncoding(b, p + 1, v / 0x80, bit + 7, scale * 0x80);
      assert Groups(b, p, bit, scale) == Some(Reading(low + high, p + |Encode(v)|));
    }
  }

  /** A number that still has a group to come has not reached bit 63. */
  lemma ScaleStep(v: nat, bit: nat)
    requires v >= 0x80 && v * Pow2(bit) < TWO64 && bit <= 63
    ensures bit + 7 <= 63 && Pow2(bit + 7) == Pow2(bit) * 0x80
  {
    hide Pow2;
    Pow2Is64();
    Pow2Sum(bit, 7);
    assert v * Pow2(bit) >= 0x80 * Pow2(bit);
    Pow2Grows(64, bit + 7);
  }

  lemma {:induction false} Pow2Grows(m: nat, n: nat)
    ensures m <= n ==> Pow2(m) <= Pow2(n)
  {
    if m < n {
      Pow2Grows(m, n - 1);
    }
  }

  /** read_uleb128 inverts the encoding of every 64-bit value. */
  lemma UlebRoundTrip(b: seq<byte>, p: nat, v: uint64)
    requires p + |Encode(v)| <= |b| && b[p..p + |Encode(v)|] == Encode(v)
    ensures Uleb(b, p) == Some(Reading(v, p + |Encode(v)|))
  {
    SmallPow2();
    GroupsOfEncoding(b, p, v, 0, 1);
  }

  // ----- Signed numbers -----

  /** Groups of a signed number; bit never stops growing here. `sign` is bit 6 of the last
      group, `bit` the position after it. */
  datatype SignedReading = SignedReading(sum: nat, bit: nat, sign: bool, next: nat)

  function SignedGroups(b: seq<byte>, p: nat, bit: nat, scale: nat): (r: Option<SignedReading>)
    decreases |b| - p
  {
    if p >= |b| || bit > 63 then None
    else
      var part := Part(b[p], scale);
      if b[p] < 0x80 then Some(SignedReading(part, bit + 7, b[p] / 0x40 % 2 == 1, p + 1))
      else
        var rest := SignedGroups(b, p + 1, bit + 7, scale * 0x80);
        if rest.None? then None
        else Some(SignedReading(part + rest.value.sum, rest.value.bit, rest.value.sign, rest.value.next))
  }

  function Pow128(n: nat): (s: nat)
    ensures s > 0
  {
    if n == 0 then 1 else 0x80 * Pow128(n - 1)
  }

  datatype SignedResult = Value(value: int, next: nat) | Undefined

  /** read_sleb128: a shift by more than 63 bits, in a group or in the sign extension, is
      undefined. `scale` is 2^bit at the end of the number. */
  function Sleb(b: seq<byte>, p: nat): (r: SignedResult)
  {
    var g := SignedGroups(b, p, 0, 1);
    if g.None? then Undefined
    else if g.value.sign && g.value.bit > 63 then Undefined
    else
      var u := if g.value.sign then g.value.sum + TWO64 - Pow128(g.value.bit / 7) else g.value.sum;
      Value(if u >= TWO64 / 2 then u - TWO64 else u, g.value.next)
  }

  function AddedSigned(n: nat, r: Option<SignedReading>): (s: Option<SignedReading>)
  {
    if r.None? then None else Some(r.value.(sum := n + r.value.sum))
  }

  lemma SignedUnfold(b: seq<byte>, q: nat, bit: nat, scale: nat)
    requires q < |b| && bit <= 63
    ensures SignedGroups(b, q, bit, scale)
         == if b[q] < 0x80 then Some(SignedReading(Part(b[q], scale), bit + 7, b[q] / 0x40 % 2 == 1, q + 1))
            else AddedSigned(Part(b[q], scale), SignedGroups(b, q + 1, bit + 7, scale * 0x80))
  {
    hide Part;
  }

  lemma PowerStep(bit: nat)
    requires bit % 7 == 0
    ensures (bit + 7) % 7 == 0 && Pow128((bit + 7) / 7) == Pow128(bit / 7) * 0x80
    ensures Pow2(bit + 7) == Pow2(bit) * 0x80
  {
    assert (bit + 7) / 7 == bit / 7 + 1;
    Pow2Is64();
    Pow2Sum(bit, 7);
  }

  /** (~0ULL) << bit sets exactly the bits from `bit` up. */
  lemma SignExtends(result: nat, bit: nat)
    requires bit <= 63 && result < Pow2(bit)
    ensures Pow2(bit) <= TWO64 && Or(result, TWO64 - Pow2(bit)) == result + TWO64 - Pow2(bit) < TWO64
  {
    hide Pow2, Or;
    var s, c := Pow2(bit), Pow2(64 - bit);
    Pow2Is64();
    Pow2Sum(bit, 64 - bit);
    TimesAtLeast(c, s);
    assert TWO64 - s == (c - 1) * s;
    ModMultiple(c - 1, s);
    OrIsSum(result, TWO64 - s, bit);
  }

  /** read_sleb128. */
  method ReadSleb128(b: seq<byte>, p: nat) returns (r: SignedResult)
    ensures r == Sleb(b, p)
  {
    hide SignedGroups, Part, Pow2, Or, Pow128;
    var q: nat, result: nat, bit: nat, scale: nat := p, 0, 0, 1;
    SmallPow2();
    while q < |b| && bit <= 63
      invariant p <= q && bit % 7 == 0 && scale == Pow128(bit / 7) == Pow2(bit)
      invariant bit <= 63 ==> result < scale
      invariant SignedGroups(b, p, 0, 1) == AddedSigned(result, SignedGroups(b, q, bit, scale))
      decreases |b| - q
    {
      SignedUnfold(b, q, bit, scale);
      PowerStep(bit);
      GroupAdds(result, b[q], bit);
      result := Or(result, Part(b[q], scale));
      q, bit, scale := q + 1, bit + 7, scale * 0x80;
      if b[q - 1] < 0x80 {
        var sign := b[q - 1] / 0x40 % 2 == 1;
        if sign {
          if bit > 63 {
            return Undefined;
          }
          SignExtends(result, bit);
          result := Or(result, TWO64 - scale);
        }
        return Value(if result >= TWO64 / 2 then result - TWO64 else result, q);
      }
    }
    NoGroups(b, q, bit, scale);
    return Undefined;
  }

  lemma NoGroups(b: seq<byte>, q: nat, bit: nat, scale: nat)
    requires q >= |b| || bit > 63
    ensures SignedGroups(b, q, bit, scale) == None
  {
  }

  /** Arithmetic shift right by seven, and the low seven bits. */
  function EncodeSigned(v: int): (s: seq<byte>)
    ensures |s| >= 1 && (|s| == 1 <==> -0x40 <= v < 0x40)
    decreases if v < 0 then -v else v
  {
    if -0x40 <= v < 0 then [v + 0x80]
    else if 0 <= v < 0x40 then [v]
    else [v % 0x80 + 0x80] + EncodeSigned((v - v % 0x80) / 0x80)
  }

  function High(v: int): (h: int) { (v - v % 0x80) / 0x80 }

  lemma HighIs(v: int)
    ensures v == v % 0x80 + 0x80 * High(v) && (v >= 0 <==> High(v) >= 0)
  {
  }

  /** How many bytes a signed number takes. */
  lemma {:induction false} SignedLength(v: int, n: nat)
    requires n >= 1
    ensures |EncodeSigned(v)| <= n <==> -0x40 * Pow128(n - 1) <= v < 0x40 * Pow128(n - 1)
    decreases n
  {
    HighIs(v);
    if n > 1 && !(-0x40 <= v < 0x40) {
      SignedLength(High(v), n - 1);
      assert Pow128(n - 1) == 0x80 * Pow128(n - 2);
    } else if n > 1 {
      assert Pow128(n - 1) >= 1;
    } else {
      assert Pow128(0) == 1;
    }
  }

  /** The bits a signed number leaves in its groups. */
  function Residue(v: int): (r: int)
  {
    if v >= 0 then v else v + Pow128(|EncodeSigned(v)|)
  }

  lemma {:induction false} ResidueNext(v: int)
    ensures Residue(v) >= 0
    ensures !(-0x40 <= v < 0x40) ==> Residue(v) == v % 0x80 + 0x80 * Residue(High(v))
    decreases if v < 0 then -v else v
  {
    HighIs(v);
    if !(-0x40 <= v < 0x40) {
      ResidueNext(High(v));
      assert EncodeSigned(v) == [v % 0x80 + 0x80] + EncodeSigned(High(v));
    } else {
      assert Pow128(1) == 0x80 * Pow128(0);
    }
  }

  lemma SignedTail(b: seq<byte>, p: nat, v: int)
    requires !(-0x40 <= v < 0x40) && p + |EncodeSigned(v)| <= |b| && b[p..p + |EncodeSigned(v)|] == EncodeSigned(v)
    ensures b[p] == v % 0x80 + 0x80 && |EncodeSigned(v)| == 1 + |EncodeSigned(High(v))|
    ensures b[p + 1..p + 1 + |EncodeSigned(High(v))|] == EncodeSigned(High(v))
  {
    var rest := EncodeSigned(High(v));
    assert EncodeSigned(v) == [v % 0x80 + 0x80] + rest;
    assert b[p] == b[p..p + |EncodeSigned(v)|][0];
    assert b[p + 1..p + 1 + |rest|] == b[p..p + |EncodeSigned(v)|][1..];
  }

  lemma Scaled(low: nat, high: nat, scale: nat)
    ensures low * scale + high * (scale * 0x80) == (low + 0x80 * high) * scale
    ensures low * scale <= (low + 0x80 * high) * scale && high * (scale * 0x80) <= (low + 0x80 * high) * scale
  {
    assert high * (scale * 0x80) == 0x80 * high * scale;
    assert low * scale >= 0 && high * (scale * 0x80) >= 0;
  }

  lemma {:induction false} SignedGroupsOf(b: seq<byte>, p: nat, v: int, bit: nat, scale: nat)
    requires p + |EncodeSigned(v)| <= |b| && b[p..p + |EncodeSigned(v)|] == EncodeSigned(v)
    requires bit <= 63 && bit + 7 * (|EncodeSigned(v)| - 1) <= 63
    requires Residue(v) >= 0 && Residue(v) * scale < TWO64
    ensures SignedGroups(b, p, bit, scale)
         == Some(SignedReading(Residue(v) * scale, bit + 7 * |EncodeSigned(v)|, v < 0, p + |EncodeSigned(v)|))
    decreases if v < 0 then -v else v
  {
    hide Part, Residue, Pow128, SignedGroups, EncodeSigned, High;
    if -0x40 <= v < 0x40 {
      SignedLast(b, p, v, bit, scale);
    } else {
      HighIs(v);
      ResidueNext(v);
      SignedTail(b, p, v);
      ResidueNext(High(v));
      var low, rest := v % 0x80, Residue(High(v));
      Scaled(low, rest, scale);
      SmallPart(b[p], low, scale);
      SignedGroupsOf(b, p + 1, High(v), bit + 7, scale * 0x80);
      SignedStep(b, p, bit, scale, low * scale, rest * (scale * 0x80));
    }
  }

  lemma SignedLast(b: seq<byte>, p: nat, v: int, bit: nat, scale: nat)
    requires -0x40 <= v < 0x40 && p + 1 <= |b| && b[p..p + 1] == EncodeSigned(v) && bit <= 63
    requires 0 <= Residue(v) && Residue(v) * scale < TWO64
    ensures |EncodeSigned(v)| == 1
    ensures SignedGroups(b, p, bit, scale) == Some(SignedReading(Residue(v) * scale, bit + 7, v < 0, p + 1))
  {
    hide Part, Residue, Pow128;
    assert b[p] == b[p..p + 1][0];
    LastResidue(v);
    SmallPart(b[p], Residue(v), scale);
  }

  lemma SignedStep(b: seq<byte>, p: nat, bit: nat, scale: nat, part: nat, sum: nat)
    requires p < |b| && b[p] >= 0x80 && bit <= 63 && Part(b[p], scale) == part
    requires SignedGroups(b, p + 1, bit + 7, scale * 0x80).Some?
      && SignedGroups(b, p + 1, bit + 7, scale * 0x80).value.sum == sum
    ensures var rest := SignedGroups(b, p + 1, bit + 7, scale * 0x80).value;
      SignedGroups(b, p, bit, scale) == Some(SignedReading(part + sum, rest.bit, rest.sign, rest.next))
  {
    hide Part;
  }

  lemma LastResidue(v: int)
    requires -0x40 <= v < 0x40
    ensures Residue(v) == if v < 0 then v + 0x80 else v
  {
    assert Pow128(1) == 0x80 * Pow128(0);
  }

  lemma PowersOf128()
    ensures Pow128(8) == 0x100_0000_0000_0000 && Pow128(9) == 0x8000_0000_0000_0000
  {
    assert Pow128(0) == 1 && Pow128(1) == 0x80 && Pow128(2) == 0x4000 && Pow128(3) == 0x20_0000;
    assert Pow128(4) == 0x1000_0000 && Pow128(5) == 0x8_0000_0000 && Pow128(6) == 0x400_0000_0000;
    assert Pow128(7) == 0x2_0000_0000_0000;
  }

  lemma {:induction false} Pow128Grows(m: nat, n: nat)
    requires m <= n
    ensures Pow128(m) <= Pow128(n)
  {
    if m < n {
      Pow128Grows(m, n - 1);
    }
  }

  /** The 63 bits of nine groups, or a positive tenth one. */
  lemma ResidueBound(v: int)
    requires -0x4000_0000_0000_0000 <= v < 0x8000_0000_0000_0000
    ensures 1 <= |EncodeSigned(v)| <= 10 && (v < 0 ==> |EncodeSigned(v)| <= 9)
    ensures 0 <= Residue(v) < TWO64
  {
    hide Residue;
    PowersOf128();
    SignedLength(v, 9);
    SignedLength(v, 10);
    ResidueNext(v);
    NegativeResidue(v);
    assert |EncodeSigned(v)| <= 9 ==> Pow128(|EncodeSigned(v)|) <= Pow128(9) by {
      if |EncodeSigned(v)| <= 9 {
        Pow128Grows(|EncodeSigned(v)|, 9);
      }
    }
  }

  lemma NegativeResidue(v: int)
    ensures Residue(v) == if v >= 0 then v else v + Pow128(|EncodeSigned(v)|)
  {
  }

  /** read_sleb128 inverts the encoding of every 64-bit value from -2^62 up. */
  lemma SlebRoundTrip(b: seq<byte>, p: nat, v: int)
    requires -0x4000_0000_0000_0000 <= v < 0x8000_0000_0000_0000
    requires p + |EncodeSigned(v)| <= |b| && b[p..p + |EncodeSigned(v)|] == EncodeSigned(v)
    ensures Sleb(b, p) == Value(v, p + |EncodeSigned(v)|)
  {
    hide Residue, SignedGroups, EncodeSigned, Pow128;
    ResidueBound(v);
    NegativeResidue(v);
    SignedGroupsOf(b, p, v, 0, 1);
    assert 7 * |EncodeSigned(v)| / 7 == |EncodeSigned(v)|;
  }

  /** Below that the tenth group's sign extension shifts by 70 bits. */
  lemma SlebUndefined(b: seq<byte>, p: nat, v: int)
    requires -0x8000_0000_0000_0000 <= v < -0x4000_0000_0000_0000
    requires p + |EncodeSigned(v)| <= |b| && b[p..p + |EncodeSigned(v)|] == EncodeSigned(v)
    ensures Sleb(b, p) == Undefined
  {
    PowersOf128();
    SignedLength(v, 9);
    LongGroups(b, p, v, 0, 1);
  }

  lemma {:induction false} LongGroups(b: seq<byte>, p: nat, v: int, bit: nat, scale: nat)
    requires v < 0 && p + |EncodeSigned(v)| <= |b| && b[p..p + |EncodeSigned(v)|] == EncodeSigned(v)
    requires bit + 7 * |EncodeSigned(v)| > 63
    ensures var g := SignedGroups(b, p, bit, scale); g.Some? ==> g.value.sign && g.value.bit > 63
    decreases -v
  {
    hide Part;
    HighIs(v);
    if -0x40 <= v {
      assert b[p] == b[p..p + |EncodeSigned(v)|][0];
    } else {
      SignedTail(b, p, v);
      LongGroups(b, p + 1, High(v), bit + 7, scale * 0x80);
    }
  }
}

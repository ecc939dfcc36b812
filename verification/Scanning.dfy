/** Values in memory and the linear scan for them (integer types). */
module Scanning {
  import opened Arithmetic
  import opened Bytes
  import opened Options

  datatype NumType = ULong | SLong | UInt | SInt | UShort | SShort | UByte | SByte

  function Len(t: NumType): (n: nat)
    ensures n in {1, 2, 4, 8}
  {
    match t
    case ULong => 8
    case SLong => 8
    case UInt => 4
    case SInt => 4
    case UShort => 2
    case SShort => 2
    case UByte => 1
    case SByte => 1
  }

  function IsSigned(t: NumType): (b: bool) { t in {SLong, SInt, SShort, SByte} }

  function Little(s: seq<byte>): (v: nat)
  {
    if s == [] then 0 else s[0] + 0x100 * Little(s[1..])
  }

  function Range(n: nat): (r: nat)
  {
    if n == 1 then 0x100 else if n == 2 then 0x1_0000 else if n == 4 then 0x1_0000_0000 else 0x1_0000_0000_0000_0000
  }

  /** The C value of type t at p. */
  function ValueAt(m: seq<byte>, p: nat, t: NumType): (v: int)
    requires p + Len(t) <= |m|
  {
    var u := Little(m[p..p + Len(t)]);
    if IsSigned(t) && u >= Range(Len(t)) / 2 then u - Range(Len(t)) else u
  }

  /** What is searched for: a closed interval of values of one type. */
  datatype Query = Query(t: NumType, low: int, high: int)

  function Step(w: Query): (n: nat) ensures n in {1, 2, 4, 8} { Len(w.t) }

  /** A value in the interval, wholly inside the memory. */
  predicate Hit(m: seq<byte>, w: Query, p: nat)
  {
    p + Step(w) <= |m| && w.low <= ValueAt(m, p, w.t) <= w.high
  }

  predicate Aligned(p: int, n: nat)
    requires n > 0
  {
    p % n == 0
  }

  lemma AlignedStep(p: int, q: int, n: nat)
    requires n in {1, 2, 4, 8} && Aligned(p, n)
    ensures Aligned(p + n, n) && Aligned(p - n, n)
    ensures Aligned(q, n) && p <= q < p + n ==> q == p
    ensures Aligned(q, n) <==> Aligned(q - p, n)
  {
    Multiples(p, q, n);
  }

  /** The first match at from, from + step, ... that ends within size bytes. */
  method ScanData(m: seq<byte>, from: nat, size: nat, w: Query) returns (found: Option<nat>)
    requires Step(w) <= size && from + size <= |m|
    ensures found.Some? ==>
      && from <= found.value && found.value + Step(w) <= from + size && Aligned(found.value - from, Step(w))
      && Hit(m, w, found.value)
    ensures forall q: nat ::
      (from <= q && q + Step(w) <= from + size && Aligned(q - from, Step(w)) && (found.None? || q < found.value)) ==>
        !Hit(m, w, q)
  {
    var len := Step(w);
    var p: nat, end: nat := from, from + size - len;
    while p <= end
      invariant from <= p <= end + len && Aligned(p - from, len)
      invariant forall q: nat :: from <= q < p && Aligned(q - from, len) ==> !Hit(m, w, q)
    {
      if w.low <= ValueAt(m, p, w.t) <= w.high {
        return Some(p);
      }
      forall q: nat | from <= q < p + len && Aligned(q - from, len)
        ensures !Hit(m, w, q)
      {
        AlignedStep(p - from, q - from, len);
      }
      AlignedStep(p - from, p - from, len);
      p := p + len;
    }
    return None;
  }

  // ----- What the values are -----

  /** The values of a C type. */
  predicate InType(t: NumType, v: int)
  {
    match t
    case ULong => 0 <= v < 0x1_0000_0000_0000_0000
    case SLong => -0x8000_0000_0000_0000 <= v < 0x8000_0000_0000_0000
    case UInt => 0 <= v < 0x1_0000_0000
    case SInt => -0x8000_0000 <= v < 0x8000_0000
    case UShort => 0 <= v < 0x1_0000
    case SShort => -0x8000 <= v < 0x8000
    case UByte => 0 <= v < 0x100
    case SByte => -0x80 <= v < 0x80
  }

  /** Their bytes: two's complement, the lowest byte first. */
  function Form(t: NumType, v: int): (s: seq<byte>)
  {
    match t
    case ULong | SLong => Put64(Low64(v))
    case UInt | SInt => Put32(Low32(v))
    case UShort | SShort => [v % 0x100, v / 0x100 % 0x100]
    case UByte | SByte => [v % 0x100]
  }

  lemma LittleShort(s: seq<byte>)
    ensures |s| == 1 ==> Little(s) == s[0]
    ensures |s| == 2 ==> Little(s) == 0x100 * (s[1] as int) + s[0]
  {
    if |s| == 2 {
      assert s[1..] == [s[1]] && [s[1]][1..] == [];
    }
  }

  lemma LittleInt(s: seq<byte>)
    requires |s| == 4
    ensures Little(s) == Get32(s, 0)
  {
    var tail := s[2..];
    assert s[1..][1..] == tail;
    LittleShort(tail);
  }

  lemma LittleSplit(s: seq<byte>)
    requires |s| == 8
    ensures Little(s) == Little(s[..4]) + 0x1_0000_0000 * Little(s[4..])
  {
    var a, b := s[..4], s[4..];
    assert a[1..][1..][1..] == [a[3]] && s[1..][1..][1..][1..] == b;
    LittleShort([a[3]]);
    assert Little(a[1..]) == a[1] + 0x100 * Little(a[1..][1..]);
    assert Little(a[1..][1..]) == 0x100 * (a[3] as int) + a[2];
    assert Little(s[1..]) == a[1] + 0x100 * Little(s[1..][1..]);
    assert Little(s[1..][1..]) == a[2] + 0x100 * Little(s[1..][1..][1..]);
    assert Little(s[1..][1..][1..]) == a[3] + 0x100 * Little(b);
  }

  lemma LittleLong(s: seq<byte>)
    requires |s| == 8
    ensures Little(s) == Get64(s, 0)
  {
    hide Little;
    LittleSplit(s);
    LittleInt(s[..4]);
    LittleInt(s[4..]);
  }

  /** The unsigned value of the bytes is u exactly when they are its form. */
  lemma LittleIs(s: seq<byte>, t: NumType, v: int)
    requires InType(t, v) && |s| == Len(t)
    ensures Little(s) == v % Range(Len(t)) <==> s == Form(t, v)
  {
    hide Little, Get32, Get64, Put32, Put64;
    if |s| == 8 {
      LittleLong(s);
      LongIs(s, Low64(v));
    } else if |s| == 4 {
      LittleInt(s);
      IntIs(s, Low32(v));
    } else if |s| == 2 {
      LittleShort(s);
      TwoDigits(s[0], s[1], v);
      assert s == [s[0], s[1]];
    } else {
      LittleShort(s);
      assert s == [s[0]];
    }
  }

  lemma TwoDigits(a: byte, b: byte, v: int)
    ensures 0x100 * (b as int) + a == v % 0x1_0000 <==> a == v % 0x100 && b == v / 0x100 % 0x100
  {
    var q, r := v / 0x1_0000, v % 0x1_0000;
    assert v == 0x100 * (0x100 * q + r / 0x100) + r % 0x100;
    assert v / 0x100 == 0x100 * q + r / 0x100;
  }

  lemma IntIs(s: seq<byte>, u: uint32)
    requires |s| == 4
    ensures Get32(s, 0) == u <==> s == Put32(u)
  {
    hide Get32, Put32;
    PutGet32(s);
    if s == Put32(u) {
      assert s[0..4] == s;
      GetPut32(s, 0, u);
    }
  }

  lemma LongIs(s: seq<byte>, u: uint64)
    requires |s| == 8
    ensures Get64(s, 0) == u <==> s == Put64(u)
  {
    hide Get32, Put32;
    var a, b := s[..4], s[4..];
    assert s == a + b;
    IntIs(a, u % 0x1_0000_0000);
    IntIs(b, u / 0x1_0000_0000);
    SamePlace(s, a, b);
    if s == Put64(u) {
      assert s[0..8] == s;
      GetPut64(s, 0, u);
    }
    if Get64(s, 0) == u {
      DivisionIs(u, 0x1_0000_0000, Get32(b, 0), Get32(a, 0));
    }
  }

  lemma SamePlace(s: seq<byte>, a: seq<byte>, b: seq<byte>)
    requires |a| == |b| == 4 && s == a + b
    ensures Get64(s, 0) == Get32(a, 0) + 0x1_0000_0000 * Get32(b, 0)
  {
  }

  lemma FormLength(t: NumType, v: int)
    ensures |Form(t, v)| == Len(t) == match t
      case ULong | SLong => 8
      case UInt | SInt => 4
      case UShort | SShort => 2
      case UByte | SByte => 1
  {
  }

  lemma ValueOf(s: seq<byte>, t: NumType, v: int)
    requires InType(t, v) && |s| == Len(t) && 0 <= Little(s) < Range(Len(t))
    ensures (if IsSigned(t) && Little(s) >= Range(Len(t)) / 2 then Little(s) - Range(Len(t)) else Little(s)) == v
      <==> s == Form(t, v)
  {
    hide Little, Form;
    LittleIs(s, t, v);
  }

  lemma {:induction false} LittleBound(s: seq<byte>)
    requires |s| in {1, 2, 4, 8}
    ensures Little(s) < Range(|s|)
  {
    hide Little, Get32, Get64;
    if |s| == 8 {
      LittleLong(s);
    } else if |s| == 4 {
      LittleInt(s);
    } else {
      LittleShort(s);
    }
  }

  /** A value stands at p exactly when the bytes there are its form, and every value that
      is read belongs to its type. */
  lemma ValueIs(m: seq<byte>, p: nat, t: NumType, v: int)
    requires InType(t, v) && p + |Form(t, v)| <= |m|
    ensures p + Len(t) <= |m| && (ValueAt(m, p, t) == v <==> m[p..p + |Form(t, v)|] == Form(t, v))
    ensures InType(t, ValueAt(m, p, t))
  {
    hide Little, Form;
    FormLength(t, v);
    var s := m[p..p + Len(t)];
    LittleBound(s);
    ValueOf(s, t, v);
  }

  /** A hit: the bytes at p are the form of a value in the interval. */
  lemma HitIs(m: seq<byte>, w: Query, p: nat)
    ensures Hit(m, w, p) <==> exists v: int :: (InType(w.t, v) && w.low <= v <= w.high
      && p + |Form(w.t, v)| <= |m| && m[p..p + |Form(w.t, v)|] == Form(w.t, v))
  {
    hide Form, ValueAt, InType;
    forall v: int ensures |Form(w.t, v)| == Len(w.t) { FormLength(w.t, v); }
    if p + Len(w.t) <= |m| {
      assert InType(w.t, 0) by { ZeroInType(w.t); }
      forall v: int | InType(w.t, v)
        ensures InType(w.t, ValueAt(m, p, w.t))
        ensures ValueAt(m, p, w.t) == v <==> m[p..p + |Form(w.t, v)|] == Form(w.t, v)
      {
        ValueIs(m, p, w.t, v);
      }
      assert InType(w.t, ValueAt(m, p, w.t));
    }
  }

  lemma ZeroInType(t: NumType)
    ensures InType(t, 0)
  {
  }

  // ----- Filters -----

  /** Aligned matches in [from, to), in address order. */
  function Matches(m: seq<byte>, w: Query, from: nat, to: nat): (r: seq<nat>)
    decreases if from < to then to - from else 0
  {
    if from >= to then []
    else (if Aligned(from, Step(w)) && Hit(m, w, from) then [from] else []) + Matches(m, w, from + 1, to)
  }

  lemma {:induction false} MatchesAre(m: seq<byte>, w: Query, from: nat, to: nat, q: nat)
    ensures q in Matches(m, w, from, to) <==> from <= q < to && Aligned(q, Step(w)) && Hit(m, w, q)
    decreases if from < to then to - from else 0
  {
    hide Hit, Aligned;
    if from < to {
      MatchesAre(m, w, from + 1, to, q);
    }
  }

  lemma {:induction false} MatchesSkip(m: seq<byte>, w: Query, from: nat, mid: nat, to: nat)
    requires from <= mid <= to
    requires forall q: nat :: from <= q < mid && Aligned(q, Step(w)) ==> !Hit(m, w, q)
    ensures Matches(m, w, from, to) == Matches(m, w, mid, to)
    decreases mid - from
  {
    hide Hit, Aligned;
    if from < mid {
      MatchesSkip(m, w, from + 1, mid, to);
    }
  }
}

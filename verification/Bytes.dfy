/** Byte strings and the fixed-width integers stored in them. */
module Bytes {
  import opened Arithmetic

  type byte = x: int | 0 <= x < 0x100
  type uint32 = x: int | 0 <= x < 0x1_0000_0000
  type uint64 = x: int | 0 <= x < 0x1_0000_0000_0000_0000

  const TWO64: nat := 0x1_0000_0000_0000_0000

  function Low32(x: int): (r: uint32) { x % 0x1_0000_0000 }
  function Low64(x: int): (r: uint64) { x % 0x1_0000_0000_0000_0000 }

  function Put32(v: uint32): (r: seq<byte>)
    ensures |r| == 4
  {
    [v % 0x100, (v / 0x100) % 0x100, (v / 0x1_0000) % 0x100, v / 0x100_0000]
  }

  function Value32(a: byte, b: byte, c: byte, d: byte): (v: uint32)
  {
    a + 0x100 * b + 0x1_0000 * c + 0x100_0000 * d
  }

  /** Little-endian 32-bit field at `at`. */
  function Get32(s: seq<byte>, at: nat): (v: uint32)
    requires at + 4 <= |s|
  {
    Value32(s[at], s[at + 1], s[at + 2], s[at + 3])
  }

  function Put64(v: uint64): (r: seq<byte>)
    ensures |r| == 8
  {
    Put32(v % 0x1_0000_0000) + Put32(v / 0x1_0000_0000)
  }

  function Get64(s: seq<byte>, at: nat): (v: uint64)
    requires at + 8 <= |s|
  {
    Get32(s, at) + 0x1_0000_0000 * Get32(s, at + 4)
  }

  /** Big-endian forms, as code signatures store them (Swap on a little-endian host). */
  function Put32Big(v: uint32): (r: seq<byte>)
    ensures |r| == 4
  {
    [v / 0x100_0000, (v / 0x1_0000) % 0x100, (v / 0x100) % 0x100, v % 0x100]
  }

  function Get32Big(s: seq<byte>, at: nat): (v: uint32)
    requires at + 4 <= |s|
  {
    Value32(s[at + 3], s[at + 2], s[at + 1], s[at])
  }

  function Put64Big(v: uint64): (r: seq<byte>)
    ensures |r| == 8
  {
    Put32Big(v / 0x1_0000_0000) + Put32Big(v % 0x1_0000_0000)
  }

  function Get64Big(s: seq<byte>, at: nat): (v: uint64)
    requires at + 8 <= |s|
  {
    0x1_0000_0000 * Get32Big(s, at) + Get32Big(s, at + 4)
  }

  function Zeros(n: nat): (r: seq<byte>)
    ensures |r| == n && forall i :: 0 <= i < n ==> r[i] == 0
  {
    if n == 0 then [] else Zeros(n - 1) + [0]
  }

  /** s with the bytes from `at` overwritten. */
  function Splice(s: seq<byte>, at: nat, with: seq<byte>): (r: seq<byte>)
    requires at + |with| <= |s|
    ensures |r| == |s|
    ensures forall i :: 0 <= i < |s| ==> r[i] == if at <= i < at + |with| then with[i - at] else s[i]
  {
    s[..at] + with + s[at + |with|..]
  }

  /** Reading a mapped file: bytes past its end read as zero. */
  function ByteAt(s: seq<byte>, i: nat): (b: byte)
  {
    if i < |s| then s[i] else 0
  }

  function Read(s: seq<byte>, from: nat, to: nat): (r: seq<byte>)
    requires from <= to
    ensures |r| == to - from
    ensures forall i :: 0 <= i < to - from ==> r[i] == ByteAt(s, from + i)
  {
    if from == to then [] else Read(s, from, to - 1) + [ByteAt(s, to - 1)]
  }

  function Concat(parts: seq<seq<byte>>): (r: seq<byte>)
  {
    if parts == [] then [] else parts[0] + Concat(parts[1..])
  }

  lemma Bytes32(v: uint32)
    ensures Value32(v % 0x100, (v / 0x100) % 0x100, (v / 0x1_0000) % 0x100, v / 0x100_0000) == v
  {
    DivideTwice(v, 0x100);
    DivideTwice(v, 0x1_0000);
  }

  lemma GetPut32(s: seq<byte>, at: nat, v: uint32)
    requires at + 4 <= |s| && s[at..at + 4] == Put32(v)
    ensures Get32(s, at) == v
  {
    var field := s[at..at + 4];
    assert field[0] == s[at] && field[1] == s[at + 1] && field[2] == s[at + 2] && field[3] == s[at + 3];
    Bytes32(v);
  }

  lemma Digits(a: byte, b: byte, c: byte, d: byte)
    ensures var v := Value32(a, b, c, d);
      v % 0x100 == a && v / 0x100 % 0x100 == b && v / 0x1_0000 % 0x100 == c && v / 0x100_0000 == d
  {
    BytePlace(a, 0x100, b, c + 0x100 * d);
    BytePlace(a + 0x100 * b, 0x1_0000, c, d);
  }

  /** Four bytes are the form of their value. */
  lemma PutGet32(s: seq<byte>)
    requires |s| == 4
    ensures Put32(Get32(s, 0)) == s
  {
    hide Value32;
    Digits(s[0], s[1], s[2], s[3]);
  }

  lemma GetPut64(s: seq<byte>, at: nat, v: uint64)
    requires at + 8 <= |s| && s[at..at + 8] == Put64(v)
    ensures Get64(s, at) == v
  {
    hide Put32, Get32;
    var low, high := v % 0x1_0000_0000, v / 0x1_0000_0000;
    assert s[at..at + 4] == s[at..at + 8][..4] == Put32(low);
    assert s[at + 4..at + 8] == s[at..at + 8][4..] == Put32(high);
    GetPut32(s, at, low);
    GetPut32(s, at + 4, high);
  }

  lemma GetPut32Big(s: seq<byte>, at: nat, v: uint32)
    requires at + 4 <= |s| && s[at..at + 4] == Put32Big(v)
    ensures Get32Big(s, at) == v
  {
    var field := s[at..at + 4];
    assert field[0] == s[at] && field[1] == s[at + 1] && field[2] == s[at + 2] && field[3] == s[at + 3];
    Bytes32(v);
  }

  lemma GetPut64Big(s: seq<byte>, at: nat, v: uint64)
    requires at + 8 <= |s| && s[at..at + 8] == Put64Big(v)
    ensures Get64Big(s, at) == v
  {
    hide Put32Big, Get32Big;
    var low, high := v % 0x1_0000_0000, v / 0x1_0000_0000;
    assert s[at..at + 4] == s[at..at + 8][..4] == Put32Big(high);
    assert s[at + 4..at + 8] == s[at..at + 8][4..] == Put32Big(low);
    GetPut32Big(s, at, high);
    GetPut32Big(s, at + 4, low);
  }

  /** A field keeps its value where the bytes are the same. */
  lemma SameField32(s: seq<byte>, t: seq<byte>, at: nat)
    requires at + 4 <= |s| && at + 4 <= |t|
    requires forall i :: at <= i < at + 4 ==> s[i] == t[i]
    ensures Get32(s, at) == Get32(t, at)
  {
  }

  lemma {:induction false} ConcatSplit(a: seq<seq<byte>>, b: seq<seq<byte>>)
    ensures Concat(a + b) == Concat(a) + Concat(b)
  {
    if a == [] {
      assert a + b == b;
    } else {
      assert (a + b)[1..] == a[1..] + b;
      ConcatSplit(a[1..], b);
    }
  }

  lemma BytePlace(low: nat, p: nat, b: byte, high: nat)
    requires 0 <= low < p
    ensures (low + p * (b + 0x100 * high)) / p % 0x100 == b
  {
    DivisionIs(low + p * (b + 0x100 * high), p, b + 0x100 * high, low);
  }

  lemma ByteOf(a: byte, b: byte, c: byte, d: byte, k: nat)
    requires k < 4
    ensures Value32(a, b, c, d) / Pow2(8 * k) % 0x100 == [a, b, c, d][k]
  {
    hide Pow2;
    PowersOfByte();
    if k == 0 {
      BytePlace(0, 1, a, b + 0x100 * c + 0x1_0000 * d);
    } else if k == 1 {
      BytePlace(a, 0x100, b, c + 0x100 * d);
    } else if k == 2 {
      BytePlace(a + 0x100 * b, 0x1_0000, c, d);
    } else {
      BytePlace(a + 0x100 * b + 0x1_0000 * c, 0x100_0000, d, 0);
    }
  }

  lemma PowersOfByte()
    ensures Pow2(0) == 1 && Pow2(8) == 0x100 && Pow2(16) == 0x1_0000 && Pow2(24) == 0x100_0000
  {
    assert Pow2(4) == 16 && Pow2(12) == 16 * Pow2(8) && Pow2(20) == 16 * Pow2(16) && Pow2(24) == 16 * Pow2(20);
    assert Pow2(8) == 16 * Pow2(4) && Pow2(16) == 16 * Pow2(12);
  }

  /** Byte k of a field holds its bits 8k to 8k + 7; in the big-endian form it is byte 3 - k. */
  lemma FieldBytes(s: seq<byte>, at: nat, k: nat)
    requires at + 4 <= |s| && k < 4
    ensures Get32(s, at) / Pow2(8 * k) % 0x100 == s[at + k]
    ensures Get32Big(s, at) / Pow2(8 * k) % 0x100 == s[at + 3 - k]
  {
    ByteOf(s[at], s[at + 1], s[at + 2], s[at + 3], k);
    ByteOf(s[at + 3], s[at + 2], s[at + 1], s[at], k);
  }
}

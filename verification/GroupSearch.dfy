/** Searching for several values next to each other, starting from any one of them. */
module GroupSearch {
  import opened Arithmetic
  import opened Bytes
  import MemoryEngine

  const MAX_ANCHORS: nat := 10000

  /** A value of a plain integer type, as its bytes. */
  type Item = s: seq<byte> | |s| > 0 witness [0]

  /** Readable memory of the other process. */
  type Memory = map<nat, byte>

  /** readMemory succeeds and the bytes are the item's. */
  predicate Compare(mem: Memory, at: nat, item: Item)
  {
    forall i :: 0 <= i < |item| ==> SameByte(mem, at, item, i)
  }

  predicate SameByte(mem: Memory, at: nat, item: Item, i: nat)
    requires i < |item|
  {
    at + i in mem && mem[at + i] == item[i]
  }

  /** Length of the first k items. */
  function OffsetOf(items: seq<Item>, k: nat): (n: nat)
    requires k <= |items|
  {
    if k == 0 then 0 else OffsetOf(items, k - 1) + |items[k - 1]|
  }

  datatype Search = Search(items: seq<Item>, totalRange: nat, start: nat, end: nat)

  /** All addresses from `at` in steps of the item that hold it. */
  function Found(mem: Memory, item: Item, at: nat, end: nat): (r: seq<nat>)
    decreases if at < end then end - at else 0
  {
    if at >= end then []
    else (if Compare(mem, at, item) then [at] else []) + Found(mem, item, at + |item|, end)
  }

  /** Item j of the group stands at its place after b. */
  predicate ItemAt(mem: Memory, s: Search, b: int, j: nat)
    requires b >= 0 && j < |s.items|
  {
    (s.totalRange == 0 ==> b + OffsetOf(s.items, j) < s.end) && Compare(mem, b + OffsetOf(s.items, j), s.items[j])
  }

  /** The group stands at b, inside the search range. */
  predicate GroupAt(mem: Memory, s: Search, b: int)
  {
    && s.start <= b
    && (s.totalRange > 0 ==> b + s.totalRange <= s.end)
    && (forall j: nat :: j < |s.items| ==> ItemAt(mem, s, b, j))
  }

  /** What one run of the second phase keeps, in the order of the anchors. */
  function FromAnchors(mem: Memory, s: Search, anchors: seq<nat>, offset: nat): (r: seq<nat>)
    ensures forall b :: b in r ==> b >= s.start
  {
    if anchors == [] then []
    else
      var rest := FromAnchors(mem, s, anchors[..|anchors| - 1], offset);
      var b := anchors[|anchors| - 1] - offset;
      if GroupAt(mem, s, b) then rest + [b] else rest
  }

  /** All bases from b on, in steps of len, where the whole group stands. */
  function Bases(mem: Memory, s: Search, b: int, len: nat): (r: seq<nat>)
    requires len > 0
    decreases if b < s.end then s.end - b else 0
  {
    if b >= s.end then []
    else (if GroupAt(mem, s, b) then [b] else []) + Bases(mem, s, b + len, len)
  }

  // ----- The loops -----

  /** The matching addresses, at most ten thousand of them. */
  method FindValueInRange(mem: Memory, start: nat, end: nat, item: Item) returns (matches: seq<nat>)
    ensures matches == MemoryEngine.Take(Found(mem, item, start, end), MAX_ANCHORS)
  {
    hide Compare;
    matches := [];
    var addr: nat := start;
    while addr < end && |matches| < MAX_ANCHORS
      invariant |matches| <= MAX_ANCHORS
      invariant matches + Found(mem, item, addr, end) == Found(mem, item, start, end)
      decreases if addr < end then end - addr else 0
    {
      if Compare(mem, addr, item) {
        matches := matches + [addr];
      }
      addr := addr + |item|;
    }
  }

  /** The offset of the anchor, as the source sums it. */
  method SumBefore(items: seq<Item>, k: nat) returns (n: nat)
    requires k <= |items|
    ensures n == OffsetOf(items, k)
  {
    n := 0;
    for j := 0 to k
      invariant n == OffsetOf(items, j)
    {
      n := n + |items[j]|;
    }
  }

  /** The item-by-item test of one base. */
  method AllMatch(mem: Memory, s: Search, b: nat) returns (ok: bool)
    requires s.start <= b && (s.totalRange > 0 ==> b + s.totalRange <= s.end)
    ensures ok == GroupAt(mem, s, b)
  {
    hide Compare;
    for j := 0 to |s.items|
      invariant forall i: nat :: i < j ==> ItemAt(mem, s, b, i)
    {
      var at := SumBefore(s.items, j);
      var target: nat := b + at;
      if (s.totalRange == 0 && target >= s.end) || !Compare(mem, target, s.items[j]) {
        assert !ItemAt(mem, s, b, j);
        return false;
      }
    }
    return true;
  }

  /** JJGroupSearch with the given anchor, on an empty result list. */
  method Run(mem: Memory, s: Search, anchorIdx: nat) returns (bases: seq<nat>)
    requires anchorIdx < |s.items|
    ensures bases == FromAnchors(mem, s, MemoryEngine.Take(Found(mem, s.items[anchorIdx], s.start, s.end), MAX_ANCHORS),
                                 OffsetOf(s.items, anchorIdx))
  {
    hide GroupAt, Found, Compare;
    var anchors := FindValueInRange(mem, s.start, s.end, s.items[anchorIdx]);
    var offset := SumBefore(s.items, anchorIdx);
    bases := [];
    for i := 0 to |anchors|
      invariant bases == FromAnchors(mem, s, anchors[..i], offset)
    {
      assert anchors[..i + 1][..i] == anchors[..i];
      OutsideGroup(mem, s, anchors[i] - offset);
      if anchors[i] < offset || anchors[i] - offset < s.start {
        continue;
      }
      if s.totalRange > 0 && anchors[i] - offset + s.totalRange > s.end {
        continue;
      }
      var base: nat := anchors[i] - offset;
      var ok := AllMatch(mem, s, base);
      if ok {
        bases := bases + [base];
      }
    }
    assert anchors[..|anchors|] == anchors;
  }

  lemma OutsideGroup(mem: Memory, s: Search, b: int)
    ensures b < s.start || (s.totalRange > 0 && b + s.totalRange > s.end) ==> !GroupAt(mem, s, b)
  {
  }

  // ----- The anchor is only an optimisation -----

  /** Items of one length, and a range that holds them all. */
  ghost predicate Regular(s: Search, len: nat)
  {
    && len > 0 && s.items != []
    && (forall j :: 0 <= j < |s.items| ==> |s.items[j]| == len)
    && (s.totalRange == 0 || s.totalRange >= OffsetOf(s.items, |s.items|))
  }

  lemma {:induction false} OffsetMonotone(items: seq<Item>, j: nat, k: nat)
    requires j <= k <= |items|
    ensures OffsetOf(items, j) <= OffsetOf(items, k)
      && (j < k ==> OffsetOf(items, j) + |items[j]| <= OffsetOf(items, k))
    decreases k
  {
    if j < k {
      OffsetMonotone(items, j, k - 1);
    }
  }

  /** A group has its anchor in place and inside the range. */
  lemma GroupHasAnchor(mem: Memory, s: Search, len: nat, idx: nat, b: int)
    requires Regular(s, len) && idx < |s.items| && GroupAt(mem, s, b)
    ensures b + OffsetOf(s.items, idx) < s.end && b >= 0 && Compare(mem, b + OffsetOf(s.items, idx), s.items[idx])
  {
    hide Compare, OffsetOf;
    OffsetMonotone(s.items, idx, |s.items|);
    assert ItemAt(mem, s, b, idx);
  }

  lemma FromAnchorsPrepend(mem: Memory, s: Search, a: nat, rest: seq<nat>, offset: nat)
    ensures FromAnchors(mem, s, [a] + rest, offset)
         == (if GroupAt(mem, s, a - offset) then [a - offset] else []) + FromAnchors(mem, s, rest, offset)
    decreases |rest|
  {
    hide GroupAt;
    if rest == [] {
      assert [a] + rest == [a];
      assert [a][..0] == [];
    } else {
      var front, last := rest[..|rest| - 1], rest[|rest| - 1];
      FromAnchorsPrepend(mem, s, a, front, offset);
      assert ([a] + rest)[..|rest|] == [a] + front;
    }
  }

  /** Walking the anchors is walking the bases one offset below. */
  lemma {:induction false} AnchorsAreBases(mem: Memory, s: Search, len: nat, idx: nat, at: nat)
    requires Regular(s, len) && idx < |s.items|
    ensures FromAnchors(mem, s, Found(mem, s.items[idx], at, s.end), OffsetOf(s.items, idx))
         == Bases(mem, s, at - OffsetOf(s.items, idx), len)
    decreases if at < s.end then s.end - at else 0
  {
    hide GroupAt, Compare, Found, Bases, FromAnchors;
    var offset, item := OffsetOf(s.items, idx), s.items[idx];
    FoundStep(mem, item, at, s.end);
    BasesStep(mem, s, at - offset, len);
    if at >= s.end {
      NoAnchors(mem, s, offset);
      NoBases(mem, s, len, idx, at - offset);
    } else {
      AnchorsAreBases(mem, s, len, idx, at + len);
      if GroupAt(mem, s, at - offset) {
        GroupHasAnchor(mem, s, len, idx, at - offset);
      }
      if Compare(mem, at, item) {
        FromAnchorsPrepend(mem, s, at, Found(mem, item, at + len, s.end), offset);
      }
      assert at - offset + len == at + len - offset;
      OffsetMonotone(s.items, 0, idx);
    }
  }

  lemma FoundStep(mem: Memory, item: Item, at: nat, end: nat)
    ensures at >= end ==> Found(mem, item, at, end) == []
    ensures at < end && Compare(mem, at, item) ==>
      Found(mem, item, at, end) == [at] + Found(mem, item, at + |item|, end)
    ensures at < end && !Compare(mem, at, item) ==> Found(mem, item, at, end) == Found(mem, item, at + |item|, end)
  {
    hide Compare;
  }

  lemma BasesStep(mem: Memory, s: Search, b: int, len: nat)
    requires len > 0
    ensures b >= s.end ==> Bases(mem, s, b, len) == []
    ensures b < s.end && !GroupAt(mem, s, b) ==> Bases(mem, s, b, len) == Bases(mem, s, b + len, len)
    ensures b < s.end && GroupAt(mem, s, b) ==> Bases(mem, s, b, len) == [b] + Bases(mem, s, b + len, len)
  {
    hide GroupAt;
  }

  lemma NoAnchors(mem: Memory, s: Search, offset: nat)
    ensures FromAnchors(mem, s, [], offset) == []
  {
  }

  /** Beyond the last possible anchor there is no group. */
  lemma {:induction false} NoBases(mem: Memory, s: Search, len: nat, idx: nat, b: int)
    requires Regular(s, len) && idx < |s.items| && b + OffsetOf(s.items, idx) >= s.end
    ensures Bases(mem, s, b, len) == []
    decreases if b < s.end then s.end - b else 0
  {
    hide GroupAt;
    if b < s.end {
      if GroupAt(mem, s, b) {
        GroupHasAnchor(mem, s, len, idx, b);
        assert false;
      }
      NoBases(mem, s, len, idx, b + len);
    }
  }

  /** Bases below the start are never groups. */
  lemma {:induction false} BasesBelowStart(mem: Memory, s: Search, len: nat, idx: nat)
    requires Regular(s, len) && idx <= |s.items|
    ensures Bases(mem, s, s.start - OffsetOf(s.items, idx), len) == Bases(mem, s, s.start, len)
    decreases idx
  {
    hide GroupAt;
    if idx > 0 {
      BasesBelowStart(mem, s, len, idx - 1);
      OutsideGroup(mem, s, s.start - OffsetOf(s.items, idx));
      if s.start - OffsetOf(s.items, idx) >= s.end {
        assert Bases(mem, s, s.start - OffsetOf(s.items, idx - 1), len) == [];
      }
    }
  }

  /** For items of equal length, with the caps out of reach, every anchor reports the
      same bases in the same order: all aligned addresses where the whole group stands. */
  lemma AnchorIsOnlyAnOptimisation(mem: Memory, s: Search, len: nat, idx: nat)
    requires Regular(s, len) && idx < |s.items|
    requires |Found(mem, s.items[idx], s.start, s.end)| <= MAX_ANCHORS
    ensures FromAnchors(mem, s, MemoryEngine.Take(Found(mem, s.items[idx], s.start, s.end), MAX_ANCHORS),
      OffsetOf(s.items, idx))
         == Bases(mem, s, s.start, len)
  {
    hide Found, FromAnchors, Bases, GroupAt;
    AnchorsAreBases(mem, s, len, idx, s.start);
    BasesBelowStart(mem, s, len, idx);
  }

  /** The bases are exactly the addresses in steps of len where the group stands. */
  lemma {:induction false} BasesAre(mem: Memory, s: Search, b: int, len: nat, x: nat)
    requires len > 0
    ensures x in Bases(mem, s, b, len) <==> b <= x < s.end && (x - b) % len == 0 && GroupAt(mem, s, x)
    decreases if b < s.end then s.end - b else 0
  {
    hide GroupAt;
    if b < s.end {
      BasesAre(mem, s, b + len, len, x);
      Multiples(0, x - b, len);
      Multiples(len, x - b, len);
      assert x - b - len == x - (b + len);
      if b < x < b + len {
        assert (x - b) % len != 0;
      }
    }
  }

  /** And they come in ascending order. */
  lemma {:induction false} BasesAscend(mem: Memory, s: Search, b: int, len: nat)
    requires len > 0
    ensures MemoryEngine.Ordered(Bases(mem, s, b, len))
    decreases if b < s.end then s.end - b else 0
  {
    hide GroupAt;
    if b < s.end {
      BasesAscend(mem, s, b + len, len);
      var rest := Bases(mem, s, b + len, len);
      forall i | 0 <= i < |rest| ensures rest[i] > b
      {
        BasesAre(mem, s, b + len, len, rest[i]);
      }
    }
  }

  // ----- What is found, byte by byte -----

  predicate IsByte(mem: Memory, at: int, v: byte) { at >= 0 && at in mem && mem[at] == v }

  /** These bytes stand in memory at `at`. */
  ghost predicate Holds(mem: Memory, at: int, bytes: seq<byte>)
  {
    forall k :: 0 <= k < |bytes| ==> IsByte(mem, at + k, bytes[k])
  }

  lemma HoldsBoth(mem: Memory, at: int, a: seq<byte>, b: seq<byte>)
    ensures Holds(mem, at, a + b) <==> Holds(mem, at, a) && Holds(mem, at + |a|, b)
  {
    hide IsByte;
    var c := a + b;
    if Holds(mem, at, c) {
      forall k | 0 <= k < |b| ensures IsByte(mem, at + |a| + k, b[k])
      {
        assert c[|a| + k] == b[k] && at + (|a| + k) == at + |a| + k;
      }
      forall k | 0 <= k < |a| ensures IsByte(mem, at + k, a[k])
      {
        assert c[k] == a[k];
      }
    }
    if Holds(mem, at, a) && Holds(mem, at + |a|, b) {
      forall k | 0 <= k < |c| ensures IsByte(mem, at + k, c[k])
      {
        if k < |a| {
          assert c[k] == a[k];
        } else {
          assert c[k] == b[k - |a|] && at + |a| + (k - |a|) == at + k;
        }
      }
    }
  }

  lemma CompareIs(mem: Memory, at: nat, item: Item)
    ensures Compare(mem, at, item) <==> Holds(mem, at, item)
  {
    forall k | 0 <= k < |item| ensures SameByte(mem, at, item, k) <==> IsByte(mem, at + k, item[k])
    {
    }
  }

  /** The first n items, laid end to end. */
  function Laid(items: seq<Item>, n: nat): (r: seq<byte>)
    requires n <= |items|
  {
    if n == 0 then [] else Laid(items, n - 1) + items[n - 1]
  }

  ghost predicate AllThere(mem: Memory, items: seq<Item>, b: nat, n: nat)
    requires n <= |items|
  {
    forall j: nat :: j < n ==> Compare(mem, b + OffsetOf(items, j), items[j])
  }

  lemma AllThereStep(mem: Memory, items: seq<Item>, b: nat, n: nat)
    requires 0 < n <= |items|
    ensures AllThere(mem, items, b, n) <==>
      AllThere(mem, items, b, n - 1) && Compare(mem, b + OffsetOf(items, n - 1), items[n - 1])
  {
    hide Compare, OffsetOf;
  }

  lemma {:induction false} ItemsAreLaid(mem: Memory, items: seq<Item>, b: nat, n: nat)
    requires n <= |items|
    ensures |Laid(items, n)| == OffsetOf(items, n)
    ensures Holds(mem, b, Laid(items, n)) <==> AllThere(mem, items, b, n)
  {
    hide Compare, Holds, AllThere;
    if n == 0 {
      NothingLaid(mem, items, b);
    } else {
      ItemsAreLaid(mem, items, b, n - 1);
      HoldsBoth(mem, b, Laid(items, n - 1), items[n - 1]);
      CompareIs(mem, b + OffsetOf(items, n - 1), items[n - 1]);
      AllThereStep(mem, items, b, n);
    }
  }

  lemma NothingLaid(mem: Memory, items: seq<Item>, b: nat)
    ensures Holds(mem, b, []) && AllThere(mem, items, b, 0)
  {
  }

  lemma OffsetsBelow(items: seq<Item>)
    requires items != []
    ensures forall j: nat :: j < |items| ==> OffsetOf(items, j) <= OffsetOf(items, |items| - 1)
  {
    forall j: nat | j < |items| ensures OffsetOf(items, j) <= OffsetOf(items, |items| - 1)
    {
      OffsetMonotone(items, j, |items| - 1);
    }
  }

  /** A group stands at b exactly when the bytes of its items, laid end to end, stand there,
      inside the range. */
  lemma GroupIsLaid(mem: Memory, s: Search, b: int)
    requires s.items != []
    ensures GroupAt(mem, s, b) <==>
      && s.start <= b && Holds(mem, b, Laid(s.items, |s.items|))
      && (if s.totalRange > 0 then b + s.totalRange <= s.end else b + |Laid(s.items, |s.items| - 1)| < s.end)
  {
    hide Compare, Holds, Laid, OffsetOf;
    if b >= s.start {
      var n := |s.items|;
      ItemsAreLaid(mem, s.items, b, n);
      ItemsAreLaid(mem, s.items, b, n - 1);
      OffsetsBelow(s.items);
      if GroupAt(mem, s, b) {
        assert ItemAt(mem, s, b, n - 1);
        forall j: nat | j < n ensures Compare(mem, b + OffsetOf(s.items, j), s.items[j])
        {
          assert ItemAt(mem, s, b, j);
        }
      }
    }
  }

  /** The matches of one item: the addresses on its steps where its bytes stand. */
  lemma {:induction false} FoundAre(mem: Memory, item: Item, at: nat, end: nat, x: nat)
    ensures x in Found(mem, item, at, end) <==> at <= x < end && (x - at) % |item| == 0 && Holds(mem, x, item)
    decreases if at < end then end - at else 0
  {
    hide Compare, Holds;
    if at < end {
      FoundAre(mem, item, at + |item|, end, x);
      CompareIs(mem, x, item);
      Multiples(0, x - at, |item|);
      Multiples(|item|, x - at, |item|);
      assert x - at - |item| == x - (at + |item|);
      if at < x < at + |item| {
        assert (x - at) % |item| != 0;
      }
    }
  }
}

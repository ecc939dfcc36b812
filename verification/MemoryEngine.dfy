/** The memory scan engine: first scan, refinement, nearby search, paging of results. */
module MemoryEngine {
  import opened Arithmetic
  import opened Bytes
  import opened Options
  import opened Scanning
  import opened NearbySearch

  const MAX_SEARCH_RESULTS: nat := 100000

  datatype AddrRange = AddrRange(start: nat, end: nat)

  predicate Inside(range: AddrRange, address: nat) { range.start <= address < range.end }

  datatype Region = Region(base: nat, size: nat, slides: seq<uint32>, types: seq<NumType>)

  function Shift(base: nat, slides: seq<nat>): (a: seq<nat>)
    ensures |a| == |slides|
  {
    seq(|slides|, i requires 0 <= i < |slides| => base + slides[i])
  }

  function Addresses(r: Region): (a: seq<nat>)
    ensures |a| == |r.slides|
  {
    Shift(r.base, r.slides)
  }

  function AllAddresses(regions: seq<Region>): (a: seq<nat>)
  {
    if regions == [] then [] else AllAddresses(regions[..|regions| - 1]) + Addresses(regions[|regions| - 1])
  }

  function Total(regions: seq<Region>): (n: nat)
    ensures n == |AllAddresses(regions)|
  {
    if regions == [] then 0 else Total(regions[..|regions| - 1]) + |regions[|regions| - 1].slides|
  }

  lemma TotalSnoc(regions: seq<Region>, r: Region)
    ensures Total(regions + [r]) == Total(regions) + |r.slides|
    ensures AllAddresses(regions + [r]) == AllAddresses(regions) + Addresses(r)
  {
    assert (regions + [r])[..|regions|] == regions;
  }

  // ----- First scan -----

  /** Memory of one writable region, as loaded. */
  datatype Loaded = Loaded(base: nat, bytes: seq<byte>)

  /** The longest prefix of matches inside the range: the scan stops at the first
      match outside it. */
  function InsidePrefix(slides: seq<nat>, base: nat, range: AddrRange): (r: seq<nat>)
  {
    if slides == [] || !Inside(range, base + slides[0]) then []
      else [slides[0]] + InsidePrefix(slides[1..], base, range)
  }

  function InsideAll(slides: seq<nat>, base: nat, range: AddrRange): (r: seq<nat>)
  {
    if slides == [] then []
    else (if Inside(range, base + slides[0]) then [slides[0]] else []) + InsideAll(slides[1..], base, range)
  }

  ghost predicate Ordered(s: seq<nat>) { forall i, j :: 0 <= i < j < |s| ==> s[i] < s[j] }

  lemma {:induction false} PrefixOfOrdered(slides: seq<nat>, base: nat, range: AddrRange)
    requires Ordered(slides) && (slides != [] ==> base + slides[0] >= range.start)
    ensures InsidePrefix(slides, base, range) == InsideAll(slides, base, range)
  {
    if slides != [] {
      assert forall i :: 0 < i < |slides| ==> slides[0] < slides[i];
      if Inside(range, base + slides[0]) {
        PrefixOfOrdered(slides[1..], base, range);
      } else {
        BeyondEnd(slides, base, range);
      }
    }
  }

  lemma {:induction false} BeyondEnd(slides: seq<nat>, base: nat, range: AddrRange)
    requires forall i :: 0 <= i < |slides| ==> base + slides[i] >= range.end
    ensures InsideAll(slides, base, range) == []
  {
    if slides != [] {
      BeyondEnd(slides[1..], base, range);
    }
  }

  /** Stopping early loses nothing exactly when no match lies before the range, or none
      lies in it. */
  lemma PrefixIsFilter(slides: seq<nat>, base: nat, range: AddrRange)
    requires Ordered(slides)
    ensures InsidePrefix(slides, base, range) == InsideAll(slides, base, range) <==>
        slides == [] || base + slides[0] >= range.start || InsideAll(slides, base, range) == []
  {
    if slides == [] || base + slides[0] >= range.start {
      PrefixOfOrdered(slides, base, range);
    }
  }

  lemma {:induction false} MatchesOrdered(m: seq<byte>, w: Query, from: nat, to: nat)
    ensures Ordered(Matches(m, w, from, to))
    decreases if from < to then to - from else 0
  {
    hide Hit, Aligned;
    if from < to {
      MatchesOrdered(m, w, from + 1, to);
      var tail := Matches(m, w, from + 1, to);
      forall i | 0 <= i < |tail| ensures tail[i] > from
      {
        MatchesAre(m, w, from + 1, to, tail[i]);
      }
    }
  }

  function Take<T>(s: seq<T>, n: int): (r: seq<T>)
  {
    if n <= 0 then [] else if n < |s| then s[..n] else s
  }

  /** The slides one region contributes while there is room for n results. */
  function Scanned(l: Loaded, range: AddrRange, w: Query, n: int): (r: seq<nat>)
  {
    Take(InsidePrefix(Matches(l.bytes, w, 0, |l.bytes|), l.base, range), n)
  }

  lemma MatchesFrom(m: seq<byte>, w: Query, cur: nat, slide: nat)
    requires cur <= slide < |m| && Aligned(slide, Step(w)) && Hit(m, w, slide)
    requires forall q: nat :: cur <= q < slide && Aligned(q, Step(w)) ==> !Hit(m, w, q)
    ensures slide + Step(w) <= |m|
    ensures Matches(m, w, cur, |m|) == [slide] + Matches(m, w, slide + Step(w), |m|)
  {
    HitInside(m, w, slide);
    hide Hit, Aligned;
    MatchesSkip(m, w, cur, slide, |m|);
    NoneBetween(slide, Step(w));
    MatchesSkip(m, w, slide + 1, slide + Step(w), |m|);
  }

  lemma NoneBetween(p: nat, n: nat)
    requires n in {1, 2, 4, 8} && Aligned(p, n)
    ensures forall q: nat :: p < q < p + n ==> !Aligned(q, n)
  {
    hide Aligned;
    forall q: nat | p < q < p + n ensures !Aligned(q, n)
    {
      AlignedStep(p, q, n);
    }
  }

  lemma NoMatches(m: seq<byte>, w: Query, cur: nat)
    requires cur <= |m|
    requires forall q: nat :: cur <= q && q + Step(w) <= |m| && Aligned(q, Step(w)) ==> !Hit(m, w, q)
    ensures Matches(m, w, cur, |m|) == []
  {
    hide Hit, Aligned;
    HitsFit(m, w);
    MatchesSkip(m, w, cur, |m|, |m|);
  }

  lemma HitsFit(m: seq<byte>, w: Query)
    ensures forall q: nat :: Hit(m, w, q) ==> q + Step(w) <= |m|
  {
  }

  /** The loop of ScanRegion over one loaded region, with room for so many results. */
  method CollectRegion(m: seq<byte>, base: nat, range: AddrRange, w: Query, room: nat)
    returns (slides: seq<uint32>, limited: bool)
    requires |m| < 0x1_0000_0000
    ensures slides == Take(InsidePrefix(Matches(m, w, 0, |m|), base, range), room)
    ensures limited ==> |slides| == room
  {
    hide Hit, Aligned, Matches, InsidePrefix, Take;
    var len := Step(w);
    slides, limited := [], false;
    var cur: nat, left: nat := 0, |m|;
    ghost var all := InsidePrefix(Matches(m, w, 0, |m|), base, range);
    AlignedZero(len);
    assert [] + all == all;
    while left >= len
      invariant cur + left == |m| && Aligned(cur, len) && |slides| <= room
      invariant all == slides + InsidePrefix(Matches(m, w, cur, |m|), base, range)
      decreases left
    {
      if |slides| >= room {
        TakePrefix(slides, InsidePrefix(Matches(m, w, cur, |m|), base, range), room);
        return slides, true;
      }
      var found := ScanData(m, cur, left, w);
      if found.None? {
        NoneFrom(m, w, cur);
        NothingInside(slides, base, range, room);
        return;
      }
      FoundFrom(m, w, cur, found.value);
      MatchesFrom(m, w, cur, found.value);
      var slide: uint32 := found.value;
      PrefixStep(slides, slide, Matches(m, w, slide + len, |m|), base, range, room);
      if base + slide < range.start || base + slide >= range.end {
        return;
      }
      slides := slides + [slide];
      cur := slide + len;
      left := |m| - cur;
    }
    NoneLeft(m, w, cur);
    NothingInside(slides, base, range, room);
  }

  lemma TakePrefix(s: seq<nat>, rest: seq<nat>, n: nat)
    requires |s| == n
    ensures Take(s + rest, n) == s
  {
  }

  lemma NothingInside(s: seq<nat>, base: nat, range: AddrRange, n: nat)
    requires |s| <= n
    ensures Take(s + InsidePrefix([], base, range), n) == s
  {
  }

  lemma PrefixStep(s: seq<nat>, slide: nat, rest: seq<nat>, base: nat, range: AddrRange, n: nat)
    requires |s| < n
    ensures Inside(range, base + slide) ==>
      s + InsidePrefix([slide] + rest, base, range) == s + [slide] + InsidePrefix(rest, base, range)
    ensures !Inside(range, base + slide) ==> Take(s + InsidePrefix([slide] + rest, base, range), n) == s
  {
    assert ([slide] + rest)[1..] == rest;
  }

  lemma AlignedZero(n: nat)
    requires n > 0
    ensures Aligned(0, n)
  {
  }

  lemma NoneFrom(m: seq<byte>, w: Query, cur: nat)
    requires cur <= |m| && Aligned(cur, Step(w))
    requires forall q: nat :: (cur <= q && q + Step(w) <= |m| && Aligned(q - cur, Step(w))) ==> !Hit(m, w, q)
    ensures Matches(m, w, cur, |m|) == []
  {
    hide Hit, Aligned, Matches;
    forall q: nat | cur <= q && q + Step(w) <= |m| && Aligned(q, Step(w)) ensures !Hit(m, w, q)
    {
      AlignedStep(cur, q, Step(w));
    }
    NoMatches(m, w, cur);
  }

  lemma NoneLeft(m: seq<byte>, w: Query, cur: nat)
    requires cur <= |m| < cur + Step(w)
    ensures Matches(m, w, cur, |m|) == []
  {
    hide Hit, Aligned, Matches;
    NoMatches(m, w, cur);
  }

  lemma FoundFrom(m: seq<byte>, w: Query, cur: nat, slide: nat)
    requires cur <= slide && slide + Step(w) <= |m| && Aligned(cur, Step(w)) && Aligned(slide - cur, Step(w))
    requires forall q: nat ::
      (cur <= q && q + Step(w) <= |m| && Aligned(q - cur, Step(w)) && q < slide) ==> !Hit(m, w, q)
    ensures Aligned(slide, Step(w)) && Aligned(slide + Step(w), Step(w))
    ensures forall q: nat :: cur <= q < slide && Aligned(q, Step(w)) ==> !Hit(m, w, q)
  {
    hide Hit, Aligned;
    AlignedStep(cur, slide, Step(w));
    AlignedStep(slide, slide, Step(w));
    forall q: nat | cur <= q < slide && Aligned(q, Step(w)) ensures !Hit(m, w, q)
    {
      AlignedStep(cur, q, Step(w));
    }
  }

  /** Aligned in-range matches of all regions. */
  function InRange(loaded: seq<Loaded>, range: AddrRange, w: Query): (a: seq<nat>)
  {
    if loaded == [] then []
    else
      var l := loaded[|loaded| - 1];
      InRange(loaded[..|loaded| - 1], range, w)
        + Shift(l.base, InsideAll(Matches(l.bytes, w, 0, |l.bytes|), l.base, range))
  }

  /** An aligned match of one region at this address, inside the range. */
  predicate MatchAt(l: Loaded, range: AddrRange, w: Query, a: nat)
  {
    l.base <= a && range.start <= a < range.end && (a - l.base) % Step(w) == 0 && Hit(l.bytes, w, a - l.base)
  }

  lemma {:induction false} InsideAllAre(slides: seq<nat>, base: nat, range: AddrRange, x: nat)
    ensures x in InsideAll(slides, base, range) <==> x in slides && Inside(range, base + x)
  {
    if slides != [] {
      InsideAllAre(slides[1..], base, range, x);
    }
  }

  lemma ShiftAre(base: nat, slides: seq<nat>, a: nat)
    ensures a in Shift(base, slides) <==> a >= base && a - base in slides
  {
    if a >= base && a - base in slides {
      var i :| 0 <= i < |slides| && slides[i] == a - base;
      assert Shift(base, slides)[i] == a;
    }
  }

  /** The results of one region. */
  lemma RegionAre(l: Loaded, range: AddrRange, w: Query, a: nat)
    ensures a in Shift(l.base, InsideAll(Matches(l.bytes, w, 0, |l.bytes|), l.base, range)) <==> MatchAt(l, range, w, a)
  {
    hide Matches, InsideAll, Shift;
    HitsFit(l.bytes, w);
    var slides := Matches(l.bytes, w, 0, |l.bytes|);
    ShiftAre(l.base, InsideAll(slides, l.base, range), a);
    if a >= l.base {
      InsideAllAre(slides, l.base, range, a - l.base);
      MatchesAre(l.bytes, w, 0, |l.bytes|, a - l.base);
    }
  }

  lemma InRangeSnoc(loaded: seq<Loaded>, range: AddrRange, w: Query)
    ensures loaded == [] ==> InRange(loaded, range, w) == []
    ensures loaded != [] ==>
      var l := loaded[|loaded| - 1];
      InRange(loaded, range, w) == InRange(loaded[..|loaded| - 1], range, w)
                                   + Shift(l.base, InsideAll(Matches(l.bytes, w, 0, |l.bytes|), l.base, range))
  {
    hide Matches, InsideAll, Shift;
  }

  /** They are exactly the aligned matches inside the range. */
  lemma {:induction false} InRangeAre(loaded: seq<Loaded>, range: AddrRange, w: Query, a: nat)
    ensures a in InRange(loaded, range, w) <==> exists i :: 0 <= i < |loaded| && MatchAt(loaded[i], range, w, a)
  {
    hide MatchAt, Matches, InsideAll, Shift, InRange;
    InRangeSnoc(loaded, range, w);
    if loaded != [] {
      var l, front := loaded[|loaded| - 1], loaded[..|loaded| - 1];
      var before, here := InRange(front, range, w),
        Shift(l.base, InsideAll(Matches(l.bytes, w, 0, |l.bytes|), l.base, range));
      InRangeAre(front, range, w, a);
      RegionAre(l, range, w, a);
      assert a in before + here <==> a in before || a in here;
      if i :| 0 <= i < |loaded| && MatchAt(loaded[i], range, w, a) {
        assert i < |front| ==> MatchAt(front[i], range, w, a);
      }
      if i :| 0 <= i < |front| && MatchAt(front[i], range, w, a) {
        assert MatchAt(loaded[i], range, w, a);
      }
    }
  }

  /** Regions in address order that do not overlap. */
  ghost predicate Layout(loaded: seq<Loaded>)
  {
    forall i, j :: 0 <= i < j < |loaded| ==> loaded[i].base + |loaded[i].bytes| <= loaded[j].base
  }

  lemma {:induction false} InsideAllOrdered(slides: seq<nat>, base: nat, range: AddrRange)
    requires Ordered(slides)
    ensures Ordered(InsideAll(slides, base, range))
  {
    if slides != [] {
      var rest := InsideAll(slides[1..], base, range);
      InsideAllOrdered(slides[1..], base, range);
      forall i | 0 <= i < |rest| ensures slides[0] < rest[i]
      {
        InsideAllAre(slides[1..], base, range, rest[i]);
      }
    }
  }

  /** And they ascend. */
  lemma {:induction false} InRangeOrdered(loaded: seq<Loaded>, range: AddrRange, w: Query)
    requires Layout(loaded)
    ensures Ordered(InRange(loaded, range, w))
  {
    hide Matches, InsideAll, InRange, Shift;
    InRangeSnoc(loaded, range, w);
    if loaded != [] {
      var l, front := loaded[|loaded| - 1], loaded[..|loaded| - 1];
      var matches := Matches(l.bytes, w, 0, |l.bytes|);
      InRangeOrdered(front, range, w);
      MatchesOrdered(l.bytes, w, 0, |l.bytes|);
      InsideAllOrdered(matches, l.base, range);
      ShiftOrdered(l.base, InsideAll(matches, l.base, range));
      var before := InRange(front, range, w);
      forall i | 0 <= i < |before| ensures before[i] < l.base
      {
        BelowNext(loaded, range, w, before[i]);
      }
    }
  }

  lemma ShiftOrdered(base: nat, slides: seq<nat>)
    requires Ordered(slides)
    ensures Ordered(Shift(base, slides)) && forall i :: 0 <= i < |slides| ==> Shift(base, slides)[i] >= base
  {
  }

  /** Matches of earlier regions lie below the last region. */
  lemma BelowNext(loaded: seq<Loaded>, range: AddrRange, w: Query, a: nat)
    requires Layout(loaded) && loaded != [] && a in InRange(loaded[..|loaded| - 1], range, w)
    ensures a < loaded[|loaded| - 1].base
  {
    hide Hit, InRange, Aligned;
    InRangeAre(loaded[..|loaded| - 1], range, w, a);
    var i :| 0 <= i < |loaded| - 1 && MatchAt(loaded[i], range, w, a);
    HitsFit(loaded[i].bytes, w);
  }

  // ----- Refinement -----

  /** Bytes of a stored region, when they can be loaded. */
  predicate CanLoad(memory: map<nat, seq<byte>>, r: Region)
  {
    r.base in memory && |memory[r.base]| == r.size
  }

  predicate Skipped(r: Region, range: AddrRange) { r.base + r.size < range.start || r.base > range.end }

  /** Slides that still match inside the range. */
  function Kept(r: Region, m: seq<byte>, range: AddrRange, w: Query, n: nat): (s: seq<uint32>)
    requires n <= |r.slides|
  {
    if n == 0 then []
    else
      var slide := r.slides[n - 1];
      Kept(r, m, range, w, n - 1) + (if Inside(range, r.base + slide) && Hit(m, w, slide) then [slide] else [])
  }

  function Refine(r: Region, memory: map<nat, seq<byte>>, range: AddrRange, w: Query): (s: seq<uint32>)
  {
    if CanLoad(memory, r) then Kept(r, memory[r.base], range, w, |r.slides|) else []
  }

  /** The region list after a refinement: regions outside the range are left as they are. */
  function Refined(regions: seq<Region>, memory: map<nat, seq<byte>>, range: AddrRange, w: Query): (r: seq<Region>)
  {
    if regions == [] then []
    else
      var front, last := Refined(regions[..|regions| - 1], memory, range, w), regions[|regions| - 1];
      if Skipped(last, range) then front + [last]
      else if Refine(last, memory, range, w) == [] then front
      else front + [Region(last.base, last.size, Refine(last, memory, range, w), [])]
  }

  /** Results in regions that a refinement does not look at. */
  function SkippedTotal(regions: seq<Region>, range: AddrRange): (n: nat)
  {
    if regions == [] then 0
    else
      SkippedTotal(regions[..|regions| - 1], range)
      + if Skipped(regions[|regions| - 1], range) then |regions[|regions| - 1].slides| else 0
  }

  /** Result j of a region still matches: inside the range, loaded, and a hit. */
  predicate Survives(r: Region, memory: map<nat, seq<byte>>, range: AddrRange, w: Query, j: nat)
    requires j < |r.slides|
  {
    && range.start <= r.base + r.slides[j] < range.end
    && r.base in memory && |memory[r.base]| == r.size && Hit(memory[r.base], w, r.slides[j])
  }

  /** A refinement keeps it: also when it does not look at the region at all. */
  predicate Stays(r: Region, memory: map<nat, seq<byte>>, range: AddrRange, w: Query, j: nat)
    requires j < |r.slides|
  {
    r.base + r.size < range.start || range.end < r.base || Survives(r, memory, range, w, j)
  }

  /** How many of the first n results of a region stay. */
  function StayBefore(r: Region, memory: map<nat, seq<byte>>, range: AddrRange, w: Query, n: nat): (k: nat)
    requires n <= |r.slides|
  {
    if n == 0 then 0 else StayBefore(r, memory, range, w, n - 1) + if Stays(r, memory, range, w, n - 1) then 1 else 0
  }

  /** How many results of the first i regions stay. */
  function StayIn(regions: seq<Region>, memory: map<nat, seq<byte>>, range: AddrRange, w: Query, i: nat): (k: nat)
    requires i <= |regions|
  {
    if i == 0 then 0
    else StayIn(regions, memory, range, w, i - 1)
         + StayBefore(regions[i - 1], memory, range, w, |regions[i - 1].slides|)
  }

  /** What one region contributes to the refined list. */
  function Contribution(r: Region, memory: map<nat, seq<byte>>, range: AddrRange, w: Query): (a: seq<nat>)
  {
    if Skipped(r, range) then Addresses(r) else Shift(r.base, Refine(r, memory, range, w))
  }

  /** Entry j of the contribution, when it stays, stands behind those before it. */
  ghost predicate Placed(a: seq<nat>, before: nat, r: Region, memory: map<nat, seq<byte>>, range: AddrRange, w: Query,
                         j: nat)
    requires j < |r.slides|
  {
    Stays(r, memory, range, w, j) ==>
      before + StayBefore(r, memory, range, w, j) < |a|
      && a[before + StayBefore(r, memory, range, w, j)] == r.base + r.slides[j]
  }

  lemma {:induction false} KeptAre(r: Region, memory: map<nat, seq<byte>>, range: AddrRange, w: Query, n: nat)
    requires n <= |r.slides| && !Skipped(r, range) && CanLoad(memory, r)
    ensures |Kept(r, memory[r.base], range, w, n)| == StayBefore(r, memory, range, w, n)
    ensures forall j: nat :: j < n && Stays(r, memory, range, w, j) ==>
      StayBefore(r, memory, range, w, j) < StayBefore(r, memory, range, w, n)
      && Kept(r, memory[r.base], range, w, n)[StayBefore(r, memory, range, w, j)] == r.slides[j]
  {
    hide Hit;
    if n > 0 {
      KeptAre(r, memory, range, w, n - 1);
    }
  }

  lemma {:induction false} AllStay(r: Region, memory: map<nat, seq<byte>>, range: AddrRange, w: Query, n: nat)
    requires n <= |r.slides|
    ensures Skipped(r, range) ==> StayBefore(r, memory, range, w, n) == n
    ensures !Skipped(r, range) && !CanLoad(memory, r) ==> StayBefore(r, memory, range, w, n) == 0
  {
    hide Hit;
    if n > 0 {
      AllStay(r, memory, range, w, n - 1);
    }
  }

  lemma ContributionAre(r: Region, memory: map<nat, seq<byte>>, range: AddrRange, w: Query)
    ensures |Contribution(r, memory, range, w)| == StayBefore(r, memory, range, w, |r.slides|)
    ensures forall j: nat :: j < |r.slides| ==> Placed(Contribution(r, memory, range, w), 0, r, memory, range, w, j)
  {
    hide Hit, StayBefore, Kept;
    AllStay(r, memory, range, w, |r.slides|);
    if Skipped(r, range) {
      forall j: nat | j < |r.slides| ensures StayBefore(r, memory, range, w, j) == j
      {
        AllStay(r, memory, range, w, j);
      }
    } else if CanLoad(memory, r) {
      KeptAre(r, memory, range, w, |r.slides|);
    }
  }

  lemma {:induction false} RefinedSnoc(front: seq<Region>, r: Region, memory: map<nat, seq<byte>>, range: AddrRange,
                                       w: Query)
    ensures AllAddresses(Refined(front + [r], memory, range, w))
         == AllAddresses(Refined(front, memory, range, w)) + Contribution(r, memory, range, w)
  {
    hide Refine, Skipped, AllAddresses;
    assert (front + [r])[..|front|] == front;
    var before := Refined(front, memory, range, w);
    if Skipped(r, range) {
      TotalSnoc(before, r);
    } else if Refine(r, memory, range, w) == [] {
      NoShift(before, r.base);
    } else {
      TotalSnoc(before, Region(r.base, r.size, Refine(r, memory, range, w), []));
      AddressesAreShifted(Region(r.base, r.size, Refine(r, memory, range, w), []));
    }
  }

  /** The list of a refinement: every result that stays, and nothing else, in the old order. */
  ghost predicate ListsStaying(a: seq<nat>, regions: seq<Region>, memory: map<nat, seq<byte>>, range: AddrRange, w: Query)
  {
    && |a| == StayIn(regions, memory, range, w, |regions|)
    && forall i: nat, j: nat :: i < |regions| && j < |regions[i].slides| ==>
         Placed(a, StayIn(regions, memory, range, w, i), regions[i], memory, range, w, j)
  }

  lemma {:induction false} StayInFront(front: seq<Region>, r: Region, memory: map<nat, seq<byte>>, range: AddrRange,
                                       w: Query, i: nat)
    requires i <= |front|
    ensures StayIn(front + [r], memory, range, w, i) == StayIn(front, memory, range, w, i)
  {
    hide StayBefore;
    if i > 0 {
      StayInFront(front, r, memory, range, w, i - 1);
    }
  }

  lemma {:induction false} RefinedLists(regions: seq<Region>, memory: map<nat, seq<byte>>, range: AddrRange, w: Query)
    ensures ListsStaying(AllAddresses(Refined(regions, memory, range, w)), regions, memory, range, w)
  {
    hide StayBefore, Stays, Contribution, Refined, AllAddresses;
    if regions == [] {
      NoneRefined(memory, range, w);
    } else {
      var front, last := regions[..|regions| - 1], regions[|regions| - 1];
      assert front + [last] == regions;
      RefinedLists(front, memory, range, w);
      RefinedSnoc(front, last, memory, range, w);
      ContributionAre(last, memory, range, w);
      StayInFront(front, last, memory, range, w, |front|);
      var before, more := AllAddresses(Refined(front, memory, range, w)), Contribution(last, memory, range, w);
      forall i: nat, j: nat | i < |regions| && j < |regions[i].slides|
        ensures Placed(before + more, StayIn(regions, memory, range, w, i), regions[i], memory, range, w, j)
      {
        if i < |front| {
          StayInFront(front, last, memory, range, w, i);
          assert Placed(before, StayIn(front, memory, range, w, i), front[i], memory, range, w, j);
        } else {
          assert Placed(more, 0, last, memory, range, w, j);
        }
      }
    }
  }

  lemma NoneRefined(memory: map<nat, seq<byte>>, range: AddrRange, w: Query)
    ensures AllAddresses(Refined([], memory, range, w)) == []
  {
  }

  /** Result j of region i stays and has this address. */
  predicate StaysAt(regions: seq<Region>, memory: map<nat, seq<byte>>, range: AddrRange, w: Query, i: nat, j: nat, a: nat)
  {
    && i < |regions| && j < |regions[i].slides| && a == regions[i].base + regions[i].slides[j]
    && Stays(regions[i], memory, range, w, j)
  }

  lemma {:induction false} KeptMembers(r: Region, memory: map<nat, seq<byte>>, range: AddrRange, w: Query, n: nat,
                                       slide: nat)
    requires n <= |r.slides| && !Skipped(r, range) && CanLoad(memory, r)
    ensures slide in Kept(r, memory[r.base], range, w, n) <==>
      exists j: nat :: j < n && r.slides[j] == slide && Stays(r, memory, range, w, j)
  {
    hide Hit;
    if n > 0 {
      KeptMembers(r, memory, range, w, n - 1, slide);
      assert Stays(r, memory, range, w, n - 1) <==>
        Inside(range, r.base + r.slides[n - 1]) && Hit(memory[r.base], w, r.slides[n - 1]);
    }
  }

  lemma ContributionMembers(r: Region, memory: map<nat, seq<byte>>, range: AddrRange, w: Query, a: nat)
    ensures a in Contribution(r, memory, range, w) <==>
      exists j: nat :: j < |r.slides| && r.base + r.slides[j] == a && Stays(r, memory, range, w, j)
  {
    hide Hit, Kept, Shift;
    AddressesAreShifted(r);
    ShiftAre(r.base, r.slides, a);
    ShiftAre(r.base, Refine(r, memory, range, w), a);
    if !Skipped(r, range) && CanLoad(memory, r) && a >= r.base {
      KeptMembers(r, memory, range, w, |r.slides|, a - r.base);
    }
  }

  lemma {:induction false} RefinedMembers(regions: seq<Region>, memory: map<nat, seq<byte>>, range: AddrRange, w: Query,
                                          a: nat)
    ensures a in AllAddresses(Refined(regions, memory, range, w)) <==>
      exists i: nat, j: nat :: StaysAt(regions, memory, range, w, i, j, a)
  {
    hide Stays, Contribution, Refined, AllAddresses;
    if regions == [] {
      NoneRefined(memory, range, w);
    } else {
      var front, last := regions[..|regions| - 1], regions[|regions| - 1];
      assert front + [last] == regions;
      RefinedMembers(front, memory, range, w, a);
      RefinedSnoc(front, last, memory, range, w);
      ContributionMembers(last, memory, range, w, a);
      var before, more := AllAddresses(Refined(front, memory, range, w)), Contribution(last, memory, range, w);
      assert a in before + more <==> a in before || a in more;
      if i: nat, j: nat :| StaysAt(regions, memory, range, w, i, j, a) {
        assert i < |front| ==> StaysAt(front, memory, range, w, i, j, a);
      }
      if i: nat, j: nat :| StaysAt(front, memory, range, w, i, j, a) {
        assert StaysAt(regions, memory, range, w, i, j, a);
      }
      if j: nat :| j < |last.slides| && last.base + last.slides[j] == a && Stays(last, memory, range, w, j) {
        assert StaysAt(regions, memory, range, w, |regions| - 1, j, a);
      }
    }
  }

  /** A refinement keeps exactly the results that stay, in their order. A range that reaches
      every region leaves only those that still match, and counts them all; a result in the
      range and inside its region is never in one that is left alone. */
  lemma RefinementIsAFilter(regions: seq<Region>, memory: map<nat, seq<byte>>, range: AddrRange, w: Query)
    ensures ListsStaying(AllAddresses(Refined(regions, memory, range, w)), regions, memory, range, w)
    ensures forall a: nat :: a in AllAddresses(Refined(regions, memory, range, w)) <==>
      exists i: nat, j: nat :: StaysAt(regions, memory, range, w, i, j, a)
    ensures (forall i :: 0 <= i < |regions| ==>
              regions[i].base + regions[i].size >= range.start && regions[i].base <= range.end) ==>
      SkippedTotal(regions, range) == 0
      && forall i: nat, j: nat :: i < |regions| && j < |regions[i].slides| ==>
           (Stays(regions[i], memory, range, w, j) <==> Survives(regions[i], memory, range, w, j))
    ensures forall i: nat, j: nat :: (i < |regions| && j < |regions[i].slides| && regions[i].slides[j] <= regions[i].size
      && range.start <= regions[i].base + regions[i].slides[j] < range.end) ==>
        regions[i].base + regions[i].size >= range.start && regions[i].base <= range.end
  {
    hide Survives, Refined, AllAddresses;
    RefinedLists(regions, memory, range, w);
    forall a: nat
      ensures a in AllAddresses(Refined(regions, memory, range, w)) <==>
        exists i: nat, j: nat :: StaysAt(regions, memory, range, w, i, j, a)
    {
      RefinedMembers(regions, memory, range, w, a);
    }
    if forall i :: 0 <= i < |regions| ==>
      regions[i].base + regions[i].size >= range.start && regions[i].base <= range.end
    {
      NoneSkipped(regions, range);
    }
  }

  lemma {:induction false} NoneSkipped(regions: seq<Region>, range: AddrRange)
    requires forall i :: 0 <= i < |regions| ==>
               regions[i].base + regions[i].size >= range.start && regions[i].base <= range.end
    ensures SkippedTotal(regions, range) == 0
  {
    if regions != [] {
      NoneSkipped(regions[..|regions| - 1], range);
    }
  }

  // ----- Nearby search over all regions -----

  ghost predicate CanSearch(regions: seq<Region>, memory: map<nat, seq<byte>>, w: Query, range: nat)
  {
    forall i {:trigger regions[i]} :: 0 <= i < |regions| ==>
      CanLoad(memory, regions[i]) ==> Searchable(memory[regions[i].base], w, regions[i].slides, range)
  }

  ghost predicate HasResult(r: Region, memory: map<nat, seq<byte>>, w: Query, range: nat)
  {
    CanLoad(memory, r) && exists q: uint32 :: Result(memory[r.base], w, r.slides, range, |r.slides|, q)
  }

  /** n is what the search makes of region r. */
  ghost predicate SearchedRegion(r: Region, n: Region, memory: map<nat, seq<byte>>, w: Query, usual: NumType,
                                 range: nat)
  {
    && CanLoad(memory, r) && n.base == r.base && n.size == r.size
    && Outcome(memory[r.base], w, r.slides, r.types, usual, range, |r.slides|, n.slides, n.types, r.types != []
      || w.t != usual)
  }

  /** Regions with results are replaced in order, the others dropped. */
  ghost predicate Searched(regions: seq<Region>, found: seq<Region>, memory: map<nat, seq<byte>>, w: Query,
                           usual: NumType, range: nat)
  {
    if regions == [] then found == []
    else
      var front, last := regions[..|regions| - 1], regions[|regions| - 1];
      if HasResult(last, memory, w, range) then
        found != [] && Searched(front, found[..|found| - 1], memory, w, usual, range)
        && SearchedRegion(last, found[|found| - 1], memory, w, usual, range)
      else Searched(front, found, memory, w, usual, range)
  }

  /** The range is rounded down to whole values, plus one. */
  function RoundedRange(range: nat, w: Query): (r: nat)
    ensures r > 0 && range - Step(w) < r - Step(w) <= range
  {
    range - range % Step(w) + Step(w)
  }

  lemma RoundedIsMultiple(range: nat, w: Query)
    ensures RoundedRange(range, w) % Step(w) == 0
  {
    var n := Step(w);
    assert range - range % n == range / n * n;
    ModMultiple(range / n + 1, n);
    assert RoundedRange(range, w) == (range / n + 1) * n;
  }

  class JJMemoryEngine {
    var regions: seq<Region>
    var count: nat
    var memoryLimitReached: bool
    var firstScanDone: bool
    var lastNumberType: NumType

    constructor ()
      ensures regions == [] && count == 0 && !memoryLimitReached && !firstScanDone
    {
      regions, count, memoryLimitReached, firstScanDone, lastNumberType := [], 0, false, false, ULong;
    }

    /** The count is the number of stored results. */
    ghost predicate Counted()
      reads this
    {
      count == Total(regions) && (memoryLimitReached ==> count >= MAX_SEARCH_RESULTS)
    }

    method ScanRegion(range: AddrRange, l: Loaded, w: Query)
      requires Counted() && |l.bytes| < 0x1_0000_0000
      modifies this`regions, this`count, this`memoryLimitReached
      ensures Counted()
      ensures AllAddresses(regions)
           == old(AllAddresses(regions)) + Shift(l.base, Scanned(l, range, w, MAX_SEARCH_RESULTS - old(count)))
    {
      hide Matches, InsidePrefix, Scanned, AllAddresses, Total, Addresses, Shift;
      ScannedBound(l, range, w, MAX_SEARCH_RESULTS - count);
      NoShift(regions, l.base);
      if memoryLimitReached {
        return;
      }
      var slides: seq<uint32>, limited: bool := [], true;
      if count <= MAX_SEARCH_RESULTS {
        slides, limited := CollectRegion(l.bytes, l.base, range, w, MAX_SEARCH_RESULTS - count);
        ScannedIs(l, range, w, MAX_SEARCH_RESULTS - count);
      }
      memoryLimitReached := limited;
      if slides != [] {
        var newRegion := Region(l.base, |l.bytes|, slides, []);
        TotalSnoc(regions, newRegion);
        AddressesAreShifted(newRegion);
        regions := regions + [newRegion];
        count := count + |slides|;
      }
    }

    /** All writable regions in address order, on an empty result list. */
    method FirstScan(range: AddrRange, loaded: seq<Loaded>, w: Query)
      requires Counted() && regions == []
      requires forall i :: 0 <= i < |loaded| ==> |loaded[i].bytes| < 0x1_0000_0000
      modifies this`regions, this`count, this`memoryLimitReached
      ensures Counted()
      ensures AllAddresses(regions) == FirstResults(loaded, range, w)
    {
      hide Matches, InsidePrefix, Scanned, Take;
      for i := 0 to |loaded|
        invariant Counted() && AllAddresses(regions) == FirstResults(loaded[..i], range, w)
      {
        assert loaded[..i + 1][..i] == loaded[..i];
        ScanRegion(range, loaded[i], w);
      }
      assert loaded[..|loaded|] == loaded;
    }

    /** Nothing is stored before the first scan. */
    ghost predicate Ready()
      reads this
    {
      !firstScanDone ==> Counted() && regions == []
    }

    /** JJScanMemory: the first call scans all regions, later ones refine. */
    method JJScanMemory(range: AddrRange, loaded: seq<Loaded>, memory: map<nat, seq<byte>>, w: Query)
      requires Ready() && forall i :: 0 <= i < |loaded| ==> |loaded[i].bytes| < 0x1_0000_0000
      modifies this
      ensures firstScanDone && lastNumberType == w.t
      ensures !old(firstScanDone) ==> Counted() && AllAddresses(regions) == FirstResults(loaded, range, w)
      ensures old(firstScanDone) ==>
        regions == Refined(old(regions), memory, range, w)
          && count + SkippedTotal(old(regions), range) == Total(regions)
    {
      hide AllAddresses, Addresses, Refined, SkippedTotal, Total, FirstResults;
      lastNumberType := w.t;
      if firstScanDone {
        ScanAgain(range, memory, w);
      } else {
        FirstScan(range, loaded, w);
        firstScanDone := true;
      }
    }

    method ScanAgain(range: AddrRange, memory: map<nat, seq<byte>>, w: Query)
      modifies this`regions, this`count
      ensures regions == Refined(old(regions), memory, range, w)
      ensures count + SkippedTotal(old(regions), range) == Total(regions)
    {
      hide Refine, Refined, SkippedTotal, Total, AllAddresses, Addresses;
      var newRegions: seq<Region>, newCount: nat := [], 0;
      NothingRefined(memory, range, w);
      for i := 0 to |regions|
        invariant regions == old(regions) && newRegions == Refined(regions[..i], memory, range, w)
        invariant newCount + SkippedTotal(regions[..i], range) == Total(newRegions)
      {
        RefinedStep(regions, i, memory, range, w);
        var region := regions[i];
        if Skipped(region, range) {
          TotalSnoc(newRegions, region);
          newRegions := newRegions + [region];
        } else {
          var slides := KeepMatching(region, memory, range, w);
          if slides != [] {
            var newRegion := Region(region.base, region.size, slides, []);
            TotalSnoc(newRegions, newRegion);
            newRegions := newRegions + [newRegion];
            newCount := newCount + |slides|;
          }
        }
      }
      assert regions[..|regions|] == regions;
      regions, count := newRegions, newCount;
    }

    method JJNearBySearch(range: nat, memory: map<nat, seq<byte>>, w: Query)
      requires CanSearch(regions, memory, w, RoundedRange(range, w))
      modifies this`regions, this`count
      ensures Searched(old(regions), regions, memory, w, lastNumberType, RoundedRange(range, w))
      ensures count == Total(regions)
    {
      hide Result, Outcome, Searchable, Step;
      var range' := RoundedRange(range, w);
      var newRegions: seq<Region>, newCount: nat := [], 0;
      for i := 0 to |regions|
        invariant regions == old(regions)
        invariant Searched(regions[..i], newRegions, memory, w, lastNumberType, range')
        invariant newCount == Total(newRegions)
      {
        assert regions[..i + 1][..i] == regions[..i];
        var region := regions[i];
        if CanLoad(memory, region) {
          var needType := region.types != [] || w.t != lastNumberType;
          var slides, types := NearRegion(memory[region.base], w, region.slides, region.types, lastNumberType,
            range', needType);
          NoneOrSome(memory[region.base], w, region.slides, region.types, lastNumberType, range', slides, types,
            needType);
          if slides != [] {
            var newRegion := Region(region.base, region.size, slides, types);
            TotalSnoc(newRegions, newRegion);
            assert (newRegions + [newRegion])[..|newRegions|] == newRegions;
            newRegions := newRegions + [newRegion];
            newCount := newCount + |slides|;
          }
        }
      }
      assert regions[..|regions|] == regions;
      regions, count := newRegions, newCount;
    }

    /** The addresses of one region that fall on the page, after `index` earlier results. */
    method PageOfRegion(region: Region, index: nat, ghost before: seq<nat>, count: nat, skip: nat, results: seq<nat>)
      returns (more: seq<nat>)
      requires index == |before| && results == Page(before, skip, count)
      ensures more == Page(before + Addresses(region), skip, count)
    {
      hide Page;
      more := results;
      assert before + Addresses(region)[..0] == before;
      for j := 0 to |region.slides|
        invariant more == Page(before + Addresses(region)[..j], skip, count)
      {
        AddressAt(region, j);
        var address := region.base + region.slides[j];
        assert before + Addresses(region)[..j + 1] == before + Addresses(region)[..j] + [address];
        PageSnoc(before + Addresses(region)[..j], address, skip, count);
        if index + j >= skip && index + j - skip < count {
          more := more + [address];
        }
      }
      assert Addresses(region)[..|region.slides|] == Addresses(region);
    }

    method GetResults(count: nat, skip: nat) returns (results: seq<nat>)
      ensures results == Page(AllAddresses(regions), skip, count)
      ensures |results| == if skip >= |AllAddresses(regions)| then 0
                           else if |AllAddresses(regions)| - skip < count then |AllAddresses(regions)| - skip else count
      ensures forall i :: 0 <= i < |results| ==> results[i] == AllAddresses(regions)[skip + i]
    {
      hide Addresses, Page;
      results := [];
      var index: nat := 0;
      NothingTaken(skip, count);
      for i := 0 to |regions|
        invariant index == |AllAddresses(regions[..i])| && results == Page(AllAddresses(regions[..i]), skip, count)
      {
        assert regions[..i + 1][..i] == regions[..i];
        var region := regions[i];
        ghost var before := AllAddresses(regions[..i]);
        if index + |region.slides| <= skip {
          PageEarly(before + Addresses(region), skip, count);
          PageEarly(before, skip, count);
        } else {
          results := PageOfRegion(region, index, before, count, skip, results);
        }
        index := index + |region.slides|;
      }
      assert regions[..|regions|] == regions;
      PageIs(AllAddresses(regions), skip, count);
    }
  }

  lemma PageIs(a: seq<nat>, skip: nat, count: nat)
    ensures var p := Page(a, skip, count);
      && |p| == (if skip >= |a| then 0 else if |a| - skip < count then |a| - skip else count)
      && forall i :: 0 <= i < |p| ==> p[i] == a[skip + i]
  {
  }

  /** Nothing more once the limit is reached, and never more than there is room for. */
  lemma ScannedBound(l: Loaded, range: AddrRange, w: Query, n: int)
    ensures n <= 0 ==> Scanned(l, range, w, n) == []
    ensures n >= 0 ==> |Scanned(l, range, w, n)| <= n
  {
    hide Matches, InsidePrefix;
  }

  lemma ScannedIs(l: Loaded, range: AddrRange, w: Query, n: int)
    ensures Scanned(l, range, w, n) == Take(InsidePrefix(Matches(l.bytes, w, 0, |l.bytes|), l.base, range), n)
  {
  }

  lemma NoShift(regions: seq<Region>, base: nat)
    ensures AllAddresses(regions) + Shift(base, []) == AllAddresses(regions)
  {
    hide AllAddresses;
  }

  lemma AddressesAreShifted(r: Region)
    ensures Addresses(r) == Shift(r.base, r.slides)
  {
  }

  lemma NothingRefined(memory: map<nat, seq<byte>>, range: AddrRange, w: Query)
    ensures Refined([], memory, range, w) == [] && SkippedTotal([], range) == 0 && Total([]) == 0
  {
  }

  lemma RefinedStep(regions: seq<Region>, i: nat, memory: map<nat, seq<byte>>, range: AddrRange, w: Query)
    requires i < |regions|
    ensures var front, r := Refined(regions[..i], memory, range, w), regions[i];
      Refined(regions[..i + 1], memory, range, w)
        == if Skipped(r, range) then front + [r]
           else if Refine(r, memory, range, w) == [] then front
           else front + [Region(r.base, r.size, Refine(r, memory, range, w), [])]
    ensures SkippedTotal(regions[..i + 1], range)
         == SkippedTotal(regions[..i], range) + if Skipped(regions[i], range) then |regions[i].slides| else 0
  {
    hide Refine, Skipped;
    assert regions[..i + 1][..i] == regions[..i];
  }

  lemma AddressAt(r: Region, j: nat)
    requires j < |r.slides|
    ensures Addresses(r)[..j + 1] == Addresses(r)[..j] + [r.base + r.slides[j]]
  {
  }

  method KeepMatching(region: Region, memory: map<nat, seq<byte>>, range: AddrRange, w: Query)
    returns (slides: seq<uint32>)
    ensures slides == Refine(region, memory, range, w)
  {
    hide Hit;
    slides := [];
    if CanLoad(memory, region) {
      var m := memory[region.base];
      for j := 0 to |region.slides|
        invariant slides == Kept(region, m, range, w, j)
      {
        var slide := region.slides[j];
        if Inside(range, region.base + slide) && Hit(m, w, slide) {
          slides := slides + [slide];
        }
      }
    }
  }

  /** Results over the regions so far, never more than the limit. */
  function FirstResults(loaded: seq<Loaded>, range: AddrRange, w: Query): (a: seq<nat>)
  {
    if loaded == [] then []
    else
      var l, before := loaded[|loaded| - 1], FirstResults(loaded[..|loaded| - 1], range, w);
      before + Shift(l.base, Scanned(l, range, w, MAX_SEARCH_RESULTS - |before|))
  }

  lemma TakeMore(a: seq<nat>, b: seq<nat>, base: nat, s: seq<nat>, n: nat)
    requires b == Shift(base, s)
    ensures Take(a + b, n) == Take(a, n) + Shift(base, Take(s, n - |Take(a, n)|))
  {
  }

  /** When no region begins below the range, the first scan finds the first hundred
      thousand in-range matches: in address order, and all of them when there are fewer. */
  lemma FirstScanIsAFilter(loaded: seq<Loaded>, range: AddrRange, w: Query)
    requires forall i :: 0 <= i < |loaded| ==> loaded[i].base >= range.start
    ensures var all := InRange(loaded, range, w);
      FirstResults(loaded, range, w) == if |all| > 100000 then all[..100000] else all
    ensures Layout(loaded) ==> Ordered(FirstResults(loaded, range, w))
    ensures forall a: nat :: a in InRange(loaded, range, w) <==>
      exists i :: 0 <= i < |loaded| && MatchAt(loaded[i], range, w, a)
  {
    hide InRange, FirstResults, MatchAt;
    FirstScanTakes(loaded, range, w);
    if Layout(loaded) {
      InRangeOrdered(loaded, range, w);
    }
    forall a: nat
      ensures a in InRange(loaded, range, w) <==> exists i :: 0 <= i < |loaded| && MatchAt(loaded[i], range, w, a)
    {
      InRangeAre(loaded, range, w, a);
    }
  }

  lemma {:induction false} FirstScanTakes(loaded: seq<Loaded>, range: AddrRange, w: Query)
    requires forall i :: 0 <= i < |loaded| ==> loaded[i].base >= range.start
    ensures FirstResults(loaded, range, w) == Take(InRange(loaded, range, w), MAX_SEARCH_RESULTS)
  {
    hide Matches, InsidePrefix, InsideAll, Take, Shift;
    if loaded != [] {
      var l, front := loaded[|loaded| - 1], loaded[..|loaded| - 1];
      FirstScanTakes(front, range, w);
      var matches := Matches(l.bytes, w, 0, |l.bytes|);
      MatchesOrdered(l.bytes, w, 0, |l.bytes|);
      PrefixOfOrdered(matches, l.base, range);
      var inside := InsideAll(matches, l.base, range);
      TakeMore(InRange(front, range, w), Shift(l.base, inside), l.base, inside, MAX_SEARCH_RESULTS);
    } else {
      assert Take<nat>([], MAX_SEARCH_RESULTS) == [] by { TakeNone(MAX_SEARCH_RESULTS); }
    }
  }

  lemma TwoSevens()
    ensures Matches([7, 7], Query(UByte, 7, 7), 0, 2) == [0, 1]
  {
    var m, w := [7, 7], Query(UByte, 7, 7);
    assert m[0..1] == [7] && m[1..2] == [7] && [7][1..] == [];
    assert Little([]) == 0 && Little([7]) == 7;
    assert Hit(m, w, 0) && Hit(m, w, 1) && Aligned(0, 1) && Aligned(1, 1);
    assert Matches(m, w, 2, 2) == [];
    assert Matches(m, w, 1, 2) == [1] + Matches(m, w, 2, 2);
  }

  /** A match below the range ends the scan of its region: the match inside is lost. */
  lemma MatchBelowHidesMatch()
    ensures var l, w, range := Loaded(0, [7, 7]), Query(UByte, 7, 7), AddrRange(1, 2);
      FirstResults([l], range, w) == [] && InRange([l], range, w) == [1]
  {
    hide Matches;
    var w, range := Query(UByte, 7, 7), AddrRange(1, 2);
    TwoSevens();
    assert InsidePrefix([0, 1], 0, range) == [];
    assert [0, 1][1..] == [1] && [1][1..] == [];
    assert InsideAll([1], 0, range) == [1] && InsideAll([0, 1], 0, range) == [1];
    assert InRange([], range, w) == [] && FirstResults([], range, w) == [];
    assert [Loaded(0, [7, 7])][..0] == [];
    assert Shift(0, [1]) == [1] && Shift(0, []) == [];
  }

  /** A refinement leaves a region outside its range as it is, and counts none of it. */
  lemma SkippedRegionUncounted(memory: map<nat, seq<byte>>, w: Query)
    ensures var regions, range := [Region(0, 1, [0], [])], AddrRange(5, 6);
      Refined(regions, memory, range, w) == regions && SkippedTotal(regions, range) == 1 && Total(regions) == 1
  {
    var region := Region(0, 1, [0], []);
    var regions: seq<Region> := [region];
    assert regions[..0] == [] && Skipped(region, AddrRange(5, 6));
    assert Refined([], memory, AddrRange(5, 6), w) == [] && SkippedTotal([], AddrRange(5, 6)) == 0 && Total([]) == 0;
  }

  lemma TakeNone(n: int)
    ensures Take<nat>([], n) == []
  {
  }

  lemma NoneOrSome(m: seq<byte>, w: Query, slides: seq<uint32>, types: seq<NumType>, usual: NumType, range: nat,
                   out: seq<uint32>, outTypes: seq<NumType>, needType: bool)
    requires Outcome(m, w, slides, types, usual, range, |slides|, out, outTypes, needType)
    ensures out != [] <==> exists q: uint32 :: Result(m, w, slides, range, |slides|, q)
  {
    hide Result, Provenance;
    if out != [] {
      assert out[0] in out;
    }
  }

  // ----- Paging -----

  function Page(a: seq<nat>, skip: nat, count: nat): (r: seq<nat>)
  {
    if skip >= |a| then [] else if skip + count <= |a| then a[skip..skip + count] else a[skip..]
  }

  lemma NothingTaken(skip: nat, count: nat)
    ensures Page([], skip, count) == []
  {
  }

  lemma PageEarly(a: seq<nat>, skip: nat, count: nat)
    requires |a| <= skip
    ensures Page(a, skip, count) == []
  {
  }

  lemma PageSnoc(a: seq<nat>, x: nat, skip: nat, count: nat)
    ensures Page(a + [x], skip, count) == Page(a, skip, count) + (if |a| >= skip && |a| - skip < count then [x] else [])
  {
  }

  /** Pages one after the other, n results each. */
  function Pages(a: seq<nat>, n: nat, k: nat): (r: seq<nat>)
  {
    if k == 0 then [] else Pages(a, n, k - 1) + Page(a, (k - 1) * n, n)
  }

  lemma {:induction false} PagesTake(a: seq<nat>, n: nat, k: nat)
    ensures Pages(a, n, k) == Take(a, k * n)
  {
    if k > 0 {
      PagesTake(a, n, k - 1);
      assert k * n == (k - 1) * n + n;
      var at := (k - 1) * n;
      assert at >= 0;
      assert at < |a| ==> a[..at] + a[at..] == a;
    }
  }

  /** Consecutive pages are the list again. */
  lemma PagesConcatenate(a: seq<nat>, n: nat, k: nat)
    ensures Pages(a, n, k) == if k * n < |a| then a[..k * n] else a
  {
    hide Pages;
    PagesTake(a, n, k);
  }
}

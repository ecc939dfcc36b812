/** Searching again in the neighbourhood of earlier results. */
module NearbySearch {
  import opened Arithmetic
  import opened Bytes
  import opened Options
  import opened Tables
  import opened Scanning

  ghost predicate Ascending(slides: seq<uint32>)
  {
    forall i, j :: 0 <= i < j < |slides| ==> slides[i] < slides[j]
  }

  /** What the single nearby search is promised for: slides in order, on multiples of
      the new type's length, inside the region. */
  ghost predicate Searchable(m: seq<byte>, w: Query, slides: seq<uint32>, range: nat)
  {
    && |m| < 0x1_0000_0000 && Ascending(slides)
    && range > 0 && Aligned(range, Step(w))
    && forall i :: 0 <= i < |slides| ==> slides[i] < |m| && Aligned(slides[i], Step(w))
  }

  predicate InWindow(slide: int, range: nat, q: int) { slide - range <= q < slide + range }

  /** An aligned match in the window of one of the first j slides. */
  ghost predicate NearMatch(m: seq<byte>, w: Query, slides: seq<uint32>, range: nat, j: nat, q: uint32)
    requires j <= |slides|
  {
    Aligned(q, Step(w)) && Hit(m, w, q) && exists i :: 0 <= i < j && InWindow(slides[i], range, q)
  }

  predicate Close(a: int, b: int, range: nat) { a - range < b < a + range }

  /** An old slide strictly within range of such a match. */
  ghost predicate NearOld(m: seq<byte>, w: Query, slides: seq<uint32>, range: nat, j: nat, q: uint32)
    requires j <= |slides|
  {
    q in slides && exists p: uint32 :: NearMatch(m, w, slides, range, j, p) && Close(p, q, range)
  }

  /** The window that is really scanned for slide j: clipped to the region and to what
      earlier windows covered. */
  function WindowEnd(m: seq<byte>, slides: seq<uint32>, range: nat, j: nat): (n: nat)
    requires j <= |slides|
  {
    if j == 0 then 0 else if slides[j - 1] + range > |m| then |m| else slides[j - 1] + range
  }

  function WindowStart(m: seq<byte>, slides: seq<uint32>, range: nat, j: nat): (n: nat)
    requires j < |slides|
  {
    var start := if slides[j] < range then 0 else slides[j] - range;
    if WindowEnd(m, slides, range, j) > start then WindowEnd(m, slides, range, j) else start
  }

  /** The first commented assertion of the source: 0 <= size <= 2 * range. */
  lemma WindowSize(m: seq<byte>, w: Query, slides: seq<uint32>, range: nat, j: nat)
    requires Searchable(m, w, slides, range) && j < |slides|
    ensures WindowStart(m, slides, range, j) <= WindowEnd(m, slides, range, j + 1) <= |m|
    ensures WindowEnd(m, slides, range, j + 1) - WindowStart(m, slides, range, j) <= 2 * range
  {
    hide Aligned;
  }

  /** A window starts on an aligned address unless it is empty. */
  lemma WindowAligned(m: seq<byte>, w: Query, slides: seq<uint32>, range: nat, j: nat)
    requires Searchable(m, w, slides, range) && j < |slides|
    ensures WindowStart(m, slides, range, j) == WindowEnd(m, slides, range, j + 1)
      || Aligned(WindowStart(m, slides, range, j), Step(w))
  {
    SumAligned(slides[j], range, Step(w));
    if j > 0 {
      SumAligned(slides[j - 1], range, Step(w));
    }
  }

  lemma SumAligned(a: int, b: int, n: nat)
    requires n > 0 && Aligned(a, n) && Aligned(b, n)
    ensures Aligned(a + b, n) && Aligned(a - b, n) && Aligned(0, n)
  {
    var k := MultipleIs(a, n);
    var l := MultipleIs(b, n);
    assert a + b == (k + l) * n && a - b == (k - l) * n;
    ModMultiple(k + l, n);
    ModMultiple(k - l, n);
    ModMultiple(0, n);
  }

  /** The scanned windows together hold exactly the matches of the unclipped ones. */
  lemma NewMatches(m: seq<byte>, w: Query, slides: seq<uint32>, range: nat, j: nat, q: uint32)
    requires Searchable(m, w, slides, range) && j < |slides|
    ensures NearMatch(m, w, slides, range, j + 1, q) <==>
        NearMatch(m, w, slides, range, j, q)
        || (WindowStart(m, slides, range, j) <= q && q + Step(w) <= WindowEnd(m, slides, range, j + 1)
            && Aligned(q, Step(w)) && Hit(m, w, q))
    ensures NearMatch(m, w, slides, range, j, q) ==> q < WindowEnd(m, slides, range, j)
  {
    hide Aligned, Hit;
    if Aligned(q, Step(w)) && Hit(m, w, q) {
      HitInside(m, w, q);
      FitsBelow(q, slides[j] + range, w, slides[j], range);
      if InWindow(slides[j], range, q) && q < WindowStart(m, slides, range, j) {
        assert j > 0 && InWindow(slides[j - 1], range, q);
      }
      if NearMatch(m, w, slides, range, j, q) {
        var i :| 0 <= i < j && InWindow(slides[i], range, q);
        assert i < j - 1 ==> slides[i] < slides[j - 1];
      }
      assert WindowStart(m, slides, range, j) <= q && q + Step(w) <= WindowEnd(m, slides, range, j + 1) ==>
        InWindow(slides[j], range, q);
    }
  }

  lemma HitInside(m: seq<byte>, w: Query, q: nat)
    requires Hit(m, w, q)
    ensures q + Step(w) <= |m|
  {
  }

  /** On multiples of the step, below the end means wholly below it. */
  lemma FitsBelow(q: nat, end: nat, w: Query, slide: nat, range: nat)
    requires Aligned(q, Step(w)) && Aligned(slide, Step(w)) && Aligned(range, Step(w)) && end == slide + range
    ensures q < end <==> q + Step(w) <= end
  {
    SumAligned(slide, range, Step(w));
    Multiples(q, end, Step(w));
  }

  /** The second commented assertion: the two interval tests overlap, so testing against
      the first and the last match is testing against all of them. */
  lemma FirstAndLastSuffice(first: int, last: int, p: int, q: int, range: nat)
    requires first <= p <= last && last - first < 2 * range
    ensures last - range < first + range
    ensures Close(p, q, range) ==> Close(first, q, range) || Close(last, q, range)
  {
  }

  predicate WindowHit(m: seq<byte>, w: Query, from: nat, to: nat, q: nat)
  {
    from <= q && q + Step(w) <= to && Aligned(q, Step(w)) && Hit(m, w, q)
  }

  ghost predicate Collected(matched: Table<NumType>, m: seq<byte>, w: Query, from: nat, to: nat, upto: nat)
  {
    && Sorted(matched)
    && forall q: uint32 :: Find(matched, q) == if q < upto && WindowHit(m, w, from, to, q) then Some(w.t) else None
  }

  ghost predicate FirstLast(m: seq<byte>, w: Query, from: nat, to: nat, upto: nat, count: nat, first: uint32,
                            last: uint32)
  {
    && (count == 0 <==> forall q: uint32 :: q < upto ==> !WindowHit(m, w, from, to, q))
    && (count > 0 ==>
          && last < upto
          && WindowHit(m, w, from, to, first) && WindowHit(m, w, from, to, last) && first <= last
          && forall q: uint32 :: q < upto && WindowHit(m, w, from, to, q) ==> first <= q <= last)
  }

  lemma CollectOne(matched: Table<NumType>, m: seq<byte>, w: Query, from: nat, to: nat, cur: nat, p: uint32)
    requires Collected(matched, m, w, from, to, cur) && cur <= p && WindowHit(m, w, from, to, p)
    requires forall q: nat :: cur <= q < p ==> !WindowHit(m, w, from, to, q)
    ensures Collected(Insert(matched, p, w.t), m, w, from, to, p + Step(w))
    ensures forall q: nat :: p < q < p + Step(w) ==> !WindowHit(m, w, from, to, q)
  {
    hide Insert, Find, Hit, Sorted;
    InsertSorted(matched, p, w.t);
    forall q: nat | p < q < p + Step(w) ensures !WindowHit(m, w, from, to, q)
    {
      Multiples(p, q, Step(w));
    }
    forall q: uint32
      ensures Find(Insert(matched, p, w.t), q) ==
        if q < p + Step(w) && WindowHit(m, w, from, to, q) then Some(w.t) else None
    {
      FindInsert(matched, p, w.t, q);
    }
  }

  /** The inner loop over one window. */
  method ScanWindow(m: seq<byte>, w: Query, from: nat, to: nat)
    returns (matched: Table<NumType>, first: uint32, last: uint32, count: nat)
    requires from <= to <= |m| < 0x1_0000_0000 && (from == to || Aligned(from, Step(w)))
    ensures Collected(matched, m, w, from, to, to) && FirstLast(m, w, from, to, to, count, first, last)
  {
    hide Hit, Aligned, Insert, Find, WindowHit, Collected, FirstLast, Sorted;
    var len := Step(w);
    matched, first, last, count := [], 0, 0, 0;
    NothingYet(m, w, from, to);
    var cur: nat, left: nat := from, to - from;
    while left >= len
      invariant from <= cur && cur + left == to && (left == 0 || Aligned(cur, len))
      invariant Collected(matched, m, w, from, to, cur) && FirstLast(m, w, from, to, cur, count, first, last)
      decreases left
    {
      var found := ScanData(m, cur, left, w);
      NoHitBefore(m, w, from, to, cur, if found.Some? then found.value else to);
      if found.None? {
        NoMore(matched, m, w, from, to, cur, count, first, last);
        return;
      }
      var slide: uint32 := found.value;
      FoundIsHit(m, w, from, to, cur, slide);
      CollectOne(matched, m, w, from, to, cur, slide);
      FirstLastStep(m, w, from, to, cur, slide, count, first, last);
      matched := Insert(matched, slide, w.t);
      if count == 0 {
        first := slide;
      }
      last := slide;
      count := count + 1;
      cur := slide + len;
      left := to - cur;
    }
    TooShort(m, w, from, to, cur);
    NoMore(matched, m, w, from, to, cur, count, first, last);
  }

  lemma NothingYet(m: seq<byte>, w: Query, from: nat, to: nat)
    ensures Collected([], m, w, from, to, from) && FirstLast(m, w, from, to, from, 0, 0, 0)
  {
    hide Hit, Aligned;
    EmptyFind();
  }

  lemma FoundIsHit(m: seq<byte>, w: Query, from: nat, to: nat, cur: nat, slide: nat)
    requires from <= cur <= slide && slide + Step(w) <= to && Aligned(cur, Step(w)) && Aligned(slide - cur, Step(w))
    requires Hit(m, w, slide)
    ensures WindowHit(m, w, from, to, slide) && Aligned(slide + Step(w), Step(w))
  {
    hide Hit, Aligned;
    AlignedStep(cur, slide, Step(w));
    AlignedStep(slide, slide, Step(w));
  }

  lemma TooShort(m: seq<byte>, w: Query, from: nat, to: nat, cur: nat)
    requires to - cur < Step(w)
    ensures forall q: nat :: cur <= q < to ==> !WindowHit(m, w, from, to, q)
  {
    hide Hit, Aligned;
  }

  lemma NoMore(matched: Table<NumType>, m: seq<byte>, w: Query, from: nat, to: nat, cur: nat, count: nat,
               first: uint32, last: uint32)
    requires cur <= to && Collected(matched, m, w, from, to, cur) && FirstLast(m, w, from, to, cur, count, first, last)
    requires forall q: nat :: cur <= q < to ==> !WindowHit(m, w, from, to, q)
    ensures Collected(matched, m, w, from, to, to) && FirstLast(m, w, from, to, to, count, first, last)
  {
    hide WindowHit, Find, Sorted;
  }

  lemma FirstLastStep(m: seq<byte>, w: Query, from: nat, to: nat, cur: nat, slide: uint32, count: nat, first: uint32,
                      last: uint32)
    requires cur <= slide && WindowHit(m, w, from, to, slide) && FirstLast(m, w, from, to, cur, count, first, last)
    requires forall q: nat :: cur <= q < slide ==> !WindowHit(m, w, from, to, q)
    requires forall q: nat :: slide < q < slide + Step(w) ==> !WindowHit(m, w, from, to, q)
    ensures FirstLast(m, w, from, to, slide + Step(w), count + 1, if count == 0 then slide else first, slide)
  {
    hide WindowHit;
    assert Step(w) > 0;
  }

  lemma EmptyFind()
    ensures Sorted<NumType>([]) && forall q: uint32 :: Find<NumType>([], q) == None
  {
  }

  lemma NoHitBefore(m: seq<byte>, w: Query, from: nat, to: nat, cur: nat, end: nat)
    requires Aligned(cur, Step(w)) && cur <= to && end <= to
    requires forall q: nat :: (cur <= q && q + Step(w) <= to && Aligned(q - cur, Step(w)) && q < end) ==> !Hit(m, w, q)
    ensures forall q: nat :: cur <= q < end ==> !WindowHit(m, w, from, to, q)
  {
    hide Hit;
    forall q: nat | cur <= q < end ensures !WindowHit(m, w, from, to, q)
    {
      Multiples(cur, q, Step(w));
    }
  }

  // ----- Old slides near the first or last match of a window -----

  /** Types stored with a region, or one type for all of it. */
  function OldType(types: seq<NumType>, usual: NumType, o: nat): (t: NumType)
  {
    if o < |types| then types[o] else usual
  }

  predicate CloseTo(first: uint32, last: uint32, range: nat, slide: uint32)
  {
    Close(first, slide, range) || Close(last, slide, range)
  }

  /** Old slides from..upto that are close, added over the matches. */
  ghost predicate OldAdded(matched: Table<NumType>, added: Table<NumType>, slides: seq<uint32>, types: seq<NumType>,
                           usual: NumType,
                           first: uint32, last: uint32, range: nat, from: nat, upto: nat)
    requires from <= upto <= |slides|
  {
    && Sorted(added)
    && (forall o :: from <= o < upto && CloseTo(first, last, range, slides[o]) ==>
          Find(added, slides[o]) == Some(OldType(types, usual, o)))
    && (forall q: uint32 :: (forall o :: from <= o < upto && CloseTo(first, last, range, slides[o]) ==>
      slides[o] != q) ==>
          Find(added, q) == Find(matched, q))
  }

  lemma AddOneOld(matched: Table<NumType>, added: Table<NumType>, slides: seq<uint32>, types: seq<NumType>,
                  usual: NumType,
                  first: uint32, last: uint32, range: nat, from: nat, o: nat)
    requires from <= o < |slides| && Ascending(slides)
    requires OldAdded(matched, added, slides, types, usual, first, last, range, from, o)
    ensures OldAdded(matched,
                     if CloseTo(first, last, range, slides[o]) then Insert(added, slides[o],
                       OldType(types, usual, o)) else added,
                     slides, types, usual, first, last, range, from, o + 1)
  {
    hide Insert, Find, Sorted, CloseTo, OldType;
    if CloseTo(first, last, range, slides[o]) {
      var r := Insert(added, slides[o], OldType(types, usual, o));
      InsertSorted(added, slides[o], OldType(types, usual, o));
      forall q: uint32 ensures Find(r, q) == if q == slides[o] then Some(OldType(types, usual, o)) else Find(added, q)
      {
        FindInsert(added, slides[o], OldType(types, usual, o), q);
      }
    }
  }

  method AddOld(matched: Table<NumType>, slides: seq<uint32>, types: seq<NumType>, usual: NumType,
                first: uint32, last: uint32, range: nat, from: nat) returns (added: Table<NumType>, next: nat)
    requires Sorted(matched) && Ascending(slides) && from <= |slides|
    ensures OldAdded(matched, added, slides, types, usual, first, last, range, from, |slides|)
    ensures from <= next <= |slides| && (next > from ==> CloseTo(first, last, range, slides[next - 1]))
  {
    hide Insert, Find, Sorted, CloseTo, OldType;
    added, next := matched, from;
    for o := from to |slides|
      invariant OldAdded(matched, added, slides, types, usual, first, last, range, from, o)
      invariant from <= next <= o && (next > from ==> CloseTo(first, last, range, slides[next - 1]))
    {
      AddOneOld(matched, added, slides, types, usual, first, last, range, from, o);
      if CloseTo(first, last, range, slides[o]) {
        added := Insert(added, slides[o], OldType(types, usual, o));
        next := o + 1;
      }
    }
  }

  // ----- One region -----

  ghost predicate Result(m: seq<byte>, w: Query, slides: seq<uint32>, range: nat, j: nat, q: uint32)
    requires j <= |slides|
  {
    NearMatch(m, w, slides, range, j, q) || NearOld(m, w, slides, range, j, q)
  }

  /** Old slides before `next` need no second look: they are already results, or out of
      reach of anything found later. */
  ghost predicate Settled(m: seq<byte>, w: Query, slides: seq<uint32>, range: nat, j: nat, next: nat)
    requires j <= |slides| && next <= |slides|
  {
    forall o :: 0 <= o < next ==>
      Result(m, w, slides, range, j, slides[o]) || slides[o] + range <= WindowEnd(m, slides, range, j)
  }

  /** Where a stored type comes from. */
  ghost predicate Provenance(m: seq<byte>, w: Query, slides: seq<uint32>, types: seq<NumType>, usual: NumType,
                             q: uint32, t: NumType)
  {
    (Hit(m, w, q) && t == w.t) || exists o :: 0 <= o < |slides| && slides[o] == q && OldType(types, usual, o) == t
  }

  lemma NearMatchMonotone(m: seq<byte>, w: Query, slides: seq<uint32>, range: nat, j: nat, q: uint32)
    requires j < |slides|
    ensures NearMatch(m, w, slides, range, j, q) ==> NearMatch(m, w, slides, range, j + 1, q)
    ensures Result(m, w, slides, range, j, q) ==> Result(m, w, slides, range, j + 1, q)
  {
    hide Hit, Aligned;
  }

  /** Nothing found in window j: the results stay. */
  lemma EmptyWindow(m: seq<byte>, w: Query, slides: seq<uint32>, range: nat, j: nat, from: nat, to: nat, q: uint32)
    requires Searchable(m, w, slides, range) && j < |slides|
    requires from == WindowStart(m, slides, range, j) && to == WindowEnd(m, slides, range, j + 1)
    requires forall p: uint32 :: !WindowHit(m, w, from, to, p)
    ensures Result(m, w, slides, range, j + 1, q) <==> Result(m, w, slides, range, j, q)
  {
    hide Hit, Aligned, NearMatch, WindowStart, WindowEnd, Searchable;
    forall p: uint32 ensures NearMatch(m, w, slides, range, j + 1, p) <==> NearMatch(m, w, slides, range, j, p)
    {
      NewMatches(m, w, slides, range, j, p);
      assert !WindowHit(m, w, from, to, p);
    }
  }

  /** The results of window j, with matches first..last and the old slides from `next` on. */
  lemma FullWindow(m: seq<byte>, w: Query, slides: seq<uint32>, range: nat, j: nat, next: nat, from: nat, to: nat,
                   first: uint32, last: uint32, count: nat, q: uint32)
    requires Searchable(m, w, slides, range) && j < |slides| && next <= |slides| && count > 0
    requires from == WindowStart(m, slides, range, j) && to == WindowEnd(m, slides, range, j + 1)
    requires FirstLast(m, w, from, to, to, count, first, last)
    requires Settled(m, w, slides, range, j, next)
    ensures Result(m, w, slides, range, j + 1, q) <==>
        Result(m, w, slides, range, j, q)
        || WindowHit(m, w, from, to, q)
        || exists o :: next <= o < |slides| && slides[o] == q && CloseTo(first, last, range, q)
  {
    hide Hit, Aligned, NearMatch;
    WindowSize(m, w, slides, range, j);
    NewMatches(m, w, slides, range, j, q);
    NewMatches(m, w, slides, range, j, first);
    NewMatches(m, w, slides, range, j, last);
    NearMatchMonotone(m, w, slides, range, j, q);
    if NearOld(m, w, slides, range, j + 1, q) {
      var p: uint32 :| NearMatch(m, w, slides, range, j + 1, p) && Close(p, q, range);
      NewMatches(m, w, slides, range, j, p);
      if !NearMatch(m, w, slides, range, j, p) {
        assert WindowHit(m, w, from, to, p) && Step(w) > 0;
        FirstAndLastSuffice(first, last, p, q, range);
        var o :| 0 <= o < |slides| && slides[o] == q;
      } else {
        assert NearOld(m, w, slides, range, j, q);
      }
    }
  }

  lemma SettledStep(m: seq<byte>, w: Query, slides: seq<uint32>, range: nat, j: nat, next: nat, next': nat, from: nat,
                    to: nat,
                    first: uint32, last: uint32, count: nat)
    requires Searchable(m, w, slides, range) && j < |slides| && next <= next' <= |slides| && count > 0
    requires from == WindowStart(m, slides, range, j) && to == WindowEnd(m, slides, range, j + 1)
    requires FirstLast(m, w, from, to, to, count, first, last)
    requires Settled(m, w, slides, range, j, next)
    requires next' > next ==> CloseTo(first, last, range, slides[next' - 1])
    ensures Settled(m, w, slides, range, j + 1, next')
  {
    hide Hit, Aligned, Result, WindowHit;
    WindowSize(m, w, slides, range, j);
    forall o | 0 <= o < next'
      ensures Result(m, w, slides, range, j + 1, slides[o]) || slides[o] + range <= WindowEnd(m, slides, range, j + 1)
    {
      FullWindow(m, w, slides, range, j, next, from, to, first, last, count, slides[o]);
      NearMatchMonotone(m, w, slides, range, j, slides[o]);
      assert next <= o < next' - 1 ==> slides[o] < slides[next' - 1];
    }
  }

  /** The keys of the finished map of one window. */
  lemma AddedKeys(m: seq<byte>, w: Query, from: nat, to: nat, matched: Table<NumType>, added: Table<NumType>,
                  slides: seq<uint32>, types: seq<NumType>, usual: NumType, first: uint32, last: uint32, range: nat,
                    next: nat, q: uint32)
    requires to <= 0x1_0000_0000 && Collected(matched, m, w, from, to, to) && next <= |slides|
    requires OldAdded(matched, added, slides, types, usual, first, last, range, next, |slides|)
    ensures Find(added, q).Some? <==>
        WindowHit(m, w, from, to, q)
        || exists o :: next <= o < |slides| && slides[o] == q && CloseTo(first, last, range, q)
    ensures Find(added, q).Some? ==> Provenance(m, w, slides, types, usual, q, Find(added, q).value)
  {
    hide Hit, Aligned, CloseTo, Sorted, Find, OldType;
    assert WindowHit(m, w, from, to, q) ==> q < to by {
      assert Step(w) > 0;
    }
    if o :| next <= o < |slides| && slides[o] == q && CloseTo(first, last, range, q) {
      assert Find(added, slides[o]) == Some(OldType(types, usual, o));
    } else {
      assert Find(added, q) == Find(matched, q);
    }
  }

  /** The results spelled out: aligned hits from range below an old slide up to, but not at,
      range above it, and old slides strictly within range of such a hit. */
  lemma ResultIs(m: seq<byte>, w: Query, slides: seq<uint32>, range: nat, q: uint32)
    ensures Result(m, w, slides, range, |slides|, q) <==>
        IsNearHit(m, w, slides, range, q)
        || (q in slides && exists p: uint32 :: IsNearHit(m, w, slides, range, p) && p - range < q < p + range)
  {
    hide Hit, Step;
    forall p: uint32 ensures NearMatch(m, w, slides, range, |slides|, p) <==> IsNearHit(m, w, slides, range, p)
    {
      NearHitIs(m, w, slides, range, p);
    }
    if q in slides && exists p: uint32 :: IsNearHit(m, w, slides, range, p) && p - range < q < p + range {
      var p: uint32 :| IsNearHit(m, w, slides, range, p) && p - range < q < p + range;
      assert NearMatch(m, w, slides, range, |slides|, p) && Close(p, q, range);
    }
  }

  ghost predicate IsNearHit(m: seq<byte>, w: Query, slides: seq<uint32>, range: nat, q: uint32)
  {
    q % Step(w) == 0 && Hit(m, w, q) && exists i :: 0 <= i < |slides| && slides[i] - range <= q < slides[i] + range
  }

  lemma NearHitIs(m: seq<byte>, w: Query, slides: seq<uint32>, range: nat, q: uint32)
    ensures NearMatch(m, w, slides, range, |slides|, q) <==> IsNearHit(m, w, slides, range, q)
  {
    hide Hit, Step;
    if IsNearHit(m, w, slides, range, q) {
      var i :| 0 <= i < |slides| && slides[i] - range <= q < slides[i] + range;
      assert InWindow(slides[i], range, q);
    }
  }

  /** The type stored with a result: the new one for a hit, else the old one of its slide. */
  lemma ProvenanceIs(m: seq<byte>, w: Query, slides: seq<uint32>, types: seq<NumType>, usual: NumType, q: uint32,
                     t: NumType)
    requires Provenance(m, w, slides, types, usual, q, t)
    ensures (t == w.t && Hit(m, w, q))
      || exists o :: 0 <= o < |slides| && slides[o] == q && t == if o < |types| then types[o] else usual
  {
    hide Hit;
  }

  /** Appending a finished map to the new region. */
  method Append(matched: Table<NumType>, needType: bool, slides: seq<uint32>, types: seq<NumType>)
    returns (slides': seq<uint32>, types': seq<NumType>)
    requires Sorted(matched) && |types| == (if needType then |slides| else 0)
    ensures |slides'| == |slides| + |matched| && slides <= slides' && types <= types'
    ensures |types'| == if needType then |slides'| else 0
    ensures forall q :: q in slides' <==> q in slides || Find(matched, q).Some?
    ensures needType ==> forall i :: |slides| <= i < |slides'| ==> Find(matched, slides'[i]) == Some(types'[i])
  {
    hide Find;
    slides', types' := slides, types;
    for i := 0 to |matched|
      invariant |slides'| == |slides| + i && slides <= slides' && types <= types'
      invariant |types'| == if needType then |slides'| else 0
      invariant forall k :: |slides| <= k < |slides'| ==> slides'[k] == matched[k - |slides|].slot
      invariant needType ==> forall k :: |slides| <= k < |slides'| ==> types'[k] == matched[k - |slides|].value
    {
      slides' := slides' + [matched[i].slot];
      if needType {
        types' := types' + [matched[i].value];
      }
    }
    forall k | |slides| <= k < |slides'| ensures Find(matched, slides'[k]) == Some(matched[k - |slides|].value)
    {
      FindIs(matched, k - |slides|);
    }
    forall q ensures q in slides' <==> q in slides || Find(matched, q).Some?
    {
      if k :| 0 <= k < |matched| && matched[k].slot == q {
        assert slides'[|slides| + k] == q;
      } else {
        FindNone(matched, q);
      }
      assert slides'[..|slides|] == slides;
      if q in slides {
        var k :| 0 <= k < |slides| && slides[k] == q;
        assert slides'[k] == q;
      }
    }
  }

  ghost predicate Outcome(m: seq<byte>, w: Query, slides: seq<uint32>, types: seq<NumType>, usual: NumType,
                          range: nat, j: nat,
                          out: seq<uint32>, outTypes: seq<NumType>, needType: bool)
    requires j <= |slides|
  {
    && (forall q: uint32 :: q in out <==> Result(m, w, slides, range, j, q))
    && |outTypes| == (if needType then |out| else 0)
    && (needType ==> forall i :: 0 <= i < |out| ==> Provenance(m, w, slides, types, usual, out[i], outTypes[i]))
  }

  /** A finished map holds what window j adds. */
  ghost predicate WindowDone(m: seq<byte>, w: Query, slides: seq<uint32>, types: seq<NumType>, usual: NumType,
                             range: nat, j: nat,
                             added: Table<NumType>)
    requires j < |slides|
  {
    && Sorted(added)
    && (forall q: uint32 :: Result(m, w, slides, range, j + 1, q) <==>
      Result(m, w, slides, range, j, q) || Find(added, q).Some?)
    && (forall q: uint32 :: Find(added, q).Some? ==> Provenance(m, w, slides, types, usual, q, Find(added, q).value))
  }

  lemma NoResult(m: seq<byte>, w: Query, slides: seq<uint32>, range: nat)
    ensures forall q: uint32 :: !Result(m, w, slides, range, 0, q)
    ensures Settled(m, w, slides, range, 0, 0)
  {
    hide Hit, Aligned;
    forall q: uint32 ensures !NearMatch(m, w, slides, range, 0, q) && !NearOld(m, w, slides, range, 0, q)
    {
      assert forall p: uint32 :: !NearMatch(m, w, slides, range, 0, p);
    }
  }

  lemma BelowEnd(m: seq<byte>, w: Query, from: nat, to: nat)
    ensures forall p: uint32 :: WindowHit(m, w, from, to, p) ==> p < to
  {
    hide Hit, Aligned;
  }

  /** A window without matches leaves the map empty, old slides or not. */
  lemma NothingFound(m: seq<byte>, w: Query, slides: seq<uint32>, types: seq<NumType>, usual: NumType, range: nat,
                     j: nat,
                     from: nat, to: nat, matched: Table<NumType>, first: uint32, last: uint32, next: nat)
    requires Searchable(m, w, slides, range) && j < |slides| && next <= |slides|
    requires from == WindowStart(m, slides, range, j) && to == WindowEnd(m, slides, range, j + 1) <= 0x1_0000_0000
    requires Collected(matched, m, w, from, to, to) && FirstLast(m, w, from, to, to, 0, first, last)
    requires Settled(m, w, slides, range, j, next)
    ensures WindowDone(m, w, slides, types, usual, range, j, matched) && Settled(m, w, slides, range, j + 1, next)
  {
    hide Hit, Aligned, Result, Find, Sorted, Provenance, WindowHit;
    WindowSize(m, w, slides, range, j);
    BelowEnd(m, w, from, to);
    assert forall q: uint32 :: q < to ==> !WindowHit(m, w, from, to, q);
    forall q: uint32 ensures Result(m, w, slides, range, j + 1, q) <==> Result(m, w, slides, range, j, q)
    {
      EmptyWindow(m, w, slides, range, j, from, to, q);
    }
  }

  method AddWindow(ghost m: seq<byte>, ghost w: Query, ghost from: nat, ghost to: nat, matched: Table<NumType>,
                   slides: seq<uint32>, types: seq<NumType>, usual: NumType, first: uint32, last: uint32, range: nat,
                     lastold: nat,
                   ghost j: nat, ghost count: nat)
    returns (added: Table<NumType>, next: nat)
    requires Searchable(m, w, slides, range) && j < |slides| && lastold <= |slides| && count > 0
    requires from == WindowStart(m, slides, range, j) && to == WindowEnd(m, slides, range, j + 1) <= 0x1_0000_0000
    requires Collected(matched, m, w, from, to, to) && FirstLast(m, w, from, to, to, count, first, last)
    requires Settled(m, w, slides, range, j, lastold)
    ensures WindowDone(m, w, slides, types, usual, range, j, added)
    ensures next <= |slides| && Settled(m, w, slides, range, j + 1, next)
  {
    hide Hit, Aligned, Result, Find, Sorted, Provenance, WindowHit, Settled, CloseTo, FirstLast, Close;
    added, next := AddOld(matched, slides, types, usual, first, last, range, lastold);
    SettledStep(m, w, slides, range, j, lastold, next, from, to, first, last, count);
    forall q: uint32
      ensures Result(m, w, slides, range, j + 1, q) <==> Result(m, w, slides, range, j, q) || Find(added, q).Some?
      ensures Find(added, q).Some? ==> Provenance(m, w, slides, types, usual, q, Find(added, q).value)
    {
      FullWindow(m, w, slides, range, j, lastold, from, to, first, last, count, q);
      AddedKeys(m, w, from, to, matched, added, slides, types, usual, first, last, range, lastold, q);
    }
  }

  lemma OutcomeStep(m: seq<byte>, w: Query, slides: seq<uint32>, types: seq<NumType>, usual: NumType, range: nat,
                    j: nat,
                    out: seq<uint32>, outTypes: seq<NumType>, needType: bool, added: Table<NumType>,
                    out': seq<uint32>, outTypes': seq<NumType>)
    requires j < |slides| && Outcome(m, w, slides, types, usual, range, j, out, outTypes, needType)
    requires WindowDone(m, w, slides, types, usual, range, j, added)
    requires out <= out' && outTypes <= outTypes' && |outTypes'| == if needType then |out'| else 0
    requires forall q :: q in out' <==> q in out || Find(added, q).Some?
    requires needType ==> forall i :: |out| <= i < |out'| ==> Find(added, out'[i]) == Some(outTypes'[i])
    ensures Outcome(m, w, slides, types, usual, range, j + 1, out', outTypes', needType)
  {
    hide Result, Find, Sorted, Provenance;
    if needType {
      forall i | 0 <= i < |out'| ensures Provenance(m, w, slides, types, usual, out'[i], outTypes'[i])
      {
        assert i < |out| ==> out'[i] == out[i] && outTypes'[i] == outTypes[i];
      }
    }
  }

  /** All windows of one region. */
  method NearRegion(m: seq<byte>, w: Query, slides: seq<uint32>, types: seq<NumType>, usual: NumType, range: nat,
                    needType: bool)
    returns (out: seq<uint32>, outTypes: seq<NumType>)
    requires Searchable(m, w, slides, range)
    ensures Outcome(m, w, slides, types, usual, range, |slides|, out, outTypes, needType)
  {
    hide Result, Hit, Aligned, Find, Settled, WindowHit, FirstLast, OldAdded, CloseTo, Provenance, Sorted;
    out, outTypes := [], [];
    var lastold: nat := 0;
    NoResult(m, w, slides, range);
    for j := 0 to |slides|
      invariant Outcome(m, w, slides, types, usual, range, j, out, outTypes, needType)
      invariant lastold <= |slides| && Settled(m, w, slides, range, j, lastold)
    {
      WindowSize(m, w, slides, range, j);
      WindowAligned(m, w, slides, range, j);
      var from, to := WindowStart(m, slides, range, j), WindowEnd(m, slides, range, j + 1);
      var matched, first, last, foundcount := ScanWindow(m, w, from, to);
      var next := lastold;
      if foundcount == 0 {
        NothingFound(m, w, slides, types, usual, range, j, from, to, matched, first, last, lastold);
      } else {
        matched, next := AddWindow(m, w, from, to, matched, slides, types, usual, first, last, range, lastold, j,
          foundcount);
      }
      ghost var before, typesBefore := out, outTypes;
      out, outTypes := Append(matched, needType, out, outTypes);
      OutcomeStep(m, w, slides, types, usual, range, j, before, typesBefore, needType, matched, out, outTypes);
      lastold := next;
    }
  }
}

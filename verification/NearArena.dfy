/** Allocating code and data chunks close to a given address. */
module NearArena {
  import opened Arithmetic
  import opened Bytes
  import opened Options

  /** An address: 64 bits, with wrap-around. */
  type Addr = uint64

  datatype Permission = ReadWrite | ReadExecute

  // ----- Page arithmetic -----

  function AddrMax(a: Addr, b: Addr): (r: Addr) { if a > b then a else b }
  function AddrSub(a: Addr, b: Addr): (r: Addr) { if a > Low64(a - b) then Low64(a - b) else 0 }
  function AddrAdd(a: Addr, b: Addr): (r: Addr) { if a < Low64(a + b) then Low64(a + b) else TWO64 - 1 }

  /** ALIGN rounds down. */
  function AlignDown(a: Addr, page: nat): (r: Addr)
    requires page > 0
  {
    a - a % page
  }

  function PrevPage(a: Addr, page: nat): (r: Addr)
    requires page > 0
  {
    var aligned := AlignDown(a, page);
    if Low64(aligned - page) <= aligned then Low64(aligned - page) else aligned
  }

  function NextPage(a: Addr, page: nat): (r: Addr)
    requires page > 0
  {
    var aligned := AlignDown(a, page);
    if Low64(aligned + page) >= aligned then Low64(aligned + page) else aligned
  }

  /** llabs of the wrapped difference. */
  function Distance(a: Addr, b: Addr): (d: nat)
  {
    var d := Low64(a - b);
    if d < TWO64 / 2 then d else TWO64 - d
  }

  ghost predicate PageSize(page: nat) { 0 < page < 0x1_0000_0000 && TWO64 % page == 0 }

  lemma AlignedDown(a: Addr, page: nat)
    requires page > 0
    ensures a - page < AlignDown(a, page) <= a && AlignDown(a, page) % page == 0
  {
    MultipleIsDown(a, page);
  }

  lemma MultipleIsDown(a: nat, page: nat)
    requires page > 0
    ensures (a - a % page) % page == 0
  {
    assert a - a % page == a / page * page;
    ModMultiple(a / page, page);
  }

  lemma SubIs(pos: Addr, range: Addr)
    requires range > 0
    ensures AddrSub(pos, range) == if pos > range then pos - range else 0
  {
  }

  // ----- The search -----

  /** A mapped region; the layout is sorted by address. */
  datatype Region = Region(start: Addr, length: nat)

  function End(r: Region): (e: Addr) { Low64(r.start + r.length) }

  ghost predicate Layout(regions: seq<Region>)
  {
    && |regions| >= 2
    && (forall i :: 0 <= i < |regions| ==> regions[i].start + regions[i].length < TWO64)
    && (forall i, j :: 0 <= i < j < |regions| ==> regions[i].start < regions[j].start)
  }

  lemma EndAfterStart(regions: seq<Region>, i: nat)
    requires Layout(regions) && i < |regions|
    ensures regions[i].start <= End(regions[i])
  {
  }

  /** Any page the search returns was granted and is near the position. */
  ghost predicate Near(at: Addr, pos: Addr, range: Addr)
  {
    0 < at && at < pos + range && pos < at + range
  }

  lemma NextBelow(a: Addr, max: Addr, page: nat)
    requires PageSize(page) && max % page == 0 && a < max
    ensures a < NextPage(a, page) <= max
  {
    AlignedDown(a, page);
    var aligned := AlignDown(a, page);
    Multiples(aligned, max, page);
    assert aligned + page <= max;
    assert Low64(aligned + page) == aligned + page;
  }

  /** Where the search looks. */
  datatype Window = Window(min: Addr, max: Addr, page: nat)

  function WindowOf(pos: Addr, range: Addr, page: nat): (w: Window)
    requires page > 0
    ensures w.page == page
  {
    Window(NextPage(AddrSub(pos, range), page), PrevPage(AddrAdd(pos, range), page), page)
  }

  /** The lowest and the highest address within range of the position. */
  function Lowest(pos: Addr, range: Addr): (a: nat) { if pos > range then pos - range else 0 }
  function Highest(pos: Addr, range: Addr): (a: nat)
  {
    if pos + range < 0x1_0000_0000_0000_0000 then pos + range else 0xFFFF_FFFF_FFFF_FFFF
  }

  lemma AddIs(pos: Addr, range: Addr)
    requires range > 0
    ensures AddrAdd(pos, range) == Highest(pos, range)
  {
  }

  lemma NextPageIs(a: Addr, page: nat)
    requires page > 0 && a + page < TWO64
    ensures NextPage(a, page) % page == 0 && a < NextPage(a, page) <= a + page
  {
    hide AlignDown;
    AlignedDown(a, page);
    var aligned := AlignDown(a, page);
    Multiples(aligned, aligned, page);
    assert Low64(aligned + page) == aligned + page;
  }

  lemma PrevPageIs(a: Addr, page: nat)
    requires 0 < page <= a
    ensures PrevPage(a, page) % page == 0 && PrevPage(a, page) + page <= a < PrevPage(a, page) + 2 * page
  {
    hide AlignDown;
    AlignedDown(a, page);
    var aligned := AlignDown(a, page);
    Multiples(aligned, aligned, page);
    ModMultiple(0, page);
    Multiples(0, aligned, page);
    assert Low64(aligned - page) == aligned - page;
  }

  /** The window begins at the first page boundary above the lowest address, and ends one
      page below the last one that is not above the highest. */
  lemma WindowIs(pos: Addr, range: Addr, page: nat)
    requires PageSize(page) && range > page
    ensures var w := WindowOf(pos, range, page);
      && w.min % page == 0 && Lowest(pos, range) < w.min <= Lowest(pos, range) + page
      && w.max % page == 0 && w.max + page <= Highest(pos, range) < w.max + 2 * page
  {
    hide NextPage, PrevPage, AddrSub, AddrAdd;
    SubIs(pos, range);
    AddIs(pos, range);
    NextPageIs(AddrSub(pos, range), page);
    PrevPageIs(AddrAdd(pos, range), page);
  }

  predicate Looked(r: Region, w: Window) { End(r) < w.max && r.start >= w.min }

  /** A gap before a region: the page after the region below, if there is room and no page
      but the first was assumed so far. */
  predicate LeftGap(regions: seq<Region>, i: nat, w: Window, assumed: Addr)
    requires w.page > 0 && i < |regions|
  {
    i >= 1 && assumed == w.min && regions[i].start > NextPage(End(regions[i - 1]), w.page)
  }

  function LeftPage(regions: seq<Region>, i: nat, w: Window): (c: Addr)
    requires w.page > 0 && 1 <= i < |regions|
  {
    AddrMax(w.min, NextPage(End(regions[i - 1]), w.page))
  }

  predicate RightGap(regions: seq<Region>, i: nat)
    requires i < |regions|
  {
    i + 1 < |regions| && End(regions[i]) < regions[i + 1].start
  }

  /** The page last assumed before region i, when none was granted. */
  function Assumed(regions: seq<Region>, i: nat, w: Window): (c: Addr)
    requires w.page > 0 && i <= |regions|
  {
    if i == 0 then w.min
    else
      var before := Assumed(regions, i - 1, w);
      if !Looked(regions[i - 1], w) then before
      else if RightGap(regions, i - 1) then NextPage(End(regions[i - 1]), w.page)
      else if LeftGap(regions, i - 1, w, before) then LeftPage(regions, i - 1, w)
      else before
  }

  predicate CandidateAt(regions: seq<Region>, i: nat, w: Window, c: Addr)
    requires w.page > 0 && i < |regions|
  {
    && Looked(regions[i], w)
    && ((LeftGap(regions, i, w, Assumed(regions, i, w)) && c == LeftPage(regions, i, w))
        || (RightGap(regions, i) && c == NextPage(End(regions[i]), w.page)))
  }

  /** A page that the search asks for: the first one, if that lies below all regions or the
      last one below the end of all, and pages at the gaps of regions inside the window. */
  ghost predicate Candidate(regions: seq<Region>, w: Window, c: Addr)
    requires w.page > 0
  {
    || (regions != [] && c == w.min && (w.min < regions[0].start || w.max < End(regions[|regions| - 1])))
    || exists i: nat :: i < |regions| && CandidateAt(regions, i, w, c)
  }

  /** c is the first page boundary above a. */
  predicate FirstPageAbove(c: nat, a: nat, page: nat)
    requires page > 0
  {
    c % page == 0 && a < c <= a + page
  }

  /** A region that lies within range, at least a page from its lower end and two pages from
      its upper end. */
  predicate WithinRange(r: Region, pos: Addr, range: Addr, page: nat)
  {
    Lowest(pos, range) + page <= r.start && r.start + r.length + 2 * page <= Highest(pos, range)
  }

  /** The gap behind region i, which lies within range. */
  predicate GapBehind(regions: seq<Region>, i: nat, pos: Addr, range: Addr, page: nat, c: nat)
    requires page > 0
  {
    && i + 1 < |regions| && WithinRange(regions[i], pos, range, page)
    && regions[i].start + regions[i].length < regions[i + 1].start
    && FirstPageAbove(c, regions[i].start + regions[i].length, page)
  }

  /** The gap of more than a page before region i, the first one within range. */
  predicate GapBefore(regions: seq<Region>, i: nat, pos: Addr, range: Addr, page: nat, c: nat)
    requires page > 0
  {
    && 1 <= i < |regions| && WithinRange(regions[i], pos, range, page)
    && regions[i - 1].start <= Lowest(pos, range)
    && regions[i - 1].start + regions[i - 1].length + page < regions[i].start
    && (var end := regions[i - 1].start + regions[i - 1].length;
        FirstPageAbove(c, if end > Lowest(pos, range) then end else Lowest(pos, range), page))
  }

  /** The first page of the window, when it lies below all regions, or when they end above
      the range. */
  predicate EdgePage(regions: seq<Region>, pos: Addr, range: Addr, page: nat, c: nat)
    requires page > 0
  {
    && |regions| >= 1 && FirstPageAbove(c, Lowest(pos, range), page)
    && (c < regions[0].start
        || Highest(pos, range) < regions[|regions| - 1].start + regions[|regions| - 1].length + page)
  }

  /** Pages that must have been tried before the search gives up. */
  ghost predicate Asked(regions: seq<Region>, pos: Addr, range: Addr, page: nat, c: nat)
    requires page > 0
  {
    || EdgePage(regions, pos, range, page, c)
    || exists i: nat :: GapBehind(regions, i, pos, range, page, c) || GapBefore(regions, i, pos, range, page, c)
  }

  lemma OnePageAbove(c: nat, d: nat, a: nat, page: nat)
    requires page > 0 && FirstPageAbove(c, a, page) && FirstPageAbove(d, a, page)
    ensures c == d
  {
    if c <= d {
      Multiples(c, d, page);
    } else {
      Multiples(d, c, page);
    }
  }

  lemma LookedIs(regions: seq<Region>, i: nat, pos: Addr, range: Addr, page: nat)
    requires PageSize(page) && range > page && Layout(regions) && i < |regions|
    ensures WithinRange(regions[i], pos, range, page) ==>
      Looked(regions[i], WindowOf(pos, range, page)) && regions[i].start + regions[i].length + page < TWO64
    ensures Looked(regions[i], WindowOf(pos, range, page)) ==> Lowest(pos, range) < regions[i].start
    ensures End(regions[i]) == regions[i].start + regions[i].length
  {
    hide WindowOf, Lowest, Highest;
    HighestFits(pos, range);
    WindowIs(pos, range, page);
  }

  lemma HighestFits(pos: Addr, range: Addr)
    ensures Highest(pos, range) < TWO64
  {
  }

  lemma {:induction false} AssumedMin(regions: seq<Region>, i: nat, pos: Addr, range: Addr, page: nat)
    requires PageSize(page) && range > page && Layout(regions) && i <= |regions|
    requires i > 0 ==> regions[i - 1].start <= Lowest(pos, range)
    ensures Assumed(regions, i, WindowOf(pos, range, page)) == WindowOf(pos, range, page).min
  {
    hide WindowOf, Looked, NextPage;
    if i > 0 {
      LookedIs(regions, i - 1, pos, range, page);
      AssumedMin(regions, i - 1, pos, range, page);
    }
  }

  lemma BehindAsked(regions: seq<Region>, i: nat, pos: Addr, range: Addr, page: nat, c: Addr)
    requires PageSize(page) && range > page && Layout(regions) && GapBehind(regions, i, pos, range, page, c)
    ensures CandidateAt(regions, i, WindowOf(pos, range, page), c)
  {
    hide WindowOf, Looked, NextPage, Assumed;
    LookedIs(regions, i, pos, range, page);
    NextPageIs(End(regions[i]), page);
    OnePageAbove(c, NextPage(End(regions[i]), page), End(regions[i]), page);
  }

  lemma BeforeAsked(regions: seq<Region>, i: nat, pos: Addr, range: Addr, page: nat, c: Addr)
    requires PageSize(page) && range > page && Layout(regions) && GapBefore(regions, i, pos, range, page, c)
    ensures CandidateAt(regions, i, WindowOf(pos, range, page), c)
  {
    hide WindowOf, Looked, NextPage, Assumed, PageSize;
    var w, low := WindowOf(pos, range, page), Lowest(pos, range);
    LookedIs(regions, i, pos, range, page);
    LookedIs(regions, i - 1, pos, range, page);
    AssumedMin(regions, i, pos, range, page);
    WindowIs(pos, range, page);
    var end := End(regions[i - 1]);
    NextPageIs(end, page);
    HigherPage(w.min, NextPage(end, page), low, end, page);
    OnePageAbove(c, AddrMax(w.min, NextPage(end, page)), if end > low then end else low, page);
  }

  lemma HigherPage(c: Addr, d: Addr, a: nat, b: nat, page: nat)
    requires page > 0 && FirstPageAbove(c, a, page) && FirstPageAbove(d, b, page)
    ensures FirstPageAbove(AddrMax(c, d), if b > a then b else a, page)
  {
    if c <= d {
      Multiples(c, d, page);
    } else {
      Multiples(d, c, page);
    }
  }

  /** What must have been tried is what the search asks for. */
  lemma AskedIsCandidate(regions: seq<Region>, pos: Addr, range: Addr, page: nat, c: Addr)
    requires PageSize(page) && range > page && Layout(regions) && Asked(regions, pos, range, page, c)
    ensures Candidate(regions, WindowOf(pos, range, page), c)
  {
    hide WindowOf, GapBehind, GapBefore, CandidateAt, PageSize;
    WindowIs(pos, range, page);
    if EdgePage(regions, pos, range, page, c) {
      OnePageAbove(c, WindowOf(pos, range, page).min, Lowest(pos, range), page);
      LookedIs(regions, |regions| - 1, pos, range, page);
    } else {
      var i: nat :| GapBehind(regions, i, pos, range, page, c) || GapBefore(regions, i, pos, range, page, c);
      if GapBehind(regions, i, pos, range, page, c) {
        BehindAsked(regions, i, pos, range, page, c);
        GapIndex(regions, i, pos, range, page, c);
      } else {
        BeforeAsked(regions, i, pos, range, page, c);
        GapIndex(regions, i, pos, range, page, c);
      }
    }
  }

  lemma AllRefused(regions: seq<Region>, pos: Addr, range: Addr, page: nat, grant: Addr -> bool)
    requires PageSize(page) && range > page && Layout(regions)
    requires forall c: Addr :: Candidate(regions, WindowOf(pos, range, page), c) ==> !grant(c)
    ensures forall c: Addr :: Asked(regions, pos, range, page, c) ==> !grant(c)
  {
    hide WindowOf, Candidate, Asked;
    forall c: Addr | Asked(regions, pos, range, page, c) ensures !grant(c)
    {
      AskedIsCandidate(regions, pos, range, page, c);
    }
  }

  lemma GapIndex(regions: seq<Region>, i: nat, pos: Addr, range: Addr, page: nat, c: Addr)
    requires page > 0 && (GapBehind(regions, i, pos, range, page, c) || GapBefore(regions, i, pos, range, page, c))
    ensures i < |regions|
  {
  }

  /** search_near_blank_page; 0 when nothing that it asked for was granted. mmap with a fixed
      address either returns it or fails. */
  method SearchNearBlankPage(pos: Addr, range: Addr, page: nat, regions: seq<Region>, grant: Addr -> bool)
    returns (result: Addr)
    requires page > 0 && PageSize(page) && range > page && Layout(regions)
    ensures result != 0 ==>
      Near(result, pos, range) && grant(result) && Candidate(regions, WindowOf(pos, range, page), result)
    ensures result == 0 ==> forall c: Addr :: Candidate(regions, WindowOf(pos, range, page), c) ==> !grant(c)
    ensures result == 0 ==> forall c: Addr :: Asked(regions, pos, range, page, c) ==> !grant(c)
  {
    hide NextPage, PrevPage, AddrSub, AddrAdd, End, Asked;
    var minPage := NextPage(AddrSub(pos, range), page);
    var maxPage := PrevPage(AddrAdd(pos, range), page);
    ghost var w := WindowOf(pos, range, page);
    WindowIs(pos, range, page);
    var candidate := minPage;
    if minPage < regions[0].start {
      if grant(candidate) {
        return candidate;
      }
    }
    if maxPage < End(regions[|regions| - 1]) {
      if grant(candidate) {
        return candidate;
      }
    }
    for i := 0 to |regions|
      invariant candidate == Assumed(regions, i, w)
      invariant forall j: nat, c: Addr :: j < i && CandidateAt(regions, j, w, c) ==> !grant(c)
    {
      var region := regions[i];
      EndAfterStart(regions, i);
      if End(region) < maxPage {
        if region.start >= minPage {
          if i >= 1 && candidate == minPage {
            var prevEnd := NextPage(End(regions[i - 1]), page);
            if region.start > prevEnd {
              candidate := AddrMax(minPage, prevEnd);
              if grant(candidate) {
                assert CandidateAt(regions, i, w, candidate);
                return candidate;
              }
            }
          }
          if i <= |regions| - 2 {
            if End(region) < regions[i + 1].start {
              NextBelow(End(region), maxPage, page);
              candidate := NextPage(End(region), page);
              if grant(candidate) {
                assert CandidateAt(regions, i, w, candidate);
                return candidate;
              }
            }
          }
        }
      }
    }
    AllRefused(regions, pos, range, page, grant);
    return 0;
  }

  // ----- Pages and chunks -----

  datatype Chunk = Chunk(address: nat, length: nat)

  datatype PageChunk = PageChunk(address: nat, length: nat, cursor: nat, permission: Permission, chunks: seq<Chunk>)

  function ChunkEnd(c: Chunk): (e: nat) { c.address + c.length }

  /** Chunks are handed out back to back from the start of the page to its cursor. */
  ghost predicate BackToBack(chunks: seq<Chunk>, from: nat, to: nat)
  {
    if chunks == [] then from == to
    else
      var last := chunks[|chunks| - 1];
      ChunkEnd(last) == to && from <= last.address && BackToBack(chunks[..|chunks| - 1], from, last.address)
  }

  ghost predicate ValidPage(p: PageChunk)
  {
    BackToBack(p.chunks, p.address, p.cursor) && p.address <= p.cursor <= p.address + p.length
  }

  predicate Apart(a: Chunk, b: Chunk) { ChunkEnd(a) <= b.address || ChunkEnd(b) <= a.address }

  ghost predicate PagesApart(p: PageChunk, q: PageChunk)
  {
    p.address + p.length <= q.address || q.address + q.length <= p.address
  }

  ghost predicate ValidPages(pages: seq<PageChunk>)
  {
    && (forall i :: 0 <= i < |pages| ==> ValidPage(pages[i]))
    && (forall i, j :: 0 <= i < j < |pages| ==> PagesApart(pages[i], pages[j]))
  }

  lemma {:induction false} ChunkInside(chunks: seq<Chunk>, from: nat, to: nat, k: nat)
    requires BackToBack(chunks, from, to) && k < |chunks|
    ensures from <= chunks[k].address && ChunkEnd(chunks[k]) <= to
  {
    if k < |chunks| - 1 {
      ChunkInside(chunks[..|chunks| - 1], from, chunks[|chunks| - 1].address, k);
    }
  }

  lemma {:induction false} ChunksOfPageApart(chunks: seq<Chunk>, from: nat, to: nat, k: nat, l: nat)
    requires BackToBack(chunks, from, to) && k < l < |chunks|
    ensures ChunkEnd(chunks[k]) <= chunks[l].address
  {
    var front, last := chunks[..|chunks| - 1], chunks[|chunks| - 1];
    if l == |chunks| - 1 {
      ChunkInside(front, from, last.address, k);
    } else {
      ChunksOfPageApart(front, from, last.address, k, l);
    }
  }

  /** Over any run: every chunk lies in its page, and no two overlap. */
  lemma ChunksDisjoint(pages: seq<PageChunk>, i: nat, k: nat, j: nat, l: nat)
    requires ValidPages(pages) && i < |pages| && k < |pages[i].chunks| && j < |pages| && l < |pages[j].chunks|
    ensures pages[i].address <= pages[i].chunks[k].address
      && ChunkEnd(pages[i].chunks[k]) <= pages[i].address + pages[i].length
    ensures (i, k) != (j, l) ==> Apart(pages[i].chunks[k], pages[j].chunks[l])
  {
    ChunkInside(pages[i].chunks, pages[i].address, pages[i].cursor, k);
    ChunkInside(pages[j].chunks, pages[j].address, pages[j].cursor, l);
    if i == j {
      if k < l {
        ChunksOfPageApart(pages[i].chunks, pages[i].address, pages[i].cursor, k, l);
      } else if l < k {
        ChunksOfPageApart(pages[i].chunks, pages[i].address, pages[i].cursor, l, k);
      }
    } else if i < j {
      assert PagesApart(pages[i], pages[j]);
    } else {
      assert PagesApart(pages[j], pages[i]);
    }
  }

  /** Taking the next chunk of a page. */
  function Carve(p: PageChunk, size: nat): (r: PageChunk)
  {
    p.(cursor := p.cursor + size, chunks := p.chunks + [Chunk(p.cursor, size)])
  }

  lemma CarveValid(pages: seq<PageChunk>, i: nat, size: nat)
    requires ValidPages(pages) && i < |pages| && pages[i].cursor + size <= pages[i].address + pages[i].length
    ensures ValidPages(pages[i := Carve(pages[i], size)])
  {
    var p := Carve(pages[i], size);
    assert p.chunks[..|p.chunks| - 1] == pages[i].chunks;
  }

  function FreshPage(at: nat, page: nat, permission: Permission): (p: PageChunk)
  {
    PageChunk(at, page, at, permission, [])
  }

  ghost predicate FreshFor(pages: seq<PageChunk>, at: nat, page: nat)
  {
    forall i :: 0 <= i < |pages| ==> at + page <= pages[i].address || pages[i].address + pages[i].length <= at
  }

  lemma PushValid(pages: seq<PageChunk>, at: nat, page: nat, permission: Permission)
    requires ValidPages(pages) && FreshFor(pages, at, page)
    ensures ValidPages(pages + [FreshPage(at, page, permission)])
  {
  }

  // ----- The near arena -----

  predicate Usable(p: PageChunk, position: Addr, range: Addr, size: nat, permission: Permission)
  {
    && p.permission == permission && Distance(Low64(p.cursor), position) < range
    && p.cursor + size < p.address + p.length
  }

  lemma NearIsClose(at: Addr, pos: Addr, range: Addr)
    requires Near(at, pos, range)
    ensures Distance(at, pos) < range
  {
  }

  class NearMemoryArena {
    var pages: seq<PageChunk>

    constructor ()
      ensures pages == []
    {
      pages := [];
    }

    method FindPage(position: Addr, range: Addr, size: nat, permission: Permission) returns (found: Option<nat>)
      ensures found.Some? ==> found.value < |pages| && Usable(pages[found.value], position, range, size, permission)
      ensures found.Some? ==> forall i :: 0 <= i < found.value ==> !Usable(pages[i], position, range, size, permission)
      ensures found.None? ==> forall i :: 0 <= i < |pages| ==> !Usable(pages[i], position, range, size, permission)
    {
      for i := 0 to |pages|
        invariant forall k :: 0 <= k < i ==> !Usable(pages[k], position, range, size, permission)
      {
        if Usable(pages[i], position, range, size, permission) {
          return Some(i);
        }
      }
      return None;
    }

    /** AllocateChunk. The mapped regions and what the system grants depend on the pages
        asked for so far; pages that it grants are new. `cave` is what the search for a gap
        inside mapped code finds. Every turn but the last adds a page, and the search never
        gives the same address twice, so the retries end. */
    method AllocateChunk(position: Addr, range: Addr, size: nat, permission: Permission, page: nat,
                         regions: seq<PageChunk> -> seq<Region>, grant: (seq<PageChunk>, Addr) -> bool,
                           cave: Option<nat>)
      returns (chunk: Option<Chunk>, paged: bool, ghost added: seq<PageChunk>)
      requires page > 0 && PageSize(page) && page < range && forall ps :: Layout(regions(ps))
      requires ValidPages(pages) && forall ps, at: Addr :: grant(ps, at) ==> FreshFor(ps, at, page)
      modifies this
      ensures ValidPages(pages) && (size < page ==> |added| <= 1)
      ensures Added(old(pages), added, position, range, permission, page, grant)
      ensures paged ==> chunk.Some? && Handed(old(pages), pages, added, position, range, size, permission, page,
        chunk.value)
      ensures !paged ==> pages == old(pages) + added && (size < page ==> added == [])
      ensures !paged ==> NoneUsable(pages, position, range, size, permission)
      ensures !paged ==> Exhausted(pages, regions(pages), position, range, page, grant)
      ensures !paged ==> chunk == if permission == ReadExecute && cave.Some? then Some(Chunk(cave.value, size))
        else None
    {
      hide Layout, PageSize, ValidPages, FreshFor, Usable, Carve, Near, Candidate, WindowOf, Asked, Exhausted, Added;
      hide Handed, IsAdded;
      added := [];
      NothingAdded(old(pages), position, range, permission, page, grant);
      ghost var unused := set a: nat | a < TWO64 && InSpace(a);
      while true
        invariant ValidPages(pages) && pages == old(pages) + added && (size < page ==> |added| <= 1)
        invariant Added(old(pages), added, position, range, permission, page, grant)
        invariant added != [] ==> NoneUsable(old(pages), position, range, size, permission)
        invariant forall a: Addr :: InSpace(a) ==> a in unused || IsAdded(added, a)
        decreases unused
      {
        var found := FindPage(position, range, size, permission);
        if found.Some? {
          var i := found.value;
          UsableRoom(pages[i], position, range, size, permission);
          CarveValid(pages, i, size);
          FoundIsHanded(old(pages), added, i, position, range, size, permission, page, grant);
          chunk := Some(Chunk(pages[i].cursor, size));
          pages := pages[i := Carve(pages[i], size)];
          return chunk, true, added;
        }
        var held := pages;
        var asked := (a: Addr) => grant(held, a);
        var at := SearchNearBlankPage(position, range, page, regions(held), asked);
        NotFound(old(pages), added, position, range, size, permission, page, grant);
        if at == 0 {
          SearchExhausted(held, regions(held), position, range, page, grant, asked);
          chunk := if permission == ReadExecute && cave.Some? then Some(Chunk(cave.value, size)) else None;
          return chunk, false, added;
        }
        PushValid(pages, at, page, permission);
        FreshAddress(old(pages), added, at, page, position, range, permission, grant);
        assert InSpace(at);
        assert at in unused;
        AddedMore(old(pages), added, at, position, range, permission, page, grant);
        pages := pages + [FreshPage(at, page, permission)];
        added, unused := added + [FreshPage(at, page, permission)], unused - {at};
      }
    }
  }

  /** Every page that the search asks for is refused, and with them every page that must be
      asked for. */
  ghost predicate Exhausted(pages: seq<PageChunk>, regions: seq<Region>, position: Addr, range: Addr, page: nat,
                            grant: (seq<PageChunk>, Addr) -> bool)
    requires page > 0
  {
    && (forall c: Addr :: Candidate(regions, WindowOf(position, range, page), c) ==> !grant(pages, c))
    && (forall c: Addr :: Asked(regions, position, range, page, c) ==> !grant(pages, c))
  }

  lemma SearchExhausted(pages: seq<PageChunk>, regions: seq<Region>, position: Addr, range: Addr, page: nat,
                        grant: (seq<PageChunk>, Addr) -> bool, asked: Addr -> bool)
    requires page > 0 && forall c: Addr :: asked(c) == grant(pages, c)
    requires forall c: Addr :: Candidate(regions, WindowOf(position, range, page), c) ==> !asked(c)
    requires forall c: Addr :: Asked(regions, position, range, page, c) ==> !asked(c)
    ensures Exhausted(pages, regions, position, range, page, grant)
  {
    hide Candidate, Asked, WindowOf;
  }

  ghost predicate NoneUsable(pages: seq<PageChunk>, position: Addr, range: Addr, size: nat, permission: Permission)
  {
    forall i :: 0 <= i < |pages| ==> !Usable(pages[i], position, range, size, permission)
  }

  /** The pages asked for, in order: each was granted given those before it, is near the
      position, and has nothing on it. */
  ghost predicate Added(before: seq<PageChunk>, added: seq<PageChunk>, position: Addr, range: Addr,
                        permission: Permission,
                        page: nat, grant: (seq<PageChunk>, Addr) -> bool)
  {
    forall i :: 0 <= i < |added| ==>
      && added[i].address < TWO64 && added[i] == FreshPage(added[i].address, page, permission)
      && Near(added[i].address, position, range) && grant(before + added[..i], added[i].address)
  }

  predicate InSpace(a: nat) { a < TWO64 }

  ghost predicate IsAdded(added: seq<PageChunk>, a: nat)
  {
    exists i :: 0 <= i < |added| && added[i].address == a
  }

  /** The chunk is the next piece of the first usable page, or, when none is, the first
      piece of the one page that was added. */
  ghost predicate Handed(before: seq<PageChunk>, after: seq<PageChunk>, added: seq<PageChunk>, position: Addr,
                         range: Addr,
                         size: nat, permission: Permission, page: nat, chunk: Chunk)
  {
    if added == [] then
      exists i :: 0 <= i < |before| && Usable(before[i], position, range, size, permission)
        && NoneUsable(before[..i], position, range, size, permission)
        && after == before[i := Carve(before[i], size)] && chunk == Chunk(before[i].cursor, size)
    else
      && NoneUsable(before, position, range, size, permission) && size < page && |added| == 1
      && after == before + [Carve(added[0], size)] && chunk == Chunk(added[0].address, size)
  }

  /** Less than range away, going up or down, wrapping round. */
  predicate Within(a: nat, position: Addr, range: Addr)
  {
    (a - position) % 0x1_0000_0000_0000_0000 < range || (position - a) % 0x1_0000_0000_0000_0000 < range
  }

  lemma DistanceWithin(a: Addr, position: Addr, range: Addr)
    ensures Distance(a, position) < range <==> Within(a, position, range)
  {
  }

  lemma SameWithin(a: nat, position: Addr, range: Addr)
    ensures Within(Low64(a), position, range) == Within(a, position, range)
  {
    var q: int := a / 0x1_0000_0000_0000_0000;
    assert a == Low64(a) + 0x1_0000_0000_0000_0000 * q;
    SameRemainder(a - position, Low64(a) - position, 0x1_0000_0000_0000_0000, q);
    SameRemainder(position - a, position - Low64(a), 0x1_0000_0000_0000_0000, -q);
  }

  /** What makes a page usable: the permission, the distance of its next piece, and more room
      than asked for. */
  lemma UsableIs(p: PageChunk, position: Addr, range: Addr, size: nat, permission: Permission)
    ensures Usable(p, position, range, size, permission) <==>
      && p.permission == permission && Within(p.cursor, position, range)
      && p.cursor + size < p.address + p.length
  {
    hide Distance, Within, Low64;
    DistanceWithin(Low64(p.cursor), position, range);
    SameWithin(p.cursor, position, range);
  }

  /** Every chunk that comes from a page starts within range of the position. */
  lemma HandedNear(before: seq<PageChunk>, after: seq<PageChunk>, added: seq<PageChunk>, position: Addr, range: Addr,
                   size: nat, permission: Permission, page: nat, chunk: Chunk,
                   grant: (seq<PageChunk>, Addr) -> bool)
    requires Handed(before, after, added, position, range, size, permission, page, chunk)
    requires Added(before, added, position, range, permission, page, grant)
    ensures Within(chunk.address, position, range) && chunk.length == size
  {
    hide Usable, Within, Carve, NoneUsable, Distance;
    if added == [] {
      var i :| 0 <= i < |before| && Usable(before[i], position, range, size, permission)
        && chunk == Chunk(before[i].cursor, size);
      UsableIs(before[i], position, range, size, permission);
    } else {
      NearIsClose(added[0].address, position, range);
      DistanceWithin(added[0].address, position, range);
    }
  }

  lemma UsableRoom(p: PageChunk, position: Addr, range: Addr, size: nat, permission: Permission)
    requires Usable(p, position, range, size, permission)
    ensures p.cursor + size < p.address + p.length
  {
  }

  /** A page the search found passes the test of the next turn exactly when the chunk is
      smaller than a page. */
  lemma NewPageUsable(at: Addr, position: Addr, range: Addr, size: nat, permission: Permission, page: nat)
    requires Near(at, position, range)
    ensures Usable(FreshPage(at, page, permission), position, range, size, permission) <==> size < page
  {
    NearIsClose(at, position, range);
  }

  lemma AddedMore(before: seq<PageChunk>, added: seq<PageChunk>, at: Addr, position: Addr, range: Addr,
                  permission: Permission, page: nat, grant: (seq<PageChunk>, Addr) -> bool)
    requires Added(before, added, position, range, permission, page, grant)
    requires Near(at, position, range) && grant(before + added, at)
    ensures Added(before, added + [FreshPage(at, page, permission)], position, range, permission, page, grant)
    ensures forall a: Addr :: IsAdded(added, a) || a == at ==> IsAdded(added + [FreshPage(at, page, permission)], a)
  {
    hide Near;
    var more := added + [FreshPage(at, page, permission)];
    forall i | 0 <= i < |more|
      ensures more[..i] == (if i < |added| then added[..i] else added)
    {
    }
    forall a: Addr | IsAdded(added, a) || a == at ensures IsAdded(more, a)
    {
      if a == at {
        assert more[|added|].address == at;
      } else {
        var i :| 0 <= i < |added| && added[i].address == a;
        assert more[i].address == a;
      }
    }
  }

  lemma AddedUsable(before: seq<PageChunk>, added: seq<PageChunk>, position: Addr, range: Addr, size: nat,
                    permission: Permission, page: nat, grant: (seq<PageChunk>, Addr) -> bool)
    requires Added(before, added, position, range, permission, page, grant)
    ensures forall i :: 0 <= i < |added| ==> (Usable(added[i], position, range, size, permission) <==> size < page)
  {
    hide Usable, Near;
    forall i | 0 <= i < |added| ensures Usable(added[i], position, range, size, permission) <==> size < page
    {
      NewPageUsable(added[i].address, position, range, size, permission, page);
    }
  }

  /** When no page is usable, none of those added is. */
  lemma NotFound(before: seq<PageChunk>, added: seq<PageChunk>, position: Addr, range: Addr, size: nat,
                 permission: Permission, page: nat, grant: (seq<PageChunk>, Addr) -> bool)
    requires Added(before, added, position, range, permission, page, grant)
    requires NoneUsable(before + added, position, range, size, permission)
    ensures NoneUsable(before, position, range, size, permission) && (size < page ==> added == [])
  {
    hide Usable, Added;
    var pages := before + added;
    AddedUsable(before, added, position, range, size, permission, page, grant);
    forall i | 0 <= i < |before| ensures !Usable(before[i], position, range, size, permission)
    {
      assert pages[i] == before[i];
    }
    if added != [] {
      assert pages[|before|] == added[0];
    }
  }

  lemma FoundIsHanded(before: seq<PageChunk>, added: seq<PageChunk>, i: nat, position: Addr, range: Addr, size: nat,
                      permission: Permission, page: nat, grant: (seq<PageChunk>, Addr) -> bool)
    requires Added(before, added, position, range, permission, page, grant) && (size < page ==> |added| <= 1)
    requires i < |before + added| && Usable((before + added)[i], position, range, size, permission)
    requires forall k :: 0 <= k < i ==> !Usable((before + added)[k], position, range, size, permission)
    requires added != [] ==> NoneUsable(before, position, range, size, permission)
    ensures var pages := before + added;
      Handed(before, pages[i := Carve(pages[i], size)], added, position, range, size, permission, page,
             Chunk(pages[i].cursor, size))
  {
    hide Usable, Carve, Near;
    var pages := before + added;
    AddedUsable(before, added, position, range, size, permission, page, grant);
    if added == [] {
      assert pages == before;
    } else {
      assert i >= |before|;
      assert pages[i] == added[i - |before|];
      assert pages[i := Carve(pages[i], size)] == before + [Carve(added[0], size)];
    }
  }

  /** The search does not give an address again. */
  lemma NothingAdded(before: seq<PageChunk>, position: Addr, range: Addr, permission: Permission, page: nat,
                     grant: (seq<PageChunk>, Addr) -> bool)
    ensures Added(before, [], position, range, permission, page, grant)
  {
  }

  lemma FreshAddress(before: seq<PageChunk>, added: seq<PageChunk>, at: Addr, page: nat, position: Addr, range: Addr,
                     permission: Permission, grant: (seq<PageChunk>, Addr) -> bool)
    requires Added(before, added, position, range, permission, page, grant)
    requires page > 0 && FreshFor(before + added, at, page)
    ensures !IsAdded(added, at)
  {
    hide Near;
    forall i | 0 <= i < |added| ensures added[i].address != at
    {
      assert (before + added)[|before| + i] == added[i];
    }
  }

  // ----- The plain arena -----

  class MemoryArena {
    var pages: seq<PageChunk>

    constructor ()
      ensures pages == []
    {
      pages := [];
    }

    /** AllocateChunk; `fresh` is the page the system gives when one is asked for. A new
        page is used without a size test. */
    method AllocateChunk(size: nat, permission: Permission, page: nat, newPage: Option<nat>)
      returns (chunk: Option<Chunk>)
      requires ValidPages(pages) && (newPage.Some? ==> FreshFor(pages, newPage.value, page))
      modifies this
      ensures chunk.None? ==> pages == old(pages) && newPage.None?
      ensures chunk.Some? ==> ArenaHanded(old(pages), pages, size, permission, page, newPage, chunk.value)
      ensures size <= page ==> ValidPages(pages)
    {
      hide ValidPages, FreshFor, Carve;
      var i := 0;
      while i < |pages| && !HasRoom(pages[i], size, permission)
        invariant 0 <= i <= |pages| && forall k :: 0 <= k < i ==> !HasRoom(pages[k], size, permission)
      {
        i := i + 1;
      }
      if i == |pages| {
        if newPage.None? {
          return None;
        }
        PushValid(pages, newPage.value, page, permission);
        pages := pages + [FreshPage(newPage.value, page, permission)];
        assert pages[i := Carve(pages[i], size)] == old(pages) + [Carve(pages[i], size)];
      }
      if pages[i].cursor + size <= pages[i].address + pages[i].length {
        CarveValid(pages, i, size);
      }
      chunk := Some(Chunk(pages[i].cursor, size));
      pages := pages[i := Carve(pages[i], size)];
    }
  }

  predicate HasRoom(p: PageChunk, size: nat, permission: Permission)
  {
    p.permission == permission && p.cursor + size < p.address + p.length
  }

  ghost predicate ArenaHanded(before: seq<PageChunk>, after: seq<PageChunk>, size: nat, permission: Permission,
                              page: nat,
                              newPage: Option<nat>, chunk: Chunk)
  {
    || (exists i :: 0 <= i < |before| && HasRoom(before[i], size, permission)
          && (forall k :: 0 <= k < i ==> !HasRoom(before[k], size, permission))
          && after == before[i := Carve(before[i], size)] && chunk == Chunk(before[i].cursor, size))
    || (newPage.Some? && (forall k :: 0 <= k < |before| ==> !HasRoom(before[k], size, permission))
          && after == before + [Carve(FreshPage(newPage.value, page, permission), size)]
            && chunk == Chunk(newPage.value, size))
  }

  /** The chunk of a new page stays inside it exactly when it is no larger, and a later request
      finds room in a new page exactly when it is smaller. */
  lemma NewPageHolds(at: nat, page: nat, permission: Permission, size: nat)
    ensures HasRoom(FreshPage(at, page, permission), size, permission) <==> size < page
    ensures ValidPage(Carve(FreshPage(at, page, permission), size)) <==> size <= page
  {
    var p := Carve(FreshPage(at, page, permission), size);
    assert p.chunks == [Chunk(at, size)];
    assert p.chunks[..|p.chunks| - 1] == [];
    assert BackToBack([], at, at);
    assert BackToBack(p.chunks, at, at + size);
  }
}

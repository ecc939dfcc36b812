/** What signing and stripping promise: hashes describe the emitted file, signing twice
    changes nothing, and stripping undoes signing. */
module Signing {
  import opened Arithmetic
  import opened Bytes
  import opened MachO
  import opened Options
  import opened LoadCommands
  import opened SuperBlob
  import opened Tables
  import opened CodeDirectory
  import opened Ldid

  // ----- Page hashes describe the output -----

  /** Three stretches: the head, the copied image, and zeros. */
  function Stretch(f: seq<byte>, h: seq<byte>, size: nat, limit: nat): (b: seq<byte>)
    requires |h| <= size <= |f| && size <= limit
    ensures |b| == limit
    ensures forall j :: 0 <= j < limit ==> b[j] == if j < |h| then h[j] else if j < size then f[j] else 0
  {
    h + f[|h|..size] + Zeros(limit - size)
  }

  lemma OverlapPage(f: seq<byte>, h: seq<byte>, size: nat, limit: nat, overlap: seq<byte>, from: nat)
    requires |h| <= size <= |f| && size <= limit && from + PAGE <= size && from % PAGE == 0
    requires overlap == h + Read(f, |h|, AlignUp(|h|, PAGE)) && from < |overlap|
    ensures from + PAGE <= |overlap| && overlap[from..from + PAGE] == Stretch(f, h, size, limit)[from..from + PAGE]
  {
    hide Stretch, Read, AlignUp;
    PageAligned(|h|);
    Multiples(from, |overlap|, PAGE);
    var page, b := overlap[from..from + PAGE], Stretch(f, h, size, limit);
    forall j | from <= j < from + PAGE ensures page[j - from] == b[j]
    {
      assert page[j - from] == overlap[j];
    }
  }

  lemma SourcePage(f: seq<byte>, h: seq<byte>, size: nat, limit: nat, from: nat)
    requires |h| <= from && from + PAGE <= size <= |f| && size <= limit
    ensures Read(f, from, from + PAGE) == Stretch(f, h, size, limit)[from..from + PAGE]
  {
  }

  /** Every page but the last is read as it is written, from either buffer. */
  lemma PageIsOutput(f: seq<byte>, l: Layout, i: nat)
    requires Fits(f, l) && l.limit == AlignUp(l.size, 0x10) && i + 1 < Pages(l.limit)
    ensures PAGE * i + PAGE <= l.size
    ensures PageBytes(SliceOf(f, l), i) == Body(f, l)[PAGE * i..PAGE * i + PAGE]
  {
    hide Head, Body, SliceOf, PageBytes, Pages, Stretch, Read, AlignUp, IsMachO, Zeros;
    PageWithin(l, i);
    var h, s := Head(f, l), SliceOf(f, l);
    SliceIs(f, l);
    HashesPage(s, i);
    StretchIs(f, h, l.size, l.limit);
    BodyIs(f, l);
    if PAGE * i < |s.overlap| {
      OverlapPage(f, h, l.size, l.limit, s.overlap, PAGE * i);
    } else {
      SourcePage(f, h, l.size, l.limit, PAGE * i);
    }
  }

  lemma PageWithin(l: Layout, i: nat)
    requires l.limit == AlignUp(l.size, 0x10) && i + 1 < Pages(l.limit)
    ensures PAGE * i + PAGE <= l.size && PAGE * i % PAGE == 0
  {
    SameBlockCount(l.size);
  }

  lemma SliceIs(f: seq<byte>, l: Layout)
    requires Fits(f, l)
    ensures var h, s := Head(f, l), SliceOf(f, l);
      && |h| <= l.size <= |f| && l.size <= l.limit < 0x1_0000_0000 && |s.overlap| % PAGE == 0
      && s.overlap == h + Read(f, |h|, AlignUp(|h|, PAGE)) && s.top == f && s.limit == l.limit
      && |h| <= AlignUp(|h|, PAGE) == |s.overlap|
  {
    hide Head, IsMachO, Read, ExecRange, FileType, AlignUp;
    PageAligned(|Head(f, l)|);
  }

  lemma BodyIs(f: seq<byte>, l: Layout)
    requires Fits(f, l)
    ensures Body(f, l) == Head(f, l) + f[|Head(f, l)|..l.size] + Zeros(l.limit - l.size)
  {
    hide Head, IsMachO, Zeros;
  }

  lemma HashesPage(s: Slice, i: nat)
    requires |s.overlap| % PAGE == 0 && i + 1 < Pages(s.limit)
    ensures ValidSlice(s)
    ensures PAGE * i < |s.overlap| ==>
      PAGE * i + PAGE <= |s.overlap| && PageBytes(s, i) == s.overlap[PAGE * i..PAGE * i + PAGE]
    ensures PAGE * i >= |s.overlap| ==> PageBytes(s, i) == Read(s.top, PAGE * i, PAGE * i + PAGE)
  {
    hide Read;
  }

  lemma StretchIs(f: seq<byte>, h: seq<byte>, size: nat, limit: nat)
    requires |h| <= size <= |f| && size <= limit
    ensures Stretch(f, h, size, limit) == h + f[|h|..size] + Zeros(limit - size)
  {
  }

  /** The range of the image that the last code slot covers. */
  function LastPage(l: Layout): (n: nat)
    requires l.limit > 0
  {
    PAGE * (Pages(l.limit) - 1)
  }

  lemma LastPageRead(s: Slice)
    requires ValidSlice(s)
    ensures var last := Pages(s.limit) - 1;
      && last >= 0 && PAGE * last < s.limit && s.limit - PAGE * last <= PAGE
      && PageBytes(s, last) == Read(s.top, PAGE * last, s.limit)
  {
    var last := Pages(s.limit) - 1;
    assert PAGE * last + (s.limit - 1) % PAGE + 1 == s.limit;
  }

  /** The last code slot hashes the source, not the output: it describes the output
      exactly when the source already agreed with the rewritten headers there and held
      zeros up to the limit. */
  ghost predicate SourceAgrees(f: seq<byte>, l: Layout)
    requires Fits(f, l) && l.limit > 0
  {
    && (forall j {:trigger Head(f, l)[j]} :: LastPage(l) <= j < |Head(f, l)| ==> f[j] == Head(f, l)[j])
    && (forall j {:trigger ByteAt(f, j)} :: l.size <= j < l.limit ==> ByteAt(f, j) == 0)
  }

  lemma TailOfStretch(f: seq<byte>, h: seq<byte>, size: nat, limit: nat, from: nat)
    requires |h| <= size <= |f| && from <= size <= limit
    ensures Read(f, from, limit) == Stretch(f, h, size, limit)[from..] <==>
        (forall j {:trigger h[j]} :: from <= j < |h| ==> f[j] == h[j])
        && (forall j {:trigger ByteAt(f, j)} :: size <= j < limit ==> ByteAt(f, j) == 0)
  {
    var page, b := Read(f, from, limit), Stretch(f, h, size, limit);
    if page == b[from..] {
      forall j | from <= j < |h| ensures f[j] == h[j] { assert page[j - from] == b[from..][j - from]; }
      forall j | size <= j < limit ensures ByteAt(f, j) == 0 { assert page[j - from] == b[from..][j - from]; }
    }
  }

  lemma LastPageBelow(l: Layout)
    requires l.limit == AlignUp(l.size, 0x10) && l.limit > 0
    ensures 0 <= LastPage(l) < l.size <= l.limit
  {
    SameBlockCount(l.size);
  }

  lemma LastPageIsOutput(f: seq<byte>, l: Layout)
    requires Fits(f, l) && l.limit == AlignUp(l.size, 0x10) && l.limit > 0
    ensures LastPage(l) < l.size
    ensures PageBytes(SliceOf(f, l), Pages(l.limit) - 1) == Body(f, l)[LastPage(l)..] <==> SourceAgrees(f, l)
  {
    hide Head, Body, SliceOf, PageBytes, Stretch, Read, AlignUp, Pages, IsMachO, Zeros;
    LastPageBelow(l);
    SliceIs(f, l);
    LastPageRead(SliceOf(f, l));
    var h := Head(f, l);
    BodyIs(f, l);
    StretchIs(f, h, l.size, l.limit);
    TailOfStretch(f, h, l.size, l.limit, LastPage(l));
  }

  // ----- A signature depends on the slice only through its pages -----

  ghost predicate SameDigests(q: Request, p: seq<byte>, p': seq<byte>)
  {
    forall a :: a in q.algorithms ==> Digest(q.digests, a, p) == Digest(q.digests, a, p')
  }

  ghost predicate SamePage(q: Request, s: Slice, s': Slice, i: nat)
    requires ValidSlice(s) && ValidSlice(s') && s.limit == s'.limit && i < Pages(s.limit)
  {
    SameDigests(q, PageBytes(s, i), PageBytes(s', i))
  }

  ghost predicate SamePages(q: Request, s: Slice, s': Slice)
  {
    && ValidSlice(s) && ValidSlice(s') && s.limit == s'.limit
    && forall i {:trigger SamePage(q, s, s', i)} :: 0 <= i < Pages(s.limit) ==> SamePage(q, s, s', i)
  }

  ghost predicate SameSlice(q: Request, s: Slice, s': Slice)
  {
    SamePages(q, s, s') && (q.algorithms == [] || ExecFields(s) == ExecFields(s'))
  }

  /** Two embedded Info.plists, or none, that hash the same. */
  ghost predicate SameHashes(q: Request, info: Option<seq<byte>>, info': Option<seq<byte>>)
  {
    info.Some? == info'.Some? && (info.Some? ==> SameDigests(q, info.value, info'.value))
  }

  lemma SamePosts(q: Request, info: Option<seq<byte>>, info': Option<seq<byte>>)
    requires SameHashes(q, info, info')
    ensures Posts(q, info) == Posts(q, info')
  {
    hide Digest;
  }

  lemma {:induction false} SameCells(q: Request, a: Algorithm, blobs: Blobs, posts: Table<Hash>, s: Slice, s': Slice,
                                     n: nat)
    requires Hashable(blobs) && SamePages(q, s, s') && a in q.algorithms && n <= Special(blobs, posts) + Pages(s.limit)
    ensures Cells(q, a, blobs, posts, s, n) == Cells(q, a, blobs, posts, s', n)
  {
    hide SlotHash, Special, PageBytes, Digest, Pages, HashSize, Hashable;
    if n > 0 {
      SameCells(q, a, blobs, posts, s, s', n - 1);
      assert n - 1 >= Special(blobs, posts) ==> SamePage(q, s, s', n - 1 - Special(blobs, posts));
    }
  }

  lemma SameDirectory(q: Request, a: Algorithm, blobs: Blobs, posts: Table<Hash>, s: Slice, s': Slice)
    requires Hashable(blobs) && SameSlice(q, s, s') && a in q.algorithms
    ensures Directory(q, a, blobs, posts, s) == Directory(q, a, blobs, posts, s')
  {
    hide Cells, Special, PageBytes, Hashable, HashSize, Put32Big, ExecFields, Zeros;
    SameCells(q, a, blobs, posts, s, s', Special(blobs, posts) + Pages(s.limit));
  }

  lemma {:induction false} SamePasses(q: Request, info: Option<seq<byte>>, info': Option<seq<byte>>, s: Slice,
                                      s': Slice, k: nat)
    requires ValidRequest(q) && SameSlice(q, s, s') && SameHashes(q, info, info') && k <= |q.algorithms|
    ensures AfterPasses(q, info, s, k) == AfterPasses(q, info', s', k)
  {
    hide Directory, SameSlice, Hashable, SameHashes, Posts;
    assert ValidSlice(s) && ValidSlice(s') by { SameSliceValid(q, s, s'); }
    if k > 0 {
      SamePosts(q, info, info');
      SamePasses(q, info, info', s, s', k - 1);
      SameDirectory(q, q.algorithms[k - 1], AfterPasses(q, info, s, k - 1), Posts(q, info), s, s');
    }
  }

  lemma SameSliceValid(q: Request, s: Slice, s': Slice)
    requires SameSlice(q, s, s')
    ensures ValidSlice(s) && ValidSlice(s')
  {
  }

  // ----- Signing twice -----

  /** The layout of a signed file is the layout of the file it came from, except that
      without a string table the rounded end is taken for the end. */
  lemma SecondLayout(f: seq<byte>, q: Request, align: nat, y: seq<byte>)
    requires CanSign(f, q, align) && Starts(y, f, SignLayout(f, q, align))
    requires |y| >= SignLayout(f, q, align).limit + SignLayout(f, q, align).alloc
    ensures IsMachO(y) && ImageEnd(y).Some?
    ensures var l, cmds := SignLayout(f, q, align), (ParseShape(f, HeaderSize(f), NCmds(f)); Commands(f));
      && ImageEnd(y).value == (if HasSymbols(cmds) then l.size else l.limit)
      && SignLayout(y, q, align) == Layout(ImageEnd(y).value, l.limit, l.alloc, align)
  {
    hide Kept, Head, Estimate, EndOf, SymbolEnd, HasSymbols, SignatureOffset, InfoSpan, ExecRange;
    hide LinkeditNotExecutable;
    hide Get32, IsMachO, Starts;
    var l := SignLayout(f, q, align);
    HeadNotEmpty(f, l);
    EstimatePositive(q, InfoSpanSome(f), l.size);
    OutputCommands(f, l, y);
    KeptLookups(f, l);
    SameBlockCount(l.size);
    EstimateByPages(q, InfoSpanSome(f), l.size, l.limit);
    EndAgain(ParsedCommands(f), Kept(f, l), |f|, |y|, l.size);
  }

  lemma EndAgain(cmds: seq<Command>, kept: seq<Command>, n: nat, n': nat, size: nat)
    requires AllWellFormed(cmds) && AllWellFormed(kept) && EndOf(cmds, n) == Some(size) && 16 <= size
    requires SymbolEnd(kept) == SymbolEnd(cmds) && HasSymbols(kept) == HasSymbols(cmds)
    requires SignatureOffset(kept) == Some(AlignUp(size, 0x10)) && n' >= AlignUp(size, 0x10)
    ensures EndOf(kept, n') == Some(if HasSymbols(cmds) then size else AlignUp(size, 0x10))
  {
    hide SymbolEnd, HasSymbols, SignatureOffset;
  }

  predicate InfoSpanSome(f: seq<byte>)
    requires IsMachO(f)
  {
    ParseShape(f, HeaderSize(f), NCmds(f));
    InfoSpan(Commands(f)).Some?
  }

  lemma EstimatePositive(q: Request, info: bool, size: nat)
    requires |q.algorithms| <= 2
    ensures Estimate(q, info, size) > 0
  {
  }

  lemma EstimateByPages(q: Request, info: bool, size: nat, limit: nat)
    requires Pages(size) == Pages(limit)
    ensures Estimate(q, info, size) == Estimate(q, info, limit)
  {
    hide EstimateAfter;
  }

  lemma KeptLookups(f: seq<byte>, l: Layout)
    requires IsMachO(f) && Expressible(l)
    ensures AllWellFormed(Kept(f, l))
    ensures var cmds := (ParseShape(f, HeaderSize(f), NCmds(f)); Commands(f));
      && InfoSpan(Kept(f, l)) == InfoSpan(cmds)
      && SymbolEnd(Kept(f, l)) == SymbolEnd(cmds) && HasSymbols(Kept(f, l)) == HasSymbols(cmds)
      && (LinkeditNotExecutable(cmds) ==> ExecRange(Kept(f, l)) == ExecRange(cmds))
      && (l.alloc != 0 ==> SignatureOffset(Kept(f, l)) == Some(l.limit))
  {
    hide NewCommands, SymbolEnd, HasSymbols, SignatureOffset, InfoSpan, ExecRange, LinkeditNotExecutable, Get32;
    ParseShape(f, HeaderSize(f), NCmds(f));
    NewCommandsLookups(Commands(f), l.limit, l.alloc, l.align);
  }

  /** The same commands need no clearing the second time, so the second head is the
      first one without its padding. */
  lemma ShorterHead(f: seq<byte>, l: Layout, y: seq<byte>, l': Layout)
    requires Fits(f, l) && Starts(y, f, l) && |y| >= 32 && Expressible(l')
    requires l'.limit == l.limit && l'.alloc == l.alloc && l'.align == l.align
    ensures IsMachO(y) && |Head(y, l')| <= |Head(f, l)| && y[..|Head(y, l')|] == Head(y, l')
  {
    hide Kept, Head, HeadOf, IsMachO, Get32;
    OutputIsMachO(f, l, y);
    SecondHead(f, l, y, l');
    var cmds := Kept(f, l);
    assert Kept(f, l') == cmds by { KeptBySizes(f, l, l'); }
    HeadIs(f, l);
    HeadOfMachO(f);
    HeadPadding(f[..16], f[24..28], Wide(f), cmds, SizeOfCmds(f));
    var h, h' := Head(f, l), Head(y, l');
    PrefixField(y, h, 0, |h'|);
  }

  lemma KeptBySizes(f: seq<byte>, l: Layout, l': Layout)
    requires IsMachO(f) && Expressible(l) && Expressible(l')
    requires l'.limit == l.limit && l'.alloc == l.alloc && l'.align == l.align
    ensures Kept(f, l') == Kept(f, l)
  {
    hide NewCommands, IsMachO;
  }

  lemma HeadIs(f: seq<byte>, l: Layout)
    requires IsMachO(f) && Expressible(l)
    ensures |f| >= 32 && Head(f, l) == HeadOf(f[..16], f[24..28], Wide(f), Kept(f, l), SizeOfCmds(f))
  {
    hide HeadOf, Kept;
  }

  lemma HeadPadding(first: seq<byte>, flags: seq<byte>, wide: bool, cmds: seq<Command>, before: nat)
    requires |first| == 16 && |flags| == 4
    ensures var h, h' := HeadOf(first, flags, wide, cmds, before), HeadOf(first, flags, wide, cmds, Total(cmds));
      |h'| <= |h| && h[0..|h'|] == h'
  {
    hide Concat, Put32, Low32, Zeros;
    assert Zeros(0) == [];
  }

  lemma SecondBody(f: seq<byte>, l: Layout, y: seq<byte>, l': Layout)
    requires Fits(f, l) && |y| >= l.limit && |y| >= 32 && y[..l.limit] == Body(f, l)
    requires l' == l.(size := l'.size) && l.size <= l'.size <= l.limit
    ensures Fits(y, l') && Body(y, l') == Body(f, l)
  {
    hide Head, Body, IsMachO, Stretch;
    var h := Head(f, l);
    StretchIs(f, h, l.size, l.limit);
    BodyIs(f, l);
    assert Starts(y, f, l) by { assert y[..|h|] == y[..l.limit][..|h|] == h; }
    ShorterHead(f, l, y, l');
    var h' := Head(y, l');
    StretchIs(y, h', l'.size, l'.limit);
    BodyIs(y, l');
    forall j | 0 <= j < l.limit ensures Stretch(y, h', l'.size, l.limit)[j] == y[..l.limit][j]
    {
      assert y[..|h'|] == h';
    }
  }

  lemma SamePagesTwice(q: Request, f: seq<byte>, l: Layout, y: seq<byte>, l': Layout)
    requires Fits(f, l) && Fits(y, l') && Body(y, l') == Body(f, l) && l.limit == l'.limit > 0
    requires l.limit == AlignUp(l.size, 0x10) == AlignUp(l'.size, 0x10)
    ensures Pages(l.limit) > 0
    ensures SamePages(q, SliceOf(f, l), SliceOf(y, l')) <==>
      SamePage(q, SliceOf(f, l), SliceOf(y, l'), Pages(l.limit) - 1)
  {
    hide Fits, Body, Head, SliceOf, PageBytes, Read, AlignUp, Digest;
    SliceIs(f, l);
    SliceIs(y, l');
    forall i: nat | i + 1 < Pages(l.limit)
      ensures SamePage(q, SliceOf(f, l), SliceOf(y, l'), i)
    {
      PageIsOutput(f, l, i);
      PageIsOutput(y, l', i);
    }
  }

  lemma SliceFields(f: seq<byte>, l: Layout)
    requires Fits(f, l)
    ensures var r := ExecRange(ParsedCommands(f));
      SliceOf(f, l).filetype == FileType(f) && SliceOf(f, l).left == r.left && SliceOf(f, l).right == r.right
  {
    hide Head, ExecRange, FileType, Read, AlignUp, AllWellFormed;
  }

  lemma OutputCommands(f: seq<byte>, l: Layout, y: seq<byte>)
    requires Fits(f, l) && Starts(y, f, l) && |y| >= 32
    ensures IsMachO(y) && ParsedCommands(y) == Kept(f, l) && FileType(y) == FileType(f)
  {
    hide Head, IsMachO, Kept, WellFormed, FileType, Fits;
    FitsMachO(f, l);
    OutputIsMachO(f, l, y);
  }

  // ----- And only through its pages -----

  ghost predicate SameShape(t: Blobs, t': Blobs)
  {
    |t| == |t'| && forall i :: 0 <= i < |t| ==> t[i].slot == t'[i].slot && |t[i].value| == |t'[i].value|
  }

  lemma {:induction false} InsertSameShape(t: Blobs, t': Blobs, slot: uint32, value: seq<byte>, value': seq<byte>)
    requires SameShape(t, t') && |value| == |value'|
    ensures SameShape(Insert(t, slot, value), Insert(t', slot, value'))
  {
    hide Insert;
    var e, e' := Entry(slot, value), Entry(slot, value');
    InsertStep(t, slot, value);
    InsertStep(t', slot, value');
    if t != [] && slot > t[0].slot {
      InsertSameShape(t[1..], t'[1..], slot, value, value');
      ConsSameShape(t[0], t'[0], Insert(t[1..], slot, value), Insert(t'[1..], slot, value'));
    } else if t != [] && slot == t[0].slot {
      ConsSameShape(e, e', t[1..], t'[1..]);
    } else {
      ConsSameShape(e, e', t, t');
    }
  }

  lemma InsertStep(t: Blobs, slot: uint32, value: seq<byte>)
    ensures t != [] && slot > t[0].slot ==> Insert(t, slot, value) == [t[0]] + Insert(t[1..], slot, value)
    ensures t != [] && slot == t[0].slot ==> Insert(t, slot, value) == [Entry(slot, value)] + t[1..]
    ensures t == [] || slot < t[0].slot ==> Insert(t, slot, value) == [Entry(slot, value)] + t
  {
  }

  lemma ConsSameShape(e: Entry<seq<byte>>, e': Entry<seq<byte>>, t: Blobs, t': Blobs)
    requires SameShape(t, t') && e.slot == e'.slot && |e.value| == |e'.value|
    ensures SameShape([e] + t, [e'] + t')
  {
  }

  lemma DirectoryLength(q: Request, info: Option<seq<byte>>, info': Option<seq<byte>>, s: Slice, s': Slice, k: nat)
    requires ValidRequest(q) && ValidSlice(s) && ValidSlice(s') && s.limit == s'.limit && k < |q.algorithms|
    requires info.Some? == info'.Some?
    ensures var a := q.algorithms[k];
      |Directory(q, a, AfterPasses(q, info, s, k), Posts(q, info), s)|
        == |Directory(q, a, AfterPasses(q, info', s', k), Posts(q, info'), s')|
  {
    hide AfterPasses, Directory, Special, EstimateSpecial, Hashable, Sorted, Pages, HashSize, Posts, Get32Big;
    PassesMax(q, info, s, k);
    PassesMax(q, info', s', k);
  }

  lemma {:induction false} PassesSameShape(q: Request, info: Option<seq<byte>>, info': Option<seq<byte>>, s: Slice,
                                           s': Slice, k: nat)
    requires ValidRequest(q) && ValidSlice(s) && ValidSlice(s') && s.limit == s'.limit && k <= |q.algorithms|
    requires info.Some? == info'.Some?
    ensures SameShape(AfterPasses(q, info, s, k), AfterPasses(q, info', s', k))
  {
    hide Insert, SameShape, Hashable, Sorted, FirstBlobs, Posts, Directory, Get32Big, ValidSlice, Put32Big;
    if k == 0 {
      SameShapeReflexive(FirstBlobs(q));
    } else {
      PassesSameShape(q, info, info', s, s', k - 1);
      DirectoryLength(q, info, info', s, s', k - 1);
      var a, t, t' := q.algorithms[k - 1], AfterPasses(q, info, s, k - 1), AfterPasses(q, info', s', k - 1);
      InsertSameShape(t, t', DirectorySlot(k - 1),
                      Wrap(CSMAGIC_CODEDIRECTORY, Directory(q, a, t, Posts(q, info), s)),
                      Wrap(CSMAGIC_CODEDIRECTORY, Directory(q, a, t', Posts(q, info'), s')));
    }
  }

  lemma SameShapeReflexive(t: Blobs)
    ensures SameShape(t, t)
  {
  }

  lemma {:induction false} DataInjective(t: Blobs, t': Blobs)
    requires SameShape(t, t') && Data(t) == Data(t')
    ensures t == t'
  {
    if t != [] {
      var v, v' := t[0].value, t'[0].value;
      assert Data(t)[..|v|] == v && Data(t)[|v|..] == Data(t[1..]);
      assert Data(t')[..|v'|] == v' && Data(t')[|v'|..] == Data(t'[1..]);
      DataInjective(t[1..], t'[1..]);
      assert t == [t[0]] + t[1..] && t' == [t'[0]] + t'[1..];
    }
  }

  /** Hash j of the directory of algorithm k in the finished table, counted from
      hashOffset; special slots are at negative j. */
  ghost predicate StoredHash(q: Request, info: Option<seq<byte>>, s: Slice, k: nat, j: int, h: seq<byte>)
    requires ValidRequest(q) && ValidSlice(s) && k < |q.algorithms|
  {
    var a := q.algorithms[k];
    var found := Find(AfterPasses(q, info, s, |q.algorithms|), DirectorySlot(k));
    var at := HashOffset(q, a, EstimateSpecial(q, info.Some?)) + j * HashSize(a);
    && found.Some? && 0 <= at <= at + HashSize(a) <= |found.value|
    && found.value[at..at + HashSize(a)] == h
  }

  lemma DirectoryStays(q: Request, info: Option<seq<byte>>, s: Slice, k: nat)
    requires ValidRequest(q) && ValidSlice(s) && k < |q.algorithms|
    ensures Find(AfterPasses(q, info, s, |q.algorithms|), DirectorySlot(k))
         == Some(Wrap(CSMAGIC_CODEDIRECTORY, Directory(q, q.algorithms[k], AfterPasses(q, info, s, k),
           Posts(q, info), s)))
  {
    hide Insert, Directory, Hashable, Find, FirstBlobs;
    var before := AfterPasses(q, info, s, k);
    FindInsert(before, DirectorySlot(k),
               Wrap(CSMAGIC_CODEDIRECTORY, Directory(q, q.algorithms[k], before, Posts(q, info), s)), DirectorySlot(k));
    if k + 1 < |q.algorithms| {
      var next := AfterPasses(q, info, s, 1);
      FindInsert(next, DirectorySlot(1),
                 Wrap(CSMAGIC_CODEDIRECTORY, Directory(q, q.algorithms[1], next, Posts(q, info), s)), DirectorySlot(0));
    }
  }

  lemma PageStored(q: Request, info: Option<seq<byte>>, s: Slice, k: nat, i: nat)
    requires ValidRequest(q) && ValidSlice(s) && k < |q.algorithms| && i < Pages(s.limit)
    ensures StoredHash(q, info, s, k, i, Digest(q.digests, q.algorithms[k], PageBytes(s, i)))
  {
    hide AfterPasses, Directory, Special, PageBytes, Digest, Pages, HashOffset, HashSize, EstimateSpecial, Find;
    hide ValidSlice, Posts, Sorted, Hashable, Get32Big, Wrap;
    var a, before, posts := q.algorithms[k], AfterPasses(q, info, s, k), Posts(q, info);
    PassesMax(q, info, s, k);
    HashAt(q, a, before, posts, s, Special(before, posts) + i);
    DirectoryStays(q, info, s, k);
  }

  lemma NegativeTimes(x: nat, h: nat)
    ensures (-(x as int)) * h == -((x * h) as int)
  {
  }

  lemma SpecialStored(q: Request, info: Option<seq<byte>>, s: Slice, k: nat, slot: uint32)
    requires ValidRequest(q) && ValidSlice(s) && k < |q.algorithms| && 1 <= slot <= EstimateSpecial(q, info.Some?)
    ensures StoredHash(q, info, s, k, -(slot as int),
                       SlotHash(q, q.algorithms[k], AfterPasses(q, info, s, k), Posts(q, info), slot))
  {
    hide AfterPasses, Directory, Special, SlotHash, HashOffset, HashSize, EstimateSpecial, Find, ValidSlice;
    hide Posts, Sorted, Hashable;
    hide Get32Big, Wrap, Pages;
    var a, before, posts := q.algorithms[k], AfterPasses(q, info, s, k), Posts(q, info);
    PassesMax(q, info, s, k);
    SpecialSlotAt(q, a, before, posts, s, slot);
    DirectoryStays(q, info, s, k);
    NegativeTimes(slot, HashSize(a));
  }

  /** The executable range stands in the last fields of a directory. */
  lemma ExecStored(q: Request, info: Option<seq<byte>>, s: Slice, k: nat)
    requires ValidRequest(q) && ValidSlice(s) && k < |q.algorithms|
    ensures var found := Find(AfterPasses(q, info, s, |q.algorithms|), DirectorySlot(k));
      found.Some? && |found.value| >= 88 && found.value[56..88] == ExecFields(s)
  {
    hide AfterPasses, Cells, Special, Find, ValidSlice, Posts, Sorted, Hashable, Get32Big, ExecFields, Counts;
    hide Put32Big, HashSize, Zeros;
    DirectoryStays(q, info, s, k);
    var directory := Directory(q, q.algorithms[k], AfterPasses(q, info, s, k), Posts(q, info), s);
    assert directory[48..80] == ExecFields(s);
    assert Wrap(CSMAGIC_CODEDIRECTORY, directory)[8..] == directory;
    SubSlice(Wrap(CSMAGIC_CODEDIRECTORY, directory), 8, 8 + |directory|, 48, 80);
  }

  /** The hash of the Info.plist is that of special slot 1. */
  lemma InfoStored(q: Request, info: Option<seq<byte>>, s: Slice, k: nat)
    requires ValidRequest(q) && ValidSlice(s) && k < |q.algorithms| && info.Some?
    ensures StoredHash(q, info, s, k, -(CSSLOT_INFOSLOT as int), Digest(q.digests, q.algorithms[k], info.value))
  {
    hide AfterPasses, StoredHash, Digest, Find, EstimateSpecial, ValidSlice, Posts;
    PostsFind(q, info, q.algorithms[k]);
    EstimateCovers(q, true);
    SpecialStored(q, info, s, k, CSSLOT_INFOSLOT);
  }

  lemma EqualTables(q: Request, info: Option<seq<byte>>, info': Option<seq<byte>>, s: Slice, s': Slice)
    requires ValidRequest(q) && ValidSlice(s) && ValidSlice(s') && s.limit == s'.limit && info.Some? == info'.Some?
    requires Signature(q, info, s) == Signature(q, info', s')
    ensures AfterPasses(q, info, s, |q.algorithms|) == AfterPasses(q, info', s', |q.algorithms|)
  {
    hide AfterPasses, Serialize, Data, SameShape;
    var n := |q.algorithms|;
    var t, t' := AfterPasses(q, info, s, n), AfterPasses(q, info', s', n);
    PassesSameShape(q, info, info', s, s', n);
    assert |t| == |t'| by { SameShapeLength(t, t'); }
    SerializedParts(CSMAGIC_EMBEDDED_SIGNATURE, t);
    SerializedParts(CSMAGIC_EMBEDDED_SIGNATURE, t');
    DataInjective(t, t');
  }

  /** Equal signatures hold equal hashes, of every page and of the Info.plist, and the
      same executable range. */
  lemma EqualSignatures(q: Request, info: Option<seq<byte>>, info': Option<seq<byte>>, s: Slice, s': Slice, i: nat)
    requires ValidRequest(q) && ValidSlice(s) && ValidSlice(s') && s.limit == s'.limit && i < Pages(s.limit)
    requires info.Some? == info'.Some? && Signature(q, info, s) == Signature(q, info', s')
    ensures SamePage(q, s, s', i) && SameHashes(q, info, info')
    ensures q.algorithms == [] || ExecFields(s) == ExecFields(s')
  {
    hide AfterPasses, PageBytes, Digest, Pages, Signature, HashOffset, HashSize, EstimateSpecial, Find;
    hide ValidSlice, ExecFields, ValidRequest;
    var n := |q.algorithms|;
    EqualTables(q, info, info', s, s');
    forall a | a in q.algorithms
      ensures Digest(q.digests, a, PageBytes(s, i)) == Digest(q.digests, a, PageBytes(s', i))
      ensures info.Some? ==> Digest(q.digests, a, info.value) == Digest(q.digests, a, info'.value)
    {
      var k :| 0 <= k < n && q.algorithms[k] == a;
      PageStored(q, info, s, k, i);
      PageStored(q, info', s', k, i);
      if info.Some? {
        InfoStored(q, info, s, k);
        InfoStored(q, info', s', k);
      }
    }
    if n > 0 {
      ExecStored(q, info, s, 0);
      ExecStored(q, info', s', 0);
    }
  }

  lemma SameShapeLength(t: Blobs, t': Blobs)
    requires SameShape(t, t')
    ensures |t| == |t'|
  {
  }

  // ----- The fixpoint -----

  function ParsedCommands(f: seq<byte>): (cmds: seq<Command>)
    requires IsMachO(f)
    ensures AllWellFormed(cmds)
  {
    ParseShape(f, HeaderSize(f), NCmds(f));
    Commands(f)
  }

  /** The embedded Info.plist lies between the rewritten headers and the end. */
  predicate InfoInside(f: seq<byte>, l: Layout)
    requires Fits(f, l)
  {
    var span := InfoSpan(ParsedCommands(f));
    span.None? || (|Head(f, l)| <= span.value.offset && span.value.offset + span.value.size <= l.size)
  }

  /** Inputs whose second signing sees the same executable range and Info.plist. */
  ghost predicate StableInputs(f: seq<byte>, q: Request, align: nat)
    requires CanSign(f, q, align)
  {
    LinkeditNotExecutable(ParsedCommands(f)) && InfoInside(f, SignLayout(f, q, align))
  }

  lemma SignedParts(f: seq<byte>, q: Request, align: nat)
    requires CanSign(f, q, align)
    ensures var l, y := SignLayout(f, q, align), Sign(f, q, align);
      && l.limit == AlignUp(l.size, 0x10) && l.limit < 0x1_0000_0000 && Fits(f, l) && |y| == l.limit + l.alloc
      && 28 <= l.limit && y[..l.limit] == Body(f, l) && Starts(y, f, l)
      && y[l.limit..] == SignatureOf(f, q, align) + Zeros(l.alloc - |SignatureOf(f, q, align)|)
      && l.alloc >= 12
  {
    hide Body, Head, SignatureOf, SignLayout, IsMachO, Zeros, Fits, Sign, AlignUp, ValidRequest;
    var l, y := SignLayout(f, q, align), Sign(f, q, align);
    LayoutFacts(f, q, align);
    SignIs(f, q, align);
    FitsMachO(f, l);
    BodyIs(f, l);
    AtLeastHeader(f, q, align);
    var h, signature := Head(f, l), SignatureOf(f, q, align);
    Join3(Body(f, l), signature, Zeros(l.alloc - |signature|), y);
    assert y[..|h|] == y[..l.limit][..|h|] == h;
  }

  lemma Join3(a: seq<byte>, b: seq<byte>, c: seq<byte>, s: seq<byte>)
    requires s == a + b + c
    ensures s[..|a|] == a && s[|a|..] == b + c
  {
  }

  lemma LayoutFacts(f: seq<byte>, q: Request, align: nat)
    requires CanSign(f, q, align)
    ensures var l := SignLayout(f, q, align);
      && l.limit == AlignUp(l.size, 0x10) && l.limit < 0x1_0000_0000 && Fits(f, l)
        && 28 <= |Head(f, l)| <= l.size <= l.limit
  {
    hide Head, Estimate, IsMachO, ImageEnd;
    HeadNotEmpty(f, SignLayout(f, q, align));
  }

  lemma SignIs(f: seq<byte>, q: Request, align: nat)
    requires CanSign(f, q, align)
    ensures var l, signature := SignLayout(f, q, align), SignatureOf(f, q, align);
      |signature| <= l.alloc && Sign(f, q, align) == Body(f, l) + signature + Zeros(l.alloc - |signature|)
  {
    hide Fits, IsMachO, Body, SignatureOf, SignLayout, Zeros, ValidRequest;
  }

  lemma AtLeastHeader(f: seq<byte>, q: Request, align: nat)
    requires CanSign(f, q, align)
    ensures |SignatureOf(f, q, align)| >= 12
  {
    hide AfterPasses, SliceOf, IsMachO, Fits;
  }

  lemma FitsMachO(f: seq<byte>, l: Layout)
    requires Fits(f, l)
    ensures IsMachO(f) && Expressible(l)
  {
  }

  /** A signed file can be signed again; its body stays. */
  lemma SecondSigning(f: seq<byte>, q: Request, align: nat)
    requires CanSign(f, q, align) && align > 0
    ensures var l, y := SignLayout(f, q, align), Sign(f, q, align);
      && CanSign(y, q, align)
      && SignLayout(y, q, align).limit == l.limit && SignLayout(y, q, align).alloc == l.alloc
      && Body(y, SignLayout(y, q, align)) == Body(f, l)
  {
    hide Body, Head, SignatureOf, Estimate, IsMachO, Sign, Fits, HasSymbols;
    SignedParts(f, q, align);
    var l, y := SignLayout(f, q, align), Sign(f, q, align);
    SecondLayout(f, q, align, y);
    SecondBody(f, l, y, SignLayout(y, q, align));
  }

  /** The last code slot: it was made from the source, and would now be made from what
      was emitted. */
  ghost predicate LastHashSettled(f: seq<byte>, q: Request, align: nat)
    requires CanSign(f, q, align)
  {
    LayoutFacts(f, q, align);
    var l := SignLayout(f, q, align);
    LastPageBelow(l);
    SameDigests(q, Read(f, LastPage(l), l.limit), Body(f, l)[LastPage(l)..])
  }

  predicate SameExtent(r: Range, r': Range)
  {
    r.left == r'.left && Low64(r.right - r.left) == Low64(r'.right - r'.left)
  }

  /** Rewriting __LINKEDIT does not move the end of the executable segments. */
  ghost predicate RangeSettled(f: seq<byte>, q: Request, align: nat)
    requires CanSign(f, q, align)
  {
    LayoutFacts(f, q, align);
    var l := SignLayout(f, q, align);
    KeptLookups(f, l);
    q.algorithms == [] || SameExtent(ExecRange(ParsedCommands(f)), ExecRange(Kept(f, l)))
  }

  /** The bytes of a section that starts as in f, and then as in y behind the body b,
      hash the same; only a section that reaches past the body is read from y. */
  ghost predicate SpanKept(f: seq<byte>, b: seq<byte>, y: seq<byte>, span: Option<Span>, q: Request)
  {
    span.None? ||
    (var at, end := span.value.offset, span.value.offset + span.value.size;
     SameDigests(q, Read(f, at, end), if end <= |b| then b[at..end] else Read(y, at, end)))
  }

  /** Where the Info.plist was hashed, what is emitted hashes the same. */
  ghost predicate InfoSettled(f: seq<byte>, q: Request, align: nat)
    requires CanSign(f, q, align)
  {
    LayoutFacts(f, q, align);
    SpanKept(f, Body(f, SignLayout(f, q, align)), Sign(f, q, align), InfoSpan(ParsedCommands(f)), q)
  }

  lemma LastSamePage(q: Request, f: seq<byte>, l: Layout, y: seq<byte>, l': Layout)
    requires Fits(f, l) && Fits(y, l') && l.limit == l'.limit > 0 && l.limit == AlignUp(l.size, 0x10)
    requires |y| >= l.limit && y[..l.limit] == Body(f, l)
    ensures ValidSlice(SliceOf(f, l)) && ValidSlice(SliceOf(y, l'))
      && SliceOf(f, l).limit == SliceOf(y, l').limit == l.limit
    ensures LastPage(l) <= l.limit && Pages(l.limit) > 0
    ensures SamePage(q, SliceOf(f, l), SliceOf(y, l'), Pages(l.limit) - 1) <==>
              SameDigests(q, Read(f, LastPage(l), l.limit), Body(f, l)[LastPage(l)..])
  {
    hide Fits, Head, SliceOf, PageBytes, Read, AlignUp, Digest, SameDigests, Body;
    SliceIs(f, l);
    SliceIs(y, l');
    LastPageRead(SliceOf(f, l));
    LastPageRead(SliceOf(y, l'));
    LastPageBelow(l);
    ReadPrefix(y, l.limit, LastPage(l), l.limit);
    assert y[..l.limit][LastPage(l)..l.limit] == Body(f, l)[LastPage(l)..];
  }

  /** What the second signing reads, compared with what the first read. */
  lemma PagesTwice(f: seq<byte>, q: Request, align: nat)
    requires CanSign(f, q, align) && align > 0
    ensures var l, y := SignLayout(f, q, align), Sign(f, q, align);
      && CanSign(y, q, align) && l.limit > 0
      && (var s, s' := SliceOf(f, l), SliceOf(y, SignLayout(y, q, align));
          && ValidSlice(s) && ValidSlice(s') && s.limit == s'.limit == l.limit && Pages(l.limit) > 0
          && (SamePage(q, s, s', Pages(l.limit) - 1) <==> LastHashSettled(f, q, align))
          && (SamePages(q, s, s') <==> LastHashSettled(f, q, align)))
  {
    hide Fits, Head, Body, Sign, SliceOf, Read, AlignUp, IsMachO, SamePages, SamePage, SameDigests, SignLayout;
    hide Pages, ValidRequest;
    SignedParts(f, q, align);
    SecondSigning(f, q, align);
    var l, y := SignLayout(f, q, align), Sign(f, q, align);
    var l' := SignLayout(y, q, align);
    SignedParts(y, q, align);
    LastSamePage(q, f, l, y, l');
    SamePagesTwice(q, f, l, y, l');
  }

  lemma Put64BigInjective(v: uint64, w: uint64)
    requires Put64Big(v) == Put64Big(w)
    ensures v == w
  {
    hide Put32Big, Get32Big;
    assert Put64Big(v)[..4] == Put32Big(v / 0x1_0000_0000) && Put64Big(v)[4..] == Put32Big(v % 0x1_0000_0000);
    assert Put64Big(w)[..4] == Put32Big(w / 0x1_0000_0000) && Put64Big(w)[4..] == Put32Big(w % 0x1_0000_0000);
    Put32BigInjective(v / 0x1_0000_0000, w / 0x1_0000_0000);
    Put32BigInjective(v % 0x1_0000_0000, w % 0x1_0000_0000);
  }

  lemma Put32BigInjective(v: uint32, w: uint32)
    requires Put32Big(v) == Put32Big(w)
    ensures v == w
  {
    hide Put32Big, Get32Big;
    GetPut32Big(Put32Big(v), 0, v);
    GetPut32Big(Put32Big(w), 0, w);
  }

  lemma ExecFieldsAre(s: Slice, s': Slice)
    requires s.filetype == s'.filetype
    ensures ExecFields(s) == ExecFields(s') <==>
      s.left == s'.left && Low64(s.right - s.left) == Low64(s'.right - s'.left)
  {
    hide Put64Big, Low64;
    var r, r' := ExecFields(s), ExecFields(s');
    assert r[8..16] == Put64Big(s.left) && r[16..24] == Put64Big(Low64(s.right - s.left));
    assert r'[8..16] == Put64Big(s'.left) && r'[16..24] == Put64Big(Low64(s'.right - s'.left));
    if r == r' {
      Put64BigInjective(s.left, s'.left);
      Put64BigInjective(Low64(s.right - s.left), Low64(s'.right - s'.left));
    }
  }

  /** The executable range that a rewritten file has. */
  lemma RangeOfOutput(f: seq<byte>, l: Layout, y: seq<byte>, l': Layout)
    requires Fits(f, l) && Starts(y, f, l) && |y| >= 32 && Fits(y, l')
    ensures AllWellFormed(Kept(f, l))
    ensures ExecFields(SliceOf(f, l)) == ExecFields(SliceOf(y, l'))
       <==> SameExtent(ExecRange(ParsedCommands(f)), ExecRange(Kept(f, l)))
  {
    hide Head, SliceOf, IsMachO, ExecRange, FileType, Kept, ExecFields, Fits, ParsedCommands, Starts, AllWellFormed;
    FitsMachO(f, l);
    KeptWellFormed(f, l);
    OutputCommands(f, l, y);
    SliceFields(f, l);
    SliceFields(y, l');
    ExecFieldsAre(SliceOf(f, l), SliceOf(y, l'));
  }

  lemma RangeTwice(f: seq<byte>, q: Request, align: nat)
    requires CanSign(f, q, align) && align > 0
    ensures var l, y := SignLayout(f, q, align), Sign(f, q, align);
      && CanSign(y, q, align)
      && (q.algorithms == [] || ExecFields(SliceOf(f, l)) == ExecFields(SliceOf(y, SignLayout(y, q, align)))
          <==> RangeSettled(f, q, align))
  {
    hide Fits, Head, Body, Sign, SliceOf, AlignUp, IsMachO, ExecRange, Kept, SignLayout, Pages, ValidRequest;
    hide ExecFields, SameExtent;
    SignedParts(f, q, align);
    SecondSigning(f, q, align);
    var l, y := SignLayout(f, q, align), Sign(f, q, align);
    FitsMachO(f, l);
    RangeOfOutput(f, l, y, SignLayout(y, q, align));
  }

  /** Where a rewritten file has its Info.plist. */
  lemma InfoOfOutput(f: seq<byte>, l: Layout, y: seq<byte>)
    requires Fits(f, l) && Starts(y, f, l) && |y| >= 32
    ensures IsMachO(y) && InfoSpan(ParsedCommands(y)) == InfoSpan(ParsedCommands(f))
  {
    hide Head, IsMachO, Kept, WellFormed, InfoSpan, Fits;
    FitsMachO(f, l);
    OutputCommands(f, l, y);
    KeptLookups(f, l);
  }

  function SpanBytes(f: seq<byte>, span: Option<Span>): (r: Option<seq<byte>>)
  {
    if span.None? then None else Some(Read(f, span.value.offset, span.value.offset + span.value.size))
  }

  lemma InfoPlistIs(f: seq<byte>)
    requires IsMachO(f)
    ensures InfoPlist(f) == SpanBytes(f, InfoSpan(ParsedCommands(f)))
  {
    hide IsMachO, InfoSpan, WellFormed, Read;
  }

  lemma SpanHashes(f: seq<byte>, b: seq<byte>, y: seq<byte>, span: Option<Span>, q: Request)
    requires |b| <= |y| && y[..|b|] == b
    ensures SameHashes(q, SpanBytes(f, span), SpanBytes(y, span)) <==> SpanKept(f, b, y, span, q)
  {
    hide Read, SameDigests;
    if span.Some? && span.value.offset + span.value.size <= |b| {
      ReadPrefix(y, |b|, span.value.offset, span.value.offset + span.value.size);
    }
  }

  lemma InfoTwice(f: seq<byte>, q: Request, align: nat)
    requires CanSign(f, q, align) && align > 0
    ensures CanSign(Sign(f, q, align), q, align)
    ensures InfoPlist(Sign(f, q, align)).Some? == InfoPlist(f).Some?
    ensures SameHashes(q, InfoPlist(f), InfoPlist(Sign(f, q, align))) <==> InfoSettled(f, q, align)
  {
    hide Fits, Head, Body, Sign, AlignUp, IsMachO, SignLayout, ValidRequest, InfoSpan, InfoPlist, SameHashes;
    hide SpanKept, ParsedCommands;
    SignedParts(f, q, align);
    SecondSigning(f, q, align);
    var l, y := SignLayout(f, q, align), Sign(f, q, align);
    InfoOfOutput(f, l, y);
    InfoPlistIs(f);
    InfoPlistIs(y);
    SpanHashes(f, Body(f, l), y, InfoSpan(ParsedCommands(f)), q);
  }

  lemma SignatureIs(f: seq<byte>, q: Request, align: nat)
    requires CanSign(f, q, align) && ValidSlice(SliceOf(f, SignLayout(f, q, align)))
    ensures SignatureOf(f, q, align) == Signature(q, InfoPlist(f), SliceOf(f, SignLayout(f, q, align)))
  {
    hide Fits, Signature, IsMachO, SliceOf, SignLayout;
  }

  /** Everything that the second signature can differ in. */
  ghost predicate Settled(f: seq<byte>, q: Request, align: nat)
    requires CanSign(f, q, align)
  {
    LastHashSettled(f, q, align) && RangeSettled(f, q, align) && InfoSettled(f, q, align)
  }

  lemma SignatureTwice(f: seq<byte>, q: Request, align: nat)
    requires CanSign(f, q, align) && align > 0
    ensures CanSign(Sign(f, q, align), q, align)
    ensures SignatureOf(Sign(f, q, align), q, align) == SignatureOf(f, q, align) <==> Settled(f, q, align)
    ensures |SignatureOf(Sign(f, q, align), q, align)| == |SignatureOf(f, q, align)|
  {
    hide Fits, Sign, SliceOf, IsMachO, Signature, SignatureOf, InfoPlist, SamePages, SamePage, SameHashes;
    hide LastHashSettled, RangeSettled, InfoSettled, ValidSlice, SignLayout, Pages, ExecFields, ValidRequest;
    PagesTwice(f, q, align);
    RangeTwice(f, q, align);
    InfoTwice(f, q, align);
    var l, y := SignLayout(f, q, align), Sign(f, q, align);
    var s, s' := SliceOf(f, l), SliceOf(y, SignLayout(y, q, align));
    var info, info' := InfoPlist(f), InfoPlist(y);
    SignatureIs(f, q, align);
    SignatureIs(y, q, align);
    SignatureLength(q, info, info', s, s');
    if Settled(f, q, align) {
      SameSignature(q, info, info', s, s');
    }
    if SignatureOf(y, q, align) == SignatureOf(f, q, align) {
      EqualSignatures(q, info, info', s, s', Pages(l.limit) - 1);
    }
  }

  lemma SignatureLength(q: Request, info: Option<seq<byte>>, info': Option<seq<byte>>, s: Slice, s': Slice)
    requires ValidRequest(q) && ValidSlice(s) && ValidSlice(s') && s.limit == s'.limit && info.Some? == info'.Some?
    ensures |Signature(q, info, s)| == |Signature(q, info', s')|
  {
    hide AfterPasses, SameShape;
    PassesSameShape(q, info, info', s, s', |q.algorithms|);
    SameShapeSize(AfterPasses(q, info, s, |q.algorithms|), AfterPasses(q, info', s', |q.algorithms|));
  }

  lemma {:induction false} SameShapeSize(t: Blobs, t': Blobs)
    requires SameShape(t, t')
    ensures Size(t) == Size(t')
  {
    if t != [] {
      SameShapeSize(t[1..], t'[1..]);
    }
  }

  lemma SameSignature(q: Request, info: Option<seq<byte>>, info': Option<seq<byte>>, s: Slice, s': Slice)
    requires ValidRequest(q) && SameSlice(q, s, s') && SameHashes(q, info, info')
    ensures ValidSlice(s) && ValidSlice(s') && Signature(q, info, s) == Signature(q, info', s')
  {
    hide AfterPasses, SamePages, SameHashes;
    SameSliceValid(q, s, s');
    SamePasses(q, info, info', s, s', |q.algorithms|);
  }

  lemma SameFront(y: seq<byte>, z: seq<byte>, limit: nat, a: seq<byte>, a': seq<byte>, n: nat)
    requires |a| == |a'| <= n && limit <= |y| && limit <= |z| && y[..limit] == z[..limit]
    requires y[limit..] == a + Zeros(n - |a|) && z[limit..] == a' + Zeros(n - |a'|)
    ensures z == y <==> a' == a
  {
    assert y == y[..limit] + y[limit..] && z == z[..limit] + z[limit..];
    assert y[limit..][..|a|] == a && z[limit..][..|a|] == a';
  }

  /** Signing a signed file again reproduces it byte for byte, exactly when what the first
      signing read from the source hashes as what it emitted there: the last page, the
      embedded Info.plist, and the range of the executable segments. */
  lemma SigningTwice(f: seq<byte>, q: Request, align: nat)
    requires CanSign(f, q, align) && align > 0
    ensures CanSign(Sign(f, q, align), q, align)
    ensures Sign(Sign(f, q, align), q, align) == Sign(f, q, align) <==>
        LastHashSettled(f, q, align) && RangeSettled(f, q, align) && InfoSettled(f, q, align)
  {
    hide CanSign, Fits, Head, Body, Sign, SignLayout, SignatureOf, LastHashSettled, RangeSettled, InfoSettled, Zeros;
    assert IsMachO(f) && ImageEnd(f).Some? by { CanSignMachO(f, q, align); }
    SignedParts(f, q, align);
    SecondSigning(f, q, align);
    SignatureTwice(f, q, align);
    var y := Sign(f, q, align);
    assert IsMachO(y) && ImageEnd(y).Some? by { CanSignMachO(y, q, align); }
    SignedParts(y, q, align);
    var l := SignLayout(f, q, align);
    SameFront(y, Sign(y, q, align), l.limit, SignatureOf(f, q, align), SignatureOf(y, q, align), l.alloc);
  }

  /** The Info.plist's section ends inside the image that is written before the signature. */
  ghost predicate InfoWithin(f: seq<byte>, q: Request, align: nat)
    requires CanSign(f, q, align)
  {
    var span := InfoSpan(ParsedCommands(f));
    span.None? || span.value.offset + span.value.size <= SignLayout(f, q, align).limit
  }

  /** Its bytes in the source hash as those that are written in their place. */
  ghost predicate InfoSettledWithin(f: seq<byte>, q: Request, align: nat)
    requires CanSign(f, q, align) && InfoWithin(f, q, align)
  {
    LayoutFacts(f, q, align);
    var span := InfoSpan(ParsedCommands(f));
    span.None? ||
    (var at, end := span.value.offset, span.value.offset + span.value.size;
     SameDigests(q, Read(f, at, end), Body(f, SignLayout(f, q, align))[at..end]))
  }

  /** Then the whole condition reads the input alone. */
  lemma SigningTwiceFromInput(f: seq<byte>, q: Request, align: nat)
    requires CanSign(f, q, align) && align > 0 && InfoWithin(f, q, align)
    ensures CanSign(Sign(f, q, align), q, align)
    ensures Sign(Sign(f, q, align), q, align) == Sign(f, q, align) <==>
        LastHashSettled(f, q, align) && RangeSettled(f, q, align) && InfoSettledWithin(f, q, align)
  {
    hide CanSign, Sign, LastHashSettled, RangeSettled, SameDigests, Read, Body, SignLayout, InfoSpan, ParsedCommands;
    SigningTwice(f, q, align);
    LayoutFacts(f, q, align);
  }

  lemma CanSignMachO(f: seq<byte>, q: Request, align: nat)
    requires CanSign(f, q, align)
    ensures IsMachO(f) && ImageEnd(f).Some?
  {
  }

  lemma LastPageSettled(f: seq<byte>, l: Layout)
    requires Fits(f, l) && l.limit == AlignUp(l.size, 0x10) && 0 < l.limit && SourceAgrees(f, l)
    ensures LastPage(l) <= l.limit && Read(f, LastPage(l), l.limit) == Body(f, l)[LastPage(l)..]
  {
    hide Fits, Head, Body, SliceOf, Read, PageBytes, Pages, SourceAgrees, AlignUp;
    SliceIs(f, l);
    LastPageRead(SliceOf(f, l));
    LastPageIsOutput(f, l);
  }

  /** Inside the copied part the Info.plist stays, and so does the range when __LINKEDIT
      is not executable. */
  lemma StableIsSettled(f: seq<byte>, q: Request, align: nat)
    requires CanSign(f, q, align) && align > 0 && StableInputs(f, q, align)
    ensures RangeSettled(f, q, align) && InfoSettled(f, q, align)
  {
    hide Head, Body, Stretch, IsMachO, InfoSpan, Kept, WellFormed, SignLayout, ExecRange, LinkeditNotExecutable;
    hide ValidRequest, SameDigests, Sign;
    LayoutFacts(f, q, align);
    var l := SignLayout(f, q, align);
    KeptLookups(f, l);
    var h, span := Head(f, l), InfoSpan(ParsedCommands(f));
    BodyIs(f, l);
    StretchIs(f, h, l.size, l.limit);
    if span.Some? {
      var at, end := span.value.offset, span.value.offset + span.value.size;
      assert Read(f, at, end) == Body(f, l)[at..end];
      SameDigestsReflexive(q, Read(f, at, end));
    }
  }

  /** With headers that end before the last page and zeros between the end and the
      limit, signing is a fixpoint. */
  lemma SigningIsAFixpoint(f: seq<byte>, q: Request, align: nat)
    requires CanSign(f, q, align) && align > 0 && StableInputs(f, q, align)
    requires var l := SignLayout(f, q, align);
      && l.limit > 0 && |Head(f, l)| <= LastPage(l)
      && forall j {:trigger ByteAt(f, j)} :: l.size <= j < l.limit ==> ByteAt(f, j) == 0
    ensures CanSign(Sign(f, q, align), q, align)
    ensures Sign(Sign(f, q, align), q, align) == Sign(f, q, align)
  {
    hide Fits, Head, Body, Sign, Read, SignLayout, IsMachO, StableInputs, SameDigests, LastPage, ValidRequest;
    hide SourceAgrees, AlignUp;
    hide RangeSettled, InfoSettled;
    SigningTwice(f, q, align);
    SignedParts(f, q, align);
    var l := SignLayout(f, q, align);
    AgreesBeyondHead(f, l);
    LastPageSettled(f, l);
    SameDigestsReflexive(q, Read(f, LastPage(l), l.limit));
    StableIsSettled(f, q, align);
  }

  lemma SameDigestsReflexive(q: Request, p: seq<byte>)
    ensures SameDigests(q, p, p)
  {
  }

  lemma AgreesBeyondHead(f: seq<byte>, l: Layout)
    requires Fits(f, l) && l.limit > 0 && |Head(f, l)| <= LastPage(l)
    requires forall j {:trigger ByteAt(f, j)} :: l.size <= j < l.limit ==> ByteAt(f, j) == 0
    ensures SourceAgrees(f, l)
  {
    hide Head;
  }

  lemma ReadPrefix(y: seq<byte>, limit: nat, from: nat, to: nat)
    requires from <= to <= limit <= |y|
    ensures Read(y, from, to) == y[..limit][from..to]
  {
  }

  // ----- Thin files -----

  /** Signing keeps the processor type and subtype. */
  lemma SameProcessor(f: seq<byte>, q: Request, align: nat)
    requires CanSign(f, q, align)
    ensures |Sign(f, q, align)| >= 28 && |f| >= 28
    ensures CpuType(Sign(f, q, align)) == CpuType(f) && Get32(Sign(f, q, align), 8) == Get32(f, 8)
  {
    hide SignLayout, Fits, ValidRequest, Sign, Head, Get32, Body, IsMachO, SignatureOf;
    SignedParts(f, q, align);
    var l, y := SignLayout(f, q, align), Sign(f, q, align);
    FitsMachO(f, l);
    HeadOfMachO(f);
    OutputIsMachO(f, l, y);
    SameBytes32(y, f, 16, 4);
    SameBytes32(y, f, 16, 8);
  }

  /** A file that is not fat is aligned as its processor asks. */
  ghost predicate CanSignThin(f: seq<byte>, q: Request) { |f| >= 28 && CanSign(f, q, ThinAlign(CpuType(f))) }

  ghost function SignThin(f: seq<byte>, q: Request): (y: seq<byte>)
    requires CanSignThin(f, q)
  {
    Sign(f, q, ThinAlign(CpuType(f)))
  }

  /** The second signing finds the same processor, so the law is one of files alone. */
  lemma ThinSigningTwice(f: seq<byte>, q: Request)
    requires CanSignThin(f, q)
    ensures CanSignThin(SignThin(f, q), q)
    ensures SignThin(SignThin(f, q), q) == SignThin(f, q) <==> Settled(f, q, ThinAlign(CpuType(f)))
  {
    hide CanSign, Sign, LastHashSettled, RangeSettled, InfoSettled, ThinAlign, CpuType;
    var align := ThinAlign(CpuType(f));
    SameProcessor(f, q, align);
    SigningTwice(f, q, align);
  }

  // ----- Stripping undoes signing -----

  lemma HeadOfPadding(first: seq<byte>, flags: seq<byte>, wide: bool, cmds: seq<Command>, before: nat)
    ensures HeadOf(first, flags, wide, cmds, before)
         == HeadOf(first, flags, wide, cmds, Total(cmds))
           + Zeros(if before > Total(cmds) then before - Total(cmds) else 0)
  {
    hide Concat, Put32, Low32, Zeros;
    assert Zeros(0) == [];
  }

  /** Stripped image and stripped signed image, byte by byte. `pad` is how much longer
      the original commands were than the kept ones. */
  lemma StripBytes(f: seq<byte>, y: seq<byte>, c: seq<byte>, x: seq<byte>, pad: nat, size: nat, limit: nat)
    requires |x| == |c| + 16 && (pad == 0 || pad >= 16)
    requires |c| + pad <= size && |c| + 16 <= size <= |f| && size <= limit <= |y|
    requires y[..limit] == Stretch(f, x + Zeros(if pad > 16 then pad - 16 else 0), size, limit)
    ensures Stretch(y, c + Zeros(16), size, size) == Stretch(f, c + Zeros(pad), size, size) <==>
        pad >= 16 || f[|c|..|c| + 16] == Zeros(16)
  {
    hide Stretch, Zeros;
    var v, u := Stretch(y, c + Zeros(16), size, size), Stretch(f, c + Zeros(pad), size, size);
    forall j | 0 <= j < size
      ensures j < |c| || j >= |c| + 16 ==> v[j] == u[j]
      ensures |c| <= j < |c| + 16 ==> v[j] == 0 && u[j] == if pad == 0 then f[j] else 0
    {
      assert y[..limit][j] == y[j];
    }
    if pad == 0 {
      SixteenZeros(f, |c|);
      if v == u {
        assert forall j :: |c| <= j < |c| + 16 ==> f[j] == u[j] == v[j] == 0;
      }
    }
  }

  lemma SixteenZeros(f: seq<byte>, at: nat)
    requires at + 16 <= |f|
    ensures f[at..at + 16] == Zeros(16) <==> forall j :: at <= j < at + 16 ==> f[j] == 0
  {
    hide Zeros;
    if f[at..at + 16] == Zeros(16) {
      assert forall j :: at <= j < at + 16 ==> f[j] == f[at..at + 16][j - at];
    }
  }

  lemma {:induction false} RewrittenTotal(cmds: seq<Command>, total: nat, align: nat)
    requires AllWellFormed(cmds) && align > 0
    ensures Total(Rewritten(cmds, total, align)) <= Total(cmds)
    ensures LastOf(cmds, LC_CODE_SIGNATURE).None? ==> Total(Rewritten(cmds, total, align)) == Total(cmds)
    ensures LastOf(cmds, LC_CODE_SIGNATURE).Some? ==> Total(Rewritten(cmds, total, align)) + 16 <= Total(cmds)
  {
    hide Rewrite, Get32, NameIs;
    if cmds != [] {
      var front, last := cmds[..|cmds| - 1], cmds[|cmds| - 1];
      RewrittenTotal(front, total, align);
      assert cmds == front + [last];
      RewrittenSnoc(front, last, total, align);
      RewrittenWellFormed(front, total, align);
      TotalSnoc(front, last);
      TotalSnoc(Rewritten(front, total, align), Rewrite(last, total, align));
      assert Rewritten(front, total, align) + [] == Rewritten(front, total, align);
    }
  }

  lemma {:induction false} TotalSnoc(front: seq<Command>, c: Command)
    ensures Total(front + [c]) == Total(front) + |c|
  {
    ConcatSplit(front, [c]);
    assert [c][1..] == [];
    assert Concat([c]) == c + Concat([]);
  }

  lemma {:induction false} RewrittenSameTotal(cmds: seq<Command>, total: nat, align: nat, total': nat, align': nat)
    requires AllWellFormed(cmds) && align > 0 && align' > 0
    ensures Total(Rewritten(cmds, total, align)) == Total(Rewritten(cmds, total', align'))
  {
    hide Rewrite, Get32, NameIs;
    if cmds != [] {
      RewrittenSameTotal(cmds[1..], total, align, total', align');
      var r, r' := Rewritten(cmds, total, align), Rewritten(cmds, total', align');
      if !IsSignature(cmds[0]) {
        assert r[0] == Rewrite(cmds[0], total, align) && r[1..] == Rewritten(cmds[1..], total, align);
        assert r'[0] == Rewrite(cmds[0], total', align') && r'[1..] == Rewritten(cmds[1..], total', align');
      } else {
        assert r == Rewritten(cmds[1..], total, align) && r' == Rewritten(cmds[1..], total', align');
      }
    }
  }

  predicate IsSigned(f: seq<byte>)
    requires IsMachO(f)
  {
    SignatureOffset(ParsedCommands(f)).Some?
  }

  /** Sizes of the kept commands: signed, stripped, original. */
  lemma KeptTotals(f: seq<byte>, signed: Layout, stripped: Layout)
    requires IsMachO(f) && Expressible(signed) && Expressible(stripped) && signed.alloc > 0 && stripped.alloc == 0
    ensures Total(Kept(f, signed)) == Total(Kept(f, stripped)) + 16
    ensures SizeOfCmds(f) == if IsSigned(f) then SizeOfCmds(f) else Total(Kept(f, stripped))
    ensures IsSigned(f) ==> SizeOfCmds(f) >= Total(Kept(f, stripped)) + 16
  {
    hide Rewritten, LastOf, SignatureCommand, Get32;
    ParseShape(f, HeaderSize(f), NCmds(f));
    var cmds := Commands(f);
    RewrittenTotal(cmds, stripped.limit, stripped.align);
    RewrittenSameTotal(cmds, signed.limit + signed.alloc, signed.align, stripped.limit, stripped.align);
    TotalSnoc(Rewritten(cmds, signed.limit + signed.alloc, signed.align), SignatureCommand(signed.limit, signed.alloc));
    assert Kept(f, stripped) == Rewritten(cmds, stripped.limit, stripped.align);
  }

  lemma RoundedOrNot(size: nat)
    ensures AlignUp(size, 0x10) == size <==> size % 0x10 == 0
  {
  }

  /** The stripped head is a prefix of the signed head up to the kept commands. */
  lemma StrippedHeads(f: seq<byte>, signed: Layout, stripped: Layout)
    requires Fits(f, signed) && Expressible(stripped) && signed.alloc > 0 && stripped.alloc == 0
      && stripped.size == signed.size
    ensures |f| >= 32 && Fits(f, stripped)
    ensures var before, t := SizeOfCmds(f), Total(Kept(f, stripped));
      var pad := if before > t then before - t else 0;
      var c := HeadOf(f[..16], f[24..28], Wide(f), Kept(f, stripped), t);
      var x := HeadOf(f[..16], f[24..28], Wide(f), Kept(f, signed), t + 16);
      && Total(Kept(f, signed)) == t + 16
      && |c| == HeaderSize(f) + t && |x| == |c| + 16 && (pad == 0 || pad >= 16) && (pad >= 16 <==> IsSigned(f))
      && Head(f, stripped) == c + Zeros(pad)
      && Head(f, signed) == x + Zeros(if pad > 16 then pad - 16 else 0)
      && |c| + 16 <= signed.size && |c| + pad <= signed.size
  {
    hide Kept, HeadOf, IsSigned, IsMachO, Get32, Zeros;
    FitsMachO(f, signed);
    HeadIs(f, signed);
    HeadIs(f, stripped);
    KeptTotals(f, signed, stripped);
    var before, t := SizeOfCmds(f), Total(Kept(f, stripped));
    HeadOfPadding(f[..16], f[24..28], Wide(f), Kept(f, stripped), before);
    HeadOfPadding(f[..16], f[24..28], Wide(f), Kept(f, signed), before);
    HeadParts(f[..16], f[24..28], Wide(f), Kept(f, stripped), t);
    HeadParts(f[..16], f[24..28], Wide(f), Kept(f, signed), t + 16);
  }

  /** Stripping the signed file: same kept commands, and the room of the new signature
      command cleared. */
  lemma SecondStrip(f: seq<byte>, signed: Layout, y: seq<byte>, stripped: Layout)
    requires Fits(f, signed) && Starts(y, f, signed) && |y| >= signed.limit && |y| >= 32 && signed.alloc > 0
    requires Expressible(stripped) && stripped.alloc == 0 && signed.size <= stripped.size <= signed.limit
    requires stripped.limit == stripped.size
    ensures Fits(y, stripped) && |f| >= 32
    ensures Head(y, stripped)
         == HeadOf(f[..16], f[24..28], Wide(f), Kept(f, stripped), Total(Kept(f, stripped))) + Zeros(16)
  {
    hide Kept, HeadOf, IsMachO, Get32, Zeros;
    FitsMachO(f, signed);
    SecondHead(f, signed, y, stripped);
    KeptTotals(f, signed, stripped);
    StrippedHeads(f, signed, stripped.(size := signed.size, limit := signed.size));
    var t := Total(Kept(f, stripped));
    HeadOfPadding(f[..16], f[24..28], Wide(f), Kept(f, stripped), t + 16);
    HeadParts(f[..16], f[24..28], Wide(f), Kept(f, stripped), t);
    KeptTotals(f, signed, stripped.(size := signed.size, limit := signed.size));
  }

  lemma StripSame(f: seq<byte>, signed: Layout, y: seq<byte>, stripped: Layout)
    requires Fits(f, signed) && |y| >= signed.limit && |y| >= 32 && y[..signed.limit] == Body(f, signed)
    requires signed.alloc > 0 && stripped == Layout(signed.size, signed.size, 0, signed.align)
    ensures |f| >= HeaderSize(f) + SizeOfCmds(f) + 16 || IsSigned(f)
    ensures Fits(f, stripped) && Fits(y, stripped)
    ensures Body(y, stripped) == Body(f, stripped) <==>
        IsSigned(f) || f[HeaderSize(f) + SizeOfCmds(f)..HeaderSize(f) + SizeOfCmds(f) + 16] == Zeros(16)
  {
    hide Kept, Head, HeadOf, Body, IsMachO, Get32, Zeros, Stretch, IsSigned;
    FitsMachO(f, signed);
    assert Expressible(stripped);
    BodyIs(f, signed);
    assert Starts(y, f, signed) by { assert y[..|Head(f, signed)|] == y[..signed.limit][..|Head(f, signed)|]; }
    StrippedHeads(f, signed, stripped);
    SecondStrip(f, signed, y, stripped);
    KeptTotals(f, signed, stripped);
    var before, t := SizeOfCmds(f), Total(Kept(f, stripped));
    var pad := if before > t then before - t else 0;
    var c := HeadOf(f[..16], f[24..28], Wide(f), Kept(f, stripped), t);
    var x := HeadOf(f[..16], f[24..28], Wide(f), Kept(f, signed), t + 16);
    StretchIs(f, Head(f, signed), signed.size, signed.limit);
    StripBytes(f, y, c, x, pad, signed.size, signed.limit);
    BodyIs(f, stripped);
    BodyIs(y, stripped);
    StretchIs(f, Head(f, stripped), signed.size, signed.size);
    StretchIs(y, Head(y, stripped), signed.size, signed.size);
  }

  /** Stripping a signed thin file gives what stripping the original gives, exactly when
      the end of the image is found again and the 16 bytes that the new command took
      were not in use. */
  lemma StrippingUndoesSigning(f: seq<byte>, q: Request, align: nat)
    requires CanSign(f, q, align) && align > 0
    ensures CanUnsign(f, align) && CanUnsign(Sign(f, q, align), align)
    ensures |f| >= HeaderSize(f) + SizeOfCmds(f) + 16 || IsSigned(f)
    ensures Unsign(Sign(f, q, align), align) == Unsign(f, align) <==>
        && (HasSymbols(ParsedCommands(f)) || ImageEnd(f).value % 0x10 == 0)
        && (IsSigned(f) || f[HeaderSize(f) + SizeOfCmds(f)..HeaderSize(f) + SizeOfCmds(f) + 16] == Zeros(16))
  {
    hide Kept, Head, HeadOf, Body, IsMachO, Get32, Zeros, Sign, Estimate, HasSymbols, IsSigned, AlignUp;
    SignedParts(f, q, align);
    var signed, y := SignLayout(f, q, align), Sign(f, q, align);
    SecondLayout(f, q, align, y);
    RoundedOrNot(signed.size);
    RoundedUp(signed.size);
    SecondStrip(f, signed, y, UnsignLayout(y, align));
    StripSame(f, signed, y, UnsignLayout(f, align));
    assert UnsignLayout(y, align).size == signed.size ==> UnsignLayout(y, align) == UnsignLayout(f, align);
    assert |Unsign(y, align)| == UnsignLayout(y, align).size && |Unsign(f, align)| == signed.size;
  }

  lemma RoundedUp(size: nat)
    ensures size <= AlignUp(size, 0x10) < size + 0x10
  {
  }

  // ----- What a reader of the signature finds -----

  /** The finished table, serialised, is what follows the body. */
  lemma TableWritten(f: seq<byte>, q: Request, align: nat)
    requires CanSign(f, q, align)
    ensures var l, info := SignLayout(f, q, align), InfoPlist(f);
      ValidSlice(SliceOf(f, l))
      && (var s := Serialize(CSMAGIC_EMBEDDED_SIGNATURE, AfterPasses(q, info, SliceOf(f, l), |q.algorithms|));
          |s| <= l.alloc && Sign(f, q, align)[l.limit..] == s + Zeros(l.alloc - |s|))
  {
    hide Fits, SliceOf, Sign, SignLayout, InfoPlist, AfterPasses, Serialize, IsMachO, Zeros, ValidRequest, Body;
    hide SignatureOf;
    SignedParts(f, q, align);
    assert ValidSlice(SliceOf(f, SignLayout(f, q, align))) by { SliceIs(f, SignLayout(f, q, align)); }
    SignatureIs(f, q, align);
  }

  lemma EmittedPage(f: seq<byte>, l: Layout, y: seq<byte>, i: nat)
    requires Fits(f, l) && l.limit == AlignUp(l.size, 0x10) && 0 < l.limit <= |y| && y[..l.limit] == Body(f, l)
    requires i < Pages(l.limit)
    ensures PAGE * i <= l.limit && ValidSlice(SliceOf(f, l)) && SliceOf(f, l).limit == l.limit
    ensures i + 1 < Pages(l.limit) ==>
      PAGE * i + PAGE <= l.limit && PageBytes(SliceOf(f, l), i) == y[PAGE * i..PAGE * i + PAGE]
    ensures i + 1 == Pages(l.limit) ==> PageBytes(SliceOf(f, l), i) == Read(f, PAGE * i, l.limit)
  {
    hide Fits, SliceOf, Body, Head, Pages, PageBytes, AlignUp, Read;
    SliceIs(f, l);
    LastPageRead(SliceOf(f, l));
    if i + 1 < Pages(l.limit) {
      PageIsOutput(f, l, i);
      SubSlice(y, 0, l.limit, PAGE * i, PAGE * i + PAGE);
      FitsMachO(f, l);
    }
  }

  lemma EstimateCovers(q: Request, info: bool)
    ensures EstimateSpecial(q, info) >= CSSLOT_REQUIREMENTS
    ensures q.entitlements != [] ==> EstimateSpecial(q, info) >= CSSLOT_ENTITLEMENTS
    ensures forall i :: 0 <= i < |q.slots| ==> q.slots[i].slot <= EstimateSpecial(q, info)
  {
  }

  lemma PostsFind(q: Request, info: Option<seq<byte>>, a: Algorithm)
    requires Sorted(q.slots) && a in q.algorithms
    ensures info.Some? ==>
      Find(Posts(q, info), CSSLOT_INFOSLOT).Some?
        && Of(Find(Posts(q, info), CSSLOT_INFOSLOT).value, a) == Digest(q.digests, a, info.value)
    ensures forall k: uint32 :: k != CSSLOT_INFOSLOT ==> Find(Posts(q, info), k) == Find(q.slots, k)
  {
    hide Insert, Find;
    if info.Some? {
      forall k: uint32 ensures Find(Posts(q, info), k) ==
        if k == CSSLOT_INFOSLOT then Some(InfoHash(q, info.value)) else Find(q.slots, k)
      {
        FindInsert(q.slots, CSSLOT_INFOSLOT, InfoHash(q, info.value), k);
      }
    }
  }

  lemma {:induction false} BlobsFound(q: Request, info: Option<seq<byte>>, s: Slice, k: nat)
    requires ValidRequest(q) && ValidSlice(s) && k <= |q.algorithms|
    ensures var t := AfterPasses(q, info, s, k);
      && Find(t, CSSLOT_REQUIREMENTS) == Some(q.requirements)
      && Find(t, CSSLOT_ENTITLEMENTS) == (if q.entitlements == [] then None
                                          else Some(Wrap(CSMAGIC_EMBEDDED_ENTITLEMENTS, q.entitlements)))
  {
    hide Insert, Wrap, Directory, Hashable, Find;
    if k == 0 {
      FirstBlobsFound(q);
    } else {
      BlobsFound(q, info, s, k - 1);
      var before := AfterPasses(q, info, s, k - 1);
      var blob := Wrap(CSMAGIC_CODEDIRECTORY, Directory(q, q.algorithms[k - 1], before, Posts(q, info), s));
      FindInsert(before, DirectorySlot(k - 1), blob, CSSLOT_REQUIREMENTS);
      FindInsert(before, DirectorySlot(k - 1), blob, CSSLOT_ENTITLEMENTS);
    }
  }

  lemma FirstBlobsFound(q: Request)
    ensures Find(FirstBlobs(q), CSSLOT_REQUIREMENTS) == Some(q.requirements)
    ensures Find(FirstBlobs(q), CSSLOT_ENTITLEMENTS) == if q.entitlements == [] then None
                                                        else Some(Wrap(CSMAGIC_EMBEDDED_ENTITLEMENTS, q.entitlements))
  {
    hide Wrap;
    var first := Insert([], CSSLOT_REQUIREMENTS, q.requirements);
    assert first == [Entry(CSSLOT_REQUIREMENTS, q.requirements)];
    FindInsert(first, CSSLOT_ENTITLEMENTS, Wrap(CSMAGIC_EMBEDDED_ENTITLEMENTS, q.entitlements), CSSLOT_REQUIREMENTS);
    FindInsert(first, CSSLOT_ENTITLEMENTS, Wrap(CSMAGIC_EMBEDDED_ENTITLEMENTS, q.entitlements), CSSLOT_ENTITLEMENTS);
  }

  // ----- There are such files -----

  /** A 32-bit header without commands, and n zero bytes. */
  function PlainImage(n: nat): (f: seq<byte>)
  {
    Put32(MH_MAGIC) + Zeros(8) + Put32(MH_EXECUTE) + Zeros(12) + Zeros(n)
  }

  function PlainRequest(d: Digests): (q: Request)
  {
    Request([], [], [0, 0, 0, 0, 0, 0, 0, 8], [], 0, false, [Sha1, Sha256], d)
  }

  lemma ZeroField(f: seq<byte>, at: nat)
    requires at + 4 <= |f| && f[at] == 0 && f[at + 1] == 0 && f[at + 2] == 0 && f[at + 3] == 0
    ensures Get32(f, at) == 0
  {
  }

  lemma PlainBytes(n: nat)
    ensures var f := PlainImage(n);
      && |f| == 28 + n && f[0..4] == Put32(MH_MAGIC) && f[12..16] == Put32(MH_EXECUTE)
      && (forall i :: 4 <= i < 12 || 16 <= i < 28 ==> f[i] == 0)
  {
    hide Put32;
  }

  lemma PlainFields(n: nat)
    ensures var f := PlainImage(n);
      && |f| == 28 + n && Get32(f, 0) == MH_MAGIC && CpuType(f) == 0 && FileType(f) == MH_EXECUTE
      && NCmds(f) == 0 && SizeOfCmds(f) == 0
  {
    hide Put32, PlainImage, Get32;
    var f := PlainImage(n);
    PlainBytes(n);
    GetPut32(f, 0, MH_MAGIC);
    GetPut32(f, 12, MH_EXECUTE);
    ZeroField(f, 4);
    ZeroField(f, 16);
    ZeroField(f, 20);
  }

  lemma PlainParses(n: nat)
    requires 100 <= n < 0x1_0000
    ensures var f := PlainImage(n);
      IsMachO(f) && ParsedCommands(f) == [] && ImageEnd(f) == Some(28 + n) && !Wide(f)
  {
    hide PlainImage, Get32;
    PlainFields(n);
  }

  lemma PlainEstimate(d: Digests, size: nat)
    requires size < 0x2_0000
    ensures 12 <= Estimate(PlainRequest(d), false, size) < 0x1_0000
  {
    var q := PlainRequest(d);
    assert EstimateSpecial(q, false) == 2;
    assert Pages(size) <= 33;
    assert EstimateAfter(q, false, Pages(size), 0) == 28;
    assert EstimateAfter(q, false, Pages(size), 1) == AlignUp(28 + 97 + (2 + Pages(size)) * 20, 16);
    assert EstimateAfter(q, false, Pages(size), 2)
        == AlignUp(EstimateAfter(q, false, Pages(size), 1) + 97 + (2 + Pages(size)) * 32, 16);
  }

  /** Signing, and the fixpoint, apply: such an image of two pages can be signed, and
      signing it again changes nothing. */
  lemma PlainImageSigns(d: Digests, n: nat)
    requires 0x1000 <= n < 0x1_0000
    ensures CanSign(PlainImage(n), PlainRequest(d), 1)
    ensures CanSign(Sign(PlainImage(n), PlainRequest(d), 1), PlainRequest(d), 1)
    ensures Sign(Sign(PlainImage(n), PlainRequest(d), 1), PlainRequest(d), 1) == Sign(PlainImage(n), PlainRequest(d), 1)
  {
    hide PlainImage, Get32, IsMachO, Fits, Head, Estimate, AfterPasses, Stretch, Sign;
    var f, q := PlainImage(n), PlainRequest(d);
    PlainFields(n);
    PlainParses(n);
    PlainFits(d, n);
    SigningIsAFixpoint(f, q, 1);
  }

  /** Its only command is the signature's. */
  lemma PlainHead(f: seq<byte>, l: Layout)
    requires IsMachO(f) && ParsedCommands(f) == [] && !Wide(f) && SizeOfCmds(f) == 0 && Expressible(l) && l.alloc > 0
    ensures |Head(f, l)| == 44
  {
    hide IsMachO, Get32, SignatureCommand, HeadOf;
    HeadIs(f, l);
    var sig := SignatureCommand(l.limit, l.alloc);
    assert Kept(f, l) == [sig];
    TotalSnoc([], sig);
    assert [] + [sig] == [sig] && Total([]) == 0;
    HeadParts(f[..16], f[24..28], false, [sig], 0);
  }

  lemma PlainStable(f: seq<byte>, q: Request, align: nat)
    requires CanSign(f, q, align) && ParsedCommands(f) == []
    ensures StableInputs(f, q, align)
  {
    hide IsMachO, Head, Estimate, ImageEnd;
  }

  lemma PlainLayout(d: Digests, n: nat)
    requires 100 <= n < 0x1_0000
    ensures var f, q := PlainImage(n), PlainRequest(d);
      && IsMachO(f) && ImageEnd(f) == Some(28 + n)
      && (var l := SignLayout(f, q, 1);
          && l.size == 28 + n && l.limit == AlignUp(28 + n, 0x10) && 12 <= l.alloc < 0x1_0000 && l.align == 1)
  {
    hide PlainImage, Get32, Estimate, IsMachO, PlainRequest;
    PlainFields(n);
    PlainParses(n);
    PlainEstimate(d, 28 + n);
  }

  lemma PlainCanSign(d: Digests, n: nat)
    requires 100 <= n < 0x1_0000
    ensures var f, q := PlainImage(n), PlainRequest(d);
      CanSign(f, q, 1) && StableInputs(f, q, 1) && |Head(f, SignLayout(f, q, 1))| == 44
  {
    hide PlainImage, Get32, Estimate, IsMachO, Head, SignLayout, ImageEnd, StableInputs, ParsedCommands;
    hide AlignUp, FileType, CpuType, Wide;
    var f, q := PlainImage(n), PlainRequest(d);
    PlainFields(n);
    PlainParses(n);
    PlainLayout(d, n);
    RoundedUp(28 + n);
    PlainHead(f, SignLayout(f, q, 1));
    assert ValidRequest(q) by { PlainValid(d); }
    PlainStable(f, q, 1);
  }

  lemma PlainFits(d: Digests, n: nat)
    requires 0x1000 <= n < 0x1_0000
    ensures var f, q := PlainImage(n), PlainRequest(d);
      && CanSign(f, q, 1) && StableInputs(f, q, 1)
      && (var l := SignLayout(f, q, 1);
          && l.limit > 0 && |Head(f, l)| <= LastPage(l)
          && forall j {:trigger ByteAt(f, j)} :: l.size <= j < l.limit ==> ByteAt(f, j) == 0)
  {
    hide PlainImage, Get32, Estimate, IsMachO, Head, SignLayout, ImageEnd, StableInputs, AlignUp, Fits, ValidRequest;
    PlainFields(n);
    PlainCanSign(d, n);
    PlainLayout(d, n);
    RoundedUp(28 + n);
    SecondPage(SignLayout(PlainImage(n), PlainRequest(d), 1));
  }

  lemma PlainValid(d: Digests)
    ensures ValidRequest(PlainRequest(d))
  {
  }

  lemma SecondPage(l: Layout)
    requires l.limit > PAGE
    ensures LastPage(l) >= PAGE
  {
  }

  // ----- And files for which the two laws fail -----

  /** A hash that keeps what it is given: what is cut to twenty bytes are the first twenty. */
  function Prefixes(): (d: Digests) { Digests(s => s, s => s) }

  lemma PlainBody(d: Digests, n: nat)
    requires 100 <= n < 0x1_0000
    ensures var f, q := PlainImage(n), PlainRequest(d);
      CanSign(f, q, 1) && (LayoutFacts(f, q, 1); Body(f, SignLayout(f, q, 1))[16] == 1) && f[16] == 0
  {
    hide PlainImage, Get32, Estimate, IsMachO, SignLayout, ImageEnd, StableInputs, Fits, ValidRequest, HeadOf;
    hide Head, Kept, Body, NCmds;
    PlainFields(n);
    PlainParses(n);
    PlainCanSign(d, n);
    PlainBytes(n);
    var f, q := PlainImage(n), PlainRequest(d);
    LayoutFacts(f, q, 1);
    var l := SignLayout(f, q, 1);
    PlainLayout(d, n);
    assert |Kept(f, l)| == 1 by { OneKept(f, l); }
    HeadIs(f, l);
    BodyIs(f, l);
    HeadParts(f[..16], f[24..28], Wide(f), Kept(f, l), SizeOfCmds(f));
    assert Put32(Low32(1))[0] == 1;
    assert Body(f, l)[16] == Head(f, l)[16] == Head(f, l)[16..20][0];
  }

  lemma OneKept(f: seq<byte>, l: Layout)
    requires IsMachO(f) && ParsedCommands(f) == [] && Expressible(l) && l.alloc > 0
    ensures |Kept(f, l)| == 1
  {
    hide IsMachO, SignatureCommand;
  }

  /** An image of one page, hashed from the source with zero load commands and emitted with
      one: its second signature differs. */
  lemma OnePageNotAFixpoint(n: nat)
    requires 100 <= n <= PAGE - 28
    ensures var f, q := PlainImage(n), PlainRequest(Prefixes());
      CanSign(f, q, 1) && CanSign(Sign(f, q, 1), q, 1) && Sign(Sign(f, q, 1), q, 1) != Sign(f, q, 1)
  {
    hide PlainImage, IsMachO, Estimate, ImageEnd, Fits, Head, Body, Sign, AfterPasses, RangeSettled;
    hide InfoSettled, ValidRequest, SignLayout;
    var f, q := PlainImage(n), PlainRequest(Prefixes());
    PlainBody(Prefixes(), n);
    PlainLayout(Prefixes(), n);
    SigningTwice(f, q, 1);
    LayoutFacts(f, q, 1);
    var l := SignLayout(f, q, 1);
    OnlyPage(l);
    PlainBytes(n);
    FirstBytes(Read(f, 0, l.limit), Body(f, l)[0..], q);
    assert Body(f, l)[0..][16] == 1;
  }

  lemma OnlyPage(l: Layout)
    requires 0 < l.size <= PAGE && l.limit == AlignUp(l.size, 0x10)
    ensures LastPage(l) == 0 && l.limit > 0
  {
    SameBlockCount(l.size);
  }

  lemma FirstBytes(p: seq<byte>, p': seq<byte>, q: Request)
    requires q == PlainRequest(Prefixes()) && |p| >= 20 && |p'| >= 20 && p[16] != p'[16]
    ensures !SameDigests(q, p, p')
  {
    assert Digest(q.digests, Sha1, p) == p[..20] && Digest(q.digests, Sha1, p') == p'[..20];
    assert p[..20][16] != p'[..20][16];
    assert Sha1 in q.algorithms;
  }

  /** A plain image is had back by stripping exactly when its length is a multiple of 16;
      otherwise the signer's padding stays. */
  lemma PlainStripping(d: Digests, n: nat)
    requires 100 <= n < 0x1_0000
    ensures var f, q := PlainImage(n), PlainRequest(d);
      && CanSign(f, q, 1) && CanUnsign(f, 1) && CanUnsign(Sign(f, q, 1), 1)
      && (Unsign(Sign(f, q, 1), 1) == Unsign(f, 1) <==> (28 + n) % 0x10 == 0)
  {
    hide PlainImage, IsMachO, Estimate, ImageEnd, Fits, Sign, Unsign, SignLayout, ValidRequest, Get32;
    var f, q := PlainImage(n), PlainRequest(d);
    PlainCanSign(d, n);
    PlainParses(n);
    PlainFields(n);
    PlainBytes(n);
    StrippingUndoesSigning(f, q, 1);
    assert f[28..44] == Zeros(16) by { PlainZeros(n); }
    assert !HasSymbols([]) && !IsSigned(f);
  }

  lemma PlainZeros(n: nat)
    requires n >= 16
    ensures |PlainImage(n)| == 28 + n && PlainImage(n)[28..44] == Zeros(16)
  {
    hide Put32;
  }

  /** Such as this one. */
  lemma StrippingKeepsPadding(d: Digests)
    ensures var f, q := PlainImage(0x1001), PlainRequest(d);
      && CanSign(f, q, 1) && CanUnsign(f, 1) && CanUnsign(Sign(f, q, 1), 1)
      && Unsign(Sign(f, q, 1), 1) != Unsign(f, 1)
  {
    hide PlainImage, CanSign, CanUnsign, Sign, Unsign;
    PlainStripping(d, 0x1001);
  }
}

/** Code directories: the page and slot hashes that a signature is made of. */
module CodeDirectory {
  import opened Arithmetic
  import opened Bytes
  import opened MachO
  import opened Options
  import opened SuperBlob
  import opened Tables

  const PAGE: nat := 0x1000

  datatype Algorithm = Sha1 | Sha256

  function HashSize(a: Algorithm): (n: nat)
    ensures 0 < n < 0x100
  {
    match a case Sha1 => 20 case Sha256 => 32
  }

  function HashType(a: Algorithm): (n: byte) { match a case Sha1 => 1 case Sha256 => 2 }

  /** Any function from strings to strings, cut or padded to the digest length, may
      stand for the hash. */
  datatype Digests = Digests(sha1: seq<byte> -> seq<byte>, sha256: seq<byte> -> seq<byte>)

  function Fit(s: seq<byte>, n: nat): (r: seq<byte>)
    ensures |r| == n
  {
    if |s| >= n then s[..n] else s + Zeros(n - |s|)
  }

  function Digest(d: Digests, a: Algorithm, s: seq<byte>): (r: seq<byte>)
    ensures |r| == HashSize(a)
  {
    Fit(match a case Sha1 => d.sha1(s) case Sha256 => d.sha256(s), HashSize(a))
  }

  /** ldid::Hash. */
  datatype Hash = Hash(sha1: seq<byte>, sha256: seq<byte>)

  function Of(h: Hash, a: Algorithm): (r: seq<byte>)
    ensures |r| == HashSize(a)
  {
    Fit(match a case Sha1 => h.sha1 case Sha256 => h.sha256, HashSize(a))
  }

  /** What the caller of Sign asks for; `requirements` is the requirements blob. */
  datatype Request = Request(
    identifier: seq<byte>, entitlements: seq<byte>, requirements: seq<byte>, slots: Table<Hash>,
    flags: uint32, platform: bool, algorithms: seq<Algorithm>, digests: Digests)

  /** At most SHA-1 and SHA-256, and a requirements blob that is not shorter than its
      length field says. */
  ghost predicate ValidRequest(q: Request)
  {
    && |q.algorithms| <= 2
    && Sorted(q.slots)
    && |q.requirements| >= 8 && Get32Big(q.requirements, 4) <= |q.requirements|
  }

  /** What Allocate hands to the signing closure about one slice: `top` is the mapped
      source, `overlap` the rewritten headers filled up to a page boundary. */
  datatype Slice = Slice(limit: uint32, left: uint64, right: uint64, filetype: uint32, overlap: seq<byte>, top: seq<byte>)

  ghost predicate ValidSlice(s: Slice) { s.limit > 0 && |s.overlap| % PAGE == 0 }

  function Pages(limit: nat): (n: nat) { (limit + PAGE - 1) / PAGE }

  // ----- Slots -----

  /** Page i as the signer reads it: the last one always comes from the source. */
  function PageBytes(s: Slice, i: nat): (r: seq<byte>)
    requires ValidSlice(s) && i < Pages(s.limit)
  {
    if i == Pages(s.limit) - 1 then Read(s.top, PAGE * i, PAGE * i + (s.limit - 1) % PAGE + 1)
    else if PAGE * i < |s.overlap| then s.overlap[PAGE * i..PAGE * i + PAGE]
    else Read(s.top, PAGE * i, PAGE * i + PAGE)
  }

  /** A blob as far as its length field reaches. */
  function Hashed(b: seq<byte>): (r: seq<byte>)
    requires |b| >= 8 && Get32Big(b, 4) <= |b|
  {
    b[..Get32Big(b, 4)]
  }

  ghost predicate Hashable(blobs: Blobs)
  {
    forall i :: 0 <= i < |blobs| ==> |blobs[i].value| >= 8 && Get32Big(blobs[i].value, 4) <= |blobs[i].value|
  }

  /** The hash of special slot k: what the caller posted, else the blob's hash, else zeros. */
  ghost function SlotHash(q: Request, a: Algorithm, blobs: Blobs, posts: Table<Hash>, k: uint32): (h: seq<byte>)
    requires Hashable(blobs)
    ensures |h| == HashSize(a)
  {
    if Find(posts, k).Some? then Of(Find(posts, k).value, a)
    else if Find(blobs, k).Some? then FindHashable(blobs, k); Digest(q.digests, a, Hashed(Find(blobs, k).value))
    else Zeros(HashSize(a))
  }

  lemma {:induction false} FindHashable(blobs: Blobs, k: uint32)
    requires Hashable(blobs) && Find(blobs, k).Some?
    ensures |Find(blobs, k).value| >= 8 && Get32Big(Find(blobs, k).value, 4) <= |Find(blobs, k).value|
  {
    if blobs[0].slot != k {
      FindHashable(blobs[1..], k);
    }
  }

  function Special(blobs: Blobs, posts: Table<Hash>): (n: uint32)
  {
    if MaxSlot(blobs) > MaxSlot(posts) then MaxSlot(blobs) else MaxSlot(posts)
  }

  /** Cell j of the hash array: special slots in reverse, then the pages. */
  ghost function Cell(q: Request, a: Algorithm, blobs: Blobs, posts: Table<Hash>, s: Slice, j: nat): (h: seq<byte>)
    requires Hashable(blobs) && ValidSlice(s)
    requires j < Special(blobs, posts) + Pages(s.limit)
    ensures |h| == HashSize(a)
  {
    var special := Special(blobs, posts);
    if j < special then SlotHash(q, a, blobs, posts, special - j)
    else Digest(q.digests, a, PageBytes(s, j - special))
  }

  ghost function Cells(q: Request, a: Algorithm, blobs: Blobs, posts: Table<Hash>, s: Slice, n: nat): (r: seq<byte>)
    requires Hashable(blobs) && ValidSlice(s)
    requires n <= Special(blobs, posts) + Pages(s.limit)
    ensures |r| == n * HashSize(a)
  {
    if n == 0 then []
    else
      hide Cell, SlotHash, Special, Hashable;
      assert n * HashSize(a) == (n - 1) * HashSize(a) + HashSize(a);
      Cells(q, a, blobs, posts, s, n - 1) + Cell(q, a, blobs, posts, s, n - 1)
  }

  // ----- The directory blob -----

  function HashOffset(q: Request, a: Algorithm, special: nat): (n: nat)
  {
    8 + 80 + |q.identifier| + 1 + special * HashSize(a)
  }

  /** The fields of struct CodeDirectory, in its order. */
  function Fields(q: Request, a: Algorithm, special: uint32, s: Slice): (r: seq<byte>)
    ensures |r| == 80
  {
    Counts(q, a, special, s) + [HashSize(a), HashType(a), if q.platform then 1 else 0, 12]
    + Zeros(4) + Zeros(4) + Zeros(4) + Zeros(4)
    + ExecFields(s)
  }

  function Counts(q: Request, a: Algorithm, special: uint32, s: Slice): (r: seq<byte>)
    ensures |r| == 28
  {
    Put32Big(0x0002_0400) + Put32Big(q.flags)
    + Put32Big(Low32(HashOffset(q, a, special))) + Put32Big(88)
    + Put32Big(special) + Put32Big(Low32(Pages(s.limit))) + Put32Big(s.limit)
  }

  function ExecFields(s: Slice): (r: seq<byte>)
    ensures |r| == 32
  {
    Put64Big(0) + Put64Big(s.left) + Put64Big(Low64(s.right - s.left))
    + Put64Big(if s.filetype == MH_EXECUTE then 1 else 0)
  }

  ghost function Directory(q: Request, a: Algorithm, blobs: Blobs, posts: Table<Hash>, s: Slice): (r: seq<byte>)
    requires Hashable(blobs) && ValidSlice(s)
    ensures |r| == 80 + |q.identifier| + 1 + (Special(blobs, posts) + Pages(s.limit)) * HashSize(a)
  {
    var special := Special(blobs, posts);
    Fields(q, a, special, s) + q.identifier + [0] + Cells(q, a, blobs, posts, s, special + Pages(s.limit))
  }

  lemma {:induction false} CellAt(q: Request, a: Algorithm, blobs: Blobs, posts: Table<Hash>, s: Slice, n: nat, j: nat)
    requires Hashable(blobs) && ValidSlice(s) && j < n <= Special(blobs, posts) + Pages(s.limit)
    ensures 0 <= j * HashSize(a) <= j * HashSize(a) + HashSize(a) <= n * HashSize(a)
    ensures Cells(q, a, blobs, posts, s, n)[j * HashSize(a)..j * HashSize(a) + HashSize(a)]
      == Cell(q, a, blobs, posts, s, j)
  {
    hide Cell, Special, Hashable, HashSize;
    var h := HashSize(a);
    assert n * h == (n - 1) * h + h;
    if j < n - 1 {
      CellAt(q, a, blobs, posts, s, n - 1, j);
      assert Cells(q, a, blobs, posts, s, n)[..(n - 1) * h] == Cells(q, a, blobs, posts, s, n - 1);
    }
  }

  /** Hash offsets are offsets into the blob: slot k lies k hashes below, page i lies
      i hashes above hashOffset. */
  lemma HashAt(q: Request, a: Algorithm, blobs: Blobs, posts: Table<Hash>, s: Slice, j: nat)
    requires Hashable(blobs) && ValidSlice(s) && j < Special(blobs, posts) + Pages(s.limit)
    ensures var blob := Wrap(CSMAGIC_CODEDIRECTORY, Directory(q, a, blobs, posts, s));
      var at := HashOffset(q, a, Special(blobs, posts)) + (j - Special(blobs, posts)) * HashSize(a);
      && 0 <= at <= at + HashSize(a) <= |blob|
      && blob[at..at + HashSize(a)] == Cell(q, a, blobs, posts, s, j)
  {
    hide Cell, Special, Hashable, Fields, Cells, HashSize, Put32Big;
    var special, h := Special(blobs, posts), HashSize(a);
    var n := special + Pages(s.limit);
    CellAt(q, a, blobs, posts, s, n, j);
    var blob := Wrap(CSMAGIC_CODEDIRECTORY, Directory(q, a, blobs, posts, s));
    var base := 89 + |q.identifier|;
    assert (j - special) * h + special * h == j * h;
    assert blob[base..] == Cells(q, a, blobs, posts, s, n);
    SubSlice(blob, base, |blob|, j * h, j * h + h);
  }

  /** Special slot k of a directory. */
  lemma SpecialSlotAt(q: Request, a: Algorithm, blobs: Blobs, posts: Table<Hash>, s: Slice, k: uint32)
    requires Hashable(blobs) && ValidSlice(s) && 1 <= k <= Special(blobs, posts)
    ensures var blob := Wrap(CSMAGIC_CODEDIRECTORY, Directory(q, a, blobs, posts, s));
      var at := HashOffset(q, a, Special(blobs, posts)) - k * HashSize(a);
      && 0 <= at <= at + HashSize(a) <= |blob|
      && blob[at..at + HashSize(a)] == SlotHash(q, a, blobs, posts, k)
  {
    hide SlotHash, Directory, Special, HashOffset, Hashable, HashSize;
    HashAt(q, a, blobs, posts, s, Special(blobs, posts) - k);
    assert (0 - k) * HashSize(a) == 0 - k * HashSize(a);
  }

  // ----- The whole signature -----

  /** The blobs every directory may cover. */
  function FirstBlobs(q: Request): (r: Blobs)
  {
    var blobs := Insert([], CSSLOT_REQUIREMENTS, q.requirements);
    if q.entitlements == [] then blobs
    else Insert(blobs, CSSLOT_ENTITLEMENTS, Wrap(CSMAGIC_EMBEDDED_ENTITLEMENTS, q.entitlements))
  }

  function DirectorySlot(k: nat): (slot: uint32)
    requires k < 2
  {
    if k == 0 then CSSLOT_CODEDIRECTORY else CSSLOT_ALTERNATE + k - 1
  }

  function Posts(q: Request, info: Option<seq<byte>>): (r: Table<Hash>)
  {
    match info
    case None => q.slots
    case Some(plist) => Insert(q.slots, CSSLOT_INFOSLOT, InfoHash(q, plist))
  }

  function InfoHash(q: Request, plist: seq<byte>): (h: Hash)
  {
    var posted := if Find(q.slots, CSSLOT_INFOSLOT).Some? then Find(q.slots, CSSLOT_INFOSLOT).value
      else Hash(Zeros(20), Zeros(32));
    Hash(if Sha1 in q.algorithms then Digest(q.digests, Sha1, plist) else posted.sha1,
         if Sha256 in q.algorithms then Digest(q.digests, Sha256, plist) else posted.sha256)
  }

  lemma HashableInsert(blobs: Blobs, slot: uint32, value: seq<byte>)
    requires Hashable(blobs) && Sorted(blobs) && |value| >= 8 && Get32Big(value, 4) <= |value|
    ensures Hashable(Insert(blobs, slot, value)) && Sorted(Insert(blobs, slot, value))
  {
    hide Insert, Get32Big;
    InsertSorted(blobs, slot, value);
  }

  lemma WrapHashable(magic: uint32, value: seq<byte>)
    ensures Get32Big(Wrap(magic, value), 4) <= 8 + |value|
  {
    hide Put32Big;
    var b := Wrap(magic, value);
    assert b[4..8] == Put32Big(Low32(8 + |value|));
    GetPut32Big(b, 4, Low32(8 + |value|));
  }

  lemma FirstBlobsHashable(q: Request)
    requires ValidRequest(q)
    ensures Hashable(FirstBlobs(q)) && Sorted(FirstBlobs(q))
  {
    hide Insert;
    HashableInsert([], CSSLOT_REQUIREMENTS, q.requirements);
    WrapHashable(CSMAGIC_EMBEDDED_ENTITLEMENTS, q.entitlements);
    HashableInsert(Insert([], CSSLOT_REQUIREMENTS, q.requirements), CSSLOT_ENTITLEMENTS,
                   Wrap(CSMAGIC_EMBEDDED_ENTITLEMENTS, q.entitlements));
  }

  /** The table after the first k algorithms have added their directories. */
  ghost function AfterPasses(q: Request, info: Option<seq<byte>>, s: Slice, k: nat): (r: Blobs)
    requires ValidRequest(q) && ValidSlice(s) && k <= |q.algorithms|
    ensures Hashable(r) && Sorted(r)
  {
    if k == 0 then FirstBlobsHashable(q); FirstBlobs(q)
    else
      var before := AfterPasses(q, info, s, k - 1);
      var blob := Wrap(CSMAGIC_CODEDIRECTORY, Directory(q, q.algorithms[k - 1], before, Posts(q, info), s));
      WrapHashable(CSMAGIC_CODEDIRECTORY, Directory(q, q.algorithms[k - 1], before, Posts(q, info), s));
      HashableInsert(before, DirectorySlot(k - 1), blob);
      Insert(before, DirectorySlot(k - 1), blob)
  }

  ghost function Signature(q: Request, info: Option<seq<byte>>, s: Slice): (r: seq<byte>)
    requires ValidRequest(q) && ValidSlice(s)
  {
    Serialize(CSMAGIC_EMBEDDED_SIGNATURE, AfterPasses(q, info, s, |q.algorithms|))
  }

  // ----- The estimate made before anything is written -----

  function EstimateSpecial(q: Request, info: bool): (n: uint32)
  {
    var slots := MaxSlot(q.slots);
    var withInfo := if info && slots < CSSLOT_INFOSLOT then CSSLOT_INFOSLOT else slots;
    var withRequirements := if withInfo < CSSLOT_REQUIREMENTS then CSSLOT_REQUIREMENTS else withInfo;
    if q.entitlements != [] && withRequirements < CSSLOT_ENTITLEMENTS then CSSLOT_ENTITLEMENTS else withRequirements
  }

  function EstimateAfter(q: Request, info: bool, pages: nat, k: nat): (n: nat)
    requires k <= |q.algorithms|
  {
    if k == 0 then
      12 + 8 + |q.requirements| + (if q.entitlements == [] then 0 else 8 + 8 + |q.entitlements|)
    else
      AlignUp(EstimateAfter(q, info, pages, k - 1) + (8 + 8 + 80 + |q.identifier| + 1)
              + (EstimateSpecial(q, info) + pages) * HashSize(q.algorithms[k - 1]), 16)
  }

  function Estimate(q: Request, info: bool, size: nat): (n: nat)
  {
    EstimateAfter(q, info, Pages(size), |q.algorithms|)
  }

  lemma {:induction false} InsertMaxSize(blobs: Blobs, slot: uint32, value: seq<byte>)
    ensures |Insert(blobs, slot, value)| <= |blobs| + 1
    ensures DataSize(Insert(blobs, slot, value)) <= DataSize(blobs) + |value|
  {
    var r := Insert(blobs, slot, value);
    if blobs == [] || slot < blobs[0].slot {
      assert r[1..] == blobs;
    } else if slot == blobs[0].slot {
      assert r[1..] == blobs[1..];
    } else {
      InsertMaxSize(blobs[1..], slot, value);
      assert r[1..] == Insert(blobs[1..], slot, value);
    }
  }

  lemma FirstBlobsMax(q: Request)
    ensures MaxSlot(FirstBlobs(q)) == if q.entitlements == [] then CSSLOT_REQUIREMENTS else CSSLOT_ENTITLEMENTS
  {
    hide Insert, MaxSlot;
    var first := Insert([], CSSLOT_REQUIREMENTS, q.requirements);
    InsertMax([], CSSLOT_REQUIREMENTS, q.requirements);
    InsertMax(first, CSSLOT_ENTITLEMENTS, Wrap(CSMAGIC_EMBEDDED_ENTITLEMENTS, q.entitlements));
    assert MaxSlot<seq<byte>>([]) == 0;
  }

  /** Up to two algorithms, both closures compute the same number of special slots. */
  lemma PassesMax(q: Request, info: Option<seq<byte>>, s: Slice, k: nat)
    requires ValidRequest(q) && ValidSlice(s) && k < 2 && k <= |q.algorithms|
    ensures Special(AfterPasses(q, info, s, k), Posts(q, info)) == EstimateSpecial(q, info.Some?)
  {
    hide Insert, Directory, MaxSlot, FirstBlobs, InfoHash, Wrap, Hashable, Sorted;
    FirstBlobsMax(q);
    if info.Some? {
      InsertMax(q.slots, CSSLOT_INFOSLOT, InfoHash(q, info.value));
    }
    if k == 1 {
      var first := AfterPasses(q, info, s, 0);
      assert first == FirstBlobs(q);
      InsertMax(first, DirectorySlot(0),
                Wrap(CSMAGIC_CODEDIRECTORY, Directory(q, q.algorithms[0], first, Posts(q, info), s)));
    }
  }

  /** What is really written never exceeds the estimate. */
  lemma {:induction false} PassesFit(q: Request, info: Option<seq<byte>>, s: Slice, k: nat)
    requires ValidRequest(q) && ValidSlice(s) && k <= |q.algorithms|
    ensures Size(AfterPasses(q, info, s, k)) <= EstimateAfter(q, info.Some?, Pages(s.limit), k)
  {
    hide Insert, Directory, MaxSlot, Special, EstimateSpecial;
    if k == 0 {
      InsertMaxSize([], CSSLOT_REQUIREMENTS, q.requirements);
      InsertMaxSize(Insert([], CSSLOT_REQUIREMENTS, q.requirements), CSSLOT_ENTITLEMENTS,
                    Wrap(CSMAGIC_EMBEDDED_ENTITLEMENTS, q.entitlements));
    } else {
      PassesFit(q, info, s, k - 1);
      PassesMax(q, info, s, k - 1);
      var before := AfterPasses(q, info, s, k - 1);
      var directory := Directory(q, q.algorithms[k - 1], before, Posts(q, info), s);
      InsertMaxSize(before, DirectorySlot(k - 1), Wrap(CSMAGIC_CODEDIRECTORY, directory));
    }
  }

  lemma PagesAre(n: nat, p: nat)
    requires PAGE * p < n <= PAGE * p + PAGE
    ensures Pages(n) == p + 1
  {
    DivisionIs(n + PAGE - 1, PAGE, p + 1, n - PAGE * p - 1);
  }

  lemma SameBlockCount(size: nat)
    ensures Pages(AlignUp(size, 16)) == Pages(size)
  {
    if size > 0 {
      var p, j := (size - 1) / PAGE, (size + 15) / 16;
      assert PAGE * p < size <= PAGE * p + PAGE;
      assert size <= 16 * j < size + 16;
      PagesAre(size, p);
      PagesAre(16 * j, p);
    }
  }

  /** The estimate from the unrounded size suffices for the signature of the rounded one. */
  lemma EstimateSuffices(q: Request, info: Option<seq<byte>>, s: Slice, size: nat)
    requires ValidRequest(q) && ValidSlice(s) && s.limit == AlignUp(size, 16)
    ensures |Signature(q, info, s)| <= Estimate(q, info.Some?, size)
  {
    hide AfterPasses, EstimateAfter, Serialize;
    SameBlockCount(size);
    PassesFit(q, info, s, |q.algorithms|);
  }
}

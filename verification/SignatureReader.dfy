/** A signed file as a reader of the format takes it apart: from its bytes alone, with the
    numbers of the format written out. */
module SignatureReader {
  import opened Arithmetic
  import opened Bytes
  import opened MachO
  import opened Options
  import opened SuperBlob
  import opened Tables
  import opened CodeDirectory
  import opened LoadCommands
  import opened ImageReader
  import opened Ldid
  import Entitlements
  import Signing

  // ----- Reading -----

  /** The blob of a slot in the table at the start of s: entries k and up. */
  function FindBlob(s: seq<byte>, slot: uint32, k: nat, count: nat): (r: Option<seq<byte>>)
    requires k <= count
    decreases count - k
  {
    if k == count || 12 + 8 * k + 8 > |s| then None
    else if Get32Big(s, 12 + 8 * k) != slot then FindBlob(s, slot, k + 1, count)
    else
      var begin := Get32Big(s, 12 + 8 * k + 4);
      if begin + 8 > |s| || begin + Get32Big(s, begin + 4) > |s| then None
      else Some(s[begin..begin + Get32Big(s, begin + 4)])
  }

  function BlobIn(s: seq<byte>, slot: uint32): (r: Option<seq<byte>>)
  {
    if |s| < 12 || Get32Big(s, 0) != 0xFADE_0CC0 then None else FindBlob(s, slot, 0, Get32Big(s, 8))
  }

  /** Hash j of a code directory: where its hashOffset and hashSize say, special slots below. */
  function HashIn(b: seq<byte>, j: int): (r: Option<seq<byte>>)
    requires |b| >= 88
  {
    var at := Get32Big(b, 16) + j * b[36];
    if 0 <= at && at + b[36] <= |b| then Some(b[at..at + b[36]]) else None
  }

  /** The fields of a code directory with its blob header, by their places. */
  ghost predicate Describes(b: seq<byte>, q: Request, a: Algorithm, special: nat, limit: nat, r: Range, executable: bool)
  {
    && |b| >= 88 && Get32Big(b, 0) == 0xFADE_0C02 && Get32Big(b, 4) == |b|
    && Get32Big(b, 8) == 0x2_0400 && Get32Big(b, 12) == q.flags
    && Get32Big(b, 20) == 88 && 88 + |q.identifier| < |b|
    && b[88..88 + |q.identifier|] == q.identifier && b[88 + |q.identifier|] == 0
    && Get32Big(b, 24) == special && Get32Big(b, 32) == limit
    && (Get32Big(b, 28) - 1) * 0x1000 < limit <= Get32Big(b, 28) * 0x1000
    && b[36] == (if a == Sha1 then 20 else 32) && b[37] == (if a == Sha1 then 1 else 2)
    && b[38] == (if q.platform then 1 else 0) && b[39] == 12
    && (forall i :: 40 <= i < 64 ==> b[i] == 0)
    && Get64Big(b, 64) == r.left && Get64Big(b, 72) == (r.right - r.left) % 0x1_0000_0000_0000_0000
    && Get64Big(b, 80) == (if executable then 1 else 0)
    && Get32Big(b, 16) == 88 + |q.identifier| + 1 + special * b[36]
  }

  // ----- What is written reads as it should -----

  lemma CountsRead(b: seq<byte>, q: Request, a: Algorithm, special: uint32, s: Slice)
    requires |b| >= 36 && b[8..36] == Counts(q, a, special, s) && HashOffset(q, a, special) < 0x1_0000_0000
    requires Pages(s.limit) < 0x1_0000_0000
    ensures Get32Big(b, 8) == 0x2_0400 && Get32Big(b, 12) == q.flags && Get32Big(b, 16) == HashOffset(q, a, special)
    ensures Get32Big(b, 20) == 88 && Get32Big(b, 24) == special && Get32Big(b, 28) == Pages(s.limit)
    ensures Get32Big(b, 32) == s.limit
  {
    hide Put32Big, Get32Big, HashOffset, Pages;
    var c := Counts(q, a, special, s);
    FieldRead(b, 8, c, 0, 0x2_0400);
    FieldRead(b, 8, c, 4, q.flags);
    FieldRead(b, 8, c, 8, Low32(HashOffset(q, a, special)));
    FieldRead(b, 8, c, 12, 88);
    FieldRead(b, 8, c, 16, special);
    FieldRead(b, 8, c, 20, Low32(Pages(s.limit)));
    FieldRead(b, 8, c, 24, s.limit);
  }

  lemma ExecRead(b: seq<byte>, s: Slice)
    requires |b| >= 88 && b[56..88] == ExecFields(s)
    ensures Get64Big(b, 64) == s.left && Get64Big(b, 72) == Low64(s.right - s.left)
    ensures Get64Big(b, 80) == (if s.filetype == 2 then 1 else 0)
    ensures forall i :: 56 <= i < 64 ==> b[i] == 0
  {
    hide Put64Big, Get64Big, Low64;
    var e := ExecFields(s);
    FourParts(Put64Big(0), Put64Big(s.left), Put64Big(Low64(s.right - s.left)),
              Put64Big(if s.filetype == MH_EXECUTE then 1 else 0));
    WideFieldRead(b, 56, e, 8, s.left);
    WideFieldRead(b, 56, e, 16, Low64(s.right - s.left));
    WideFieldRead(b, 56, e, 24, if s.filetype == MH_EXECUTE then 1 else 0);
    ZeroField64();
    forall i | 56 <= i < 64 ensures b[i] == 0
    {
      assert b[i] == b[56..88][i - 56] == e[0..8][i - 56];
    }
  }

  lemma FourParts(a: seq<byte>, b: seq<byte>, c: seq<byte>, d: seq<byte>)
    requires |a| == |b| == |c| == |d| == 8
    ensures var e := a + b + c + d; e[0..8] == a && e[8..16] == b && e[16..24] == c && e[24..32] == d
  {
  }

  lemma ZeroField64()
    ensures Put64Big(0) == [0, 0, 0, 0, 0, 0, 0, 0]
  {
  }

  lemma WideFieldRead(s: seq<byte>, from: nat, part: seq<byte>, at: nat, v: uint64)
    requires from + |part| <= |s| && s[from..from + |part|] == part
    requires at + 8 <= |part| && part[at..at + 8] == Put64Big(v)
    ensures Get64Big(s, from + at) == v
  {
    hide Put64Big, Get64Big;
    SubSlice(s, from, from + |part|, at, at + 8);
    GetPut64Big(s, from + at, v);
  }

  // ----- A directory -----

  /** The pieces of a directory blob, at their places. */
  lemma DirectoryParts(q: Request, a: Algorithm, blobs: Blobs, posts: Table<Hash>, s: Slice)
    requires Hashable(blobs) && ValidSlice(s)
    ensures var b, special, n := Wrap(CSMAGIC_CODEDIRECTORY, Directory(q, a, blobs, posts, s)),
        Special(blobs, posts), |q.identifier|;
      && |b| == HashOffset(q, a, special) + Pages(s.limit) * HashSize(a) && |b| >= 89 + n
      && b[0..4] == Put32Big(CSMAGIC_CODEDIRECTORY) && b[4..8] == Put32Big(Low32(|b|))
      && b[8..36] == Counts(q, a, special, s)
      && b[36..40] == [HashSize(a), HashType(a), if q.platform then 1 else 0, 12]
      && b[40..56] == Zeros(4) + Zeros(4) + Zeros(4) + Zeros(4)
      && b[56..88] == ExecFields(s) && b[88..88 + n] == q.identifier && b[88 + n] == 0
  {
    hide Counts, ExecFields, Zeros, Put32Big, HashSize, HashType, Special, Pages, Cells, Low32, Hashable, ValidSlice;
    var special := Special(blobs, posts);
    assert (special + Pages(s.limit)) * HashSize(a) == special * HashSize(a) + Pages(s.limit) * HashSize(a);
    assert special * HashSize(a) >= 0 && Pages(s.limit) * HashSize(a) >= 0;
    var fields, rest := Fields(q, a, special, s), Cells(q, a, blobs, posts, s, special + Pages(s.limit));
    FieldParts(q, a, special, s);
    BlobParts(Put32Big(CSMAGIC_CODEDIRECTORY), Put32Big(Low32(8 + |Directory(q, a, blobs, posts, s)|)), fields,
              q.identifier, rest, Wrap(CSMAGIC_CODEDIRECTORY, Directory(q, a, blobs, posts, s)));
  }

  lemma FieldParts(q: Request, a: Algorithm, special: uint32, s: Slice)
    ensures var fields := Fields(q, a, special, s);
      && fields[0..28] == Counts(q, a, special, s)
      && fields[28..32] == [HashSize(a), HashType(a), if q.platform then 1 else 0, 12]
      && fields[32..48] == Zeros(4) + Zeros(4) + Zeros(4) + Zeros(4) && fields[48..80] == ExecFields(s)
  {
    hide Counts, ExecFields, Zeros, HashSize, HashType;
  }

  lemma BlobParts(magic: seq<byte>, size: seq<byte>, fields: seq<byte>, name: seq<byte>, rest: seq<byte>, b: seq<byte>)
    requires |magic| == |size| == 4 && |fields| == 80 && b == magic + size + (fields + name + [0] + rest)
    ensures |b| >= 89 + |name| && b[0..4] == magic && b[4..8] == size
    ensures b[8..36] == fields[0..28] && b[36..40] == fields[28..32] && b[40..56] == fields[32..48]
    ensures b[56..88] == fields[48..80] && b[88..88 + |name|] == name && b[88 + |name|] == 0
  {
  }

  /** Every field of a directory, read back. */
  lemma DirectoryFields(q: Request, a: Algorithm, blobs: Blobs, posts: Table<Hash>, s: Slice)
    requires Hashable(blobs) && ValidSlice(s)
    requires |Wrap(CSMAGIC_CODEDIRECTORY, Directory(q, a, blobs, posts, s))| < 0x1_0000_0000
    ensures Describes(Wrap(CSMAGIC_CODEDIRECTORY, Directory(q, a, blobs, posts, s)), q, a, Special(blobs, posts),
                      s.limit, Range(s.left, s.right), s.filetype == 2)
  {
    hide Counts, ExecFields, Zeros, Put32Big, Get32Big, Get64Big, Special, Pages, Directory, Low32;
    hide Hashable, HashSize, HashType;
    var b := Wrap(CSMAGIC_CODEDIRECTORY, Directory(q, a, blobs, posts, s));
    DirectoryParts(q, a, blobs, posts, s);
    Short(s, Pages(s.limit), HashSize(a));
    GetPut32Big(b, 0, CSMAGIC_CODEDIRECTORY);
    assert Low32(|b|) == |b| by { Small(|b|); }
    GetPut32Big(b, 4, |b|);
    CountsRead(b, q, a, Special(blobs, posts), s);
    ExecRead(b, s);
    OneByteFields(b, a, q.platform);
  }

  lemma Small(n: nat)
    requires n < 0x1_0000_0000
    ensures Low32(n) == n
  {
  }

  lemma Short(s: Slice, pages: nat, size: nat)
    requires pages == Pages(s.limit) && size > 0 && s.limit > 0
    ensures 0 <= pages <= pages * size && (pages - 1) * 0x1000 < s.limit <= pages * 0x1000
  {
    assert pages * size == pages + pages * (size - 1);
    assert pages * (size - 1) >= 0;
  }

  lemma OneByteFields(b: seq<byte>, a: Algorithm, platform: bool)
    requires |b| >= 88 && b[36..40] == [HashSize(a), HashType(a), if platform then 1 else 0, 12]
    requires b[40..56] == Zeros(4) + Zeros(4) + Zeros(4) + Zeros(4)
    ensures b[36] == HashSize(a) == (if a == Sha1 then 20 else 32) && b[37] == (if a == Sha1 then 1 else 2)
    ensures b[38] == (if platform then 1 else 0) && b[39] == 12 && forall i :: 40 <= i < 56 ==> b[i] == 0
  {
    var four := b[36..40];
    assert b[36] == four[0] && b[37] == four[1] && b[38] == four[2] && b[39] == four[3];
    var zeros := Zeros(4) + Zeros(4) + Zeros(4) + Zeros(4);
    assert forall i :: 40 <= i < 56 ==> b[i] == b[40..56][i - 40] == zeros[i - 40] == 0;
  }

  /** h is the hash of p: the digest, cut or padded to its length. */
  ghost predicate Hashes(h: seq<byte>, d: Digests, a: Algorithm, p: seq<byte>)
  {
    IsHash(h, a, if a == Sha1 then d.sha1(p) else d.sha256(p))
  }

  ghost predicate IsHash(h: seq<byte>, a: Algorithm, digest: seq<byte>)
  {
    && |h| == (if a == Sha1 then 20 else 32)
    && forall i :: 0 <= i < |h| ==> h[i] == if i < |digest| then digest[i] else 0
  }

  lemma DigestHashes(d: Digests, a: Algorithm, p: seq<byte>)
    ensures Hashes(Digest(d, a, p), d, a, p)
  {
  }

  /** Cell j of a directory, found through its hashOffset and hashSize. */
  lemma CellRead(q: Request, a: Algorithm, blobs: Blobs, posts: Table<Hash>, s: Slice, j: nat)
    requires Hashable(blobs) && ValidSlice(s) && j < Special(blobs, posts) + Pages(s.limit)
    requires |Wrap(CSMAGIC_CODEDIRECTORY, Directory(q, a, blobs, posts, s))| < 0x1_0000_0000
    ensures var b := Wrap(CSMAGIC_CODEDIRECTORY, Directory(q, a, blobs, posts, s));
      |b| >= 88 && HashIn(b, j - Special(blobs, posts)) == Some(Cell(q, a, blobs, posts, s, j))
  {
    hide Counts, ExecFields, Zeros, Put32Big, Get32Big, Get64Big, Special, Pages, Directory, Low32, Low64, Cell;
    hide Hashable, HashSize, HashType, Wrap;
    var b := Wrap(CSMAGIC_CODEDIRECTORY, Directory(q, a, blobs, posts, s));
    DirectoryParts(q, a, blobs, posts, s);
    OneByteFields(b, a, q.platform);
    Short(s, Pages(s.limit), HashSize(a));
    CountsRead(b, q, a, Special(blobs, posts), s);
    HashAt(q, a, blobs, posts, s, j);
  }

  // ----- The table -----

  lemma {:induction false} IndexOf<T>(t: Table<T>, slot: uint32) returns (j: nat)
    requires Find(t, slot).Some?
    ensures j < |t| && t[j] == Entry(slot, Find(t, slot).value)
  {
    if t[0].slot == slot {
      j := 0;
    } else {
      var k := IndexOf(t[1..], slot);
      j := k + 1;
    }
  }

  lemma {:induction false} FindBlobIs(s: seq<byte>, blobs: Blobs, k: nat, j: nat)
    requires k <= j < |blobs| && Sorted(blobs) && Size(blobs) < 0x1_0000_0000 && SelfSized(blobs[j].value)
    requires |s| >= Size(blobs) && s[..Size(blobs)] == Serialize(CSMAGIC_EMBEDDED_SIGNATURE, blobs)
    ensures FindBlob(s, blobs[j].slot, k, |blobs|) == Some(blobs[j].value)
    decreases j - k
  {
    hide Get32Big, Serialize, Size, Offset;
    Entitlements.EntryRead(s, blobs, k);
    if k < j {
      FindBlobIs(s, blobs, k + 1, j);
    } else {
      LengthAt(s, Offset(blobs, k), blobs[k].value);
    }
  }

  /** A reader of the table finds the blob that was stored. */
  lemma BlobFound(s: seq<byte>, blobs: Blobs, slot: uint32)
    requires Sorted(blobs) && Size(blobs) < 0x1_0000_0000
    requires Find(blobs, slot).Some? && SelfSized(Find(blobs, slot).value)
    requires |s| >= Size(blobs) && s[..Size(blobs)] == Serialize(CSMAGIC_EMBEDDED_SIGNATURE, blobs)
    ensures BlobIn(s, slot) == Some(Find(blobs, slot).value)
  {
    hide Get32Big, Put32Big, Serialize, FindBlob, Find, Sorted, SelfSized, DataSize;
    var j := IndexOf(blobs, slot);
    FindBlobIs(s, blobs, 0, j);
    var t := Serialize(CSMAGIC_EMBEDDED_SIGNATURE, blobs);
    SerializedParts(CSMAGIC_EMBEDDED_SIGNATURE, blobs);
    GetPut32Big(t, 0, CSMAGIC_EMBEDDED_SIGNATURE);
    GetPut32Big(t, 8, |blobs|);
    Entitlements.SameBig32(s, t, 0);
    Entitlements.SameBig32(s, t, 8);
  }

  /** The signature of a signed file: its last load command says where it is. */
  function SignatureIn(y: seq<byte>): (r: Option<seq<byte>>)
  {
    if !IsMachO(y) || Signing.ParsedCommands(y) == [] then None
    else
      var c := Signing.ParsedCommands(y)[|Signing.ParsedCommands(y)| - 1];
      if |c| < 16 || Get32(c, 0) != 0x1D || Get32(c, 8) + Get32(c, 12) > |y| then None
      else Some(y[Get32(c, 8)..Get32(c, 8) + Get32(c, 12)])
  }

  /** The code directory of algorithm k: the first one, then the alternate. */
  function DirectoryIn(y: seq<byte>, k: nat): (r: Option<seq<byte>>)
  {
    match SignatureIn(y)
    case None => None
    case Some(s) => BlobIn(s, if k == 0 then 0 else 0x1000)
  }

  predicate EndsWith(cmds: seq<Command>, c: Command) { cmds != [] && cmds[|cmds| - 1] == c }

  lemma LastKept(f: seq<byte>, l: Layout)
    requires IsMachO(f) && Expressible(l) && l.alloc > 0
    ensures EndsWith(Kept(f, l), SignatureCommand(l.limit, l.alloc))
  {
    hide IsMachO, Rewritten, SignatureCommand, WellFormed;
  }

  lemma SignatureFrom(y: seq<byte>, limit: uint32, alloc: uint32)
    requires IsMachO(y) && |y| == limit + alloc
    requires EndsWith(Signing.ParsedCommands(y), SignatureCommand(limit, alloc))
    ensures SignatureIn(y) == Some(y[limit..])
  {
    hide IsMachO, Get32, SignatureCommand, WellFormed;
    SignatureCommandFields(limit, alloc);
    assert Cmd(SignatureCommand(limit, alloc)) == Get32(SignatureCommand(limit, alloc), 0);
    assert y[limit..limit + alloc] == y[limit..];
  }

  /** The last load command of a signed file covers everything behind its body. */
  lemma SignatureLocated(f: seq<byte>, q: Request, align: nat)
    requires CanSign(f, q, align)
    ensures var l, y := SignLayout(f, q, align), Sign(f, q, align);
      l.limit <= |y| && SignatureIn(y) == Some(y[l.limit..])
  {
    hide Fits, SignLayout, IsMachO, Sign, ValidRequest, ImageEnd, Starts, Body, Kept, SignatureIn, SignatureCommand;
    hide SignatureOf;
    Signing.SignedParts(f, q, align);
    var l, y := SignLayout(f, q, align), Sign(f, q, align);
    Signing.FitsMachO(f, l);
    OutputIsMachO(f, l, y);
    assert Signing.ParsedCommands(y) == Kept(f, l);
    LastKept(f, l);
    SignatureFrom(y, l.limit, l.alloc);
  }

  // ----- The directories of a signed file -----

  /** A table fits wherever its bytes were written in less than four gigabytes. */
  lemma TableRead(q: Request, info: Option<seq<byte>>, s: Slice, k: nat, rest: seq<byte>)
    requires ValidRequest(q) && ValidSlice(s) && k < |q.algorithms|
    requires Size(AfterPasses(q, info, s, |q.algorithms|)) < 0x1_0000_0000
    ensures var t := AfterPasses(q, info, s, |q.algorithms|);
      var b := Wrap(CSMAGIC_CODEDIRECTORY, Directory(q, q.algorithms[k], AfterPasses(q, info, s, k), Posts(q, info), s));
      && |b| < 0x1_0000_0000
      && BlobIn(Serialize(CSMAGIC_EMBEDDED_SIGNATURE, t) + rest, if k == 0 then 0 else 0x1000) == Some(b)
  {
    hide AfterPasses, Directory, Serialize, Find, Posts, Sorted, BlobIn, SelfSized, Wrap, DataSize, Hashable, Get32Big;
    hide ValidSlice;
    var t := AfterPasses(q, info, s, |q.algorithms|);
    Signing.DirectoryStays(q, info, s, k);
    var j := IndexOf(t, DirectorySlot(k));
    DataAt(t, j);
    var directory := Directory(q, q.algorithms[k], AfterPasses(q, info, s, k), Posts(q, info), s);
    WrapSelfSized(CSMAGIC_CODEDIRECTORY, directory);
    assert (Serialize(CSMAGIC_EMBEDDED_SIGNATURE, t) + rest)[..Size(t)] == Serialize(CSMAGIC_EMBEDDED_SIGNATURE, t);
    BlobFound(Serialize(CSMAGIC_EMBEDDED_SIGNATURE, t) + rest, t, DirectorySlot(k));
  }

  /** What a reader finds under the slot of directory k. */
  lemma DirectoryRead(f: seq<byte>, q: Request, align: nat, k: nat)
    requires CanSign(f, q, align) && k < |q.algorithms|
    ensures var s, info := SliceOf(f, SignLayout(f, q, align)), InfoPlist(f);
      ValidSlice(s)
      && var directory := Directory(q, q.algorithms[k], AfterPasses(q, info, s, k), Posts(q, info), s);
        var b := Wrap(CSMAGIC_CODEDIRECTORY, directory);
        DirectoryIn(Sign(f, q, align), k) == Some(b) && |b| < 0x1_0000_0000
  {
    hide Fits, SignLayout, IsMachO, Sign, SliceOf, InfoPlist, AfterPasses, Directory, Serialize, Posts, ValidRequest;
    hide Zeros, BlobIn, SignatureIn, Wrap, ImageEnd, ValidSlice, Body, SignatureOf, Starts;
    Signing.TableWritten(f, q, align);
    Signing.SignedParts(f, q, align);
    SignatureLocated(f, q, align);
    var l, info := SignLayout(f, q, align), InfoPlist(f);
    var t := AfterPasses(q, info, SliceOf(f, l), |q.algorithms|);
    Below(f, l);
    TableRead(q, info, SliceOf(f, l), k, Zeros(l.alloc - |Serialize(CSMAGIC_EMBEDDED_SIGNATURE, t)|));
  }

  lemma Below(f: seq<byte>, l: Layout)
    requires Fits(f, l)
    ensures l.limit + l.alloc < 0x1_0000_0000
  {
    hide IsMachO, Head;
  }

  /** A special slot is claimed by the requirements, the entitlements, the Info.plist, or
      the caller. */
  ghost predicate Claimed(q: Request, plist: bool, n: nat)
  {
    || n == 2 || (n == 5 && q.entitlements != []) || (n == 1 && plist)
    || exists i :: 0 <= i < |q.slots| && q.slots[i].slot == n
  }

  /** The directory has as many special slots as its highest claimed one needs. */
  ghost predicate IsSpecial(q: Request, plist: bool, special: nat)
  {
    Claimed(q, plist, special) && forall n: nat :: n > special ==> !Claimed(q, plist, n)
  }

  lemma SpecialIs(q: Request, plist: bool)
    ensures IsSpecial(q, plist, EstimateSpecial(q, plist))
  {
    Signing.EstimateCovers(q, plist);
  }

  /** The bytes of the file from a to b; past its end they read as zero. */
  function Source(f: seq<byte>, a: nat, b: nat): (p: seq<byte>)
    requires a <= b
  {
    seq(b - a, j requires 0 <= j < b - a => if a + j < |f| then f[a + j] else 0)
  }

  lemma ReadIs(f: seq<byte>, a: nat, b: nat)
    requires a <= b
    ensures Read(f, a, b) == Source(f, a, b)
  {
  }

  /** The fields of every directory of a signed file, by their places: whose they are, how
      many slots there are, and where the hashes and the identifier stand. */
  lemma DirectoryDescribesOutput(f: seq<byte>, q: Request, align: nat, k: nat)
    requires CanSign(f, q, align) && k < |q.algorithms|
    ensures DirectoryIn(Sign(f, q, align), k).Some?
    ensures var b, cmds := DirectoryIn(Sign(f, q, align), k).value, Signing.ParsedCommands(f);
      && IsRange(cmds, ExecRange(cmds)) && |b| >= 88
      && Describes(b, q, q.algorithms[k], Get32Big(b, 24), Get32Big(b, 32), ExecRange(cmds), Get32(f, 12) == 2)
      && IsSpecial(q, InfoPlist(f).Some?, Get32Big(b, 24))
      && ImageEnd(f).value <= Get32Big(b, 32) < ImageEnd(f).value + 16 && Get32Big(b, 32) % 16 == 0
  {
    hide Fits, IsMachO, Sign, InfoPlist, AfterPasses, Directory, Posts, IsSpecial, EstimateSpecial, Describes, AlignUp;
    hide DirectoryIn, Wrap, ImageEnd, ValidSlice, ExecRange, IsRange, Estimate, SliceOf, SignLayout, Special, Hashable;
    hide Get32Big, Sorted;
    DirectoryRead(f, q, align, k);
    var l, info, a, cmds := SignLayout(f, q, align), InfoPlist(f), q.algorithms[k], Signing.ParsedCommands(f);
    var s := SliceOf(f, l);
    DirectoryFields(q, a, AfterPasses(q, info, s, k), Posts(q, info), s);
    PassesMax(q, info, s, k);
    SpecialIs(q, info.Some?);
    ExecRangeIs(cmds);
    SliceParts(f, l);
    LimitIs(f, q, align);
    DescribesFields(DirectoryIn(Sign(f, q, align), k).value, q, a, Special(AfterPasses(q, info, s, k), Posts(q, info)),
                    s.limit, Range(s.left, s.right), s.filetype == 2);
  }

  lemma DescribesFields(b: seq<byte>, q: Request, a: Algorithm, special: nat, limit: nat, r: Range, executable: bool)
    requires Describes(b, q, a, special, limit, r, executable)
    ensures |b| >= 88 && Get32Big(b, 24) == special && Get32Big(b, 32) == limit
  {
  }

  lemma SliceParts(f: seq<byte>, l: Layout)
    requires Fits(f, l)
    ensures IsMachO(f)
    ensures var s, cmds := SliceOf(f, l), Signing.ParsedCommands(f);
      s.limit == l.limit && Range(s.left, s.right) == ExecRange(cmds) && s.filetype == Get32(f, 12)
  {
    hide Head, Read, AlignUp, ExecRange, IsMachO, Get32;
    Signing.FitsMachO(f, l);
  }

  lemma LimitIs(f: seq<byte>, q: Request, align: nat)
    requires CanSign(f, q, align)
    ensures var l := SignLayout(f, q, align);
      && Fits(f, l) && ImageEnd(f).value <= l.limit < ImageEnd(f).value + 16 && l.limit % 16 == 0
  {
    hide Fits, IsMachO, ImageEnd, Estimate, ValidRequest;
    AlignUpIs(ImageEnd(f).value, 16);
  }

  /** The two numbers that bound the slots. */
  lemma CountsOfDirectory(f: seq<byte>, q: Request, align: nat, k: nat)
    requires CanSign(f, q, align) && k < |q.algorithms|
    ensures DirectoryIn(Sign(f, q, align), k).Some? && |DirectoryIn(Sign(f, q, align), k).value| >= 88
    ensures Get32Big(DirectoryIn(Sign(f, q, align), k).value, 24) == EstimateSpecial(q, InfoPlist(f).Some?)
    ensures Get32Big(DirectoryIn(Sign(f, q, align), k).value, 32) == SignLayout(f, q, align).limit
    ensures IsSpecial(q, InfoPlist(f).Some?, EstimateSpecial(q, InfoPlist(f).Some?))
  {
    hide Fits, IsMachO, Sign, InfoPlist, AfterPasses, Directory, Posts, EstimateSpecial, Describes, AlignUp, IsSpecial;
    hide DirectoryIn, Wrap, ImageEnd, ValidSlice, ExecRange, Estimate, SliceOf, SignLayout, Special, Hashable;
    hide Get32Big, Sorted;
    DirectoryRead(f, q, align, k);
    LimitIs(f, q, align);
    SliceParts(f, SignLayout(f, q, align));
    SpecialIs(q, InfoPlist(f).Some?);
    var l, info, a := SignLayout(f, q, align), InfoPlist(f), q.algorithms[k];
    var s := SliceOf(f, l);
    PassesMax(q, info, s, k);
    DirectoryFields(q, a, AfterPasses(q, info, s, k), Posts(q, info), s);
    DescribesFields(DirectoryIn(Sign(f, q, align), k).value, q, a, Special(AfterPasses(q, info, s, k), Posts(q, info)),
                    s.limit, Range(s.left, s.right), s.filetype == 2);
  }

  /** The hash found at place j of a directory of a signed file. */
  lemma HashRead(f: seq<byte>, q: Request, align: nat, k: nat, j: nat)
    requires CanSign(f, q, align) && k < |q.algorithms|
    requires j < EstimateSpecial(q, InfoPlist(f).Some?) + Pages(SignLayout(f, q, align).limit)
    ensures DirectoryIn(Sign(f, q, align), k).Some? && |DirectoryIn(Sign(f, q, align), k).value| >= 88
    ensures var s, info := SliceOf(f, SignLayout(f, q, align)), InfoPlist(f);
      && ValidSlice(s) && s.limit == SignLayout(f, q, align).limit
      && Special(AfterPasses(q, info, s, k), Posts(q, info)) == EstimateSpecial(q, info.Some?)
      && HashIn(DirectoryIn(Sign(f, q, align), k).value, j - EstimateSpecial(q, info.Some?))
        == Some(Cell(q, q.algorithms[k], AfterPasses(q, info, s, k), Posts(q, info), s, j))
  {
    hide Fits, IsMachO, Sign, InfoPlist, AfterPasses, Directory, Posts, EstimateSpecial, SignLayout, Pages;
    hide DirectoryIn, Wrap, ImageEnd, ValidSlice, ExecRange, SliceOf, Special, Hashable, Get32Big, Cell, Sorted;
    hide HashIn;
    DirectoryRead(f, q, align, k);
    LimitIs(f, q, align);
    SliceParts(f, SignLayout(f, q, align));
    var s, info := SliceOf(f, SignLayout(f, q, align)), InfoPlist(f);
    PassesMax(q, info, s, k);
    CellRead(q, q.algorithms[k], AfterPasses(q, info, s, k), Posts(q, info), s, j);
  }

  /** Code slot i of every directory, found where its fields say, holds the hash of that
      page of the signed file; the last one holds the hash of the source bytes in its place. */
  lemma CodeSlotsDescribeOutput(f: seq<byte>, q: Request, align: nat, k: nat, i: nat)
    requires CanSign(f, q, align) && k < |q.algorithms| && 0x1000 * i < SignLayout(f, q, align).limit
    ensures DirectoryIn(Sign(f, q, align), k).Some? && |DirectoryIn(Sign(f, q, align), k).value| >= 88
    ensures var y, b := Sign(f, q, align), DirectoryIn(Sign(f, q, align), k).value;
      var limit := Get32Big(b, 32);
      && 0x1000 * i < limit <= |y| && HashIn(b, i).Some?
      && Hashes(HashIn(b, i).value, q.digests, q.algorithms[k],
                if 0x1000 * (i + 1) < limit then y[0x1000 * i..0x1000 * i + 0x1000] else Source(f, 0x1000 * i, limit))
  {
    hide Fits, IsMachO, Sign, InfoPlist, AfterPasses, Directory, Posts, EstimateSpecial, SignLayout, Describes;
    hide DirectoryIn, Wrap, ImageEnd, ValidSlice, ExecRange, SliceOf, Special, Hashable, Get32Big, ValidRequest;
    hide HashIn, Hashes, PageBytes, Digest, AlignUp, Body, Starts, SignatureOf, Zeros, Read, IsSpecial, IsRange, Source;
    DirectoryDescribesOutput(f, q, align, k);
    Signing.SignedParts(f, q, align);
    var y, l, a, info := Sign(f, q, align), SignLayout(f, q, align), q.algorithms[k], InfoPlist(f);
    var b, s := DirectoryIn(y, k).value, SliceOf(f, l);
    CountsOfDirectory(f, q, align, k);
    PageNumber(l.limit, i);
    HashRead(f, q, align, k, EstimateSpecial(q, info.Some?) + i);
    Signing.EmittedPage(f, l, y, i);
    DigestHashes(q.digests, a, PageBytes(s, i));
    ReadIs(f, 0x1000 * i, l.limit);
  }

  lemma PageNumber(limit: nat, i: nat)
    requires 0x1000 * i < limit
    ensures i < Pages(limit) && (i + 1 < Pages(limit) <==> 0x1000 * (i + 1) < limit)
  {
  }

  // ----- Special slots of a signed file -----

  /** The entitlements as a blob: magic, length, contents. */
  function EntitlementsBlob(q: Request): (b: seq<byte>)
  {
    [0xFA, 0xDE, 0x71, 0x71] + Put32Big(Low32(8 + |q.entitlements|)) + q.entitlements
  }

  lemma {:induction false} FindNot<T>(t: Table<T>, slot: uint32)
    requires Find(t, slot).None?
    ensures forall i :: 0 <= i < |t| ==> t[i].slot != slot
  {
    if t != [] {
      FindNot(t[1..], slot);
    }
  }

  /** Nothing else is in the table when a directory is made. */
  lemma OtherSlots(q: Request, info: Option<seq<byte>>, s: Slice, k: nat, n: uint32)
    requires ValidRequest(q) && ValidSlice(s) && k < |q.algorithms| && n != 0 && n != 2 && n != 5
    ensures Find(AfterPasses(q, info, s, k), n).None?
  {
    hide Insert, Wrap, Directory, Hashable, Find;
    var first := Insert([], CSSLOT_REQUIREMENTS, q.requirements);
    assert Find<seq<byte>>([], n).None? by { FindNone<seq<byte>>([], n); }
    assert Sorted(first) by { InsertSorted([], CSSLOT_REQUIREMENTS, q.requirements); }
    FindInsert([], CSSLOT_REQUIREMENTS, q.requirements, n);
    FindInsert(first, CSSLOT_ENTITLEMENTS, Wrap(CSMAGIC_EMBEDDED_ENTITLEMENTS, q.entitlements), n);
    assert Find(FirstBlobs(q), n).None?;
    if k == 1 {
      var before := AfterPasses(q, info, s, 0);
      FindInsert(before, DirectorySlot(0),
                 Wrap(CSMAGIC_CODEDIRECTORY, Directory(q, q.algorithms[0], before, Posts(q, info), s)), n);
    }
  }

  lemma OfIsHash(h: Hash, a: Algorithm)
    ensures IsHash(Of(h, a), a, if a == Sha1 then h.sha1 else h.sha256)
  {
  }

  lemma EntitlementsBlobIs(q: Request)
    requires 8 + |q.entitlements| < 0x1_0000_0000
    ensures SelfSized(Wrap(CSMAGIC_EMBEDDED_ENTITLEMENTS, q.entitlements))
    ensures Wrap(CSMAGIC_EMBEDDED_ENTITLEMENTS, q.entitlements) == EntitlementsBlob(q) == Hashed(EntitlementsBlob(q))
  {
    WrapSelfSized(CSMAGIC_EMBEDDED_ENTITLEMENTS, q.entitlements);
    MagicBytes();
  }

  lemma MagicBytes()
    ensures Put32Big(0xFADE_7171) == [0xFA, 0xDE, 0x71, 0x71]
  {
  }

  /** What special slot n of directory k holds, by who claims it. */
  ghost predicate SlotHolds(h: seq<byte>, f: seq<byte>, q: Request, a: Algorithm, plist: Option<Extent>, n: nat)
  {
    if plist.Some? && n == 1 then
      plist.value.begin <= plist.value.end && Hashes(h, q.digests, a, Source(f, plist.value.begin, plist.value.end))
    else if exists i :: 0 <= i < |q.slots| && q.slots[i].slot == n then
      forall i :: 0 <= i < |q.slots| && q.slots[i].slot == n ==>
        IsHash(h, a, if a == Sha1 then q.slots[i].value.sha1 else q.slots[i].value.sha256)
    else if n == 2 then
      |q.requirements| >= 8 && Get32Big(q.requirements, 4) <= |q.requirements|
      && Hashes(h, q.digests, a, q.requirements[..Get32Big(q.requirements, 4)])
    else if n == 5 && q.entitlements != [] then Hashes(h, q.digests, a, EntitlementsBlob(q))
    else IsHash(h, a, [])
  }

  lemma SlotHashHolds(f: seq<byte>, q: Request, info: Option<seq<byte>>, s: Slice, k: nat, n: uint32,
                      plist: Option<Extent>)
    requires ValidRequest(q) && ValidSlice(s) && k < |q.algorithms| && n != 0 && 8 + |q.entitlements| < 0x1_0000_0000
    requires info == match plist
      case None => None
      case Some(e) => if e.begin <= e.end then Some(Source(f, e.begin, e.end)) else None
    requires plist.Some? ==> plist.value.begin <= plist.value.end
    ensures SlotHolds(SlotHash(q, q.algorithms[k], AfterPasses(q, info, s, k), Posts(q, info), n), f, q,
                      q.algorithms[k], plist, n)
  {
    hide AfterPasses, Insert, InfoHash, Digest, Hashes, IsHash, Of, Find, EntitlementsBlob, Wrap, Source, Sorted;
    hide Get32Big;
    var a, blobs, posts := q.algorithms[k], AfterPasses(q, info, s, k), Posts(q, info);
    Signing.PostsFind(q, info, a);
    if plist.Some? && n == 1 {
      DigestHashes(q.digests, a, info.value);
    } else if Find(q.slots, n).Some? {
      OfIsHash(Find(q.slots, n).value, a);
      var j := IndexOf(q.slots, n);
      forall i | 0 <= i < |q.slots| && q.slots[i].slot == n ensures i == j
      {
        FindIs(q.slots, i);
        Unique(q.slots, i, j);
      }
    } else {
      FindNot(q.slots, n);
      assert Find(posts, n).None?;
      Signing.BlobsFound(q, info, s, k);
      if n == 2 {
        DigestHashes(q.digests, a, Hashed(q.requirements));
        assert Hashed(q.requirements) == q.requirements[..Get32Big(q.requirements, 4)];
      } else if n == 5 {
        if q.entitlements != [] {
          EntitlementsBlobIs(q);
          DigestHashes(q.digests, a, EntitlementsBlob(q));
        } else {
          ZerosIsHash(a);
        }
      } else {
        OtherSlots(q, info, s, k, n);
        ZerosIsHash(a);
      }
    }
  }

  lemma Unique<T>(t: Table<T>, i: nat, j: nat)
    requires Sorted(t) && i < |t| && j < |t| && t[i].slot == t[j].slot
    ensures i == j
  {
  }

  lemma ZerosIsHash(a: Algorithm)
    ensures IsHash(Zeros(HashSize(a)), a, [])
  {
  }

  lemma PlistRead(f: seq<byte>)
    requires IsMachO(f)
    ensures var plist := ToExtent(InfoSpan(Signing.ParsedCommands(f)));
      && IsPlist(Signing.ParsedCommands(f), plist) && (plist.Some? ==> plist.value.begin <= plist.value.end)
      && InfoPlist(f) == match plist
        case None => None
        case Some(e) => if e.begin <= e.end then Some(Source(f, e.begin, e.end)) else None
  {
    hide InfoSpan, IsPlist, IsMachO, Read, Source;
    InfoSpanIs(Signing.ParsedCommands(f));
    if InfoSpan(Signing.ParsedCommands(f)).Some? {
      var span := InfoSpan(Signing.ParsedCommands(f)).value;
      ReadIs(f, span.offset, span.offset + span.size);
    }
  }

  lemma EntitlementsShort(f: seq<byte>, q: Request, align: nat)
    requires CanSign(f, q, align)
    ensures 8 + |q.entitlements| < 0x1_0000_0000
  {
    hide Fits, IsMachO, ImageEnd, ValidRequest, EstimateAfter, SignLayout, AfterPasses, DataSize, Serialize, SliceOf;
    hide Find, InfoPlist, Sign, Zeros, Wrap;
    Signing.TableWritten(f, q, align);
    var s, info := SliceOf(f, SignLayout(f, q, align)), InfoPlist(f);
    var t := AfterPasses(q, info, s, |q.algorithms|);
    Below(f, SignLayout(f, q, align));
    Signing.BlobsFound(q, info, s, |q.algorithms|);
    if q.entitlements != [] {
      var j := IndexOf(t, CSSLOT_ENTITLEMENTS);
      DataAt(t, j);
    }
  }

  ghost predicate SpecialSlot(b: seq<byte>, f: seq<byte>, q: Request, a: Algorithm, plist: Option<Extent>, n: nat)
    requires |b| >= 88
  {
    HashIn(b, 0 - n).Some? && SlotHolds(HashIn(b, 0 - n).value, f, q, a, plist, n)
  }

  /** Special slots 1 up to the number written in the directory stand below its code slots
      and hold what they should; slots nobody claims hold zeros. */
  lemma SpecialSlotsHold(f: seq<byte>, q: Request, align: nat, k: nat)
    requires CanSign(f, q, align) && k < |q.algorithms|
    ensures DirectoryIn(Sign(f, q, align), k).Some? && |DirectoryIn(Sign(f, q, align), k).value| >= 88
    ensures var b, cmds := DirectoryIn(Sign(f, q, align), k).value, Signing.ParsedCommands(f);
      var plist := ToExtent(InfoSpan(cmds));
      && IsPlist(cmds, plist) && IsSpecial(q, plist.Some?, Get32Big(b, 24))
      && forall n: nat :: 1 <= n <= Get32Big(b, 24) ==> SpecialSlot(b, f, q, q.algorithms[k], plist, n)
  {
    hide Fits, IsMachO, Sign, InfoPlist, AfterPasses, Directory, Posts, SignLayout, EstimateSpecial, SlotHash;
    hide DirectoryIn, ImageEnd, ValidSlice, SliceOf, Special, Get32Big, Sorted, HashIn, ValidRequest, Hashable;
    hide InfoSpan, IsPlist, IsSpecial, Source, SlotHolds, Pages;
    PlistRead(f);
    DirectoryRead(f, q, align, k);
    CountsOfDirectory(f, q, align, k);
    EntitlementsShort(f, q, align);
    var b, plist := DirectoryIn(Sign(f, q, align), k).value, ToExtent(InfoSpan(Signing.ParsedCommands(f)));
    var a, info, s := q.algorithms[k], InfoPlist(f), SliceOf(f, SignLayout(f, q, align));
    var special := EstimateSpecial(q, info.Some?);
    forall n: nat | 1 <= n <= Get32Big(b, 24) ensures SpecialSlot(b, f, q, a, plist, n)
    {
      HashRead(f, q, align, k, special - n);
      SlotHashHolds(f, q, info, s, k, n, plist);
    }
  }

  // ----- The rest of an output -----

  /** Before the signature: the header, the commands and zeros where the old commands were
      longer, then the image as it was, then zeros up to the rounded size. */
  lemma BodyBytes(f: seq<byte>, l: Layout, y: seq<byte>)
    requires Fits(f, l) && l.limit <= |y| && y[..l.limit] == Body(f, l) && |y| >= 32
    ensures IsMachO(f) && IsMachO(y) && y[..16] == f[..16] && y[24..28] == f[24..28]
    ensures var at := if Get32(f, 0) == 0xFEED_FACF then 32 else 28;
      var end := at + if Get32(f, 20) > Get32(y, 20) then Get32(f, 20) else Get32(y, 20);
      && end <= l.size <= |f| && (forall j :: 28 <= j < at ==> y[j] == 0)
      && (forall j :: at + Get32(y, 20) <= j < end ==> y[j] == 0)
      && (forall j :: end <= j < l.size ==> y[j] == f[j])
      && (forall j :: l.size <= j < l.limit ==> y[j] == 0)
    ensures var cmds, r := Signing.ParsedCommands(f), Signing.ParsedCommands(y);
      && AllKept(r, cmds, l.limit + l.alloc, l.align)
      && |r| == KeptBefore(cmds, |cmds|) + (if l.alloc == 0 then 0 else 1)
      && (l.alloc != 0 ==> LocatesSignature(r[|r| - 1], l.limit, l.alloc))
  {
    hide Head, Body, IsMachO, Get32, Kept, HeadOf, AllKept, Fits, NewCommands, LocatesSignature, Zeros;
    Signing.FitsMachO(f, l);
    Signing.SliceIs(f, l);
    Signing.BodyIs(f, l);
    var h := Head(f, l);
    assert y[..|h|] == y[..l.limit][..|h|] == h;
    OutputIsMachO(f, l, y);
    HeadBytes(f, l, y);
    BehindHead(f, h, l, y);
    KeptAreWritten(f, l);
  }

  ghost predicate LocatesSignature(c: Command, limit: nat, alloc: nat)
  {
    |c| == 16 && Get32(c, 0) == 0x1D && Get32(c, 4) == 16 && Get32(c, 8) == limit && Get32(c, 12) == alloc
  }

  lemma KeptAreWritten(f: seq<byte>, l: Layout)
    requires IsMachO(f) && Expressible(l)
    ensures var cmds, r := Signing.ParsedCommands(f), Kept(f, l);
      && AllKept(r, cmds, l.limit + l.alloc, l.align)
      && |r| == KeptBefore(cmds, |cmds|) + (if l.alloc == 0 then 0 else 1)
      && (l.alloc != 0 ==> LocatesSignature(r[|r| - 1], l.limit, l.alloc))
  {
    hide IsMachO, AllKept, NewCommands, Get32;
    NewCommandsAre(Signing.ParsedCommands(f), l.limit, l.alloc, l.align);
  }

  lemma HeadBytes(f: seq<byte>, l: Layout, y: seq<byte>)
    requires Fits(f, l) && Starts(y, f, l) && |y| >= 32 && IsMachO(y)
    ensures IsMachO(f)
    ensures var at, h := if Get32(f, 0) == 0xFEED_FACF then 32 else 28, Head(f, l);
      && |h| == at + (if Get32(f, 20) > Get32(y, 20) then Get32(f, 20) else Get32(y, 20))
      && (forall j :: 28 <= j < at ==> y[j] == 0)
      && forall j :: at + Get32(y, 20) <= j < |h| ==> y[j] == 0
  {
    hide Kept, Get32, HeadOf, IsMachO, WellFormed, Zeros, Fits;
    Signing.FitsMachO(f, l);
    HeadFields(f, l, y);
    HeadOfMachO(f);
    var cmds, h := Kept(f, l), Head(f, l);
    HeadParts(f[..16], f[24..28], Wide(f), cmds, SizeOfCmds(f));
    var at := if Wide(f) then 32 else 28;
    assert forall j :: 28 <= j < at ==> y[j] == y[28..32][j - 28] == Zeros(4)[j - 28];
    forall j | at + Total(cmds) <= j < |h| ensures y[j] == 0
    {
      assert y[j] == y[..|h|][j] == h[j] == h[at + Total(cmds)..][j - at - Total(cmds)];
    }
  }

  lemma BehindHead(f: seq<byte>, h: seq<byte>, l: Layout, y: seq<byte>)
    requires |h| <= l.size <= |f| && l.size <= l.limit <= |y|
    requires y[..l.limit] == h + f[|h|..l.size] + Zeros(l.limit - l.size)
    ensures forall j :: |h| <= j < l.size ==> y[j] == f[j]
    ensures forall j :: l.size <= j < l.limit ==> y[j] == 0
  {
    var b := y[..l.limit];
    assert forall j :: 0 <= j < l.limit ==> y[j] == b[j];
  }

  /** A stripped file ends where the image ends, keeps its commands but for signatures, and
      has no new one. */
  lemma StrippedBytes(f: seq<byte>, align: nat)
    requires CanUnsign(f, align) && ImageEnd(f).value >= 32
    ensures var y := Unsign(f, align);
      && |y| == ImageEnd(f).value && IsMachO(y)
      && AllKept(Signing.ParsedCommands(y), Signing.ParsedCommands(f), |y|, align)
      && |Signing.ParsedCommands(y)| == KeptBefore(Signing.ParsedCommands(f), |Signing.ParsedCommands(f)|)
  {
    hide IsMachO, Body, Kept, AllKept, KeptBefore, LocatesSignature, ImageEnd, Head;
    var l, y := UnsignLayout(f, align), Unsign(f, align);
    assert y[..l.limit] == y;
    BodyBytes(f, l, y);
  }

  // ----- Room behind the signature -----

  lemma {:induction false} InsertFreshSize(t: Blobs, slot: uint32, value: seq<byte>)
    requires Find(t, slot).None?
    ensures Size(Insert(t, slot, value)) == Size(t) + 8 + |value|
  {
    var r := Insert(t, slot, value);
    if t == [] || slot < t[0].slot {
      assert r[1..] == t;
    } else {
      InsertFreshSize(t[1..], slot, value);
      assert r[1..] == Insert(t[1..], slot, value);
    }
  }

  lemma DirectorySlotFree(q: Request, info: Option<seq<byte>>, s: Slice, k: nat)
    requires ValidRequest(q) && ValidSlice(s) && k < |q.algorithms|
    ensures Find(AfterPasses(q, info, s, k), DirectorySlot(k)).None?
  {
    hide Insert, Wrap, Directory, Hashable, Find, Sorted;
    if k == 0 {
      var first := Insert([], CSSLOT_REQUIREMENTS, q.requirements);
      assert Find<seq<byte>>([], 0).None? by { FindNone<seq<byte>>([], 0); }
      assert Sorted<seq<byte>>([]) by { NoneSorted(); }
      assert Sorted(first) by { InsertSorted([], CSSLOT_REQUIREMENTS, q.requirements); }
      FindInsert([], CSSLOT_REQUIREMENTS, q.requirements, 0);
      FindInsert(first, CSSLOT_ENTITLEMENTS, Wrap(CSMAGIC_EMBEDDED_ENTITLEMENTS, q.entitlements), 0);
    } else {
      OtherSlots(q, info, s, k, 0x1000);
    }
  }

  lemma NoneSorted()
    ensures Sorted<seq<byte>>([])
  {
  }

  /** The estimate rounds up once for each directory, and is exact otherwise. */
  lemma {:induction false} SpareAfter(q: Request, info: Option<seq<byte>>, s: Slice, k: nat)
    requires ValidRequest(q) && ValidSlice(s) && k <= |q.algorithms|
    ensures EstimateAfter(q, info.Some?, Pages(s.limit), k) <= Size(AfterPasses(q, info, s, k)) + 15 * k
  {
    hide Insert, Directory, MaxSlot, Special, EstimateSpecial, Find, Sorted, Hashable, Pages, DataSize, HashSize;
    hide ValidSlice, Posts;
    if k == 0 {
      FirstSize(q);
    } else {
      SpareAfter(q, info, s, k - 1);
      PassesMax(q, info, s, k - 1);
      DirectorySlotFree(q, info, s, k - 1);
      var before := AfterPasses(q, info, s, k - 1);
      var directory := Directory(q, q.algorithms[k - 1], before, Posts(q, info), s);
      InsertFreshSize(before, DirectorySlot(k - 1), Wrap(CSMAGIC_CODEDIRECTORY, directory));
      EstimateStep(q, info.Some?, Pages(s.limit), k, |directory|);
    }
  }

  lemma EstimateStep(q: Request, info: bool, pages: nat, k: nat, size: nat)
    requires 0 < k <= |q.algorithms|
    requires size == 80 + |q.identifier| + 1 + (EstimateSpecial(q, info) + pages) * HashSize(q.algorithms[k - 1])
    ensures EstimateAfter(q, info, pages, k) <= EstimateAfter(q, info, pages, k - 1) + 16 + size + 15
  {
    hide EstimateSpecial, HashSize, AlignUp;
    AlignUpIs(EstimateAfter(q, info, pages, k - 1) + 16 + size, 16);
  }

  lemma FirstSize(q: Request)
    ensures Size(FirstBlobs(q)) == 20 + |q.requirements| + (if q.entitlements == [] then 0 else 16 + |q.entitlements|)
  {
    hide Wrap, DataSize;
    var first := Insert([], CSSLOT_REQUIREMENTS, q.requirements);
    InsertFreshSize([], CSSLOT_REQUIREMENTS, q.requirements);
    assert first == [Entry(CSSLOT_REQUIREMENTS, q.requirements)];
    assert DataSize([]) == 0 by { NothingStored(); }
    if q.entitlements != [] {
      InsertFreshSize(first, CSSLOT_ENTITLEMENTS, Wrap(CSMAGIC_EMBEDDED_ENTITLEMENTS, q.entitlements));
    }
  }

  lemma NothingStored()
    ensures DataSize([]) == 0
  {
  }

  /** The signature ends the file: the table is as long as it says, fewer than 16 bytes for
      each directory are left over, and they are zeros. */
  lemma SignatureFills(f: seq<byte>, q: Request, align: nat)
    requires CanSign(f, q, align)
    ensures SignatureIn(Sign(f, q, align)).Some? && |SignatureIn(Sign(f, q, align)).value| >= 12
    ensures var s := SignatureIn(Sign(f, q, align)).value;
      && Get32Big(s, 0) == 0xFADE_0CC0 && Get32Big(s, 4) <= |s| <= Get32Big(s, 4) + 15 * |q.algorithms|
      && forall i :: Get32Big(s, 4) <= i < |s| ==> s[i] == 0
  {
    hide Fits, SignLayout, IsMachO, Sign, SliceOf, InfoPlist, AfterPasses, Serialize, ValidRequest, Put32Big;
    hide Zeros, SignatureIn, ImageEnd, ValidSlice, Body, SignatureOf, Starts, DataSize, EstimateAfter, Get32Big;
    Signing.TableWritten(f, q, align);
    Signing.SignedParts(f, q, align);
    SignatureLocated(f, q, align);
    var l, info := SignLayout(f, q, align), InfoPlist(f);
    var s := SliceOf(f, l);
    var t := AfterPasses(q, info, s, |q.algorithms|);
    var bytes, written := Serialize(CSMAGIC_EMBEDDED_SIGNATURE, t), Sign(f, q, align)[l.limit..];
    Below(f, l);
    SerializedParts(CSMAGIC_EMBEDDED_SIGNATURE, t);
    GetPut32Big(bytes, 0, CSMAGIC_EMBEDDED_SIGNATURE);
    GetPut32Big(bytes, 4, Size(t));
    Entitlements.SameBig32(written, bytes, 0);
    Entitlements.SameBig32(written, bytes, 4);
    SpareAfter(q, info, s, |q.algorithms|);
    AllocIs(f, q, align);
    assert forall i :: |bytes| <= i < |written| ==> written[i] == Zeros(l.alloc - |bytes|)[i - |bytes|];
  }

  lemma AllocIs(f: seq<byte>, q: Request, align: nat)
    requires CanSign(f, q, align)
    ensures var l := SignLayout(f, q, align);
      && Fits(f, l) && SliceOf(f, l).limit == l.limit
      && l.alloc == EstimateAfter(q, InfoPlist(f).Some?, Pages(l.limit), |q.algorithms|)
  {
    hide IsMachO, EstimateAfter, ImageEnd, Head, Read, InfoSpan, ExecRange, Pages, AlignUp;
    var l := SignLayout(f, q, align);
    Signing.SliceIs(f, l);
    SameBlockCount(l.size);
  }

  /** The table holds the requirements under slot 2 and the entitlements, when there are
      any, under slot 5. */
  lemma BlobsRead(f: seq<byte>, q: Request, align: nat)
    requires CanSign(f, q, align)
    ensures SignatureIn(Sign(f, q, align)).Some?
    ensures Get32Big(q.requirements, 4) == |q.requirements| ==>
      BlobIn(SignatureIn(Sign(f, q, align)).value, 2) == Some(q.requirements)
    ensures q.entitlements != [] ==>
      BlobIn(SignatureIn(Sign(f, q, align)).value, 5) == Some(EntitlementsBlob(q))
  {
    hide Fits, SignLayout, IsMachO, Sign, SliceOf, InfoPlist, AfterPasses, Serialize, Hashable, Sorted, BlobIn, Wrap;
    hide Zeros, SignatureIn, ImageEnd, ValidSlice, Body, SignatureOf, Starts, DataSize, Get32Big, Find, EntitlementsBlob;
    Signing.TableWritten(f, q, align);
    SignatureLocated(f, q, align);
    EntitlementsShort(f, q, align);
    var l, info := SignLayout(f, q, align), InfoPlist(f);
    var s := SliceOf(f, l);
    var t := AfterPasses(q, info, s, |q.algorithms|);
    var bytes, written := Serialize(CSMAGIC_EMBEDDED_SIGNATURE, t), Sign(f, q, align)[l.limit..];
    Below(f, l);
    assert written[..Size(t)] == bytes;
    Signing.BlobsFound(q, info, s, |q.algorithms|);
    if Get32Big(q.requirements, 4) == |q.requirements| {
      BlobFound(written, t, 2);
    }
    if q.entitlements != [] {
      EntitlementsBlobIs(q);
      BlobFound(written, t, 5);
    }
  }

  // ----- Thin files -----

  /** The page size of a processor, when the signer knows it. */
  function PageOf(cpu: uint32): (n: nat)
  {
    match cpu
    case 7 => 4096
    case 0x0100_0007 => 4096
    case 18 => 4096
    case 0x0100_0012 => 4096
    case 12 => 16384
    case 0x0100_000C => 16384
    case _ => 1
  }

  lemma PageOfIs(cpu: uint32)
    ensures PageOf(cpu) == ThinAlign(cpu) && PageOf(cpu) in {1, 4096, 16384}
  {
  }

  lemma RoundedToPage(v: nat, n: nat, page: nat)
    requires page in {1, 4096, 16384} && IsRounded(v, n, page, 0x1_0000_0000_0000_0000)
    ensures v % page == 0
  {
    var r: nat :| n <= r < n + page && r % page == 0 && v == r % 0x1_0000_0000_0000_0000;
    var q := r / 0x1_0000_0000_0000_0000;
    var j := MultipleIs(r, page);
    var k := 0x1_0000_0000_0000_0000 / page;
    assert 0x1_0000_0000_0000_0000 == page * k;
    PageMultiple(v, page, j, k, q);
  }

  lemma PageMultiple(v: nat, page: nat, j: int, k: int, q: int)
    requires page > 0 && v == page * j - page * k * q
    ensures v % page == 0
  {
    assert page * j - page * k * q == (j - k * q) * page;
    ModMultiple(j - k * q, page);
  }

  lemma AlignIs(f: seq<byte>, q: Request, align: nat)
    requires CanSign(f, q, align)
    ensures SignLayout(f, q, align).align == align
  {
    hide Fits, IsMachO, ImageEnd, Estimate, ValidRequest;
  }

  /** In a thin file, __LINKEDIT takes whole pages of the file's processor in memory. */
  lemma ThinLinkedit(f: seq<byte>, q: Request, i: nat)
    requires Signing.CanSignThin(f, q) && i < |Signing.ParsedCommands(f)|
    requires Linkedit(Signing.ParsedCommands(f)[i]) && Get32(Signing.ParsedCommands(f)[i], 0) == 0x19
    ensures IsMachO(Signing.SignThin(f, q))
    ensures var k, r := KeptBefore(Signing.ParsedCommands(f), i), Signing.ParsedCommands(Signing.SignThin(f, q));
      k < |r| && |r[k]| >= 72 && Get64(r[k], 32) % PageOf(Get32(f, 4)) == 0
  {
    hide Fits, IsMachO, Get32, Get64, Sign, SignLayout, Linkedit, Body, IsRounded, ThinAlign, PageOf, ImageEnd;
    hide LocatesSignature, KeptBefore, SignatureOf, Starts;
    var align, cmds := ThinAlign(CpuType(f)), Signing.ParsedCommands(f);
    Signing.SignedParts(f, q, align);
    var l, y := SignLayout(f, q, align), Sign(f, q, align);
    AlignIs(f, q, align);
    BodyBytes(f, l, y);
    assert KeptAt(Signing.ParsedCommands(y), cmds, i, l.limit + l.alloc, l.align);
    PageOfIs(CpuType(f));
    RoundedToPage(Get64(Signing.ParsedCommands(y)[KeptBefore(cmds, i)], 32),
                  Get64(Signing.ParsedCommands(y)[KeptBefore(cmds, i)], 48), align);
  }
}

/** A whole fat file: the table of slices at its front, and the slices it locates. */
module FatFile {
  import opened Arithmetic
  import opened Bytes
  import opened MachO
  import opened CodeDirectory
  import opened Ldid
  import opened FatLayout
  import Signing
  import SuperBlob

  const FAT_MAGIC: uint32 := 0xCAFE_BABE

  // ----- The header -----

  /** struct fat_arch, big-endian; `align` is an exponent. */
  datatype Arch = Arch(cpuType: uint32, cpuSubtype: uint32, offset: uint32, size: uint32, align: uint32)

  function ArchBytes(a: Arch): (r: seq<byte>)
    ensures |r| == 20
  {
    Put32Big(a.cpuType) + Put32Big(a.cpuSubtype) + Put32Big(a.offset) + Put32Big(a.size) + Put32Big(a.align)
  }

  function ArchTable(archs: seq<Arch>): (r: seq<byte>)
    ensures |r| == 20 * |archs|
  {
    if archs == [] then [] else ArchTable(archs[..|archs| - 1]) + ArchBytes(archs[|archs| - 1])
  }

  function MagicAndCount(n: nat): (r: seq<byte>)
    ensures |r| == 8
  {
    Put32Big(FAT_MAGIC) + Put32Big(Low32(n))
  }

  function HeaderBytes(archs: seq<Arch>): (r: seq<byte>)
    ensures |r| == HeaderEnd(|archs|)
  {
    MagicAndCount(|archs|) + ArchTable(archs)
  }

  /** Entry k as a reader of the file finds it. */
  function ReadArch(s: seq<byte>, k: nat): (a: Arch)
    requires HeaderEnd(k + 1) <= |s|
  {
    var at := HeaderEnd(k);
    Arch(Get32Big(s, at), Get32Big(s, at + 4), Get32Big(s, at + 8), Get32Big(s, at + 12), Get32Big(s, at + 16))
  }

  lemma {:induction false} ArchAt(archs: seq<Arch>, k: nat)
    requires k < |archs|
    ensures ArchTable(archs)[20 * k..20 * k + 20] == ArchBytes(archs[k])
  {
    hide ArchBytes;
    var front := archs[..|archs| - 1];
    if k < |front| {
      ArchAt(front, k);
      assert ArchTable(archs)[..20 * |front|] == ArchTable(front);
    }
  }

  lemma ArchFields(s: seq<byte>, at: nat, a: Arch)
    requires at + 20 <= |s| && s[at..at + 20] == ArchBytes(a)
    ensures Get32Big(s, at) == a.cpuType && Get32Big(s, at + 4) == a.cpuSubtype && Get32Big(s, at + 8) == a.offset
    ensures Get32Big(s, at + 12) == a.size && Get32Big(s, at + 16) == a.align
  {
    hide Put32Big, Get32Big;
    var r := ArchBytes(a);
    assert r[0..4] == Put32Big(a.cpuType) && r[4..8] == Put32Big(a.cpuSubtype) && r[8..12] == Put32Big(a.offset);
    assert r[12..16] == Put32Big(a.size) && r[16..20] == Put32Big(a.align);
    SuperBlob.SubSlice(s, at, at + 20, 0, 4);
    SuperBlob.SubSlice(s, at, at + 20, 4, 8);
    SuperBlob.SubSlice(s, at, at + 20, 8, 12);
    SuperBlob.SubSlice(s, at, at + 20, 12, 16);
    SuperBlob.SubSlice(s, at, at + 20, 16, 20);
    GetPut32Big(s, at, a.cpuType);
    GetPut32Big(s, at + 4, a.cpuSubtype);
    GetPut32Big(s, at + 8, a.offset);
    GetPut32Big(s, at + 12, a.size);
    GetPut32Big(s, at + 16, a.align);
  }

  /** Whatever follows it, the header reads back as it was written. */
  lemma HeaderRoundTrip(archs: seq<Arch>, rest: seq<byte>, k: nat)
    requires k < |archs| < 0x1_0000_0000
    ensures var s := HeaderBytes(archs) + rest;
      Get32Big(s, 0) == FAT_MAGIC && Get32Big(s, 4) == |archs| && ReadArch(s, k) == archs[k]
  {
    hide Put32Big, Get32Big, ArchTable, ArchBytes;
    var s, at := HeaderBytes(archs) + rest, HeaderEnd(k);
    assert s[0..4] == Put32Big(FAT_MAGIC) && s[4..8] == Put32Big(Low32(|archs|));
    GetPut32Big(s, 0, FAT_MAGIC);
    GetPut32Big(s, 4, Low32(|archs|));
    assert s[8..HeaderEnd(|archs|)] == ArchTable(archs);
    SuperBlob.SubSlice(s, 8, HeaderEnd(|archs|), 20 * k, 20 * k + 20);
    ArchAt(archs, k);
    ArchFields(s, at, archs[k]);
  }

  // ----- Signing every slice -----

  /** One slice of the input, and the exponent that its entry asks for. */
  datatype Image = Image(bytes: seq<byte>, align: uint32)

  ghost predicate CanSignAll(images: seq<Image>, q: Request)
  {
    forall i :: 0 <= i < |images| ==> CanSign(images[i].bytes, q, Pow2(images[i].align))
  }

  ghost function SignLayouts(images: seq<Image>, q: Request): (r: seq<Layout>)
    requires CanSignAll(images, q)
    ensures |r| == |images|
    ensures forall i :: 0 <= i < |r| ==>
      r[i] == SignLayout(images[i].bytes, q, Pow2(images[i].align)) && r[i].align == Pow2(images[i].align)
  {
    seq(|images|, i requires 0 <= i < |images| => SignLayout(images[i].bytes, q, Pow2(images[i].align)))
  }

  ghost function SignedSlices(images: seq<Image>, q: Request): (r: seq<seq<byte>>)
    requires CanSignAll(images, q)
    ensures |r| == |images|
    ensures forall i :: 0 <= i < |r| ==> r[i] == Sign(images[i].bytes, q, Pow2(images[i].align))
  {
    seq(|images|, i requires 0 <= i < |images| => Sign(images[i].bytes, q, Pow2(images[i].align)))
  }

  ghost function SignOffsets(images: seq<Image>, q: Request): (r: seq<nat>)
    requires CanSignAll(images, q)
    ensures |r| == |images|
  {
    Offsets(SignLayouts(images, q), HeaderEnd(|images|))
  }

  /** The writer refuses slices whose place or size takes more than 32 bits. */
  predicate Narrow(layouts: seq<Layout>, offsets: seq<nat>)
    requires |offsets| == |layouts|
  {
    forall i :: 0 <= i < |layouts| ==> offsets[i] < 0x1_0000_0000 && Emitted(layouts[i]) < 0x1_0000_0000
  }

  function ArchOf(image: Image, l: Layout, offset: nat): (a: Arch)
    requires |image.bytes| >= 12
  {
    Arch(Get32(image.bytes, 4), Get32(image.bytes, 8), Low32(offset), Low32(Emitted(l)), image.align)
  }

  function ArchsOf(images: seq<Image>, layouts: seq<Layout>, offsets: seq<nat>): (r: seq<Arch>)
    requires |layouts| == |offsets| == |images| && forall i :: 0 <= i < |images| ==> |images[i].bytes| >= 12
    ensures |r| == |images|
  {
    seq(|images|, i requires 0 <= i < |images| => ArchOf(images[i], layouts[i], offsets[i]))
  }

  ghost function Archs(images: seq<Image>, q: Request): (r: seq<Arch>)
    requires CanSignAll(images, q)
    ensures |r| == |images|
  {
    ArchsOf(images, SignLayouts(images, q), SignOffsets(images, q))
  }

  ghost function SignFat(images: seq<Image>, q: Request): (y: seq<byte>)
    requires CanSignAll(images, q)
  {
    HeaderBytes(Archs(images, q)) + Slices(SignedSlices(images, q), SignOffsets(images, q), HeaderEnd(|images|))
  }

  lemma SlicesAreBodies(images: seq<Image>, q: Request)
    requires CanSignAll(images, q)
    ensures Bodies(SignLayouts(images, q), SignedSlices(images, q))
  {
    hide CanSign, SignLayout, Sign;
    forall i | 0 <= i < |images| ensures |SignedSlices(images, q)[i]| == Emitted(SignLayouts(images, q)[i])
    {
      SignedLength(images[i].bytes, q, Pow2(images[i].align));
    }
  }

  lemma SignedLength(f: seq<byte>, q: Request, align: nat)
    requires CanSign(f, q, align)
    ensures |f| >= 32 && IsMachO(f) && ImageEnd(f).Some?
    ensures |Sign(f, q, align)| == Emitted(SignLayout(f, q, align)) >= 32
  {
    hide SignLayout, Fits, ValidRequest, Sign;
    Signing.SignedParts(f, q, align);
  }

  /** A table of entries, and the slices behind it. */
  lemma TableLocates(archs: seq<Arch>, layouts: seq<Layout>, slices: seq<seq<byte>>, offsets: seq<nat>, k: nat)
    requires |archs| == |layouts| == |offsets| < 0x1_0000_0000 && k < |archs| && Bodies(layouts, slices)
    requires Apart(layouts, offsets, HeaderEnd(|archs|))
    requires archs[k].offset == offsets[k] && archs[k].size == |slices[k]|
    ensures var y, a := HeaderBytes(archs) + Slices(slices, offsets, HeaderEnd(|archs|)), archs[k];
      && HeaderEnd(k + 1) <= |y| && a.offset + a.size <= |y| && y[a.offset..a.offset + a.size] == slices[k]
      && Get32Big(y, 0) == FAT_MAGIC && Get32Big(y, 4) == |archs| && ReadArch(y, k) == a
  {
    hide Apart, Slices, HeaderBytes, Get32Big, ReadArch, Emitted;
    var n := HeaderEnd(|archs|);
    var rest := Slices(slices, offsets, n);
    HeaderRoundTrip(archs, rest, k);
    SliceAt(layouts, slices, offsets, n, k);
    Behind(HeaderBytes(archs), rest, offsets[k] - n, slices[k]);
  }

  /** Entry k of the table describes slice k. */
  ghost predicate Describes(a: Arch, image: Image, slice: seq<byte>)
  {
    && a.align == image.align && a.offset % Pow2(a.align) == 0 && a.size == |slice| >= 28
    && a.cpuType == CpuType(slice) && a.cpuSubtype == Get32(slice, 8)
  }

  lemma EntryDescribes(images: seq<Image>, q: Request, k: nat)
    requires CanSignAll(images, q) && k < |images| && Narrow(SignLayouts(images, q), SignOffsets(images, q))
    ensures Describes(Archs(images, q)[k], images[k], SignedSlices(images, q)[k])
    ensures Archs(images, q)[k].offset == SignOffsets(images, q)[k]
  {
    hide CanSign, SignLayout, Sign, Offsets, Get32, Narrow, Emitted, Pow2;
    NarrowAt(SignLayouts(images, q), SignOffsets(images, q), k);
    SignedLength(images[k].bytes, q, Pow2(images[k].align));
    OffsetsAligned(SignLayouts(images, q), HeaderEnd(|images|), k);
    Signing.SameProcessor(images[k].bytes, q, Pow2(images[k].align));
    var a, slice := Archs(images, q)[k], SignedSlices(images, q)[k];
    assert slice == Sign(images[k].bytes, q, Pow2(images[k].align));
    assert a == ArchOf(images[k], SignLayouts(images, q)[k], SignOffsets(images, q)[k]);
  }

  lemma EntryReadBack(images: seq<Image>, q: Request, k: nat)
    requires CanSignAll(images, q) && k < |images| < 0x1_0000_0000
    requires Narrow(SignLayouts(images, q), SignOffsets(images, q))
    requires Apart(SignLayouts(images, q), SignOffsets(images, q), HeaderEnd(|images|))
    ensures var y, slice := SignFat(images, q), Sign(images[k].bytes, q, Pow2(images[k].align));
      && HeaderEnd(k + 1) <= |y|
      && Get32Big(y, 0) == FAT_MAGIC && Get32Big(y, 4) == |images|
      && (var a := ReadArch(y, k);
          a.offset + a.size <= |y| && y[a.offset..a.offset + a.size] == slice && Describes(a, images[k], slice))
  {
    hide CanSignAll, SignLayouts, Sign, Apart, Slices, SignOffsets, HeaderBytes, Get32Big, ReadArch, Narrow;
    hide Describes, Pow2, Archs;
    hide Bodies;
    EntryDescribes(images, q, k);
    SlicesAreBodies(images, q);
    DescribedSize(Archs(images, q)[k], images[k], SignedSlices(images, q)[k]);
    TableLocates(Archs(images, q), SignLayouts(images, q), SignedSlices(images, q), SignOffsets(images, q), k);
  }

  /** Entry k of the file's table, by the places of its fields, locates this slice, on this
      alignment, and names its processor. */
  ghost predicate EntryLocates(y: seq<byte>, k: nat, slice: seq<byte>, align: uint32)
  {
    var at := 8 + 20 * k;
    && at + 20 <= |y| && |slice| >= 28
    && Get32Big(y, at) == Get32(slice, 4) && Get32Big(y, at + 4) == Get32(slice, 8)
    && Get32Big(y, at + 8) + Get32Big(y, at + 12) <= |y|
    && y[Get32Big(y, at + 8)..Get32Big(y, at + 8) + Get32Big(y, at + 12)] == slice
    && Get32Big(y, at + 16) == align && Get32Big(y, at + 8) % Pow2(align) == 0
  }

  lemma EntryIs(y: seq<byte>, k: nat, image: Image, slice: seq<byte>)
    requires HeaderEnd(k + 1) <= |y| && Describes(ReadArch(y, k), image, slice)
    requires ReadArch(y, k).offset + ReadArch(y, k).size <= |y|
    requires y[ReadArch(y, k).offset..ReadArch(y, k).offset + ReadArch(y, k).size] == slice
    ensures EntryLocates(y, k, slice, image.align)
  {
    hide Get32Big, Get32, Pow2;
  }

  /** What a reader of the written fat file finds: the magic, the number of slices, and
      entries that locate the signed slices. */
  lemma FatReadBack(images: seq<Image>, q: Request, k: nat)
    requires CanSignAll(images, q) && k < |images| < 0x1_0000_0000
    requires Narrow(SignLayouts(images, q), SignOffsets(images, q))
    requires Apart(SignLayouts(images, q), SignOffsets(images, q), HeaderEnd(|images|))
    ensures |SignFat(images, q)| >= 8
    ensures Get32Big(SignFat(images, q), 0) == 0xCAFE_BABE && Get32Big(SignFat(images, q), 4) == |images|
    ensures EntryLocates(SignFat(images, q), k, Sign(images[k].bytes, q, Pow2(images[k].align)), images[k].align)
  {
    hide CanSign, SignLayouts, Sign, Apart, SignOffsets, Get32Big, Narrow, SignFat, Pow2, Describes, ReadArch;
    hide EntryLocates;
    EntryReadBack(images, q, k);
    EntryIs(SignFat(images, q), k, images[k], Sign(images[k].bytes, q, Pow2(images[k].align)));
  }

  lemma DescribedSize(a: Arch, image: Image, slice: seq<byte>)
    requires Describes(a, image, slice)
    ensures a.size == |slice|
  {
  }

  lemma NarrowAt(layouts: seq<Layout>, offsets: seq<nat>, k: nat)
    requires |offsets| == |layouts| && Narrow(layouts, offsets) && k < |layouts|
    ensures Low32(offsets[k]) == offsets[k] && Low32(Emitted(layouts[k])) == Emitted(layouts[k])
  {
  }

  lemma Behind(h: seq<byte>, rest: seq<byte>, at: nat, part: seq<byte>)
    requires at + |part| <= |rest| && rest[at..at + |part|] == part
    ensures (h + rest)[|h| + at..|h| + at + |part|] == part
  {
  }

  // ----- Slices that collide -----

  /** Signing these would write the end of the first slice where the second one starts. */
  ghost predicate FirstTwoCollide(images: seq<Image>, q: Request)
  {
    && |images| > 1 && CanSignAll(images, q)
    && AllPlanned(SignLayouts(images, q))
    && !Apart(SignLayouts(images, q), SignOffsets(images, q), HeaderEnd(|images|))
    && SignOffsets(images, q)[1] < SignOffsets(images, q)[0] + Emitted(SignLayouts(images, q)[0])
  }

  /** Three copies of a plain executable, in entries that ask for no alignment: the header
      ends at 68, and the planner puts the second slice 4 bytes before the end of the first. */
  lemma UnalignedSlicesCollide(d: Digests)
    ensures var image := Image(Signing.PlainImage(0x1000), 0);
      FirstTwoCollide([image, image, image], Signing.PlainRequest(d))
  {
    hide CanSign, Signing.PlainImage, Signing.PlainRequest, SignLayout, Planned, Apart, Offsets, Emitted;
    var f, q := Signing.PlainImage(0x1000), Signing.PlainRequest(d);
    var image := Image(f, 0);
    PlainCollides(d);
    Signing.CanSignMachO(f, q, Pow2(0));
    var l := SignLayout(f, q, Pow2(0));
    assert CanSignAll([image, image, image], q);
    assert SignLayouts([image, image, image], q) == [l, l, l];
    ThreeCollide(l);
  }

  lemma ThreeCollide(l: Layout)
    requires Planned(l) && l.size == 4124 && l.alloc > 0 && l.align == 1
    ensures var offsets := Offsets([l, l, l], HeaderEnd(3));
      && AllPlanned([l, l, l]) && !Apart([l, l, l], offsets, HeaderEnd(3))
      && offsets[0] + Emitted(l) == offsets[1] + 4
  {
    hide Planned, Apart, Place, After, Emitted;
    FatSlicesApart([l, l, l]);
    UnitPlace(l, HeaderEnd(3));
    SkewedEnds(l, HeaderEnd(3));
    UnitPlace(l, After(l, HeaderEnd(3)));
    assert [l, l, l][1..] == [l, l];
  }

  lemma UnitPlace(l: Layout, offset: nat)
    requires l.align == 1
    ensures Place(l, offset) == offset && offset % l.align == 0
  {
  }

  lemma PlainCollides(d: Digests)
    ensures var f, q := Signing.PlainImage(0x1000), Signing.PlainRequest(d);
      && CanSign(f, q, Pow2(0))
      && (var l := SignLayout(f, q, Pow2(0)); Planned(l) && l.size == 4124 && l.alloc > 0 && l.align == 1)
  {
    hide Signing.PlainImage, Fits, Estimate, ImageEnd, IsMachO, Get32, ValidRequest;
    assert Pow2(0) == 1;
    Signing.PlainCanSign(d, 0x1000);
    Signing.PlainLayout(d, 0x1000);
    SignLayoutPlanned(Signing.PlainImage(0x1000), Signing.PlainRequest(d), 0);
  }
}

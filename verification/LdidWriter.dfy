/** The signer as it runs: loops that collect commands and blobs and append to a stream. */
module LdidWriter {
  import opened Arithmetic
  import opened Bytes
  import opened MachO
  import opened Options
  import opened LoadCommands
  import opened SuperBlob
  import opened Tables
  import opened CodeDirectory
  import opened Ldid
  import opened Signing
  import FatFile
  import FatLayout
  import HashStorage

  /** std::streambuf. */
  class Output {
    var bytes: seq<byte>

    constructor ()
      ensures bytes == []
    {
      bytes := [];
    }

    method Put(data: seq<byte>)
      modifies this
      ensures bytes == old(bytes) + data
    {
      bytes := bytes + data;
    }

    method Pad(n: nat)
      modifies this
      ensures bytes == old(bytes) + Zeros(n)
    {
      bytes := bytes + Zeros(n);
    }
  }

  lemma {:induction false} DataSnoc(blobs: Blobs, e: Entry<seq<byte>>)
    ensures DataSize(blobs + [e]) == DataSize(blobs) + |e.value|
    ensures Data(blobs + [e]) == Data(blobs) + e.value
  {
    if blobs == [] {
      assert [e][1..] == [];
      assert [] + [e] == [e];
      assert Data([e]) == e.value + Data([]);
    } else {
      assert (blobs + [e])[1..] == blobs[1..] + [e];
      DataSnoc(blobs[1..], e);
    }
  }

  lemma {:induction false} IndexSnoc(blobs: Blobs, e: Entry<seq<byte>>, at: nat)
    ensures Index(blobs + [e], at) == Index(blobs, at) + Put32Big(e.slot) + Put32Big(Low32(at + DataSize(blobs)))
  {
    hide Put32Big, Low32, DataSize;
    IndexSizes(blobs);
    if blobs == [] {
      assert [e][1..] == [];
      assert [] + [e] == [e];
      assert Index([e], at) == Put32Big(e.slot) + Put32Big(Low32(at)) + Index([], at + |e.value|);
    } else {
      assert (blobs + [e])[1..] == blobs[1..] + [e];
      IndexSnoc(blobs[1..], e, at + |blobs[0].value|);
    }
  }

  lemma IndexSizes(blobs: Blobs)
    ensures DataSize(blobs) == if blobs == [] then 0 else |blobs[0].value| + DataSize(blobs[1..])
  {
  }

  /** put for a table of blobs; returns the number of bytes written. */
  method PutSuperBlob(output: Output, magic: uint32, blobs: Blobs) returns (offset: nat)
    modifies output
    ensures output.bytes == old(output.bytes) + Serialize(magic, blobs)
    ensures offset == |Serialize(magic, blobs)|
  {
    hide Put32Big, Low32, Data, DataSize, Index;
    var total := 0;
    assert blobs[..0] == [] && blobs[..|blobs|] == blobs;
    EmptyTable();
    for i := 0 to |blobs|
      invariant total == DataSize(blobs[..i]) && output.bytes == old(output.bytes)
    {
      assert blobs[..i + 1] == blobs[..i] + [blobs[i]];
      DataSnoc(blobs[..i], blobs[i]);
      total := total + |blobs[i].value|;
    }
    var start := output.bytes;
    output.Put(Put32Big(magic) + Put32Big(Low32(12 + 8 * |blobs| + total)) + Put32Big(Low32(|blobs|)));
    var first := 12 + 8 * |blobs|;
    offset := first;
    for i := 0 to |blobs|
      invariant offset == first + DataSize(blobs[..i])
      invariant output.bytes == start + Header(magic, blobs) + Index(blobs[..i], first)
    {
      assert blobs[..i + 1] == blobs[..i] + [blobs[i]];
      IndexSnoc(blobs[..i], blobs[i], first);
      DataSnoc(blobs[..i], blobs[i]);
      output.Put(Put32Big(blobs[i].slot) + Put32Big(Low32(offset)));
      offset := offset + |blobs[i].value|;
    }
    for i := 0 to |blobs|
      invariant output.bytes == start + Header(magic, blobs) + Index(blobs, first) + Data(blobs[..i])
    {
      assert blobs[..i + 1] == blobs[..i] + [blobs[i]];
      DataSnoc(blobs[..i], blobs[i]);
      output.Put(blobs[i].value);
    }
    assert start + Header(magic, blobs) + Index(blobs, first) + Data(blobs) == start + Serialize(magic, blobs);
  }

  lemma EmptyTable()
    ensures DataSize([]) == 0 && Data([]) == [] && forall at: nat :: Index([], at) == []
  {
  }

  /** One algorithm's code directory, as a blob. */
  method MakeDirectory(q: Request, a: Algorithm, blobs: Blobs, posts: Table<Hash>, s: Slice) returns (blob: seq<byte>)
    requires Hashable(blobs) && Sorted(blobs) && Sorted(posts) && ValidSlice(s)
    ensures blob == Wrap(CSMAGIC_CODEDIRECTORY, Directory(q, a, blobs, posts, s))
  {
    hide Hashable, Sorted, Cells, Special, Pages, ValidSlice, Fields, Wrap, HashSize;
    var storage, special := HashStorage.Fill(q, a, blobs, posts, s);
    var data := Fields(q, a, special, s) + q.identifier + [0] + storage[..];
    blob := Wrap(CSMAGIC_CODEDIRECTORY, data);
  }

  /** The closure that writes the signature of one slice. */
  method Save(output: Output, q: Request, info: Option<seq<byte>>, s: Slice) returns (saved: nat)
    requires ValidRequest(q) && ValidSlice(s)
    modifies output
    ensures output.bytes == old(output.bytes) + Signature(q, info, s)
    ensures saved == |Signature(q, info, s)|
  {
    hide Insert, Hashable, Sorted, ValidSlice, Serialize, Directory, Wrap, Posts, MaxSlot, Get32Big;
    var blobs := Insert([], CSSLOT_REQUIREMENTS, q.requirements);
    if q.entitlements != [] {
      blobs := Insert(blobs, CSSLOT_ENTITLEMENTS, Wrap(CSMAGIC_EMBEDDED_ENTITLEMENTS, q.entitlements));
    }
    var posts := Posts(q, info);
    PostsSorted(q, info);
    for total := 0 to |q.algorithms|
      invariant blobs == AfterPasses(q, info, s, total) && output.bytes == old(output.bytes)
    {
      var blob := MakeDirectory(q, q.algorithms[total], blobs, posts, s);
      blobs := Insert(blobs, DirectorySlot(total), blob);
    }
    saved := PutSuperBlob(output, CSMAGIC_EMBEDDED_SIGNATURE, blobs);
  }

  lemma PostsSorted(q: Request, info: Option<seq<byte>>)
    requires Sorted(q.slots)
    ensures Sorted(Posts(q, info))
  {
    hide Insert, InfoHash;
    if info.Some? {
      InsertSorted(q.slots, CSSLOT_INFOSLOT, InfoHash(q, info.value));
    }
  }

  /** The load commands that are kept, rewritten, and the executable range seen on the way. */
  method CollectCommands(f: seq<byte>, l: Layout) returns (commands: seq<Command>, range: Range)
    requires IsMachO(f) && Expressible(l)
    ensures commands == Kept(f, l) && range == ExecRange(ParsedCommands(f))
  {
    hide Rewrite, Widen, IsMachO, Get32, NameIs, SignatureCommand, SegmentSize, SectionSize, NSects;
    var original := ParsedCommands(f);
    assert original[..0] == [] && original[..|original|] == original;
    commands, range := [], Range(0xFFFF_FFFF_FFFF_FFFF, 0);
    for i := 0 to |original|
      invariant commands == Rewritten(original[..i], l.limit + l.alloc, l.align)
      invariant range == ExecRange(original[..i])
    {
      assert original[..i + 1] == original[..i] + [original[i]];
      RewrittenSnoc(original[..i], original[i], l.limit + l.alloc, l.align);
      InfoSpanSnoc(original[..i], original[i]);
      if IsSignature(original[i]) {
        assert commands + [] == commands;
        continue;
      }
      range := Widen(range, original[i]);
      commands := commands + [Rewrite(original[i], l.limit + l.alloc, l.align)];
    }
    if l.alloc != 0 {
      commands := commands + [SignatureCommand(l.limit, l.alloc)];
    } else {
      assert commands + [] == commands;
    }
  }

  method PutCommands(output: Output, commands: seq<Command>)
    modifies output
    ensures output.bytes == old(output.bytes) + Concat(commands)
  {
    hide Concat;
    EmptyConcat();
    assert commands[..0] == [] && commands[..|commands|] == commands;
    for i := 0 to |commands|
      invariant output.bytes == old(output.bytes) + Concat(commands[..i])
    {
      assert commands[..i + 1] == commands[..i] + [commands[i]];
      ConcatSplit(commands[..i], [commands[i]]);
      SingleConcat(commands[i]);
      output.Put(commands[i]);
    }
  }

  lemma EmptyConcat()
    ensures Concat([]) == []
  {
  }

  lemma SingleConcat(c: seq<byte>)
    ensures Concat([c]) == c
  {
    assert [c][1..] == [];
  }

  /** Header and commands, to the stream or to the buffer the pages are hashed from. */
  method PutHead(output: Output, f: seq<byte>, commands: seq<Command>)
    requires |f| >= 32
    modifies output
    ensures output.bytes == old(output.bytes) + HeadOf(f[..16], f[24..28], Wide(f), commands, SizeOfCmds(f))
  {
    hide Concat, Put32, Get32, Low32, Zeros;
    var after := 0;
    EmptyConcat();
    assert commands[..0] == [] && commands[..|commands|] == commands;
    for i := 0 to |commands|
      invariant after == |Concat(commands[..i])| && output.bytes == old(output.bytes)
    {
      assert commands[..i + 1] == commands[..i] + [commands[i]];
      ConcatSplit(commands[..i], [commands[i]]);
      SingleConcat(commands[i]);
      after := after + |commands[i]|;
    }
    output.Put(f[..16] + Put32(Low32(|commands|)) + Put32(Low32(after)) + f[24..28]);
    if Wide(f) {
      output.Pad(4);
    }
    PutCommands(output, commands);
    output.Pad(if SizeOfCmds(f) > after then SizeOfCmds(f) - after else 0);
    var gap := if Wide(f) then Zeros(4) else [];
    HeadAssembled(old(output.bytes), f[..16] + Put32(Low32(|commands|)) + Put32(Low32(after))
      + f[24..28], gap, Concat(commands),
                  Zeros(if SizeOfCmds(f) > after then SizeOfCmds(f) - after else 0));
  }

  lemma HeadAssembled(s: seq<byte>, h: seq<byte>, gap: seq<byte>, c: seq<byte>, pad: seq<byte>)
    ensures s + h + gap + c + pad == s + (h + gap + c + pad) && s + h + [] == s + h
  {
  }

  /** Everything of one slice up to its signature. */
  method PutBody(output: Output, f: seq<byte>, l: Layout) returns (s: Slice)
    requires Fits(f, l)
    modifies output
    ensures output.bytes == old(output.bytes) + Body(f, l) && s == SliceOf(f, l)
  {
    hide IsMachO, HeadOf, ExecRange, Kept, Zeros, Get32, AlignUp;
    FitsMachO(f, l);
    HeadIs(f, l);
    var commands, range := CollectCommands(f, l);
    var altern := new Output();
    PutHead(output, f, commands);
    PutHead(altern, f, commands);
    var head := altern.bytes;
    PageAligned(|head|);
    s := Slice(l.limit, range.left, range.right, FileType(f), head + Read(f, |head|, AlignUp(|head|, PAGE)), f);
    output.Put(f[|head|..l.size]);
    output.Pad(l.limit - l.size);
    BodyIs(f, l);
    assert old(output.bytes) + head + f[|head|..l.size] + Zeros(l.limit - l.size) == old(output.bytes) + Body(f, l);
  }

  lemma Append3(s: seq<byte>, a: seq<byte>, b: seq<byte>, c: seq<byte>)
    ensures s + (a + b + c) == s + a + b + c
  {
  }

  /** Sign, for one image. */
  method SignImage(output: Output, f: seq<byte>, q: Request, align: nat)
    requires CanSign(f, q, align)
    modifies output
    ensures output.bytes == old(output.bytes) + Sign(f, q, align)
  {
    hide Fits, IsMachO, Body, Signature, SliceOf, InfoPlist, ValidRequest, Zeros, Sign, SignatureOf, SignLayout;
    var l := SignLayout(f, q, align);
    SignedParts(f, q, align);
    SliceIs(f, l);
    SignatureIs(f, q, align);
    SignIs(f, q, align);
    ghost var start, signature := output.bytes, SignatureOf(f, q, align);
    Append3(start, Body(f, l), signature, Zeros(l.alloc - |signature|));
    var s := PutBody(output, f, l);
    var saved := Save(output, q, InfoPlist(f), s);
    if l.alloc > saved {
      output.Pad(l.alloc - saved);
    } else {
      assert l.alloc == saved;
      NoZeros();
    }
  }

  lemma NoZeros()
    ensures Zeros(0) == []
  {
  }

  /** Sign, for a file that is not fat. */
  method SignThinFile(output: Output, f: seq<byte>, q: Request)
    requires CanSignThin(f, q)
    modifies output
    ensures output.bytes == old(output.bytes) + SignThin(f, q)
  {
    hide CanSign, Sign, ThinAlign, CpuType;
    SignImage(output, f, q, ThinAlign(CpuType(f)));
  }

  /** Unsign, for one image: no room, no signature. */
  method UnsignImage(output: Output, f: seq<byte>, align: nat)
    requires CanUnsign(f, align)
    modifies output
    ensures output.bytes == old(output.bytes) + Unsign(f, align)
  {
    hide Fits, IsMachO, Body, SliceOf;
    var s := PutBody(output, f, UnsignLayout(f, align));
  }

  // ----- Fat files -----

  /** The planning loop. */
  method PlanSlices(layouts: seq<Layout>) returns (offsets: seq<nat>)
    requires forall i :: 0 <= i < |layouts| ==> layouts[i].align > 0
    ensures offsets == FatLayout.Offsets(layouts, FatLayout.HeaderEnd(|layouts|))
  {
    hide FatLayout.Place, FatLayout.After;
    var offset := FatLayout.HeaderEnd(|layouts|);
    offsets := [];
    for i := 0 to |layouts|
      invariant offsets + FatLayout.Offsets(layouts[i..], offset)
        == FatLayout.Offsets(layouts, FatLayout.HeaderEnd(|layouts|))
    {
      var at := FatLayout.Place(layouts[i], offset);
      assert layouts[i..][1..] == layouts[i + 1..];
      assert offsets + FatLayout.Offsets(layouts[i..], offset)
          == offsets + [at] + FatLayout.Offsets(layouts[i + 1..], FatLayout.After(layouts[i], at));
      offsets := offsets + [at];
      offset := FatLayout.After(layouts[i], at);
    }
  }

  lemma EmptySlices()
    ensures forall position: nat :: FatLayout.Slices([], [], position) == []
  {
  }

  lemma SlicesStep(before: seq<byte>, bodies: seq<seq<byte>>, offsets: seq<nat>, position: nat)
    requires |bodies| == |offsets| > 0 && offsets[0] >= position
    ensures before + FatLayout.Slices(bodies, offsets, position)
         == before + Zeros(offsets[0] - position) + bodies[0]
            + FatLayout.Slices(bodies[1..], offsets[1..], offsets[0] + |bodies[0]|)
  {
    hide Zeros;
  }

  /** The assertion on the places of the slices. */
  method PlacesFit(layouts: seq<Layout>, offsets: seq<nat>) returns (ok: bool)
    requires |layouts| == |offsets|
    ensures ok == FatFile.Narrow(layouts, offsets)
  {
    hide FatLayout.Emitted;
    for i := 0 to |layouts|
      invariant forall j :: 0 <= j < i ==> offsets[j] < 0x1_0000_0000 && FatLayout.Emitted(layouts[j]) < 0x1_0000_0000
    {
      if offsets[i] >= 0x1_0000_0000 || FatLayout.Emitted(layouts[i]) >= 0x1_0000_0000 {
        return false;
      }
    }
    return true;
  }

  /** The fat header: the magic and the count are out before the places are tested. */
  method PutFatHeader(output: Output, images: seq<FatFile.Image>, layouts: seq<Layout>, offsets: seq<nat>)
    returns (ok: bool)
    requires |layouts| == |offsets| == |images| && forall i :: 0 <= i < |images| ==> |images[i].bytes| >= 12
    modifies output
    ensures ok == FatFile.Narrow(layouts, offsets)
    ensures output.bytes == old(output.bytes)
      + if ok then FatFile.HeaderBytes(FatFile.ArchsOf(images, layouts, offsets)) else FatFile.MagicAndCount(|images|)
  {
    hide FatFile.ArchBytes, FatFile.ArchOf, FatFile.ArchTable, FatFile.MagicAndCount, FatFile.Narrow;
    output.Put(FatFile.MagicAndCount(|images|));
    ok := PlacesFit(layouts, offsets);
    if ok {
      ghost var archs := FatFile.ArchsOf(images, layouts, offsets);
      ghost var start := output.bytes;
      NoArchs();
      for i := 0 to |images|
        invariant output.bytes == start + FatFile.ArchTable(archs[..i])
      {
        ArchTableSnoc(archs, i);
        output.Put(FatFile.ArchBytes(FatFile.ArchOf(images[i], layouts[i], offsets[i])));
      }
      assert archs[..|images|] == archs;
    }
  }

  lemma NoArchs()
    ensures FatFile.ArchTable([]) == []
  {
  }

  lemma ArchTableSnoc(archs: seq<FatFile.Arch>, i: nat)
    requires i < |archs|
    ensures FatFile.ArchTable(archs[..i + 1]) == FatFile.ArchTable(archs[..i]) + FatFile.ArchBytes(archs[i])
  {
    hide FatFile.ArchBytes;
    assert archs[..i + 1][..i] == archs[..i];
  }

  /** Sign, for a fat file. */
  method SignFat(output: Output, images: seq<FatFile.Image>, q: Request) returns (ok: bool)
    requires FatFile.CanSignAll(images, q)
    requires FatLayout.Apart(FatFile.SignLayouts(images, q), FatFile.SignOffsets(images, q),
      FatLayout.HeaderEnd(|images|))
    modifies output
    ensures ok == FatFile.Narrow(FatFile.SignLayouts(images, q), FatFile.SignOffsets(images, q))
    ensures output.bytes == old(output.bytes)
      + if ok then FatFile.SignFat(images, q) else FatFile.MagicAndCount(|images|)
  {
    hide CanSign, FatLayout.Slices, FatLayout.Apart, FatFile.HeaderBytes, FatFile.Narrow, FatFile.MagicAndCount;
    hide FatFile.ArchsOf, FatFile.SignLayouts, FatFile.SignOffsets, FatFile.SignedSlices;
    var layouts := PlanImages(images, q);
    var offsets := PlanSlices(layouts);
    assert offsets == FatFile.SignOffsets(images, q) by { OffsetsPlanned(images, q); }
    forall i | 0 <= i < |images| ensures |images[i].bytes| >= 12
    {
      FatFile.SignedLength(images[i].bytes, q, Pow2(images[i].align));
    }
    ghost var start := output.bytes;
    ok := PutFatHeader(output, images, layouts, offsets);
    if ok {
      SignSlices(output, images, q, layouts, offsets);
      Append2(start, FatFile.HeaderBytes(FatFile.Archs(images, q)),
              FatLayout.Slices(FatFile.SignedSlices(images, q), offsets, FatLayout.HeaderEnd(|images|)));
    }
  }

  lemma Append2(s: seq<byte>, a: seq<byte>, b: seq<byte>)
    ensures s + a + b == s + (a + b)
  {
  }

  lemma OffsetsPlanned(images: seq<FatFile.Image>, q: Request)
    requires FatFile.CanSignAll(images, q)
    ensures FatFile.SignOffsets(images, q) == FatLayout.Offsets(FatFile.SignLayouts(images, q),
      FatLayout.HeaderEnd(|images|))
  {
    hide CanSign, FatLayout.Offsets;
  }

  /** The writing loop: pad up to each slice, then sign it. No padding is negative. */
  method SignSlices(output: Output, images: seq<FatFile.Image>, q: Request, layouts: seq<Layout>, offsets: seq<nat>)
    requires FatFile.CanSignAll(images, q) && layouts == FatFile.SignLayouts(images, q) && |offsets| == |images|
    requires FatLayout.Apart(layouts, offsets, FatLayout.HeaderEnd(|images|))
    modifies output
    ensures output.bytes
         == old(output.bytes) + FatLayout.Slices(FatFile.SignedSlices(images, q), offsets,
           FatLayout.HeaderEnd(|images|))
  {
    hide CanSign, SignLayout, Sign, FatLayout.Slices, FatLayout.Emitted, Zeros;
    ghost var slices := FatFile.SignedSlices(images, q);
    FatFile.SlicesAreBodies(images, q);
    EmptySlices();
    var position: nat := FatLayout.HeaderEnd(|images|);
    for i := 0 to |images|
      invariant FatLayout.Apart(layouts[i..], offsets[i..], position)
      invariant output.bytes + FatLayout.Slices(slices[i..], offsets[i..], position)
             == old(output.bytes) + FatLayout.Slices(slices, offsets, FatLayout.HeaderEnd(|images|))
    {
      SliceTurn(output.bytes, layouts, slices, offsets, position, i);
      output.Pad(offsets[i] - position);
      SignImage(output, images[i].bytes, q, Pow2(images[i].align));
      position := offsets[i] + FatLayout.Emitted(layouts[i]);
    }
    assert slices[|images|..] == [] && offsets[|images|..] == [];
  }

  /** The planning loop's first half: one layout for each image. */
  method PlanImages(images: seq<FatFile.Image>, q: Request) returns (layouts: seq<Layout>)
    requires FatFile.CanSignAll(images, q)
    ensures layouts == FatFile.SignLayouts(images, q)
  {
    hide CanSign, SignLayout;
    layouts := [];
    for i := 0 to |images|
      invariant layouts == FatFile.SignLayouts(images, q)[..i]
    {
      CanSignMachO(images[i].bytes, q, Pow2(images[i].align));
      layouts := layouts + [SignLayout(images[i].bytes, q, Pow2(images[i].align))];
    }
    ghost var all := FatFile.SignLayouts(images, q);
    assert all[..|images|] == all;
  }

  lemma SliceTurn(before: seq<byte>, layouts: seq<Layout>, slices: seq<seq<byte>>, offsets: seq<nat>, position: nat,
                  i: nat)
    requires |layouts| == |offsets| && FatLayout.Bodies(layouts, slices) && i < |layouts|
    requires FatLayout.Apart(layouts[i..], offsets[i..], position)
    ensures position <= offsets[i] && FatLayout.Emitted(layouts[i]) == |slices[i]|
    ensures FatLayout.Apart(layouts[i + 1..], offsets[i + 1..], offsets[i] + |slices[i]|)
    ensures before + FatLayout.Slices(slices[i..], offsets[i..], position)
         == before + Zeros(offsets[i] - position) + slices[i]
            + FatLayout.Slices(slices[i + 1..], offsets[i + 1..], offsets[i] + |slices[i]|)
  {
    hide FatLayout.Slices, Zeros, FatLayout.Emitted;
    assert slices[i..][1..] == slices[i + 1..] && offsets[i..][1..] == offsets[i + 1..]
      && layouts[i..][1..] == layouts[i + 1..];
    SlicesStep(before, slices[i..], offsets[i..], position);
  }
}

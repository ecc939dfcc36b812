/** Signing and stripping one Mach-O image: the layout chosen before writing, and the
    bytes that are written. */
module Ldid {
  import opened Arithmetic
  import opened Bytes
  import opened MachO
  import opened Options
  import opened LoadCommands
  import opened SuperBlob
  import opened CodeDirectory

  // ----- Layout -----

  /** Where an image of n bytes ends before its signature: an old signature is cut off,
      and the string table, which must be last, decides. None when an assertion fails. */
  function EndOf(cmds: seq<Command>, n: nat): (r: Option<nat>)
    requires AllWellFormed(cmds)
    ensures r.Some? ==> r.value <= n
  {
    var base := match SignatureOffset(cmds) case None => n case Some(at) => at;
    if base > n then None
    else if !HasSymbols(cmds) then Some(base)
    else if SymbolEnd(cmds) <= base && base >= 0x10 && SymbolEnd(cmds) >= base - 0x10 then Some(SymbolEnd(cmds))
    else None
  }

  function ImageEnd(f: seq<byte>): (r: Option<nat>)
    requires IsMachO(f)
    ensures r.Some? ==> r.value <= |f|
  {
    ParseShape(f, HeaderSize(f), NCmds(f));
    EndOf(Commands(f), |f|)
  }

  datatype Layout = Layout(size: nat, limit: nat, alloc: nat, align: nat)

  /** Alignment of a thin image, from its processor type. */
  function ThinAlign(cpu: uint32): (n: nat)
    ensures n > 0
  {
    if cpu in {7, 0x0100_0007, 18, 0x0100_0012} then 0x1000
    else if cpu in {12, 0x0100_000C} then 0x4000
    else 1
  }

  function SignLayout(f: seq<byte>, q: Request, align: nat): (l: Layout)
    requires IsMachO(f) && ImageEnd(f).Some?
  {
    ParseShape(f, HeaderSize(f), NCmds(f));
    var size := ImageEnd(f).value;
    Layout(size, AlignUp(size, 0x10), Estimate(q, InfoSpan(Commands(f)).Some?, size), align)
  }

  function UnsignLayout(f: seq<byte>, align: nat): (l: Layout)
    requires IsMachO(f) && ImageEnd(f).Some?
  {
    Layout(ImageEnd(f).value, ImageEnd(f).value, 0, align)
  }

  // ----- Bytes -----

  /** Header, commands, and zeros where the old commands were longer. */
  function HeadOf(first: seq<byte>, flags: seq<byte>, wide: bool, cmds: seq<Command>, before: nat): (h: seq<byte>)
  {
    first + Put32(Low32(|cmds|)) + Put32(Low32(Total(cmds))) + flags + (if wide then Zeros(4) else [])
    + Concat(cmds) + Zeros(if before > Total(cmds) then before - Total(cmds) else 0)
  }

  predicate Wide(f: seq<byte>) requires |f| >= 4 { Get32(f, 0) == MH_MAGIC_64 }

  /** The four gigabytes that offsets can express hold the image and its signature. */
  predicate Expressible(l: Layout) { l.limit + l.alloc < 0x1_0000_0000 && l.align > 0 && l.size <= l.limit }

  function Kept(f: seq<byte>, l: Layout): (cmds: seq<Command>)
    requires IsMachO(f) && Expressible(l)
  {
    ParseShape(f, HeaderSize(f), NCmds(f));
    NewCommands(Commands(f), l.limit, l.alloc, l.align)
  }

  function Head(f: seq<byte>, l: Layout): (h: seq<byte>)
    requires IsMachO(f) && Expressible(l)
  {
    HeadOf(f[..16], f[24..28], Wide(f), Kept(f, l), SizeOfCmds(f))
  }

  /** Room for the rewritten head: the signer copies what follows it. */
  predicate Fits(f: seq<byte>, l: Layout)
  {
    IsMachO(f) && Expressible(l) && |Head(f, l)| <= l.size <= |f|
  }

  /** Everything before the signature. */
  function Body(f: seq<byte>, l: Layout): (b: seq<byte>)
    requires Fits(f, l)
    ensures |b| == l.limit
  {
    Head(f, l) + f[|Head(f, l)|..l.size] + Zeros(l.limit - l.size)
  }

  lemma PageAligned(n: nat)
    ensures n <= AlignUp(n, PAGE) && AlignUp(n, PAGE) % PAGE == 0
  {
  }

  /** The rewritten head, filled up to a page boundary from the source. */
  function Overlap(f: seq<byte>, h: seq<byte>): (r: seq<byte>)
    ensures |r| == AlignUp(|h|, PAGE) && |r| % PAGE == 0
  {
    PageAligned(|h|);
    h + Read(f, |h|, AlignUp(|h|, PAGE))
  }

  function SliceOf(f: seq<byte>, l: Layout): (s: Slice)
    requires Fits(f, l)
    ensures |s.overlap| % PAGE == 0
  {
    ParseShape(f, HeaderSize(f), NCmds(f));
    hide Head, ExecRange, AllWellFormed, FileType, Overlap;
    var range := ExecRange(Commands(f));
    Slice(l.limit, range.left, range.right, FileType(f), Overlap(f, Head(f, l)), f)
  }

  function InfoPlist(f: seq<byte>): (r: Option<seq<byte>>)
    requires IsMachO(f)
    ensures r.Some? == (ParseShape(f, HeaderSize(f), NCmds(f)); InfoSpan(Commands(f)).Some?)
  {
    ParseShape(f, HeaderSize(f), NCmds(f));
    match InfoSpan(Commands(f))
    case None => None
    case Some(span) => Some(Read(f, span.offset, span.offset + span.size))
  }

  ghost predicate CanSign(f: seq<byte>, q: Request, align: nat)
  {
    IsMachO(f) && ImageEnd(f).Some? && ValidRequest(q) && Fits(f, SignLayout(f, q, align))
  }

  predicate CanUnsign(f: seq<byte>, align: nat)
  {
    IsMachO(f) && ImageEnd(f).Some? && Fits(f, UnsignLayout(f, align))
  }

  ghost function SignatureOf(f: seq<byte>, q: Request, align: nat): (s: seq<byte>)
    requires CanSign(f, q, align)
    ensures |s| <= SignLayout(f, q, align).alloc
  {
    HeadNotEmpty(f, SignLayout(f, q, align));
    var l := SignLayout(f, q, align);
    EstimateSuffices(q, InfoPlist(f), SliceOf(f, l), l.size);
    Signature(q, InfoPlist(f), SliceOf(f, l))
  }

  ghost function Sign(f: seq<byte>, q: Request, align: nat): (y: seq<byte>)
    requires CanSign(f, q, align)
    ensures |y| == SignLayout(f, q, align).limit + SignLayout(f, q, align).alloc
  {
    var l := SignLayout(f, q, align);
    var signature := SignatureOf(f, q, align);
    Body(f, l) + signature + Zeros(l.alloc - |signature|)
  }

  function Unsign(f: seq<byte>, align: nat): (y: seq<byte>)
    requires CanUnsign(f, align)
  {
    Body(f, UnsignLayout(f, align))
  }

  lemma HeadNotEmpty(f: seq<byte>, l: Layout)
    requires IsMachO(f) && Expressible(l)
    ensures |Head(f, l)| >= 28
  {
  }

  // ----- The head of an output is the head of a Mach-O file -----

  lemma HeadParts(first: seq<byte>, flags: seq<byte>, wide: bool, cmds: seq<Command>, before: nat)
    requires |first| == 16 && |flags| == 4
    ensures var h := HeadOf(first, flags, wide, cmds, before);
      var at := if wide then 32 else 28;
      && |h| == at + (if before > Total(cmds) then before else Total(cmds))
      && h[..16] == first && h[16..20] == Put32(Low32(|cmds|)) && h[20..24] == Put32(Low32(Total(cmds)))
      && h[24..28] == flags && h[at..at + Total(cmds)] == Concat(cmds)
      && (wide ==> h[28..32] == Zeros(4))
      && h[at + Total(cmds)..] == Zeros(if before > Total(cmds) then before - Total(cmds) else 0)
  {
    hide Put32, Concat, Low32, Zeros;
    var h, gap := HeadOf(first, flags, wide, cmds, before), if wide then Zeros(4) else [];
    assert h[28..28 + |gap|] == gap;
  }

  lemma {:induction false} CommandCount(cmds: seq<Command>)
    requires AllWellFormed(cmds)
    ensures 8 * |cmds| <= Total(cmds)
  {
    hide WellFormed;
    if cmds != [] {
      CommandCount(cmds[1..]);
      assert WellFormed(cmds[0]) ==> |cmds[0]| >= 8 by {
        AtLeastEight(cmds[0]);
      }
    }
  }

  lemma AtLeastEight(c: Command)
    ensures WellFormed(c) ==> |c| >= 8
  {
  }

  /** y starts with the head written for f. */
  ghost predicate Starts(y: seq<byte>, f: seq<byte>, l: Layout)
    requires IsMachO(f) && Expressible(l)
  {
    |Head(f, l)| <= |y| && y[..|Head(f, l)|] == Head(f, l)
  }

  lemma PrefixField(y: seq<byte>, h: seq<byte>, from: nat, to: nat)
    requires |h| <= |y| && y[..|h|] == h && from <= to <= |h|
    ensures y[from..to] == h[from..to]
  {
    SubSlice(y, 0, |h|, from, to);
    assert y[0..|h|] == h;
  }

  /** The fixed fields of the head, as read back from y. */
  lemma HeadFields(f: seq<byte>, l: Layout, y: seq<byte>)
    requires Fits(f, l) && Starts(y, f, l)
    ensures |y| >= 28 && y[..16] == f[..16] && y[24..28] == f[24..28]
    ensures Get32(y, 16) == |Kept(f, l)| && Get32(y, 20) == Total(Kept(f, l))
    ensures var at := if Wide(f) then 32 else 28;
      && at + Total(Kept(f, l)) <= |y| && y[at..at + Total(Kept(f, l))] == Concat(Kept(f, l))
      && (Wide(f) ==> y[28..32] == Zeros(4))
  {
    hide Kept, Put32, Get32, HeadOf, IsMachO, WellFormed;
    HeadOfMachO(f);
    var cmds, h := Kept(f, l), Head(f, l);
    HeadParts(f[..16], f[24..28], Wide(f), cmds, SizeOfCmds(f));
    var at := if Wide(f) then 32 else 28;
    PrefixField(y, h, 0, 16);
    PrefixField(y, h, 16, 20);
    PrefixField(y, h, 20, 24);
    PrefixField(y, h, 24, 28);
    PrefixField(y, h, at, at + Total(cmds));
    if Wide(f) {
      PrefixField(y, h, 28, 32);
    }
    KeptWellFormed(f, l);
    CommandCount(cmds);
    GetPut32(y, 16, |cmds|);
    GetPut32(y, 20, Total(cmds));
  }

  lemma HeadOfMachO(f: seq<byte>)
    requires IsMachO(f)
    ensures |f| >= 32
  {
  }

  lemma KeptWellFormed(f: seq<byte>, l: Layout)
    requires IsMachO(f) && Expressible(l)
    ensures AllWellFormed(Kept(f, l))
  {
    ParseShape(f, HeaderSize(f), NCmds(f));
    NewCommandsWellFormed(Commands(f), l.limit, l.alloc, l.align);
  }

  lemma SameBytes32(s: seq<byte>, t: seq<byte>, n: nat, at: nat)
    requires n <= |s| && n <= |t| && s[..n] == t[..n] && at + 4 <= n
    ensures Get32(s, at) == Get32(t, at)
  {
    assert forall i :: 0 <= i < n ==> s[i] == s[..n][i] && t[i] == t[..n][i];
  }

  /** What the signer writes is again a Mach-O file, holding the kept commands. */
  lemma OutputIsMachO(f: seq<byte>, l: Layout, y: seq<byte>)
    requires Fits(f, l) && Starts(y, f, l) && |y| >= 32
    ensures IsMachO(y) && Commands(y) == Kept(f, l) && SizeOfCmds(y) == Total(Kept(f, l))
    ensures y[..16] == f[..16] && y[24..28] == f[24..28] && Wide(y) == Wide(f)
    ensures FileType(y) == FileType(f) && CpuType(y) == CpuType(f)
  {
    hide Kept, Get32, Head, HeadOf, WellFormed;
    HeadFields(f, l, y);
    KeptWellFormed(f, l);
    SameBytes32(y, f, 16, 0);
    SameBytes32(y, f, 16, 4);
    SameBytes32(y, f, 16, 12);
    ParseConcat(y, HeaderSize(y), Kept(f, l));
  }

  /** The head of a second output: same header, commands rewritten again, and the new
      size of the first commands as the room that must be cleared. */
  lemma SecondHead(f: seq<byte>, l: Layout, y: seq<byte>, l': Layout)
    requires Fits(f, l) && Starts(y, f, l) && |y| >= 32 && Expressible(l')
    ensures IsMachO(y)
    ensures Kept(y, l') == Kept(f, l')
    ensures Head(y, l') == HeadOf(f[..16], f[24..28], Wide(f), Kept(f, l'), Total(Kept(f, l)))
  {
    hide HeadOf, NewCommands, IsMachO, Get32;
    OutputIsMachO(f, l, y);
    KeptTwice(f, l, y, l');
    HeadOfMachO(f);
  }

  lemma KeptTwice(f: seq<byte>, l: Layout, y: seq<byte>, l': Layout)
    requires IsMachO(f) && IsMachO(y) && Expressible(l) && Expressible(l') && Commands(y) == Kept(f, l)
    ensures Kept(y, l') == Kept(f, l')
  {
    hide NewCommands, Get32;
    ParseShape(f, HeaderSize(f), NCmds(f));
    NewCommandsTwice(Commands(f), l.limit, l.alloc, l.align, l'.limit, l'.alloc, l'.align);
  }
}

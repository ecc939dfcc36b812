/** The load commands of an image as a reader of the format takes them apart: the places
    and numbers of the format are written out, and what the signer looks up and rewrites
    is described through them. */
module ImageReader {
  import opened Arithmetic
  import opened Bytes
  import opened MachO
  import opened Options
  import opened LoadCommands
  import opened Ldid

  // ----- Executable segments -----

  datatype Extent = Extent(begin: nat, end: nat)

  /** The file range of an executable segment. */
  function ExtentOf(c: Command): (r: Option<Extent>)
  {
    if |c| >= 72 && Get32(c, 0) == 0x19 && Get32(c, 60) / 4 % 2 == 1 then
      Some(Extent(Get64(c, 40), (Get64(c, 40) + Get64(c, 48)) % 0x1_0000_0000_0000_0000))
    else if |c| >= 56 && Get32(c, 0) == 1 && Get32(c, 44) / 4 % 2 == 1 then
      Some(Extent(Get32(c, 32), (Get32(c, 32) + Get32(c, 36)) % 0x1_0000_0000))
    else None
  }

  /** From the first executable byte to the end of the last; empty without such a segment. */
  ghost predicate IsRange(cmds: seq<Command>, r: Range)
  {
    && (forall i :: 0 <= i < |cmds| && ExtentOf(cmds[i]).Some? ==>
          r.left <= ExtentOf(cmds[i]).value.begin && ExtentOf(cmds[i]).value.end <= r.right)
    && (r.left == 0xFFFF_FFFF_FFFF_FFFF
        || exists i :: 0 <= i < |cmds| && ExtentOf(cmds[i]).Some? && ExtentOf(cmds[i]).value.begin == r.left)
    && (r.right == 0
        || exists i :: 0 <= i < |cmds| && ExtentOf(cmds[i]).Some? && ExtentOf(cmds[i]).value.end == r.right)
  }

  lemma WidenIs(r: Range, c: Command)
    requires WellFormed(c)
    ensures ExtentOf(c).None? ==> Widen(r, c) == r
    ensures ExtentOf(c).Some? ==> var e := ExtentOf(c).value;
      Widen(r, c) == Range(if e.begin < r.left then e.begin else r.left, if r.right < e.end then e.end else r.right)
    ensures IsSignature(c) ==> ExtentOf(c).None?
  {
    hide Get32;
    assert IsSegment(c, true) ==> |c| >= 72;
    assert IsSegment(c, false) ==> |c| >= 56;
  }

  lemma IsRangeSnoc(front: seq<Command>, c: Command, r: Range, r': Range)
    requires IsRange(front, r)
    requires ExtentOf(c).None? ==> r' == r
    requires ExtentOf(c).Some? ==> var e := ExtentOf(c).value;
      r' == Range(if e.begin < r.left then e.begin else r.left, if r.right < e.end then e.end else r.right)
    ensures IsRange(front + [c], r')
  {
    hide ExtentOf;
    var cmds := front + [c];
    assert cmds[|front|] == c;
    assert forall i :: 0 <= i < |front| ==> cmds[i] == front[i];
    assert forall i :: 0 <= i < |cmds| ==> cmds[i] == c || (i < |front| && cmds[i] == front[i]);
  }

  lemma {:induction false} ExecRangeIs(cmds: seq<Command>)
    requires AllWellFormed(cmds)
    ensures IsRange(cmds, ExecRange(cmds))
  {
    hide Widen, ExtentOf, WellFormed, IsRange;
    if cmds == [] {
      assert IsRange(cmds, Range(0xFFFF_FFFF_FFFF_FFFF, 0)) by { EmptyRange(); }
    } else {
      var front, last := cmds[..|cmds| - 1], cmds[|cmds| - 1];
      ExecRangeIs(front);
      AtLeastEight(last);
      assert WellFormed(last);
      WidenIs(ExecRange(front), last);
      IsRangeSnoc(front, last, ExecRange(front), ExecRange(cmds));
      assert front + [last] == cmds;
    }
  }

  lemma EmptyRange()
    ensures IsRange([], Range(0xFFFF_FFFF_FFFF_FFFF, 0))
  {
  }

  // ----- The embedded Info.plist -----

  /** Section j of a __TEXT segment, when it is called __info_plist: offset and size. */
  function PlistOf(c: Command, j: nat): (r: Option<Extent>)
  {
    if |c| >= 72 && Get32(c, 0) == 0x19 && c[8..15] == [0x5F, 0x5F, 0x54, 0x45, 0x58, 0x54, 0] && j < Get32(c, 64)
       && 72 + 80 * j + 80 <= |c|
       && c[72 + 80 * j..72 + 80 * j + 13] == [0x5F, 0x5F, 0x69, 0x6E, 0x66, 0x6F, 0x5F, 0x70, 0x6C, 0x69, 0x73, 0x74, 0]
    then
      var from := (Get64(c, 40) + Get32(c, 72 + 80 * j + 48)) % 0x1_0000_0000;
      Some(Extent(from, from + Get64(c, 72 + 80 * j + 40)))
    else if |c| >= 56 && Get32(c, 0) == 1 && c[8..15] == [0x5F, 0x5F, 0x54, 0x45, 0x58, 0x54, 0] && j < Get32(c, 48)
       && 56 + 68 * j + 68 <= |c|
       && c[56 + 68 * j..56 + 68 * j + 13] == [0x5F, 0x5F, 0x69, 0x6E, 0x66, 0x6F, 0x5F, 0x70, 0x6C, 0x69, 0x73, 0x74, 0]
    then
      var from := (Get32(c, 32) + Get32(c, 56 + 68 * j + 40)) % 0x1_0000_0000;
      Some(Extent(from, from + Get32(c, 56 + 68 * j + 36)))
    else None
  }

  /** The last such section of the last command that has one. */
  ghost predicate IsPlist(cmds: seq<Command>, r: Option<Extent>)
  {
    match r
    case None => forall i: nat, j: nat :: i < |cmds| ==> PlistOf(cmds[i], j).None?
    case Some(e) => exists i: nat, j: nat :: LastPlist(cmds, i, j) && PlistOf(cmds[i], j) == r
  }

  ghost predicate LastPlist(cmds: seq<Command>, i: nat, j: nat)
  {
    && i < |cmds|
    && (forall m: nat :: m > j ==> PlistOf(cmds[i], m).None?)
    && (forall k: nat, m: nat :: i < k < |cmds| ==> PlistOf(cmds[k], m).None?)
  }

  function ToExtent(span: Option<Span>): (r: Option<Extent>)
  {
    match span case None => None case Some(s) => Some(Extent(s.offset, s.offset + s.size))
  }

  lemma NameIsZero(c: Command, at: nat, name: seq<byte>)
    requires at + |name| < |c|
    ensures NameIs(c, at, name) == (c[at..at + |name| + 1] == name + [0])
  {
    var whole := c[at..at + |name| + 1];
    assert whole[..|name|] == c[at..at + |name|] && whole[|name|] == c[at + |name|];
    assert whole == whole[..|name|] + [whole[|name|]];
  }

  lemma WidePlist(c: Command, j: nat)
    requires WellFormed(c) && IsSegment(c, true) && j < NSects(c, true)
    ensures 72 + 80 * j + 80 <= |c|
    ensures PlistOf(c, j) ==
      if NameIs(c, 8, TEXT) && NameIs(c, 72 + 80 * j, INFO_PLIST) then
        var from := Low32(Get64(c, 40) + Get32(c, 72 + 80 * j + 48));
        Some(Extent(from, from + Get64(c, 72 + 80 * j + 40)))
      else None
  {
    hide Get32, Get64, NameIs;
    NameIsZero(c, 8, TEXT);
    NameIsZero(c, 72 + 80 * j, INFO_PLIST);
    assert TEXT + [0] == [0x5F, 0x5F, 0x54, 0x45, 0x58, 0x54, 0];
    assert INFO_PLIST + [0] == [0x5F, 0x5F, 0x69, 0x6E, 0x66, 0x6F, 0x5F, 0x70, 0x6C, 0x69, 0x73, 0x74, 0];
  }

  lemma NarrowPlist(c: Command, j: nat)
    requires WellFormed(c) && IsSegment(c, false) && j < NSects(c, false)
    ensures 56 + 68 * j + 68 <= |c|
    ensures PlistOf(c, j) ==
      if NameIs(c, 8, TEXT) && NameIs(c, 56 + 68 * j, INFO_PLIST) then
        var from := Low32(Get32(c, 32) + Get32(c, 56 + 68 * j + 40));
        Some(Extent(from, from + Get32(c, 56 + 68 * j + 36)))
      else None
  {
    hide Get32, Get64, NameIs;
    NameIsZero(c, 8, TEXT);
    NameIsZero(c, 56 + 68 * j, INFO_PLIST);
    assert TEXT + [0] == [0x5F, 0x5F, 0x54, 0x45, 0x58, 0x54, 0];
    assert INFO_PLIST + [0] == [0x5F, 0x5F, 0x69, 0x6E, 0x66, 0x6F, 0x5F, 0x70, 0x6C, 0x69, 0x73, 0x74, 0];
  }

  lemma SectionInfoIs(c: Command, wide: bool, j: nat)
    requires WellFormed(c) && IsSegment(c, wide) && NameIs(c, 8, TEXT) && j < NSects(c, wide)
    ensures ToExtent(SectionInfo(c, wide, j)) == PlistOf(c, j)
  {
    hide Get32, Get64, NameIs, PlistOf, NSects, Low32;
    assert SectionSize(wide) * (j + 1) <= SectionSize(wide) * NSects(c, wide);
    if wide {
      WidePlist(c, j);
    } else {
      NarrowPlist(c, j);
    }
  }

  lemma {:induction false} SegmentInfoIs(c: Command, wide: bool, n: nat) returns (j: nat)
    requires WellFormed(c) && IsSegment(c, wide) && NameIs(c, 8, TEXT) && n <= NSects(c, wide)
    ensures SegmentInfo(c, wide, n).None? ==> forall m: nat :: m < n ==> PlistOf(c, m).None?
    ensures SegmentInfo(c, wide, n).Some? ==>
      j < n && PlistOf(c, j) == ToExtent(SegmentInfo(c, wide, n)) && forall m: nat :: j < m < n ==> PlistOf(c, m).None?
  {
    hide PlistOf, SectionInfo, NameIs, NSects;
    j := 0;
    if n > 0 {
      SectionInfoIs(c, wide, n - 1);
      if SectionInfo(c, wide, n - 1).Some? {
        j := n - 1;
      } else {
        j := SegmentInfoIs(c, wide, n - 1);
      }
    }
  }

  lemma NoPlist(c: Command, j: nat)
    requires WellFormed(c)
    ensures !IsSegment(c, true) && !IsSegment(c, false) ==> PlistOf(c, j).None?
    ensures forall wide :: IsSegment(c, wide) && (!NameIs(c, 8, TEXT) || j >= NSects(c, wide)) ==> PlistOf(c, j).None?
  {
    hide Get32, Get64;
    if |c| > 15 {
      NameIsZero(c, 8, TEXT);
      assert TEXT + [0] == [0x5F, 0x5F, 0x54, 0x45, 0x58, 0x54, 0];
    }
  }

  lemma CommandInfoIs(c: Command) returns (j: nat)
    requires WellFormed(c)
    ensures CommandInfo(c).None? ==> forall m: nat :: PlistOf(c, m).None?
    ensures CommandInfo(c).Some? ==>
      PlistOf(c, j) == ToExtent(CommandInfo(c)) && forall m: nat :: m > j ==> PlistOf(c, m).None?
  {
    hide PlistOf, SegmentInfo, NameIs, NSects;
    forall m: nat
      ensures !IsSegment(c, true) && !IsSegment(c, false) ==> PlistOf(c, m).None?
      ensures forall wide :: IsSegment(c, wide) && (!NameIs(c, 8, TEXT) || m >= NSects(c, wide)) ==> PlistOf(c, m).None?
    {
      NoPlist(c, m);
    }
    j := 0;
    if (IsSegment(c, true) || IsSegment(c, false)) && NameIs(c, 8, TEXT) {
      j := SegmentInfoIs(c, IsSegment(c, true), NSects(c, IsSegment(c, true)));
    }
  }

  /** The signer's lookup finds the last embedded Info.plist. */
  lemma {:induction false} InfoSpanIs(cmds: seq<Command>)
    requires AllWellFormed(cmds)
    ensures IsPlist(cmds, ToExtent(InfoSpan(cmds)))
  {
    hide PlistOf, CommandInfo, WellFormed;
    if cmds != [] {
      var front, last := cmds[..|cmds| - 1], cmds[|cmds| - 1];
      InfoSpanIs(front);
      var j := CommandInfoIs(last);
      if CommandInfo(last).Some? {
        assert LastPlist(cmds, |cmds| - 1, j);
      } else if InfoSpan(front).Some? {
        var i: nat, m: nat :| LastPlist(front, i, m) && PlistOf(front[i], m) == ToExtent(InfoSpan(front));
        assert LastPlist(cmds, i, m);
      }
    }
  }

  // ----- Where the image ends -----

  /** Command i is the last one with this number; None when there is none. */
  ghost predicate IsLast(cmds: seq<Command>, number: nat, i: Option<nat>)
    requires AllWellFormed(cmds)
  {
    match i
    case None => forall m :: 0 <= m < |cmds| ==> Get32(cmds[m], 0) != number
    case Some(k) =>
      k < |cmds| && Get32(cmds[k], 0) == number && forall m :: k < m < |cmds| ==> Get32(cmds[m], 0) != number
  }

  lemma {:induction false} LastOfIs(cmds: seq<Command>, number: uint32, i: Option<nat>)
    requires AllWellFormed(cmds) && IsLast(cmds, number, i)
    ensures LastOf(cmds, number) == match i case None => None case Some(k) => Some(cmds[k])
  {
    hide WellFormed, Get32;
    if cmds != [] && (i.None? || i.value < |cmds| - 1) {
      LastOfIs(cmds[..|cmds| - 1], number, i);
    }
  }

  /** An old signature's offset is the end, and a string table up to 16 bytes before it is. */
  lemma EndOfIs(cmds: seq<Command>, n: nat, signature: Option<nat>, symbols: Option<nat>)
    requires AllWellFormed(cmds) && IsLast(cmds, 0x1D, signature) && IsLast(cmds, 2, symbols)
    ensures var base := if signature.None? then n else Get32(cmds[signature.value], 8);
      if symbols.None? || Get32(cmds[symbols.value], 16) == 0 == Get32(cmds[symbols.value], 20) then
        EndOf(cmds, n) == if base <= n then Some(base) else None
      else
        var end := (Get32(cmds[symbols.value], 16) + Get32(cmds[symbols.value], 20)) % 0x1_0000_0000;
        EndOf(cmds, n) == if base <= n && 0x10 <= base && base - 0x10 <= end <= base then Some(end) else None
  {
    hide Get32, LastOf;
    LastOfIs(cmds, 0x1D, signature);
    LastOfIs(cmds, 2, symbols);
  }

  // ----- The commands that are written -----

  /** How many of the first n commands are no signatures. */
  function KeptBefore(cmds: seq<Command>, n: nat): (r: nat)
    requires AllWellFormed(cmds) && n <= |cmds|
  {
    if n == 0 then 0 else KeptBefore(cmds, n - 1) + (if Get32(cmds[n - 1], 0) == 0x1D then 0 else 1)
  }

  /** A segment called __LINKEDIT. */
  predicate Linkedit(c: Command)
  {
    && |c| >= 56 && (Get32(c, 0) == 0x19 || Get32(c, 0) == 1)
    && c[8..19] == [0x5F, 0x5F, 0x4C, 0x49, 0x4E, 0x4B, 0x45, 0x44, 0x49, 0x54, 0]
  }

  /** n rounded up to a multiple of align, in so many bits. */
  ghost predicate IsRounded(v: nat, n: nat, align: nat, modulus: nat)
    requires align > 0 && modulus > 0
  {
    exists r: nat :: n <= r < n + align && r % align == 0 && v == r % modulus
  }

  /** A command as it is written: __LINKEDIT reaches the end of the slice, in memory
      rounded up; everything else is as it was. */
  ghost predicate WrittenFrom(r: Command, c: Command, total: nat, align: nat)
    requires align > 0
  {
    if !Linkedit(c) then r == c
    else if Get32(c, 0) == 0x19 then
      && |r| == |c| >= 72 && (forall i :: 0 <= i < |c| && !(32 <= i < 40) && !(48 <= i < 56) ==> r[i] == c[i])
      && Get64(r, 48) == (total - Get64(c, 40)) % 0x1_0000_0000_0000_0000
      && IsRounded(Get64(r, 32), Get64(r, 48), align, 0x1_0000_0000_0000_0000)
    else
      && |r| == |c| && (forall i :: 0 <= i < |c| && !(28 <= i < 32) && !(36 <= i < 40) ==> r[i] == c[i])
      && Get32(r, 36) == (total - Get32(c, 32)) % 0x1_0000_0000
      && IsRounded(Get32(r, 28), (total - Get32(c, 32)) % 0x1_0000_0000_0000_0000, align, 0x1_0000_0000)
  }

  lemma LinkeditIs(c: Command)
    requires WellFormed(c)
    ensures Linkedit(c) <==> (IsSegment(c, true) || IsSegment(c, false)) && NameIs(c, 8, LINKEDIT)
  {
    hide Get32;
    assert IsSegment(c, true) ==> |c| >= 72;
    assert IsSegment(c, false) ==> |c| >= 56;
    if |c| >= 56 {
      NameIsZero(c, 8, LINKEDIT);
      assert LINKEDIT + [0] == [0x5F, 0x5F, 0x4C, 0x49, 0x4E, 0x4B, 0x45, 0x44, 0x49, 0x54, 0];
    }
  }

  lemma Rounded(n: nat, align: nat, modulus: nat)
    requires align > 0 && modulus > 0
    ensures IsRounded(AlignUp(n, align) % modulus, n, align, modulus)
  {
    AlignUpIs(n, align);
  }

  lemma SpliceRead64(c: Command, size: uint64, vmsize: uint64)
    requires |c| >= 72
    ensures var r := Splice(Splice(c, 48, Put64(size)), 32, Put64(vmsize));
      Get64(r, 48) == size && Get64(r, 32) == vmsize
  {
    hide Put64, Get64;
    var r := Splice(Splice(c, 48, Put64(size)), 32, Put64(vmsize));
    assert r[48..56] == Put64(size) && r[32..40] == Put64(vmsize);
    GetPut64(r, 48, size);
    GetPut64(r, 32, vmsize);
  }

  lemma SpliceRead32(c: Command, size: uint32, vmsize: uint32)
    requires |c| >= 56
    ensures var r := Splice(Splice(c, 36, Put32(size)), 28, Put32(vmsize));
      Get32(r, 36) == size && Get32(r, 28) == vmsize
  {
    hide Put32, Get32;
    var r := Splice(Splice(c, 36, Put32(size)), 28, Put32(vmsize));
    assert r[36..40] == Put32(size) && r[28..32] == Put32(vmsize);
    GetPut32(r, 36, size);
    GetPut32(r, 28, vmsize);
  }

  lemma Narrow(x: int)
    ensures Low32(Low64(x)) == x % 0x1_0000_0000
  {
    var q := x / 0x1_0000_0000_0000_0000;
    assert x == Low64(x) + 0x1_0000_0000_0000_0000 * q;
  }

  lemma RewriteIs(c: Command, total: nat, align: nat)
    requires WellFormed(c) && align > 0
    ensures WrittenFrom(Rewrite(c, total, align), c, total, align)
  {
    hide Get32, Get64, Put32, Put64, AlignUp, NameIs, Linkedit, IsRounded, Splice;
    LinkeditIs(c);
    if Linkedit(c) {
      var wide := IsSegment(c, true);
      RewriteSegmentKeeps(c, wide, total, align);
      var size := Low64(total - FileOff(c, wide));
      if wide {
        SpliceRead64(c, size, Low64(AlignUp(size, align)));
        Rounded(size, align, 0x1_0000_0000_0000_0000);
        assert forall i: nat :: i < |c| && !(32 <= i < 40) && !(48 <= i < 56) ==> Untouched(c, wide, i);
      } else {
        SpliceRead32(c, Low32(size), Low32(AlignUp(size, align)));
        Rounded(size, align, 0x1_0000_0000);
        Narrow(total - FileOff(c, wide));
        assert forall i: nat :: i < |c| && !(28 <= i < 32) && !(36 <= i < 40) ==> Untouched(c, wide, i);
      }
    }
  }

  /** The i-th kept command stands where it should, and is what it was. */
  ghost predicate KeptAt(r: seq<Command>, cmds: seq<Command>, i: nat, total: nat, align: nat)
    requires AllWellFormed(cmds) && i < |cmds| && align > 0
  {
    Get32(cmds[i], 0) != 0x1D ==>
      KeptBefore(cmds, i) < |r| && WrittenFrom(r[KeptBefore(cmds, i)], cmds[i], total, align)
  }

  ghost predicate AllKept(r: seq<Command>, cmds: seq<Command>, total: nat, align: nat)
    requires AllWellFormed(cmds) && align > 0
  {
    forall i: nat :: i < |cmds| ==> KeptAt(r, cmds, i, total, align)
  }

  lemma {:induction false} KeptBeforeFront(front: seq<Command>, c: Command, n: nat)
    requires AllWellFormed(front + [c]) && n <= |front|
    ensures AllWellFormed(front) && KeptBefore(front + [c], n) == KeptBefore(front, n)
  {
    hide WellFormed, Get32;
    assert forall i :: 0 <= i < |front| ==> front[i] == (front + [c])[i];
    if n > 0 {
      KeptBeforeFront(front, c, n - 1);
    }
  }

  lemma {:induction false} RewrittenIs(cmds: seq<Command>, total: nat, align: nat)
    requires AllWellFormed(cmds) && align > 0
    ensures |Rewritten(cmds, total, align)| == KeptBefore(cmds, |cmds|)
    ensures AllKept(Rewritten(cmds, total, align), cmds, total, align)
  {
    hide WellFormed, Get32, Rewrite, WrittenFrom;
    if cmds != [] {
      var front, last := cmds[..|cmds| - 1], cmds[|cmds| - 1];
      assert front + [last] == cmds;
      AtLeastEight(last);
      assert WellFormed(last);
      RewrittenIs(front, total, align);
      RewrittenSnoc(front, last, total, align);
      RewriteIs(last, total, align);
      KeptBeforeFront(front, last, |front|);
      var r := Rewritten(front, total, align);
      forall i: nat | i < |cmds| ensures KeptAt(Rewritten(cmds, total, align), cmds, i, total, align)
      {
        if i < |front| {
          KeptBeforeFront(front, last, i);
          assert KeptAt(r, front, i, total, align);
        }
      }
    } else {
      assert Rewritten(cmds, total, align) == [];
    }
  }

  /** The commands of an output: the old ones without signatures, each as above, and behind
      them one that locates the new signature. */
  lemma NewCommandsAre(cmds: seq<Command>, limit: uint32, alloc: uint32, align: nat)
    requires AllWellFormed(cmds) && align > 0
    ensures var r := NewCommands(cmds, limit, alloc, align);
      && |r| == KeptBefore(cmds, |cmds|) + (if alloc == 0 then 0 else 1)
      && AllKept(r, cmds, limit + alloc, align)
      && (alloc != 0 ==>
            var c := r[|r| - 1];
            |c| == 16 && Get32(c, 0) == 0x1D && Get32(c, 4) == 16 && Get32(c, 8) == limit && Get32(c, 12) == alloc)
  {
    hide Get32, Rewritten, SignatureCommand, WrittenFrom;
    RewrittenIs(cmds, limit + alloc, align);
    var r := Rewritten(cmds, limit + alloc, align);
    SignatureCommandFields(limit, alloc);
    AppendKept(r, if alloc == 0 then [] else [SignatureCommand(limit, alloc)], cmds, limit + alloc, align);
  }

  lemma AppendKept(r: seq<Command>, more: seq<Command>, cmds: seq<Command>, total: nat, align: nat)
    requires AllWellFormed(cmds) && align > 0 && AllKept(r, cmds, total, align)
    ensures AllKept(r + more, cmds, total, align)
  {
    hide Get32, WellFormed, WrittenFrom;
    forall i: nat | i < |cmds| ensures KeptAt(r + more, cmds, i, total, align)
    {
      assert KeptAt(r, cmds, i, total, align);
    }
  }
}

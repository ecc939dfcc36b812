/** What Allocate reads from the load commands, and how it rewrites them. */
module LoadCommands {
  import opened Arithmetic
  import opened Bytes
  import opened MachO
  import opened Options

  // ----- Rewriting -----

  /** __LINKEDIT is stretched to the end of the slice; other segments stay. */
  function RewriteSegment(c: Command, wide: bool, total: nat, align: nat): (r: Command)
    requires WellFormed(c) && IsSegment(c, wide) && align > 0
    ensures |r| == |c|
  {
    if NameIs(c, 8, LINKEDIT) then
      var size := Low64(total - FileOff(c, wide));
      var vmsize := AlignUp(size, align);
      if wide then Splice(Splice(c, 48, Put64(size)), 32, Put64(Low64(vmsize)))
      else Splice(Splice(c, 36, Put32(Low32(size))), 28, Put32(Low32(vmsize)))
    else c
  }

  function Rewrite(c: Command, total: nat, align: nat): (r: Command)
    requires WellFormed(c) && align > 0
    ensures |r| == |c|
  {
    if IsSegment(c, true) then RewriteSegment(c, true, total, align)
    else if IsSegment(c, false) then RewriteSegment(c, false, total, align)
    else c
  }

  /** The kept commands: every old signature command is dropped. */
  function Rewritten(cmds: seq<Command>, total: nat, align: nat): (r: seq<Command>)
    requires AllWellFormed(cmds) && align > 0
  {
    if cmds == [] then []
    else (if IsSignature(cmds[0]) then [] else [Rewrite(cmds[0], total, align)]) + Rewritten(cmds[1..], total, align)
  }

  function SignatureCommand(limit: uint32, alloc: uint32): (c: Command)
    ensures |c| == 16
  {
    Put32(LC_CODE_SIGNATURE) + Put32(16) + Put32(limit) + Put32(alloc)
  }

  function NewCommands(cmds: seq<Command>, limit: uint32, alloc: uint32, align: nat): (r: seq<Command>)
    requires AllWellFormed(cmds) && align > 0
  {
    Rewritten(cmds, limit + alloc, align) + (if alloc == 0 then [] else [SignatureCommand(limit, alloc)])
  }

  /** Bytes that rewriting never touches. */
  ghost predicate Untouched(c: Command, wide: bool, i: nat)
    requires |c| >= 8
  {
    if wide then !(32 <= i < 40) && !(48 <= i < 56) else !(28 <= i < 32) && !(36 <= i < 40)
  }

  lemma RewriteSegmentKeeps(c: Command, wide: bool, total: nat, align: nat)
    requires WellFormed(c) && IsSegment(c, wide) && align > 0
    ensures var r := RewriteSegment(c, wide, total, align);
      && (forall i: nat :: i < |c| && Untouched(c, wide, i) ==> r[i] == c[i])
      && (!NameIs(c, 8, LINKEDIT) ==> r == c)
  {
  }

  lemma SameHeadWellFormed(c: Command, r: Command, wide: bool)
    requires WellFormed(c) && IsSegment(c, wide) && |r| == |c|
    requires forall i: nat :: i < |c| && Untouched(c, wide, i) ==> r[i] == c[i]
    ensures WellFormed(r) && IsSegment(r, wide)
    ensures FileOff(r, wide) == FileOff(c, wide) && InitProt(r, wide) == InitProt(c, wide)
    ensures NSects(r, wide) == NSects(c, wide)
    ensures NameIs(r, 8, LINKEDIT) == NameIs(c, 8, LINKEDIT) && NameIs(r, 8, TEXT) == NameIs(c, 8, TEXT)
  {
    assert forall i :: 0 <= i < 28 ==> Untouched(c, wide, i);
    SameField32(r, c, 0);
    SameField32(r, c, 4);
    if wide {
      SameField32(r, c, 40);
      SameField32(r, c, 44);
      SameField32(r, c, 60);
      SameField32(r, c, 64);
    } else {
      SameField32(r, c, 32);
      SameField32(r, c, 44);
      SameField32(r, c, 48);
    }
    assert r[8..18] == c[8..18] && r[8..14] == c[8..14];
  }

  lemma RewriteKeepsSegment(c: Command, wide: bool, total: nat, align: nat)
    requires WellFormed(c) && IsSegment(c, wide) && align > 0
    ensures var r := Rewrite(c, total, align);
      && WellFormed(r) && IsSegment(r, wide) && r == RewriteSegment(c, wide, total, align)
      && FileOff(r, wide) == FileOff(c, wide) && InitProt(r, wide) == InitProt(c, wide)
      && NSects(r, wide) == NSects(c, wide)
      && NameIs(r, 8, LINKEDIT) == NameIs(c, 8, LINKEDIT) && NameIs(r, 8, TEXT) == NameIs(c, 8, TEXT)
  {
    hide RewriteSegment, WellFormed;
    RewriteSegmentKeeps(c, wide, total, align);
    SameHeadWellFormed(c, RewriteSegment(c, wide, total, align), wide);
  }

  lemma RewriteKeeps(c: Command, total: nat, align: nat)
    requires WellFormed(c) && align > 0
    ensures var r := Rewrite(c, total, align);
      && WellFormed(r) && Cmd(r) == Cmd(c)
      && (!IsSegment(c, true) && !IsSegment(c, false) ==> r == c)
  {
    hide RewriteSegment;
    if IsSegment(c, true) {
      RewriteKeepsSegment(c, true, total, align);
    } else if IsSegment(c, false) {
      RewriteKeepsSegment(c, false, total, align);
    }
  }

  /** After rewriting, __LINKEDIT's file range ends where the slice ends. */
  lemma LinkeditEndsAtSliceEnd(c: Command, wide: bool, total: uint32, align: nat)
    requires WellFormed(c) && IsSegment(c, wide) && align > 0 && NameIs(c, 8, LINKEDIT) && FileOff(c, wide) <= total
    ensures var r := Rewrite(c, total, align);
      WellFormed(r) && IsSegment(r, wide) && FileOff(r, wide) + FileSize(r, wide) == total
  {
    hide Put32, Put64, Get32, Get64, AlignUp, NameIs;
    RewriteKeepsSegment(c, wide, total, align);
    var r, size := Rewrite(c, total, align), total - FileOff(c, wide);
    if wide {
      assert r[48..56] == Put64(size);
      GetPut64(r, 48, size);
    } else {
      assert r[36..40] == Put32(size);
      GetPut32(r, 36, size);
    }
  }

  lemma OverwriteFields(c: Command, r: Command, at1: nat, a: seq<byte>, at2: nat, b: seq<byte>, a': seq<byte>,
                        b': seq<byte>)
    requires |a| == |a'| && |b| == |b'| && at2 + |b| <= at1 && at1 + |a| <= |c|
    requires r == Splice(Splice(c, at1, a), at2, b)
    ensures Splice(Splice(r, at1, a'), at2, b') == Splice(Splice(c, at1, a'), at2, b')
  {
  }

  /** A second rewriting replaces the first. */
  lemma RewriteTwice(c: Command, total: nat, align: nat, total': nat, align': nat)
    requires WellFormed(c) && align > 0 && align' > 0
    ensures WellFormed(Rewrite(c, total, align))
    ensures Rewrite(Rewrite(c, total, align), total', align') == Rewrite(c, total', align')
  {
    hide Put32, Put64, AlignUp, NameIs, FileOff, Splice;
    RewriteKeeps(c, total, align);
    if IsSegment(c, true) || IsSegment(c, false) {
      var wide := IsSegment(c, true);
      RewriteKeepsSegment(c, wide, total, align);
      RewriteKeepsSegment(c, wide, total', align');
      RewriteKeepsSegment(Rewrite(c, total, align), wide, total', align');
      var size, size' := Low64(total - FileOff(c, wide)), Low64(total' - FileOff(c, wide));
      var vm, vm' := AlignUp(size, align), AlignUp(size', align');
      if NameIs(c, 8, LINKEDIT) {
        if wide {
          OverwriteFields(c, Rewrite(c, total, align), 48, Put64(size), 32, Put64(Low64(vm)), Put64(size'),
            Put64(Low64(vm')));
        } else {
          OverwriteFields(c, Rewrite(c, total, align), 36, Put32(Low32(size)), 28, Put32(Low32(vm)),
                          Put32(Low32(size')), Put32(Low32(vm')));
        }
      }
    }
  }

  lemma {:induction false} RewrittenWellFormed(cmds: seq<Command>, total: nat, align: nat)
    requires AllWellFormed(cmds) && align > 0
    ensures AllWellFormed(Rewritten(cmds, total, align))
  {
    hide WellFormed, Rewrite;
    if cmds != [] {
      RewriteKeeps(cmds[0], total, align);
      RewrittenWellFormed(cmds[1..], total, align);
    }
  }

  lemma {:induction false} RewrittenTwice(cmds: seq<Command>, total: nat, align: nat, total': nat, align': nat)
    requires AllWellFormed(cmds) && align > 0 && align' > 0
    ensures AllWellFormed(Rewritten(cmds, total, align))
    ensures Rewritten(Rewritten(cmds, total, align), total', align') == Rewritten(cmds, total', align')
  {
    hide Rewrite;
    RewrittenWellFormed(cmds, total, align);
    if cmds != [] {
      RewrittenTwice(cmds[1..], total, align, total', align');
      RewriteTwice(cmds[0], total, align, total', align');
      RewriteKeeps(cmds[0], total, align);
      var once := Rewritten(cmds, total, align);
      if !IsSignature(cmds[0]) {
        assert once[0] == Rewrite(cmds[0], total, align) && once[1..] == Rewritten(cmds[1..], total, align);
      } else {
        assert once == Rewritten(cmds[1..], total, align);
      }
    }
  }

  lemma {:induction false} RewrittenAppendSignature(cmds: seq<Command>, sig: Command, total: nat, align: nat)
    requires AllWellFormed(cmds) && WellFormed(sig) && IsSignature(sig) && align > 0
    ensures AllWellFormed(cmds + [sig])
    ensures Rewritten(cmds + [sig], total, align) == Rewritten(cmds, total, align)
  {
    hide WellFormed, Rewrite;
    if cmds == [] {
      assert cmds + [sig] == [sig];
      assert [sig][1..] == [];
    } else {
      RewrittenAppendSignature(cmds[1..], sig, total, align);
      assert (cmds + [sig])[1..] == cmds[1..] + [sig];
    }
  }

  lemma SignatureCommandFields(limit: uint32, alloc: uint32)
    ensures var c := SignatureCommand(limit, alloc);
      WellFormed(c) && IsSignature(c) && Get32(c, 8) == limit && Get32(c, 12) == alloc
  {
    hide Put32;
    var c := SignatureCommand(limit, alloc);
    assert c[0..4] == Put32(LC_CODE_SIGNATURE);
    assert c[4..8] == Put32(16);
    assert c[8..12] == Put32(limit);
    assert c[12..16] == Put32(alloc);
    GetPut32(c, 0, LC_CODE_SIGNATURE);
    GetPut32(c, 4, 16);
    GetPut32(c, 8, limit);
    GetPut32(c, 12, alloc);
  }

  lemma NewCommandsWellFormed(cmds: seq<Command>, limit: uint32, alloc: uint32, align: nat)
    requires AllWellFormed(cmds) && align > 0
    ensures AllWellFormed(NewCommands(cmds, limit, alloc, align))
  {
    hide WellFormed, Rewritten, SignatureCommand;
    RewrittenWellFormed(cmds, limit + alloc, align);
    SignatureCommandFields(limit, alloc);
  }

  /** Whatever was done to the commands before, doing it again with new sizes gives
      what the new sizes alone give. Signing twice, and stripping after signing, are
      both instances. */
  lemma NewCommandsTwice(cmds: seq<Command>, limit: uint32, alloc: uint32, align: nat,
                         limit': uint32, alloc': uint32, align': nat)
    requires AllWellFormed(cmds) && align > 0 && align' > 0
    ensures AllWellFormed(NewCommands(cmds, limit, alloc, align))
    ensures NewCommands(NewCommands(cmds, limit, alloc, align), limit', alloc', align')
      == NewCommands(cmds, limit', alloc', align')
  {
    hide WellFormed, Rewritten, SignatureCommand;
    NewCommandsWellFormed(cmds, limit, alloc, align);
    RewrittenTwice(cmds, limit + alloc, align, limit' + alloc', align');
    SignatureCommandFields(limit, alloc);
    if alloc == 0 {
      assert NewCommands(cmds, limit, alloc, align) == Rewritten(cmds, limit + alloc, align);
    } else {
      RewrittenAppendSignature(Rewritten(cmds, limit + alloc, align), SignatureCommand(limit, alloc), limit'
        + alloc', align');
    }
  }

  // ----- What the signer looks up -----

  /** The last command of a kind wins. */
  function LastOf(cmds: seq<Command>, cmd: uint32): (r: Option<Command>)
    requires AllWellFormed(cmds)
    ensures r.Some? ==> WellFormed(r.value) && Cmd(r.value) == cmd
  {
    if cmds == [] then None
    else
      var last := cmds[|cmds| - 1];
      if Cmd(last) == cmd then Some(last) else LastOf(cmds[..|cmds| - 1], cmd)
  }

  /** End of the string table: stroff + strsize, in 32 bits; 0 when there is none. */
  function SymbolEnd(cmds: seq<Command>): (r: uint32)
    requires AllWellFormed(cmds)
  {
    match LastOf(cmds, LC_SYMTAB)
    case None => 0
    case Some(c) => if Get32(c, 16) != 0 || Get32(c, 20) != 0 then Low32(Get32(c, 16) + Get32(c, 20)) else 0
  }

  predicate HasSymbols(cmds: seq<Command>)
    requires AllWellFormed(cmds)
  {
    match LastOf(cmds, LC_SYMTAB)
    case None => false
    case Some(c) => Get32(c, 16) != 0 || Get32(c, 20) != 0
  }

  function SignatureOffset(cmds: seq<Command>): (r: Option<uint32>)
    requires AllWellFormed(cmds)
  {
    match LastOf(cmds, LC_CODE_SIGNATURE)
    case None => None
    case Some(c) => Some(Get32(c, 8))
  }

  /** left and right of the executable segments' file ranges. */
  datatype Range = Range(left: uint64, right: uint64)

  function Widen(r: Range, c: Command): (r': Range)
    requires WellFormed(c)
  {
    if IsSegment(c, true) then WidenBy(r, c, true) else if IsSegment(c, false) then WidenBy(r, c, false) else r
  }

  function WidenBy(r: Range, c: Command, wide: bool): (r': Range)
    requires WellFormed(c) && IsSegment(c, wide)
  {
    if (InitProt(c, wide) / 4) % 2 == 1 then
      var begin := FileOff(c, wide);
      var end := if wide then Low64(begin + FileSize(c, wide)) else Low32(begin + FileSize(c, wide));
      Range(if r.left > begin then begin else r.left, if r.right < end then end else r.right)
    else r
  }

  /** The loop over the kept commands; signatures are skipped. */
  function ExecRange(cmds: seq<Command>): (r: Range)
    requires AllWellFormed(cmds)
  {
    if cmds == [] then Range(0xFFFF_FFFF_FFFF_FFFF, 0)
    else
      var before := ExecRange(cmds[..|cmds| - 1]);
      var last := cmds[|cmds| - 1];
      if IsSignature(last) then before else Widen(before, last)
  }

  /** No executable segment is called __LINKEDIT. */
  predicate LinkeditNotExecutable(cmds: seq<Command>)
    requires AllWellFormed(cmds)
  {
    forall i {:trigger cmds[i]} :: 0 <= i < |cmds| ==>
      (IsSegment(cmds[i], true) && NameIs(cmds[i], 8, LINKEDIT) ==> (InitProt(cmds[i], true) / 4) % 2 == 0)
      && (IsSegment(cmds[i], false) && NameIs(cmds[i], 8, LINKEDIT) ==> (InitProt(cmds[i], false) / 4) % 2 == 0)
  }

  datatype Span = Span(offset: uint32, size: uint64)

  /** The i-th section of a segment, when it is called __info_plist. */
  function SectionInfo(c: Command, wide: bool, i: nat): (r: Option<Span>)
    requires WellFormed(c) && IsSegment(c, wide) && i < NSects(c, wide)
  {
    var at := SegmentSize(wide) + SectionSize(wide) * i;
    assert SectionSize(wide) * (i + 1) <= SectionSize(wide) * NSects(c, wide);
    if NameIs(c, at, INFO_PLIST) then
      if wide then Some(Span(Low32(FileOff(c, wide) + Get32(c, at + 48)), Get64(c, at + 40)))
      else Some(Span(Low32(FileOff(c, wide) + Get32(c, at + 40)), Get32(c, at + 36)))
    else None
  }

  function SegmentInfo(c: Command, wide: bool, n: nat): (r: Option<Span>)
    requires WellFormed(c) && IsSegment(c, wide) && n <= NSects(c, wide)
  {
    if n == 0 then None
    else if SectionInfo(c, wide, n - 1).Some? then SectionInfo(c, wide, n - 1)
    else SegmentInfo(c, wide, n - 1)
  }

  function CommandInfo(c: Command): (r: Option<Span>)
    requires WellFormed(c)
  {
    if IsSegment(c, true) && NameIs(c, 8, TEXT) then SegmentInfo(c, true, NSects(c, true))
    else if IsSegment(c, false) && NameIs(c, 8, TEXT) then SegmentInfo(c, false, NSects(c, false))
    else None
  }

  /** Where the embedded Info.plist is: the last __TEXT,__info_plist section. */
  function InfoSpan(cmds: seq<Command>): (r: Option<Span>)
    requires AllWellFormed(cmds)
  {
    if cmds == [] then None
    else
      var last := CommandInfo(cmds[|cmds| - 1]);
      if last.Some? then last else InfoSpan(cmds[..|cmds| - 1])
  }

  // ----- Rewriting leaves them alone -----

  lemma {:induction false} RewrittenSnoc(cmds: seq<Command>, c: Command, total: nat, align: nat)
    requires AllWellFormed(cmds) && WellFormed(c) && align > 0
    ensures AllWellFormed(cmds + [c])
    ensures Rewritten(cmds + [c], total, align)
         == Rewritten(cmds, total, align) + (if IsSignature(c) then [] else [Rewrite(c, total, align)])
  {
    hide Rewrite, Get32, NameIs, SegmentSize, SectionSize, NSects;
    if cmds == [] {
      assert cmds + [c] == [c];
      assert [c][1..] == [];
    } else {
      RewrittenSnoc(cmds[1..], c, total, align);
      assert (cmds + [c])[1..] == cmds[1..] + [c];
      var head := if IsSignature(cmds[0]) then [] else [Rewrite(cmds[0], total, align)];
      var tail := if IsSignature(c) then [] else [Rewrite(c, total, align)];
      assert Rewritten(cmds + [c], total, align) == head + (Rewritten(cmds[1..], total, align) + tail);
      assert head + (Rewritten(cmds[1..], total, align) + tail) == (head + Rewritten(cmds[1..], total, align)) + tail;
    }
  }

  /** The third letter of a segment name tells __TEXT from __LINKEDIT. */
  lemma ThirdLetter(c: Command)
    requires |c| > 18
    ensures NameIs(c, 8, TEXT) ==> c[10] == 0x54
    ensures NameIs(c, 8, LINKEDIT) ==> c[10] == 0x4C
  {
    assert c[8..14][2] == c[10] && c[8..18][2] == c[10];
  }

  lemma RewriteLookups(c: Command, total: nat, align: nat, r: Range)
    requires WellFormed(c) && align > 0
    ensures WellFormed(Rewrite(c, total, align))
    ensures CommandInfo(Rewrite(c, total, align)) == CommandInfo(c)
    ensures Cmd(c) != LC_SEGMENT && Cmd(c) != LC_SEGMENT_64 ==> Rewrite(c, total, align) == c
    ensures LinkeditNotExecutable([c]) ==> Widen(r, Rewrite(c, total, align)) == Widen(r, c)
  {
    hide SegmentInfo, NameIs, InitProt, FileOff, FileSize, NSects;
    RewriteKeeps(c, total, align);
    assert [c][0] == c;
    if IsSegment(c, true) || IsSegment(c, false) {
      var wide := IsSegment(c, true);
      RewriteKeepsSegment(c, wide, total, align);
      RewriteSegmentKeeps(c, wide, total, align);
      ThirdLetter(c);
    }
  }

  lemma InfoSpanSnoc(front: seq<Command>, c: Command)
    requires AllWellFormed(front) && WellFormed(c)
    ensures AllWellFormed(front + [c])
    ensures InfoSpan(front + [c]) == if CommandInfo(c).Some? then CommandInfo(c) else InfoSpan(front)
    ensures ExecRange(front + [c]) == if IsSignature(c) then ExecRange(front) else Widen(ExecRange(front), c)
    ensures forall cmd :: LastOf(front + [c], cmd) == if Cmd(c) == cmd then Some(c) else LastOf(front, cmd)
    ensures LinkeditNotExecutable(front + [c]) ==> LinkeditNotExecutable(front) && LinkeditNotExecutable([c])
  {
    hide CommandInfo, Widen, NameIs, InitProt;
    assert (front + [c])[..|front|] == front && (front + [c])[|front|] == c;
    if LinkeditNotExecutable(front + [c]) {
      forall i | 0 <= i < |front|
        ensures front[i] == (front + [c])[i]
      {
      }
      assert [c][0] == (front + [c])[|front|];
    }
  }

  lemma {:induction false} RewrittenLookups(cmds: seq<Command>, total: nat, align: nat)
    requires AllWellFormed(cmds) && align > 0
    ensures AllWellFormed(Rewritten(cmds, total, align))
    ensures InfoSpan(Rewritten(cmds, total, align)) == InfoSpan(cmds)
    ensures LastOf(Rewritten(cmds, total, align), LC_SYMTAB) == LastOf(cmds, LC_SYMTAB)
    ensures LinkeditNotExecutable(cmds) ==> ExecRange(Rewritten(cmds, total, align)) == ExecRange(cmds)
  {
    hide Rewrite, CommandInfo, Widen, InfoSpan, ExecRange, LastOf, LinkeditNotExecutable;
    RewrittenWellFormed(cmds, total, align);
    if cmds == [] {
      assert Rewritten(cmds, total, align) == cmds;
    } else {
      var front, last := cmds[..|cmds| - 1], cmds[|cmds| - 1];
      assert front + [last] == cmds;
      RewrittenLookups(front, total, align);
      RewrittenSnoc(front, last, total, align);
      RewriteLookups(last, total, align, ExecRange(front));
      RewriteKeeps(last, total, align);
      InfoSpanSnoc(front, last);
      if IsSignature(last) {
        assert Rewritten(cmds, total, align) == Rewritten(front, total, align);
        SignatureHasNoInfo(last);
      } else {
        InfoSpanSnoc(Rewritten(front, total, align), Rewrite(last, total, align));
      }
    }
  }

  lemma SignatureHasNoInfo(c: Command)
    requires WellFormed(c) && IsSignature(c)
    ensures CommandInfo(c) == None
  {
  }

  lemma SymbolsFollow(cmds: seq<Command>, r: seq<Command>)
    requires AllWellFormed(cmds) && AllWellFormed(r) && LastOf(r, LC_SYMTAB) == LastOf(cmds, LC_SYMTAB)
    ensures SymbolEnd(r) == SymbolEnd(cmds) && HasSymbols(r) == HasSymbols(cmds)
  {
    hide LastOf;
  }

  lemma SignatureFollows(cmds: seq<Command>, limit: uint32, alloc: uint32)
    requires AllWellFormed(cmds) && LastOf(cmds, LC_CODE_SIGNATURE) == Some(SignatureCommand(limit, alloc))
    ensures SignatureOffset(cmds) == Some(limit)
  {
    hide LastOf, SignatureCommand;
    SignatureCommandFields(limit, alloc);
  }

  /** Symbol table, Info.plist and executable range survive the rewriting; the new
      signature command is the one that counts. */
  lemma NewCommandsLookups(cmds: seq<Command>, limit: uint32, alloc: uint32, align: nat)
    requires AllWellFormed(cmds) && align > 0
    ensures var r := NewCommands(cmds, limit, alloc, align);
      && AllWellFormed(r)
      && InfoSpan(r) == InfoSpan(cmds)
      && SymbolEnd(r) == SymbolEnd(cmds) && HasSymbols(r) == HasSymbols(cmds)
      && (LinkeditNotExecutable(cmds) ==> ExecRange(r) == ExecRange(cmds))
      && (alloc != 0 ==> SignatureOffset(r) == Some(limit))
  {
    hide Rewritten, SignatureCommand, CommandInfo, Widen, InfoSpan, ExecRange, LastOf, LinkeditNotExecutable;
    hide WellFormed, SymbolEnd, HasSymbols, SignatureOffset, NameIs, Get32;
    NewCommandsWellFormed(cmds, limit, alloc, align);
    RewrittenLookups(cmds, limit + alloc, align);
    SignatureCommandFields(limit, alloc);
    if alloc != 0 {
      SignatureHasNoInfo(SignatureCommand(limit, alloc));
      InfoSpanSnoc(Rewritten(cmds, limit + alloc, align), SignatureCommand(limit, alloc));
      SignatureFollows(NewCommands(cmds, limit, alloc, align), limit, alloc);
    } else {
      assert NewCommands(cmds, limit, alloc, align) == Rewritten(cmds, limit + alloc, align);
    }
    SymbolsFollow(cmds, NewCommands(cmds, limit, alloc, align));
  }
}

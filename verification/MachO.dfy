/** Thin, little-endian Mach-O files: the header, the load commands, and how the
    signer rewrites them. */
module MachO {
  import opened Bytes
  import opened Options

  const LC_SEGMENT: uint32 := 0x01
  const LC_SYMTAB: uint32 := 0x02
  const LC_SEGMENT_64: uint32 := 0x19
  const LC_CODE_SIGNATURE: uint32 := 0x1D

  const MH_MAGIC: uint32 := 0xFEED_FACE
  const MH_MAGIC_64: uint32 := 0xFEED_FACF
  const MH_EXECUTE: uint32 := 2
  const MH_DYLIB: uint32 := 6
  const MH_DYLINKER: uint32 := 7
  const MH_BUNDLE: uint32 := 8

  // ----- Load commands -----

  type Command = seq<byte>

  function Cmd(c: Command): (r: uint32)
    requires |c| >= 8
  {
    Get32(c, 0)
  }

  function CmdSize(c: Command): (r: uint32)
    requires |c| >= 8
  {
    Get32(c, 4)
  }

  predicate IsSignature(c: Command)
    requires |c| >= 8
  {
    Cmd(c) == LC_CODE_SIGNATURE
  }

  /** The 16-byte name field holds exactly this shorter string. */
  predicate NameIs(c: Command, at: nat, name: seq<byte>)
    requires at + |name| < |c|
  {
    c[at..at + |name|] == name && c[at + |name|] == 0
  }

  const LINKEDIT: seq<byte> := [0x5F, 0x5F, 0x4C, 0x49, 0x4E, 0x4B, 0x45, 0x44, 0x49, 0x54]
  const TEXT: seq<byte> := [0x5F, 0x5F, 0x54, 0x45, 0x58, 0x54]
  const INFO_PLIST: seq<byte> := [0x5F, 0x5F, 0x69, 0x6E, 0x66, 0x6F, 0x5F, 0x70, 0x6C, 0x69, 0x73, 0x74]

  /** Field offsets of segment_command and segment_command_64. */
  function SegmentSize(wide: bool): (r: nat) { if wide then 72 else 56 }
  function SectionSize(wide: bool): (r: nat) { if wide then 80 else 68 }
  function NSects(c: Command, wide: bool): (r: uint32)
    requires |c| >= SegmentSize(wide)
  {
    Get32(c, if wide then 64 else 48)
  }

  function InitProt(c: Command, wide: bool): (r: uint32)
    requires |c| >= SegmentSize(wide)
  {
    Get32(c, if wide then 60 else 44)
  }

  function FileOff(c: Command, wide: bool): (r: uint64)
    requires |c| >= SegmentSize(wide)
  {
    if wide then Get64(c, 40) else Get32(c, 32)
  }

  function FileSize(c: Command, wide: bool): (r: uint64)
    requires |c| >= SegmentSize(wide)
  {
    if wide then Get64(c, 48) else Get32(c, 36)
  }

  /** Bytes 8..24 name the segment; `wide` selects the 64-bit layout. */
  predicate IsSegment(c: Command, wide: bool)
    requires |c| >= 8
  {
    Cmd(c) == if wide then LC_SEGMENT_64 else LC_SEGMENT
  }

  /** What the signer takes for granted about a load command. */
  predicate WellFormed(c: Command)
  {
    && |c| >= 8
    && CmdSize(c) == |c|
    && (Cmd(c) == LC_SYMTAB ==> |c| >= 24)
    && (Cmd(c) == LC_CODE_SIGNATURE ==> |c| >= 16)
    && (forall wide {:trigger IsSegment(c, wide)} :: IsSegment(c, wide) ==>
          |c| >= SegmentSize(wide) && |c| >= SegmentSize(wide) + SectionSize(wide) * NSects(c, wide))
  }

  predicate AllWellFormed(cmds: seq<Command>)
  {
    forall i :: 0 <= i < |cmds| ==> WellFormed(cmds[i])
  }

  // ----- The file -----

  function HeaderSize(f: seq<byte>): (r: nat)
    requires |f| >= 4
  {
    if Get32(f, 0) == MH_MAGIC_64 then 32 else 28
  }

  function CpuType(f: seq<byte>): (r: uint32) requires |f| >= 28 { Get32(f, 4) }
  function FileType(f: seq<byte>): (r: uint32) requires |f| >= 28 { Get32(f, 12) }
  function NCmds(f: seq<byte>): (r: uint32) requires |f| >= 28 { Get32(f, 16) }
  function SizeOfCmds(f: seq<byte>): (r: uint32) requires |f| >= 28 { Get32(f, 20) }

  /** GetLoadCommands: walk n commands by their sizes. */
  function ParseCommands(f: seq<byte>, at: nat, n: nat): (r: Option<seq<Command>>)
    decreases n
  {
    if n == 0 then Some([])
    else if at + 8 > |f| then None
    else
      var size := Get32(f, at + 4);
      if size < 8 || at + size > |f| then None
      else
        var c := f[at..at + size];
        if !WellFormed(c) then None
        else match ParseCommands(f, at + size, n - 1)
          case None => None
          case Some(rest) => Some([c] + rest)
  }

  function Total(cmds: seq<Command>): (r: nat) { |Concat(cmds)| }

  /** A thin file the signer can process. */
  predicate IsMachO(f: seq<byte>)
  {
    && |f| >= 32
    && (Get32(f, 0) == MH_MAGIC || Get32(f, 0) == MH_MAGIC_64)
    && FileType(f) in {MH_EXECUTE, MH_DYLIB, MH_DYLINKER, MH_BUNDLE}
    && ParseCommands(f, HeaderSize(f), NCmds(f)).Some?
    && SizeOfCmds(f) == Total(Commands(f))
  }

  function Commands(f: seq<byte>): (r: seq<Command>)
    requires |f| >= 32 && ParseCommands(f, HeaderSize(f), NCmds(f)).Some?
  {
    ParseCommands(f, HeaderSize(f), NCmds(f)).value
  }

  lemma {:induction false} ParseShape(f: seq<byte>, at: nat, n: nat)
    requires ParseCommands(f, at, n).Some?
    ensures var cmds := ParseCommands(f, at, n).value;
      && |cmds| == n && AllWellFormed(cmds)
      && (at <= |f| ==> at + |Concat(cmds)| <= |f| && f[at..at + |Concat(cmds)|] == Concat(cmds))
    decreases n
  {
    hide Get32, WellFormed;
    if n > 0 {
      var size := Get32(f, at + 4);
      var c := f[at..at + size];
      ParseShape(f, at + size, n - 1);
      var rest := ParseCommands(f, at + size, n - 1).value;
      JoinParsed(f, at, c, rest);
    }
  }

  lemma JoinParsed(f: seq<byte>, at: nat, c: Command, rest: seq<Command>)
    requires at + |c| <= |f| && f[at..at + |c|] == c
    ensures Concat([c] + rest) == c + Concat(rest)
    ensures at + |c| + |Concat(rest)| <= |f| && f[at + |c|..at + |c| + |Concat(rest)|] == Concat(rest) ==>
      f[at..at + |Concat([c] + rest)|] == Concat([c] + rest)
  {
    assert ([c] + rest)[1..] == rest;
    var end := at + |c| + |Concat(rest)|;
    if end <= |f| && f[at + |c|..end] == Concat(rest) {
      assert f[at..end] == f[at..at + |c|] + f[at + |c|..end];
    }
  }

  lemma SliceOfSlice(f: seq<byte>, at: nat, c: seq<byte>, rest: seq<byte>)
    requires at + |c| + |rest| <= |f| && f[at..at + |c| + |rest|] == c + rest
    ensures f[at..at + |c|] == c && f[at + |c|..at + |c| + |rest|] == rest
  {
    var whole := f[at..at + |c| + |rest|];
    assert whole[..|c|] == c && whole[|c|..] == rest;
  }

  lemma CommandAt(f: seq<byte>, at: nat, c: Command)
    requires WellFormed(c) && at + |c| <= |f| && f[at..at + |c|] == c
    ensures Get32(f, at + 4) == |c|
  {
    var whole := f[at..at + |c|];
    assert whole[4] == f[at + 4] && whole[5] == f[at + 5] && whole[6] == f[at + 6] && whole[7] == f[at + 7];
    assert c[4] == f[at + 4] && c[5] == f[at + 5] && c[6] == f[at + 6] && c[7] == f[at + 7];
  }

  /** Any file holding well-formed commands back to back parses to them. */
  lemma {:induction false} ParseConcat(f: seq<byte>, at: nat, cmds: seq<Command>)
    requires AllWellFormed(cmds)
    requires at + |Concat(cmds)| <= |f| && f[at..at + |Concat(cmds)|] == Concat(cmds)
    ensures ParseCommands(f, at, |cmds|) == Some(cmds)
    decreases |cmds|
  {
    hide Get32, CmdSize, Cmd;
    if cmds != [] {
      var c, rest := cmds[0], cmds[1..];
      SliceOfSlice(f, at, c, Concat(rest));
      CommandAt(f, at, c);
      ParseConcat(f, at + |c|, rest);
      assert [c] + rest == cmds;
    }
  }

  /** The files that can be processed, by the places of the format: one of the two magic
      numbers, one of four file types, and commands that are as many and as long as said. */
  lemma MachOIs(f: seq<byte>, cmds: seq<Command>)
    requires |f| >= 32 && AllWellFormed(cmds)
    ensures IsMachO(f) && Commands(f) == cmds <==>
      && (Get32(f, 0) == 0xFEED_FACE || Get32(f, 0) == 0xFEED_FACF) && Get32(f, 12) in {2, 6, 7, 8}
      && Get32(f, 16) == |cmds| && Get32(f, 20) == |Concat(cmds)|
      && (var at := if Get32(f, 0) == 0xFEED_FACF then 32 else 28;
          at + |Concat(cmds)| <= |f| && f[at..at + |Concat(cmds)|] == Concat(cmds))
  {
    hide Get32, ParseCommands, WellFormed, Concat;
    if ParseCommands(f, HeaderSize(f), NCmds(f)).Some? {
      ParseShape(f, HeaderSize(f), NCmds(f));
    }
    var at := HeaderSize(f);
    if at + |Concat(cmds)| <= |f| && f[at..at + |Concat(cmds)|] == Concat(cmds) {
      ParseConcat(f, at, cmds);
    }
  }
}

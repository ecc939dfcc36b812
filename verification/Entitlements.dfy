/** Reading the entitlements back out of a signed image. */
module Entitlements {
  import opened Arithmetic
  import opened Bytes
  import opened MachO
  import opened Options
  import opened LoadCommands
  import opened SuperBlob
  import opened Tables
  import opened CodeDirectory
  import opened Ldid
  import opened Signing
  import FatFile

  /** The callback: the first string found is kept, later ones must repeat it. */
  function Merge(acc: seq<byte>, found: seq<byte>): (r: Option<seq<byte>>)
  {
    if acc == [] then Some(found) else if acc == found then Some(acc) else None
  }

  /** Entries k and up of the signature at the start of s. None when an assertion fails
      or something points outside the file. */
  function Scan(s: seq<byte>, k: nat, count: nat, acc: seq<byte>): (r: Option<seq<byte>>)
    requires k <= count
    decreases count - k
  {
    if k == count then Some(acc)
    else if 12 + 8 * k + 8 > |s| then None
    else if Get32Big(s, 12 + 8 * k) != CSSLOT_ENTITLEMENTS then Scan(s, k + 1, count, acc)
    else
      var begin := Get32Big(s, 12 + 8 * k + 4);
      if begin + 8 > |s| || Get32Big(s, begin + 4) < 8 || begin + Get32Big(s, begin + 4) > |s| then None
      else
        var merged := Merge(acc, s[begin + 8..begin + Get32Big(s, begin + 4)]);
        if merged.None? then None else Scan(s, k + 1, count, merged.value)
  }

  function ScanSignature(f: seq<byte>, at: nat, acc: seq<byte>): (r: Option<seq<byte>>)
  {
    if at > |f| || |f| - at < 12 then None else Scan(f[at..], 0, Get32Big(f[at..], 8), acc)
  }

  function SignatureAt(c: Command): (at: uint32)
    requires WellFormed(c) && IsSignature(c)
  {
    Get32(c, 8)
  }

  /** Commands k and up. */
  function ScanCommands(f: seq<byte>, cmds: seq<Command>, k: nat, acc: seq<byte>): (r: Option<seq<byte>>)
    requires AllWellFormed(cmds) && k <= |cmds|
    decreases |cmds| - k
  {
    if k == |cmds| then Some(acc)
    else if !IsSignature(cmds[k]) then ScanCommands(f, cmds, k + 1, acc)
    else
      var found := ScanSignature(f, SignatureAt(cmds[k]), acc);
      if found.None? then None else ScanCommands(f, cmds, k + 1, found.value)
  }

  /** Images k and up of a fat file, or the only one. */
  function ScanImages(images: seq<seq<byte>>, k: nat, acc: seq<byte>): (r: Option<seq<byte>>)
    requires k <= |images| && forall i :: 0 <= i < |images| ==> IsMachO(images[i])
    decreases |images| - k
  {
    if k == |images| then Some(acc)
    else
      var found := ScanCommands(images[k], ParsedCommands(images[k]), 0, acc);
      if found.None? then None else ScanImages(images, k + 1, found.value)
  }

  /** Analyze, for one image, after the images before it gave acc. */
  method AnalyzeImage(f: seq<byte>, acc: seq<byte>) returns (r: Option<seq<byte>>)
    requires IsMachO(f)
    ensures r == ScanCommands(f, ParsedCommands(f), 0, acc)
  {
    hide IsMachO, Get32, Get32Big, WellFormed;
    var cmds := ParsedCommands(f);
    var entitlements := acc;
    for i := 0 to |cmds|
      invariant ScanCommands(f, cmds, i, entitlements) == ScanCommands(f, cmds, 0, acc)
    {
      AtLeastEight(cmds[i]);
      if IsSignature(cmds[i]) {
        var signature := SignatureAt(cmds[i]);
        if signature > |f| || |f| - signature < 12 {
          return None;
        }
        var super := f[signature..];
        var count := Get32Big(super, 8);
        ghost var before := entitlements;
        for index := 0 to count
          invariant Scan(super, index, count, entitlements) == Scan(super, 0, count, before)
        {
          if 12 + 8 * index + 8 > |super| {
            return None;
          }
          if Get32Big(super, 12 + 8 * index) == CSSLOT_ENTITLEMENTS {
            var begin := Get32Big(super, 12 + 8 * index + 4);
            if begin + 8 > |super| {
              return None;
            }
            var length := Get32Big(super, begin + 4);
            if length < 8 || begin + length > |super| {
              return None;
            }
            var data := super[begin + 8..begin + length];
            if entitlements == [] {
              entitlements := data;
            } else if entitlements != data {
              return None;
            }
          }
        }
      }
    }
    return Some(entitlements);
  }

  /** Analyze. */
  method Analyze(images: seq<seq<byte>>) returns (r: Option<seq<byte>>)
    requires forall i :: 0 <= i < |images| ==> IsMachO(images[i])
    ensures r == ScanImages(images, 0, [])
  {
    hide IsMachO, ScanCommands;
    var entitlements: seq<byte> := [];
    for i := 0 to |images|
      invariant ScanImages(images, i, entitlements) == ScanImages(images, 0, [])
    {
      var found := AnalyzeImage(images[i], entitlements);
      if found.None? {
        return None;
      }
      entitlements := found.value;
    }
    return Some(entitlements);
  }

  // ----- On the signer's own output -----

  lemma {:induction false} ScanTable(s: seq<byte>, blobs: Blobs, k: nat, acc: seq<byte>, value: seq<byte>)
    requires k <= |blobs| && Sorted(blobs) && Size(blobs) < 0x1_0000_0000
    requires |s| >= Size(blobs) && s[..Size(blobs)] == Serialize(CSMAGIC_EMBEDDED_SIGNATURE, blobs)
    requires Find(blobs, CSSLOT_ENTITLEMENTS) ==
      if value == [] then None else Some(Wrap(CSMAGIC_EMBEDDED_ENTITLEMENTS, value))
    requires acc == value || (acc == [] && forall i :: 0 <= i < k ==> blobs[i].slot != CSSLOT_ENTITLEMENTS)
    ensures Scan(s, k, |blobs|, acc) == Some(value)
    decreases |blobs| - k
  {
    hide Get32Big, Serialize, Size, Find, Wrap;
    if k == |blobs| {
      if forall i :: 0 <= i < k ==> blobs[i].slot != CSSLOT_ENTITLEMENTS {
        FindNone(blobs, CSSLOT_ENTITLEMENTS);
      }
    } else {
      EntryRead(s, blobs, k);
      FindIs(blobs, k);
      if blobs[k].slot == CSSLOT_ENTITLEMENTS {
        BlobRead(s, blobs, k, value);
        ScanTable(s, blobs, k + 1, value, value);
      } else {
        ScanTable(s, blobs, k + 1, acc, value);
      }
    }
  }

  lemma EntryRead(s: seq<byte>, blobs: Blobs, k: nat)
    requires k < |blobs| && Size(blobs) < 0x1_0000_0000
    requires |s| >= Size(blobs) && s[..Size(blobs)] == Serialize(CSMAGIC_EMBEDDED_SIGNATURE, blobs)
    ensures 12 + 8 * k + 8 <= |s| && Get32Big(s, 12 + 8 * k) == blobs[k].slot
    ensures Get32Big(s, 12 + 8 * k + 4) == Offset(blobs, k)
    ensures Offset(blobs, k) + |blobs[k].value| <= |s|
    ensures s[Offset(blobs, k)..Offset(blobs, k) + |blobs[k].value|] == blobs[k].value
  {
    hide Serialize, DataSize;
    var t := Serialize(CSMAGIC_EMBEDDED_SIGNATURE, blobs);
    SuperBlobLocates(CSMAGIC_EMBEDDED_SIGNATURE, blobs, k);
    SameBig32(s, t, 12 + 8 * k);
    SameBig32(s, t, 12 + 8 * k + 4);
    PrefixField(s, t, Offset(blobs, k), Offset(blobs, k) + |blobs[k].value|);
  }

  lemma SameBig32(s: seq<byte>, t: seq<byte>, at: nat)
    requires at + 4 <= |t| <= |s| && s[..|t|] == t
    ensures Get32Big(s, at) == Get32Big(t, at)
  {
    assert forall i :: 0 <= i < |t| ==> s[i] == t[i] by {
      assert forall i :: 0 <= i < |t| ==> s[i] == s[..|t|][i];
    }
  }

  lemma BlobRead(s: seq<byte>, blobs: Blobs, k: nat, value: seq<byte>)
    requires k < |blobs| && Offset(blobs, k) + |blobs[k].value| <= |s| && Size(blobs) < 0x1_0000_0000
    requires s[Offset(blobs, k)..Offset(blobs, k) + |blobs[k].value|] == blobs[k].value
    requires blobs[k].value == Wrap(CSMAGIC_EMBEDDED_ENTITLEMENTS, value)
    ensures var begin := Offset(blobs, k);
      begin + 8 + |value| <= |s| && Get32Big(s, begin + 4) == 8 + |value| && s[begin + 8..begin + 8 + |value|] == value
  {
    hide Wrap, Offset;
    DataAt(blobs, k);
    WrapSelfSized(CSMAGIC_EMBEDDED_ENTITLEMENTS, value);
    LengthAt(s, Offset(blobs, k), blobs[k].value);
    SubSlice(s, Offset(blobs, k), Offset(blobs, k) + |blobs[k].value|, 8, 8 + |value|);
  }

  lemma {:induction false} RewrittenUnsigned(cmds: seq<Command>, total: nat, align: nat, i: nat)
    requires AllWellFormed(cmds) && align > 0 && i < |Rewritten(cmds, total, align)|
    ensures WellFormed(Rewritten(cmds, total, align)[i]) && !IsSignature(Rewritten(cmds, total, align)[i])
  {
    hide Rewrite, Get32, NameIs;
    RewriteKeeps(cmds[0], total, align);
    var r := Rewritten(cmds, total, align);
    if IsSignature(cmds[0]) {
      assert r == Rewritten(cmds[1..], total, align);
      RewrittenUnsigned(cmds[1..], total, align, i);
    } else if i > 0 {
      assert r[i] == Rewritten(cmds[1..], total, align)[i - 1];
      RewrittenUnsigned(cmds[1..], total, align, i - 1);
    }
  }

  lemma {:induction false} SkipUnsigned(f: seq<byte>, cmds: seq<Command>, k: nat, acc: seq<byte>)
    requires AllWellFormed(cmds) && k < |cmds| && IsSignature(cmds[|cmds| - 1])
    requires forall i {:trigger cmds[i]} :: 0 <= i < |cmds| - 1 ==> !IsSignature(cmds[i])
    ensures ScanCommands(f, cmds, k, acc) == ScanSignature(f, SignatureAt(cmds[|cmds| - 1]), acc)
    decreases |cmds| - k
  {
    hide WellFormed, Get32, ScanSignature;
    AtLeastEight(cmds[k]);
    if k + 1 < |cmds| {
      assert WellFormed(cmds[k]);
      SkipUnsigned(f, cmds, k + 1, acc);
    }
  }

  lemma ScanOwnSignature(y: seq<byte>, limit: nat, blobs: Blobs, value: seq<byte>, rest: seq<byte>, acc: seq<byte>)
    requires acc == [] || acc == value
    requires limit <= |y| && Sorted(blobs) && Size(blobs) < 0x1_0000_0000
    requires y[limit..] == Serialize(CSMAGIC_EMBEDDED_SIGNATURE, blobs) + rest
    requires Find(blobs, CSSLOT_ENTITLEMENTS) ==
      if value == [] then None else Some(Wrap(CSMAGIC_EMBEDDED_ENTITLEMENTS, value))
    ensures ScanSignature(y, limit, acc) == Some(value)
  {
    hide Serialize, Scan, Find, Wrap, DataSize, Sorted, Put32Big;
    var s, t := y[limit..], Serialize(CSMAGIC_EMBEDDED_SIGNATURE, blobs);
    assert s[..Size(blobs)] == t;
    SerializedParts(CSMAGIC_EMBEDDED_SIGNATURE, blobs);
    GetPut32Big(t, 8, |blobs|);
    SameBig32(s, t, 8);
    ScanTable(s, blobs, 0, acc, value);
  }

  /** What was signed in can be read back. */
  lemma EntitlementsRecovered(f: seq<byte>, q: Request, align: nat, acc: seq<byte>)
    requires CanSign(f, q, align) && align > 0 && (acc == [] || acc == q.entitlements)
    ensures IsMachO(Sign(f, q, align))
    ensures ScanCommands(Sign(f, q, align), ParsedCommands(Sign(f, q, align)), 0, acc) == Some(q.entitlements)
  {
    hide Fits, SliceOf, SignLayout, InfoPlist, AfterPasses, IsMachO, Zeros, Body, Get32, Serialize, Find, Wrap;
    hide Hashable, Sorted;
    hide WellFormed, Sign, Kept, ValidRequest, ImageEnd, ParsedCommands, ScanSignature;
    SignedParts(f, q, align);
    var l, y := SignLayout(f, q, align), Sign(f, q, align);
    FitsMachO(f, l);
    OutputIsMachO(f, l, y);
    KeptEndsSigned(f, l, y);
    var cmds := ParsedCommands(y);
    SkipUnsigned(y, cmds, 0, acc);
    TableWritten(f, q, align);
    var s := SliceOf(f, l);
    BlobsFound(q, InfoPlist(f), s, |q.algorithms|);
    var blobs := AfterPasses(q, InfoPlist(f), s, |q.algorithms|);
    ScanOwnSignature(y, l.limit, blobs, q.entitlements,
      Zeros(l.alloc - |Serialize(CSMAGIC_EMBEDDED_SIGNATURE, blobs)|), acc);
  }

  /** And from all slices of a fat file: they agree. */
  lemma {:induction false} FatEntitlementsRecovered(images: seq<FatFile.Image>, q: Request, k: nat, acc: seq<byte>)
    requires FatFile.CanSignAll(images, q) && k <= |images|
    requires acc == q.entitlements || (acc == [] && k < |images|)
    ensures forall i :: 0 <= i < |images| ==> IsMachO(FatFile.SignedSlices(images, q)[i])
    ensures ScanImages(FatFile.SignedSlices(images, q), k, acc) == Some(q.entitlements)
    decreases |images| - k
  {
    hide CanSign, Sign, IsMachO, ScanCommands, ParsedCommands;
    var slices := FatFile.SignedSlices(images, q);
    forall i | 0 <= i < |images| ensures IsMachO(slices[i])
    {
      EntitlementsRecovered(images[i].bytes, q, Pow2(images[i].align), []);
    }
    if k < |images| {
      EntitlementsRecovered(images[k].bytes, q, Pow2(images[k].align), acc);
      FatEntitlementsRecovered(images, q, k + 1, q.entitlements);
    }
  }

  lemma KeptEndsSigned(f: seq<byte>, l: Layout, y: seq<byte>)
    requires Fits(f, l) && IsMachO(y) && Commands(y) == Kept(f, l) && l.alloc > 0
    ensures var cmds := ParsedCommands(y);
      && |cmds| > 0 && IsSignature(cmds[|cmds| - 1]) && SignatureAt(cmds[|cmds| - 1]) == l.limit
      && forall i {:trigger cmds[i]} :: 0 <= i < |cmds| - 1 ==> !IsSignature(cmds[i])
  {
    hide Head, Get32, SignatureCommand, Rewritten, IsMachO;
    FitsMachO(f, l);
    SignatureCommandFields(l.limit, l.alloc);
    var cmds, original := ParsedCommands(y), ParsedCommands(f);
    assert cmds == Rewritten(original, l.limit + l.alloc, l.align) + [SignatureCommand(l.limit, l.alloc)];
    forall i {:trigger cmds[i]} | 0 <= i < |cmds| - 1 ensures !IsSignature(cmds[i])
    {
      RewrittenUnsigned(original, l.limit + l.alloc, l.align, i);
    }
  }
}

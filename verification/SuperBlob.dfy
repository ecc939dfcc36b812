/** The container of a code signature: an ordered table of blobs and its wire form. */
module SuperBlob {
  import opened Bytes
  import opened Options
  import opened Tables

  const CSMAGIC_CODEDIRECTORY: uint32 := 0xfade_0c02
  const CSMAGIC_EMBEDDED_SIGNATURE: uint32 := 0xfade_0cc0
  const CSMAGIC_EMBEDDED_ENTITLEMENTS: uint32 := 0xfade_7171

  const CSSLOT_CODEDIRECTORY: uint32 := 0
  const CSSLOT_INFOSLOT: uint32 := 1
  const CSSLOT_REQUIREMENTS: uint32 := 2
  const CSSLOT_ENTITLEMENTS: uint32 := 5
  const CSSLOT_ALTERNATE: uint32 := 0x1000

  type Blobs = Table<seq<byte>>

  // ----- Wire form -----

  /** A blob with its eight-byte header. */
  function Wrap(magic: uint32, value: seq<byte>): (b: seq<byte>)
    ensures |b| == 8 + |value|
  {
    Put32Big(magic) + Put32Big(Low32(8 + |value|)) + value
  }

  /** The length field of a blob says how long it is. */
  predicate SelfSized(b: seq<byte>)
  {
    |b| >= 8 && Get32Big(b, 4) == |b|
  }

  lemma WrapSelfSized(magic: uint32, value: seq<byte>)
    requires 8 + |value| < 0x1_0000_0000
    ensures SelfSized(Wrap(magic, value)) && Wrap(magic, value)[8..] == value
  {
    hide Put32Big;
    var b := Wrap(magic, value);
    assert b[4..8] == Put32Big(8 + |value|);
    GetPut32Big(b, 4, 8 + |value|);
  }

  function DataSize(blobs: Blobs): (n: nat)
  {
    if blobs == [] then 0 else |blobs[0].value| + DataSize(blobs[1..])
  }

  function Data(blobs: Blobs): (r: seq<byte>)
    ensures |r| == DataSize(blobs)
  {
    if blobs == [] then [] else blobs[0].value + Data(blobs[1..])
  }

  /** One BlobIndex per blob; the first one's data starts at `at`. */
  function Index(blobs: Blobs, at: nat): (r: seq<byte>)
    ensures |r| == 8 * |blobs|
  {
    if blobs == [] then []
    else Put32Big(blobs[0].slot) + Put32Big(Low32(at)) + Index(blobs[1..], at + |blobs[0].value|)
  }

  function IndexEnd(blobs: Blobs): (n: nat) { 12 + 8 * |blobs| }
  function Size(blobs: Blobs): (n: nat) { IndexEnd(blobs) + DataSize(blobs) }

  function Header(magic: uint32, blobs: Blobs): (r: seq<byte>)
    ensures |r| == 12
  {
    Put32Big(magic) + Put32Big(Low32(Size(blobs))) + Put32Big(Low32(|blobs|))
  }

  function Serialize(magic: uint32, blobs: Blobs): (r: seq<byte>)
    ensures |r| == Size(blobs)
  {
    Header(magic, blobs) + Index(blobs, IndexEnd(blobs)) + Data(blobs)
  }

  /** Where blob k's bytes start. */
  function Offset(blobs: Blobs, k: nat): (n: nat)
    requires k <= |blobs|
  {
    IndexEnd(blobs) + DataSize(blobs[..k])
  }

  lemma {:induction false} IndexAt(blobs: Blobs, at: nat, k: nat)
    requires k < |blobs|
    ensures Index(blobs, at)[8 * k..8 * k + 4] == Put32Big(blobs[k].slot)
    ensures Index(blobs, at)[8 * k + 4..8 * k + 8] == Put32Big(Low32(at + DataSize(blobs[..k])))
  {
    hide Put32Big;
    var head := Put32Big(blobs[0].slot) + Put32Big(Low32(at));
    var tail := Index(blobs[1..], at + |blobs[0].value|);
    assert Index(blobs, at) == head + tail;
    if k > 0 {
      IndexAt(blobs[1..], at + |blobs[0].value|, k - 1);
      assert blobs[..k][1..] == blobs[1..][..k - 1];
      assert Index(blobs, at)[8 * k..8 * k + 4] == tail[8 * (k - 1)..8 * (k - 1) + 4];
      assert Index(blobs, at)[8 * k + 4..8 * k + 8] == tail[8 * (k - 1) + 4..8 * (k - 1) + 8];
    }
  }

  lemma {:induction false} DataAt(blobs: Blobs, k: nat)
    requires k < |blobs|
    ensures DataSize(blobs[..k]) + |blobs[k].value| <= DataSize(blobs)
    ensures Data(blobs)[DataSize(blobs[..k])..DataSize(blobs[..k]) + |blobs[k].value|] == blobs[k].value
  {
    if k > 0 {
      DataAt(blobs[1..], k - 1);
      assert blobs[..k][1..] == blobs[1..][..k - 1];
      var at := DataSize(blobs[1..][..k - 1]);
      assert Data(blobs)[|blobs[0].value| + at..|blobs[0].value| + at + |blobs[k].value|]
          == Data(blobs[1..])[at..at + |blobs[k].value|];
    }
  }

  lemma FiveParts(a: seq<byte>, b: seq<byte>, c: seq<byte>, d: seq<byte>, e: seq<byte>, s: seq<byte>)
    requires |a| == |b| == |c| == 4 && s == a + b + c + d + e
    ensures s[..4] == a && s[4..8] == b && s[8..12] == c && s[12..12 + |d|] == d && s[12 + |d|..] == e
  {
  }

  lemma SerializedParts(magic: uint32, blobs: Blobs)
    ensures var s := Serialize(magic, blobs);
      && s[..4] == Put32Big(magic) && s[4..8] == Put32Big(Low32(Size(blobs))) && s[8..12] == Put32Big(Low32(|blobs|))
      && s[12..IndexEnd(blobs)] == Index(blobs, IndexEnd(blobs)) && s[IndexEnd(blobs)..] == Data(blobs)
  {
    hide Put32Big, Index, Data, Low32, DataSize;
    FiveParts(Put32Big(magic), Put32Big(Low32(Size(blobs))), Put32Big(Low32(|blobs|)), Index(blobs, IndexEnd(blobs)),
      Data(blobs),
              Serialize(magic, blobs));
  }

  lemma SubSlice(s: seq<byte>, from: nat, to: nat, a: nat, b: nat)
    requires a <= b && from + b <= to <= |s|
    ensures s[from..to][a..b] == s[from + a..from + b]
  {
    var whole, part := s[from..to][a..b], s[from + a..from + b];
    assert forall i :: 0 <= i < b - a ==> whole[i] == s[from + a + i] && part[i] == s[from + a + i];
  }

  /** The length field is the number of bytes written, the count is the number of
      blobs, and every index entry locates exactly its blob. */
  lemma SuperBlobLocates(magic: uint32, blobs: Blobs, k: nat)
    requires Size(blobs) < 0x1_0000_0000 && k < |blobs|
    ensures var s := Serialize(magic, blobs);
      && Get32Big(s, 4) == |s| && Get32Big(s, 8) == |blobs|
      && Get32Big(s, 12 + 8 * k) == blobs[k].slot
      && Get32Big(s, 12 + 8 * k + 4) == Offset(blobs, k)
      && Offset(blobs, k) + |blobs[k].value| <= |s|
      && s[Offset(blobs, k)..Offset(blobs, k) + |blobs[k].value|] == blobs[k].value
  {
    hide Put32Big, Get32Big, Index, Data, Serialize, DataSize;
    var s := Serialize(magic, blobs);
    SerializedParts(magic, blobs);
    DataAt(blobs, k);
    SubSlice(s, IndexEnd(blobs), |s|, DataSize(blobs[..k]), DataSize(blobs[..k]) + |blobs[k].value|);
    IndexRead(s, blobs, k);
    GetPut32Big(s, 4, Size(blobs));
    GetPut32Big(s, 8, |blobs|);
  }

  lemma IndexRead(s: seq<byte>, blobs: Blobs, k: nat)
    requires k < |blobs| && IndexEnd(blobs) <= |s| && s[12..IndexEnd(blobs)] == Index(blobs, IndexEnd(blobs))
    requires Offset(blobs, k) < 0x1_0000_0000
    ensures Get32Big(s, 12 + 8 * k) == blobs[k].slot && Get32Big(s, 12 + 8 * k + 4) == Offset(blobs, k)
  {
    hide Put32Big, Get32Big, Index, DataSize, Offset;
    var index := Index(blobs, IndexEnd(blobs));
    IndexAt(blobs, IndexEnd(blobs), k);
    OffsetIs(blobs, k);
    FieldRead(s, 12, index, 8 * k, blobs[k].slot);
    FieldRead(s, 12, index, 8 * k + 4, Offset(blobs, k));
  }

  lemma OffsetIs(blobs: Blobs, k: nat)
    requires k < |blobs| && Offset(blobs, k) < 0x1_0000_0000
    ensures Low32(IndexEnd(blobs) + DataSize(blobs[..k])) == Offset(blobs, k)
  {
    hide DataSize;
  }

  lemma FieldRead(s: seq<byte>, from: nat, part: seq<byte>, at: nat, v: uint32)
    requires from + |part| <= |s| && s[from..from + |part|] == part
    requires at + 4 <= |part| && part[at..at + 4] == Put32Big(v)
    ensures Get32Big(s, from + at) == v
  {
    hide Put32Big, Get32Big;
    SubSlice(s, from, from + |part|, at, at + 4);
    GetPut32Big(s, from + at, v);
  }

  /** Reading a table back: entries k and up. None when something points outside. */
  function Deserialize(s: seq<byte>, k: nat, count: nat): (r: Option<Blobs>)
    requires k <= count
    decreases count - k
  {
    if k == count then Some([])
    else if 12 + 8 * k + 8 > |s| then None
    else
      var begin := Get32Big(s, 12 + 8 * k + 4);
      if begin + 8 > |s| || begin + Get32Big(s, begin + 4) > |s| || Get32Big(s, begin + 4) < 8 then None
      else match Deserialize(s, k + 1, count)
        case None => None
        case Some(rest) => Some([Entry(Get32Big(s, 12 + 8 * k), s[begin..begin + Get32Big(s, begin + 4)])] + rest)
  }

  lemma LengthAt(s: seq<byte>, begin: nat, b: seq<byte>)
    requires SelfSized(b) && begin + |b| <= |s| && s[begin..begin + |b|] == b
    ensures Get32Big(s, begin + 4) == |b|
  {
    var whole := s[begin..begin + |b|];
    assert whole[4] == s[begin + 4] && whole[5] == s[begin + 5] && whole[6] == s[begin + 6] && whole[7] == s[begin + 7];
  }

  lemma {:induction false} DeserializeSuffix(magic: uint32, blobs: Blobs, k: nat)
    requires Size(blobs) < 0x1_0000_0000 && k <= |blobs|
    requires forall i :: 0 <= i < |blobs| ==> SelfSized(blobs[i].value)
    ensures Deserialize(Serialize(magic, blobs), k, |blobs|) == Some(blobs[k..])
    decreases |blobs| - k
  {
    hide Get32Big, Serialize, DataSize;
    if k < |blobs| {
      SuperBlobLocates(magic, blobs, k);
      LengthAt(Serialize(magic, blobs), Offset(blobs, k), blobs[k].value);
      assert SelfSized(blobs[k].value);
      DeserializeSuffix(magic, blobs, k + 1);
      assert [blobs[k]] + blobs[k + 1..] == blobs[k..];
    }
  }

  /** put and a reader of the format are inverse. */
  lemma SuperBlobRoundTrip(magic: uint32, blobs: Blobs)
    requires Size(blobs) < 0x1_0000_0000
    requires forall i :: 0 <= i < |blobs| ==> SelfSized(blobs[i].value)
    ensures Deserialize(Serialize(magic, blobs), 0, |blobs|) == Some(blobs)
  {
    DeserializeSuffix(magic, blobs, 0);
    assert blobs[0..] == blobs;
  }
}

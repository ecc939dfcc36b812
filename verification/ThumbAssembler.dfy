/** The Thumb-2 assembler: literal loads whose label is placed later, patched when it is.
    The buffer is a list of halfwords; positions are byte offsets from a word-aligned start. */
module ThumbAssembler {
  import opened Bytes
  import opened Options

  type Halfword = x: int | 0 <= x < 0x1_0000

  /** ThumbRelocLabelEntry: its data, the loads that wait for it (halfword indices), and
      its place once bound. */
  datatype Label = Label(data: uint32, waiting: seq<nat>, pos: Option<nat>)

  function Align4(p: nat): (r: nat) { p - p % 4 }

  /** EmitThumb2LoadLiteral with offset 0: subtract zero. */
  function LoadLiteral(rt: nat): (h: seq<Halfword>)
    requires rt < 16
    ensures |h| == 2
  {
    [0xF85F, rt * 0x1000]
  }

  /** inst1 | B7. */
  function SetAdd(h: Halfword): (r: Halfword) { if h / 0x80 % 2 == 1 then h else h + 0x80 }

  /** (inst2 & 0xf000) | imm12. */
  function SetImm12(h: Halfword, imm12: nat): (r: Halfword)
    requires imm12 < 0x1000
  {
    h / 0x1000 * 0x1000 + imm12
  }

  /** The distance that is written into a load at halfword u for a label at byte `pos`. */
  function Distance(u: nat, pos: nat): (d: int) { pos - Align4(2 * u) - 4 }

  /** link_confused_instructions, for one load. */
  function Link(b: seq<Halfword>, u: nat, pos: nat): (r: seq<Halfword>)
    requires u + 2 <= |b| && 0 <= Distance(u, pos) < 0x1000
    ensures |r| == |b|
  {
    b[u := SetAdd(b[u])][u + 1 := SetImm12(b[u + 1], Distance(u, pos))]
  }

  /** Where a literal load at halfword u reads: Align(PC, 4) plus or minus imm12, with PC
      four bytes ahead. */
  function Target(b: seq<Halfword>, u: nat): (address: int)
    requires u + 2 <= |b|
  {
    var base, imm12 := Align4(2 * u + 4), b[u + 1] % 0x1000;
    if b[u] / 0x80 % 2 == 1 then base + imm12 else base - imm12
  }

  lemma LinkedTarget(b: seq<Halfword>, u: nat, pos: nat)
    requires u + 2 <= |b| && 0 <= Distance(u, pos) < 0x1000
    ensures Target(Link(b, u, pos), u) == pos
    ensures Link(b, u, pos)[u + 1] / 0x1000 == b[u + 1] / 0x1000
  {
    hide SetAdd, SetImm12, Align4;
    AddIsSet(b[u]);
    ImmIsSet(b[u + 1], Distance(u, pos));
    AlignNext(u);
  }

  /** An emitted load, linked, is LDR (literal), encoding T2 of section A8.8.64, with U set: of
      the register asked for, from the label's place. */
  lemma LinkedLoad(b: seq<Halfword>, u: nat, pos: nat, rt: nat)
    requires rt < 16 && u + 2 <= |b| && b[u..u + 2] == LoadLiteral(rt) && 0 <= Distance(u, pos) < 0x1000
    ensures var r := Link(b, u, pos);
      && r[u] == 0xF8DF && r[u + 1] / 0x1000 == rt
      && (2 * u + 4) / 4 * 4 + r[u + 1] % 0x1000 == pos
  {
    assert b[u] == b[u..u + 2][0] && b[u + 1] == b[u..u + 2][1];
    ImmIsSet(b[u + 1], Distance(u, pos));
  }

  lemma AddIsSet(h: Halfword)
    ensures SetAdd(h) / 0x80 % 2 == 1
  {
  }

  lemma ImmIsSet(h: Halfword, imm12: nat)
    requires imm12 < 0x1000
    ensures SetImm12(h, imm12) % 0x1000 == imm12 && SetImm12(h, imm12) / 0x1000 == h / 0x1000
  {
  }

  lemma AlignNext(u: nat)
    ensures Align4(2 * u + 4) == Align4(2 * u) + 4
  {
  }

  function DataHalfwords(v: uint32): (h: seq<Halfword>)
    ensures |h| == 2
  {
    assert v / 0x1_0000 < 0x1_0000;
    [v % 0x1_0000, v / 0x1_0000]
  }

  /** The 32-bit word at byte position pos. */
  predicate DataAt(b: seq<Halfword>, pos: nat, v: uint32)
  {
    pos % 2 == 0 && pos / 2 + 2 <= |b| && (b[pos / 2] as int) + 0x1_0000 * (b[pos / 2 + 1] as int) == v
  }

  /** Loads lie in the code and do not overlap. */
  ghost predicate Separate(labels: seq<Label>, size: nat)
  {
    && (forall k, j :: 0 <= k < |labels| && 0 <= j < |labels[k].waiting| ==> labels[k].waiting[j] + 2 <= size)
    && (forall k, j, l, i ::
          (0 <= k < |labels| && 0 <= j < |labels[k].waiting| && 0 <= l < |labels| && 0 <= i < |labels[l].waiting|
            && (k, j) != (l, i)) ==>
            (labels[k].waiting[j] + 2 <= labels[l].waiting[i] || labels[l].waiting[i] + 2 <= labels[k].waiting[j]))
  }

  /** A new load goes behind all others. */
  lemma SeparateGrows(labels: seq<Label>, k: nat, size: nat)
    requires Separate(labels, size) && k < |labels|
    ensures Separate(labels[k := labels[k].(waiting := labels[k].waiting + [size])], size + 2)
  {
    var after := labels[k := labels[k].(waiting := labels[k].waiting + [size])];
    forall l, i | 0 <= l < |after| && 0 <= i < |after[l].waiting|
      ensures if l == k && i == |labels[k].waiting| then after[l].waiting[i] == size
              else
                i < |labels[l].waiting| && after[l].waiting[i] == labels[l].waiting[i] && labels[l].waiting[i] + 2 <= size
    {
    }
  }

  /** Every load is within reach of its label's word when the labels follow the code. */
  predicate InReach(labels: seq<Label>, size: nat, k: nat, j: nat)
    requires k < |labels| && j < |labels[k].waiting|
  {
    Distance(labels[k].waiting[j], 2 * size + 4 * k) < 0x1000
  }

  class ThumbTurboAssembler {
    var buffer: seq<Halfword>
    var labels: seq<Label>

    constructor ()
      ensures Valid() && buffer == [] && labels == []
    {
      buffer, labels := [], [];
    }

    ghost predicate Valid()
      reads this
    {
      Separate(labels, |buffer|) && forall k :: 0 <= k < |labels| ==> labels[k].pos.None?
    }

    method EmitInt16(h: Halfword)
      requires Valid()
      modifies this`buffer
      ensures Valid() && buffer == old(buffer) + [h]
    {
      buffer := buffer + [h];
    }

    method AppendRelocLabelEntry(data: uint32) returns (k: nat)
      requires Valid()
      modifies this`labels
      ensures Valid() && k == |old(labels)| && labels == old(labels) + [Label(data, [], None)]
    {
      k := |labels|;
      labels := labels + [Label(data, [], None)];
    }

    /** A load of a label that is not placed yet. */
    method T2Ldr(rt: nat, k: nat)
      requires Valid() && rt < 16 && k < |labels|
      modifies this
      ensures Valid() && buffer == old(buffer) + LoadLiteral(rt)
      ensures labels == old(labels)[k := old(labels)[k].(waiting := old(labels)[k].waiting + [|old(buffer)|])]
    {
      hide Separate;
      SeparateGrows(labels, k, |buffer|);
      labels := labels[k := labels[k].(waiting := labels[k].waiting + [|buffer|])];
      buffer := buffer + LoadLiteral(rt);
    }

    /** Patching the loads of label k, which is placed at `pos`; false when one is out of
        reach, where the source aborts. */
    method LinkLabel(k: nat, pos: nat, ghost size: nat) returns (ok: bool)
      requires k < |labels| && size <= |buffer| && 2 * size <= pos && Separate(labels, size)
      modifies this`buffer
      ensures |buffer| == |old(buffer)|
      ensures ok <==> forall j :: 0 <= j < |labels[k].waiting| ==> Distance(labels[k].waiting[j], pos) < 0x1000
      ensures ok ==> forall j :: 0 <= j < |labels[k].waiting| ==> Target(buffer, labels[k].waiting[j]) == pos
      ensures Untouched(labels, k, old(buffer), buffer)
    {
      hide Target;
      for j := 0 to |labels[k].waiting|
        invariant |buffer| == |old(buffer)| && Untouched(labels, k, old(buffer), buffer)
        invariant forall i :: 0 <= i < j ==> Distance(labels[k].waiting[i], pos) < 0x1000
        invariant forall i :: 0 <= i < j ==> Target(buffer, labels[k].waiting[i]) == pos
      {
        var u := labels[k].waiting[j];
        if Distance(u, pos) >= 0x1000 {
          return false;
        }
        LinkedTarget(buffer, u, pos);
        ghost var before := buffer;
        buffer := Link(buffer, u, pos);
        forall i | 0 <= i < j ensures Target(buffer, labels[k].waiting[i]) == pos
        {
          OtherTarget(before, u, pos, labels[k].waiting[i]);
        }
        StillUntouched(labels, k, j, old(buffer), before, pos);
      }
      return true;
    }

    /** RelocBind: each label's word is placed at the end, in order, and its loads are
        patched. It succeeds exactly when every load is in reach of its word; then every
        load reads its own label's data. */
    method RelocBind() returns (ok: bool)
      requires Valid()
      modifies this
      ensures SameUses(old(labels), labels)
      ensures ok <==> Reached(labels, |old(buffer)|, |labels|)
      ensures ok ==> Bound(buffer, labels, |labels|, |old(buffer)|)
    {
      hide Target, DataAt, Distance, Bound, Separate, Untouched;
      ghost var size := |buffer|;
      NothingBound(buffer, labels, size);
      for i := 0 to |labels|
        invariant SameUses(old(labels), labels) && Separate(labels, size) && |buffer| == size + 2 * i
        invariant Reached(labels, size, i)
        invariant Bound(buffer, labels, i, size)
      {
        var pos := 2 * |buffer|;
        ghost var before, unbound := buffer, labels;
        labels := labels[i := labels[i].(pos := Some(pos))];
        SeparateUses(unbound, labels, size);
        ok := LinkLabel(i, pos, size);
        if !ok {
          var j :| 0 <= j < |labels[i].waiting| && Distance(labels[i].waiting[j], pos) >= 0x1000;
          assert !InReach(labels, size, i, j);
          return false;
        }
        OneMoreReached(unbound, labels, size, i);
        ghost var linked := buffer;
        buffer := buffer + DataHalfwords(labels[i].data);
        BindOne(before, linked, unbound, labels, i, size);
      }
      return true;
    }
  }

  ghost predicate Reached(labels: seq<Label>, size: nat, n: nat)
    requires n <= |labels|
  {
    forall k, j :: 0 <= k < n && 0 <= j < |labels[k].waiting| ==> InReach(labels, size, k, j)
  }

  lemma OneMoreReached(before: seq<Label>, labels: seq<Label>, size: nat, i: nat)
    requires i < |labels| && SameUses(before, labels) && Reached(before, size, i)
    requires forall j :: 0 <= j < |labels[i].waiting| ==> Distance(labels[i].waiting[j], 2 * size + 4 * i) < 0x1000
    ensures Reached(labels, size, i + 1)
  {
    hide Distance;
    forall k, j | 0 <= k < i + 1 && 0 <= j < |labels[k].waiting| ensures InReach(labels, size, k, j)
    {
      if k < i {
        assert InReach(before, size, k, j);
      }
    }
  }

  /** Same data and loads; only places may differ. */
  ghost predicate SameUses(before: seq<Label>, after: seq<Label>)
  {
    |after| == |before| && forall k :: 0 <= k < |after| ==>
      after[k].data == before[k].data && after[k].waiting == before[k].waiting
  }

  /** The first n labels are placed one after the other, and their loads reach them. */
  ghost predicate Bound(b: seq<Halfword>, labels: seq<Label>, n: nat, size: nat)
    requires n <= |labels|
  {
    forall k {:trigger labels[k]} :: 0 <= k < n ==>
      && labels[k].pos == Some(2 * size + 4 * k) && DataAt(b, 2 * size + 4 * k, labels[k].data)
      && forall j :: 0 <= j < |labels[k].waiting| ==>
        labels[k].waiting[j] + 2 <= |b| && Target(b, labels[k].waiting[j]) == 2 * size + 4 * k
  }

  lemma NothingBound(b: seq<Halfword>, labels: seq<Label>, size: nat)
    ensures Bound(b, labels, 0, size)
  {
  }

  lemma SeparateUses(before: seq<Label>, after: seq<Label>, size: nat)
    requires SameUses(before, after) && Separate(before, size)
    ensures Separate(after, size)
  {
  }

  lemma SameTarget(b: seq<Halfword>, c: seq<Halfword>, u: nat)
    requires u + 2 <= |b| && u + 2 <= |c| && b[u] == c[u] && b[u + 1] == c[u + 1]
    ensures Target(b, u) == Target(c, u)
  {
  }

  lemma SameData(b: seq<Halfword>, c: seq<Halfword>, pos: nat, v: uint32)
    requires DataAt(b, pos, v) && pos / 2 + 2 <= |c| && b[pos / 2] == c[pos / 2] && b[pos / 2 + 1] == c[pos / 2 + 1]
    ensures DataAt(c, pos, v)
  {
  }

  lemma NewData(b: seq<Halfword>, v: uint32)
    ensures DataAt(b + DataHalfwords(v), 2 * |b|, v)
  {
  }

  /** Placing label i keeps what was bound before. */
  lemma BindOne(before: seq<Halfword>, linked: seq<Halfword>, unbound: seq<Label>, labels: seq<Label>, i: nat,
                size: nat)
    requires i < |labels| && |before| == |linked| == size + 2 * i && Separate(labels, size)
    requires |unbound| == |labels| && labels == unbound[i := unbound[i].(pos := Some(2 * |before|))]
    requires Bound(before, unbound, i, size) && Untouched(labels, i, before, linked)
    requires forall j :: 0 <= j < |labels[i].waiting| ==> Target(linked, labels[i].waiting[j]) == 2 * |before|
    ensures Bound(linked + DataHalfwords(labels[i].data), labels, i + 1, size)
  {
    hide Target, DataAt;
    var after := linked + DataHalfwords(labels[i].data);
    forall k {:trigger labels[k]} | 0 <= k < i + 1
      ensures labels[k].pos == Some(2 * size + 4 * k) && DataAt(after, 2 * size + 4 * k, labels[k].data)
      ensures forall j :: 0 <= j < |labels[k].waiting| ==>
        labels[k].waiting[j] + 2 <= |after| && Target(after, labels[k].waiting[j]) == 2 * size + 4 * k
    {
      forall j | 0 <= j < |labels[k].waiting| ensures Target(after, labels[k].waiting[j]) == 2 * size + 4 * k
      {
        var u := labels[k].waiting[j];
        if k < i {
          assert unbound[k] == labels[k];
          SameTarget(before, linked, u);
        }
        SameTarget(linked, after, u);
      }
      if k == i {
        NewData(linked, labels[i].data);
      } else {
        assert unbound[k] == labels[k];
        var h := size + 2 * k;
        SameData(before, after, 2 * size + 4 * k, labels[k].data);
      }
    }
  }

  lemma OtherTarget(b: seq<Halfword>, u: nat, pos: nat, v: nat)
    requires u + 2 <= |b| && v + 2 <= |b| && 0 <= Distance(u, pos) < 0x1000 && (u + 2 <= v || v + 2 <= u)
    ensures Target(Link(b, u, pos), v) == Target(b, v)
  {
  }

  /** Halfword h is part of one of these loads. */
  ghost predicate InLoads(waiting: seq<nat>, h: nat)
  {
    exists j :: 0 <= j < |waiting| && waiting[j] <= h < waiting[j] + 2
  }

  /** Only the loads of label k changed. */
  ghost predicate Untouched(labels: seq<Label>, k: nat, before: seq<Halfword>, after: seq<Halfword>)
    requires k < |labels|
  {
    && |after| == |before|
    && forall h :: 0 <= h < |before| && !InLoads(labels[k].waiting, h) ==> after[h] == before[h]
  }

  lemma StillUntouched(labels: seq<Label>, k: nat, j: nat, start: seq<Halfword>, b: seq<Halfword>, pos: nat)
    requires k < |labels| && j < |labels[k].waiting| && labels[k].waiting[j] + 2 <= |b|
    requires 0 <= Distance(labels[k].waiting[j], pos) < 0x1000 && Untouched(labels, k, start, b)
    ensures Untouched(labels, k, start, Link(b, labels[k].waiting[j], pos))
  {
  }
}

/** Where the slices of a fat file go: the planner rounds one way, the writer another. */
module FatLayout {
  import opened Arithmetic
  import opened Bytes
  import opened MachO
  import opened CodeDirectory
  import opened Ldid
  import SuperBlob

  /** A layout as Allocate computes it: the limit is rounded only when a signature follows. */
  ghost predicate Planned(l: Layout)
  {
    && l.alloc % 16 == 0 && l.limit == (if l.alloc == 0 then l.size else AlignUp(l.size, 16))
    && exists e: nat :: l.align == Pow2(e)
  }

  function HeaderEnd(n: nat): (at: nat) { 8 + 20 * n }

  /** The offset that the planner gives the first slice, from where it stands. */
  function Place(l: Layout, offset: nat): (at: nat)
    requires l.align > 0
  {
    AlignUp(offset, l.align)
  }

  function After(l: Layout, at: nat): (offset: nat)
  {
    AlignUp(at + l.size + l.alloc, 16)
  }

  /** Bytes the writer emits for a slice. */
  function Emitted(l: Layout): (n: nat) { l.limit + l.alloc }

  function Offsets(layouts: seq<Layout>, offset: nat): (r: seq<nat>)
    requires forall i :: 0 <= i < |layouts| ==> layouts[i].align > 0
    ensures |r| == |layouts|
  {
    if layouts == [] then []
    else
      var at := Place(layouts[0], offset);
      [at] + Offsets(layouts[1..], After(layouts[0], at))
  }

  /** Slices are in order and apart, so every padding length is non-negative. */
  ghost predicate Apart(layouts: seq<Layout>, offsets: seq<nat>, position: nat)
    requires |offsets| == |layouts|
  {
    layouts == [] ||
    (position <= offsets[0] && Apart(layouts[1..], offsets[1..], offsets[0] + Emitted(layouts[0])))
  }

  // ----- Rounding -----

  /** A multiple of the alignment is left alone. */
  lemma AlreadyRounded(x: nat, a: nat)
    requires a > 0 && x % a == 0
    ensures AlignUp(x, a) == x
  {
    AlignUpIs(x, a);
    var q, q' := x / a, (x + a - 1) / a;
    assert x == a * q && AlignUp(x, a) == a * q';
    assert a * (q' - q) < a;
    assert a * (q' - q) >= 0;
    assert q' - q >= 1 ==> a * (q' - q) >= a;
    assert q' - q <= -1 ==> a * (q' - q) + a <= 0;
  }

  /** A power of two divides 16 or is a multiple of it. */
  lemma Pow2Kinds(e: nat)
    ensures e <= 4 ==> Pow2(e) in {1, 2, 4, 8, 16}
    ensures e > 4 ==> Pow2(e) == 16 * Pow2(e - 4) && Pow2(e) >= 32
    decreases e
  {
    if e > 5 {
      Pow2Kinds(e - 1);
    } else {
      assert Pow2(0) == 1 && Pow2(1) == 2 && Pow2(2) == 4 && Pow2(3) == 8 && Pow2(4) == 16 && Pow2(5) == 32;
    }
  }

  lemma Multiple16(x: nat, a: nat, c: nat)
    requires a == 16 * c && c > 0 && x % a == 0
    ensures x % 16 == 0
  {
    var q := x / a;
    assert x == a * q;
    assert x == (c * q) * 16 by {
      assert a * q == 16 * c * q;
      assert 16 * c * q == (c * q) * 16;
    }
    ModMultiple(c * q, 16);
  }

  lemma PlaceFrom16(l: Layout, offset: nat)
    requires Planned(l) && l.align > 0 && offset % 16 == 0
    ensures Place(l, offset) % 16 == 0 && Place(l, offset) % l.align == 0 && Place(l, offset) >= offset
    ensures Place(l, offset) == offset || (offset % l.align != 0 && Place(l, offset) >= offset + 16)
  {
    var e: nat :| l.align == Pow2(e);
    Pow2Kinds(e);
    AlignUpIs(offset, l.align);
    if e <= 4 {
      SmallDivides(offset, l.align);
      AlreadyRounded(offset, l.align);
    } else {
      Multiple16(Place(l, offset), l.align, Pow2(e - 4));
      if offset % l.align == 0 {
        AlreadyRounded(offset, l.align);
      }
    }
  }

  lemma SmallDivides(x: nat, a: nat)
    requires a in {1, 2, 4, 8, 16} && x % 16 == 0
    ensures x % a == 0
  {
    var q := x / 16;
    var k := if a == 1 then 16 * q else if a == 2 then 8 * q else if a == 4 then 4 * q else if a == 8 then 2 * q else q;
    assert x == k * a;
    ModMultiple(k, a);
  }

  /** From a 16-byte boundary, planner and writer end at the same rounded place. */
  lemma EndsAgree(l: Layout, at: nat)
    requires Planned(l) && at % 16 == 0
    ensures at + Emitted(l) <= After(l, at) && After(l, at) % 16 == 0
    ensures l.alloc != 0 ==> at + Emitted(l) == After(l, at)
  {
    hide Planned;
    RoundShifted(at / 16 + l.alloc / 16, l.size);
    AlignUpIs(at + l.size + l.alloc, 16);
    assert Planned(l) ==> l.alloc % 16 == 0 && l.limit == (if l.alloc == 0 then l.size else AlignUp(l.size, 16)) by {
      PlannedIs(l);
    }
  }

  lemma PlannedIs(l: Layout)
    ensures Planned(l) ==> l.alloc % 16 == 0 && l.limit == (if l.alloc == 0 then l.size else AlignUp(l.size, 16))
  {
  }

  lemma RoundShifted(j: nat, size: nat)
    ensures AlignUp(16 * j + size, 16) == 16 * j + AlignUp(size, 16)
  {
    assert (16 * j + size + 15) / 16 == j + (size + 15) / 16;
  }

  lemma {:induction false} ApartFrom16(layouts: seq<Layout>, offset: nat, position: nat)
    requires forall i :: 0 <= i < |layouts| ==> layouts[i].align > 0 && Planned(layouts[i])
    requires offset % 16 == 0 && position <= offset
    ensures Apart(layouts, Offsets(layouts, offset), position)
  {
    hide Planned, Place, After, Emitted;
    if layouts != [] {
      var at := Place(layouts[0], offset);
      PlaceFrom16(layouts[0], offset);
      EndsAgree(layouts[0], at);
      ApartFrom16(layouts[1..], After(layouts[0], at), at + Emitted(layouts[0]));
      assert Offsets(layouts, offset)[1..] == Offsets(layouts[1..], After(layouts[0], at));
    }
  }

  // ----- Every slice but the first starts from a 16-byte boundary -----

  /** How far into a 16-byte block the first slice starts, and its last block is used. */
  function Skew(l: Layout, at: nat): (r: nat) { at % 16 }
  function LastBlock(l: Layout): (s: int) { (l.size - 1) % 16 + 1 }

  /** The writer rounds the size, the planner rounds the end. */
  lemma SkewedEnds(l: Layout, at: nat)
    requires Planned(l) && l.size > 0
    ensures After(l, at) % 16 == 0
    ensures if l.alloc != 0 && Skew(l, at) != 0 && Skew(l, at) + LastBlock(l) <= 16
            then at + Emitted(l) == After(l, at) + Skew(l, at)
            else at + Emitted(l) <= After(l, at)
  {
    var q, r, k := at / 16, at % 16, (l.size - 1) / 16;
    var s, m := LastBlock(l), l.alloc / 16;
    assert at == 16 * q + r && l.size == 16 * k + s && l.alloc == 16 * m;
    RoundBlock(q + k + m, r + s);
    RoundBlock(k, s);
    assert at + l.size + l.alloc == 16 * (q + k + m) + (r + s);
  }

  lemma RoundBlock(k: nat, s: nat)
    requires 1 <= s <= 32
    ensures AlignUp(16 * k + s, 16) == if s <= 16 then 16 * k + 16 else 16 * k + 32
  {
  }

  ghost predicate AllPlanned(layouts: seq<Layout>)
  {
    forall i :: 0 <= i < |layouts| ==> layouts[i].align > 0 && layouts[i].size > 0 && Planned(layouts[i])
  }

  /** From a 16-byte boundary only the position before the first slice matters. */
  lemma RestApart(rest: seq<Layout>, offset: nat, position: nat)
    requires AllPlanned(rest) && rest != [] && offset % 16 == 0
    ensures Apart(rest, Offsets(rest, offset), position) <==> position <= Place(rest[0], offset)
  {
    hide Planned, Place, After, Emitted;
    var at := Place(rest[0], offset);
    PlaceFrom16(rest[0], offset);
    EndsAgree(rest[0], at);
    assert Offsets(rest, offset)[1..] == Offsets(rest[1..], After(rest[0], at));
    ApartFrom16(rest[1..], After(rest[0], at), at + Emitted(rest[0]));
  }

  lemma FirstApart(layouts: seq<Layout>, start: nat)
    requires AllPlanned(layouts) && layouts != []
    ensures var at := Place(layouts[0], start);
      && at >= start && After(layouts[0], at) % 16 == 0
      && (Apart(layouts, Offsets(layouts, start), start) <==>
            |layouts| < 2 || at + Emitted(layouts[0]) <= Place(layouts[1], After(layouts[0], at)))
  {
    hide Planned, Place, After, Emitted;
    var at := Place(layouts[0], start);
    PlacedAfter(layouts[0], start);
    SkewedEnds(layouts[0], at);
    var rest, offset := layouts[1..], After(layouts[0], at);
    assert Offsets(layouts, start) == [at] + Offsets(rest, offset);
    assert Offsets(layouts, start)[1..] == Offsets(rest, offset);
    if rest != [] {
      assert AllPlanned(rest) && rest[0] == layouts[1];
      RestApart(rest, offset, at + Emitted(layouts[0]));
    }
  }

  /** Slices of a fat file never collide, except the first two, and those exactly when a
      signed first slice starts off a 16-byte boundary, ends in the part of a block that
      the skew leaves, and the second slice adds no alignment of its own. */
  lemma FatSlicesApart(layouts: seq<Layout>)
    requires AllPlanned(layouts)
    ensures Apart(layouts, Offsets(layouts, HeaderEnd(|layouts|)), HeaderEnd(|layouts|)) <==>
        |layouts| < 2 ||
        (var first := layouts[0];
         var at := Place(first, HeaderEnd(|layouts|));
         || first.alloc == 0 || Skew(first, at) == 0 || Skew(first, at) + LastBlock(first) > 16
         || After(first, at) % layouts[1].align != 0)
  {
    hide Planned, Place, After, Emitted, Skew, LastBlock, Apart, Offsets;
    var start := HeaderEnd(|layouts|);
    if layouts == [] {
      EmptyApart(start);
    } else {
      FirstApart(layouts, start);
      if |layouts| > 1 {
        var at := Place(layouts[0], start);
        SkewedEnds(layouts[0], at);
        SkewSmall(layouts[0], at);
        PlaceFrom16(layouts[1], After(layouts[0], at));
        if After(layouts[0], at) % layouts[1].align == 0 {
          PlaceExact(layouts[1], After(layouts[0], at));
        }
      }
    }
  }

  lemma EmptyApart(start: nat)
    ensures Apart([], Offsets([], start), start)
  {
  }

  lemma PlacedAfter(l: Layout, offset: nat)
    requires l.align > 0
    ensures Place(l, offset) >= offset
  {
    AlignUpIs(offset, l.align);
  }

  lemma PlaceExact(l: Layout, offset: nat)
    requires l.align > 0 && offset % l.align == 0
    ensures Place(l, offset) == offset
  {
    AlreadyRounded(offset, l.align);
  }

  lemma SkewSmall(l: Layout, at: nat)
    ensures Skew(l, at) < 16
  {
  }

  /** With alignments of at least 16 bytes there is no skew. */
  lemma WideAlignmentsApart(layouts: seq<Layout>)
    requires AllPlanned(layouts) && forall i :: 0 <= i < |layouts| ==> layouts[i].align >= 16
    ensures Apart(layouts, Offsets(layouts, HeaderEnd(|layouts|)), HeaderEnd(|layouts|))
  {
    hide Place, After, Emitted;
    FatSlicesApart(layouts);
    if layouts != [] {
      var first := layouts[0];
      var e: nat :| first.align == Pow2(e);
      Pow2Kinds(e);
      PlaceAligned(first, HeaderEnd(|layouts|));
      Multiple16(Place(first, HeaderEnd(|layouts|)), first.align, if e <= 4 then 1 else Pow2(e - 4));
    }
  }

  lemma PlaceAligned(l: Layout, offset: nat)
    requires l.align > 0
    ensures Place(l, offset) % l.align == 0
  {
    AlignUpIs(offset, l.align);
  }

  /** Every slice starts on its own alignment. */
  lemma {:induction false} OffsetsAligned(layouts: seq<Layout>, offset: nat, k: nat)
    requires (forall i :: 0 <= i < |layouts| ==> layouts[i].align > 0) && k < |layouts|
    ensures Offsets(layouts, offset)[k] % layouts[k].align == 0
  {
    hide Place, After;
    if k == 0 {
      PlaceAligned(layouts[0], offset);
    } else {
      OffsetsAligned(layouts[1..], After(layouts[0], Place(layouts[0], offset)), k - 1);
    }
  }

  /** Layouts made for signing with at least one hash algorithm are planned. */
  lemma SignLayoutPlanned(f: seq<byte>, q: Request, e: nat)
    requires CanSign(f, q, Pow2(e)) && q.algorithms != []
    ensures Planned(SignLayout(f, q, Pow2(e)))
  {
    hide Fits, IsMachO, ImageEnd, EstimateSpecial;
    var l := SignLayout(f, q, Pow2(e));
    LastRounded(q, InfoPlist(f).Some?, Pages(l.size));
    assert l.align == Pow2(e);
  }

  lemma LastRounded(q: Request, info: bool, pages: nat)
    requires q.algorithms != []
    ensures EstimateAfter(q, info, pages, |q.algorithms|) % 16 == 0
    ensures EstimateAfter(q, info, pages, |q.algorithms|) > 0
  {
    hide EstimateSpecial, AlignUp;
    var before := EstimateAfter(q, info, pages, |q.algorithms| - 1) + (8 + 8 + 80 + |q.identifier| + 1);
    var hashes := (EstimateSpecial(q, info) + pages) * HashSize(q.algorithms[|q.algorithms| - 1]);
    AlignUpIs(before + hashes, 16);
  }

  // ----- Writing the slices -----

  /** Padding and slices from `position` on. */
  function Slices(bodies: seq<seq<byte>>, offsets: seq<nat>, position: nat): (r: seq<byte>)
    requires |bodies| == |offsets|
  {
    if bodies == [] then []
    else
      Zeros(if offsets[0] >= position then offsets[0] - position else 0) + bodies[0]
      + Slices(bodies[1..], offsets[1..], offsets[0] + |bodies[0]|)
  }

  ghost predicate Bodies(layouts: seq<Layout>, bodies: seq<seq<byte>>)
  {
    |bodies| == |layouts| && forall i :: 0 <= i < |layouts| ==> |bodies[i]| == Emitted(layouts[i])
  }

  /** Apart slices are found at their offsets. */
  lemma {:induction false} SliceAt(layouts: seq<Layout>, bodies: seq<seq<byte>>, offsets: seq<nat>, position: nat,
                                   k: nat)
    requires Bodies(layouts, bodies) && |offsets| == |layouts| && Apart(layouts, offsets, position) && k < |layouts|
    ensures position <= offsets[k]
    ensures var r := Slices(bodies, offsets, position);
      var at := offsets[k] - position;
      at + |bodies[k]| <= |r| && r[at..at + |bodies[k]|] == bodies[k]
  {
    hide Emitted, Zeros;
    var r := Slices(bodies, offsets, position);
    var head := Zeros(offsets[0] - position) + bodies[0];
    var next := offsets[0] + |bodies[0]|;
    assert r == head + Slices(bodies[1..], offsets[1..], next);
    if k == 0 {
      SuperBlob.SubSlice(r, 0, |head|, offsets[0] - position, |head|);
      assert r[0..|head|] == head && head[offsets[0] - position..|head|] == bodies[0];
    } else {
      SliceAt(layouts[1..], bodies[1..], offsets[1..], next, k - 1);
      assert r[|head|..] == Slices(bodies[1..], offsets[1..], next);
      SuperBlob.SubSlice(r, |head|, |r|, offsets[k] - next, offsets[k] - next + |bodies[k]|);
    }
  }
}

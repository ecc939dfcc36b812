/** Thumb-2 unconditional branches (B encoding T4 and BL encoding T1, sections A8.8.18 and
    A8.8.25 of the ARM Architecture Reference Manual, DDI 0406C). */
module ThumbBranch {

  /** The two halfwords that EmitThumb2Branch emits, each in the low half of a word. */
  function First(imm: bv32): (h: bv32)
  {
    0xF000 | ((imm >> 31) << 10) | ((imm >> 12) & 0x3FF)
  }

  function Second(imm: bv32, bl: bool): (h: bv32)
  {
    0x9000
    | ((((imm >> 23) ^ (imm >> 31) ^ 1) & 1) << 13)
    | ((((imm >> 22) ^ (imm >> 31) ^ 1) & 1) << 11)
    | ((imm >> 1) & 0x7FF)
    | (if bl then 0x4000 else 0)
  }

  /** The offset that the relocator decodes: S:I1:I2:imm10:imm11:0, sign-extended. */
  function Offset(h1: bv32, h2: bv32): (imm: bv32)
  {
    (if (h1 >> 10) & 1 == 1 then 0xFF00_0000 else 0)
    | ((((h2 >> 13) ^ (h1 >> 10) ^ 1) & 1) << 23)
    | ((((h2 >> 11) ^ (h1 >> 10) ^ 1) & 1) << 22)
    | ((h1 & 0x3FF) << 12)
    | ((h2 & 0x7FF) << 1)
  }

  /** The relocator's tests for a 32-bit branch instruction: B.W or BL. */
  predicate IsBranch(h1: bv32, h2: bv32) { h1 & 0xF800 == 0xF000 && h2 & 0x8000 == 0x8000 }
  predicate IsBW(h1: bv32, h2: bv32) { IsBranch(h1, h2) && (h2 >> 12) & 0x5 == 0x1 }
  predicate IsBL(h1: bv32, h2: bv32) { IsBranch(h1, h2) && (h2 >> 12) & 0x5 == 0x5 }

  /** Even, and in [-2^24, 2^24). */
  predicate Encodable(imm: bv32) { imm & 1 == 0 && (imm & 0xFF00_0000 == 0 || imm & 0xFF00_0000 == 0xFF00_0000) }

  // ----- The same facts as relations between words -----

  predicate PrintedForm(imm: bv32, l: bv32, h1: bv32, h2: bv32)
  {
    && h1 == 0xF000 | ((imm >> 31) << 10) | ((imm >> 12) & 0x3FF)
    && h2 == 0x9000 | ((((imm >> 23) ^ (imm >> 31) ^ 1) & 1) << 13) | ((((imm >> 22) ^ (imm >> 31) ^ 1) & 1) << 11)
         | ((imm >> 1) & 0x7FF) | l
  }

  predicate DecodedForm(h1: bv32, h2: bv32, r: bv32)
  {
    r == (if (h1 >> 10) & 1 == 1 then 0xFF00_0000 else 0) | ((((h2 >> 13) ^ (h1 >> 10) ^ 1) & 1) << 23)
         | ((((h2 >> 11) ^ (h1 >> 10) ^ 1) & 1) << 22) | ((h1 & 0x3FF) << 12) | ((h2 & 0x7FF) << 1)
  }

  predicate KindForm(h1: bv32, h2: bv32, l: bv32)
  {
    && h1 < 0x1_0000 && h2 < 0x1_0000 && (l == 0 || l == 0x4000)
    && h1 & 0xF800 == 0xF000 && h2 & 0x8000 == 0x8000 && (h2 >> 12) & 1 == 1 && h2 & 0x4000 == l
  }

  lemma PrintIs(imm: bv32, bl: bool, h1: bv32, h2: bv32)
    requires h1 == First(imm) && h2 == Second(imm, bl)
    ensures PrintedForm(imm, if bl then 0x4000 else 0, h1, h2)
  {
  }

  lemma FormIsPrint(imm: bv32, bl: bool, h1: bv32, h2: bv32)
    requires PrintedForm(imm, if bl then 0x4000 else 0, h1, h2)
    ensures First(imm) == h1 && Second(imm, bl) == h2
  {
  }

  lemma DecodeIs(h1: bv32, h2: bv32, r: bv32)
    requires r == Offset(h1, h2)
    ensures DecodedForm(h1, h2, r)
  {
  }

  lemma KindIs(h1: bv32, h2: bv32, bl: bool)
    requires h1 < 0x1_0000 && h2 < 0x1_0000 && if bl then IsBL(h1, h2) else IsBW(h1, h2)
    ensures KindForm(h1, h2, if bl then 0x4000 else 0)
  {
  }

  lemma FormRoundTrip(imm: bv32, l: bv32, h1: bv32, h2: bv32, r: bv32)
    requires (l == 0 || l == 0x4000) && PrintedForm(imm, l, h1, h2) && DecodedForm(h1, h2, r)
    ensures r == imm <==> Encodable(imm)
  {
    RawRoundTrip(imm, l, h1, h2);
  }

  lemma RawRoundTrip(imm: bv32, l: bv32, h1: bv32, h2: bv32)
    requires l == 0 || l == 0x4000
    requires h1 == 0xF000 | ((imm >> 31) << 10) | ((imm >> 12) & 0x3FF)
    requires h2 == 0x9000 | ((((imm >> 23) ^ (imm >> 31) ^ 1) & 1) << 13) | ((((imm >> 22) ^ (imm >> 31) ^ 1) & 1) << 11)
      | ((imm >> 1) & 0x7FF) | l
    ensures (imm == (if (h1 >> 10) & 1 == 1 then 0xFF00_0000 else 0) | ((((h2 >> 13) ^ (h1 >> 10) ^ 1) & 1) << 23)
              | ((((h2 >> 11) ^ (h1 >> 10) ^ 1) & 1) << 22) | ((h1 & 0x3FF) << 12) | ((h2 & 0x7FF) << 1))
        <==> (imm & 1 == 0 && (imm & 0xFF00_0000 == 0 || imm & 0xFF00_0000 == 0xFF00_0000))
  {
  }

  lemma FormEncodable(h1: bv32, h2: bv32, l: bv32, r: bv32)
    requires KindForm(h1, h2, l) && DecodedForm(h1, h2, r)
    ensures Encodable(r)
  {
  }

  lemma FormPrintsFirst(h1: bv32, h2: bv32, l: bv32, r: bv32)
    requires KindForm(h1, h2, l) && DecodedForm(h1, h2, r)
    ensures h1 == 0xF000 | ((r >> 31) << 10) | ((r >> 12) & 0x3FF)
  {
  }

  lemma FormPrintsSecond(h1: bv32, h2: bv32, l: bv32, r: bv32)
    requires KindForm(h1, h2, l) && DecodedForm(h1, h2, r)
    ensures h2 == 0x9000 | ((((r >> 23) ^ (r >> 31) ^ 1) & 1) << 13) | ((((r >> 22) ^ (r >> 31) ^ 1) & 1) << 11)
      | ((r >> 1) & 0x7FF) | l
  {
  }

  lemma FormsPrint(h1: bv32, h2: bv32, l: bv32, r: bv32)
    requires KindForm(h1, h2, l) && DecodedForm(h1, h2, r)
    ensures PrintedForm(r, l, h1, h2)
  {
    hide KindForm, DecodedForm;
    FormPrintsFirst(h1, h2, l, r);
    FormPrintsSecond(h1, h2, l, r);
  }

  // ----- Printer and parser agree -----

  /** Decoding what was printed gives the offset back, exactly for encodable offsets. */
  lemma DecodePrinted(imm: bv32, bl: bool)
    ensures Offset(First(imm), Second(imm, bl)) == imm <==> Encodable(imm)
  {
    hide First, Second, Offset, PrintedForm, DecodedForm, Encodable;
    var h1, h2 := First(imm), Second(imm, bl);
    var r := Offset(h1, h2);
    PrintIs(imm, bl, h1, h2);
    DecodeIs(h1, h2, r);
    FormRoundTrip(imm, if bl then 0x4000 else 0, h1, h2, r);
  }

  /** And it is recognised as the instruction that was meant. */
  lemma PrintedKind(imm: bv32, bl: bool)
    ensures if bl then IsBL(First(imm), Second(imm, bl)) else IsBW(First(imm), Second(imm, bl))
    ensures First(imm) < 0x1_0000 && Second(imm, bl) < 0x1_0000
  {
  }

  /** Printing what was decoded gives the instruction back. */
  lemma PrintDecoded(h1: bv32, h2: bv32, bl: bool)
    requires h1 < 0x1_0000 && h2 < 0x1_0000 && if bl then IsBL(h1, h2) else IsBW(h1, h2)
    ensures Encodable(Offset(h1, h2))
    ensures First(Offset(h1, h2)) == h1 && Second(Offset(h1, h2), bl) == h2
  {
    hide First, Second, Offset, PrintedForm, DecodedForm, KindForm, Encodable, IsBL, IsBW;
    var r, l := Offset(h1, h2), if bl then 0x4000 else 0;
    KindIs(h1, h2, bl);
    DecodeIs(h1, h2, r);
    FormEncodable(h1, h2, l, r);
    FormsPrint(h1, h2, l, r);
    FormIsPrint(r, bl, h1, h2);
  }
}

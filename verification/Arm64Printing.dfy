/** The words of the architecture, written out field by field (section C4.1 of DDI 0487), and
    what the relocator makes of them: a reading that shares nothing with its decoders. */
module Arm64Printing {
  import opened Bytes
  import opened MachineWords
  import opened Arm64Encoding
  import opened Arm64Relocation

  // ----- Printing -----

  function BWord(link: bool, imm: bv32): (w: bv32) { (if link then 0x9400_0000 else 0x1400_0000) | imm }

  function CbzWord(wide: bool, negated: bool, rt: bv32, imm: bv32): (w: bv32)
  {
    0x3400_0000 | (if wide then 0x8000_0000 else 0) | (if negated then 0x100_0000 else 0) | (imm << 5) | rt
  }

  /** The bit number is split: its high bit is bit 31. */
  function TbzWord(negated: bool, high: bool, low: bv32, rt: bv32, imm: bv32): (w: bv32)
  {
    0x3600_0000 | (if high then 0x8000_0000 else 0) | (if negated then 0x100_0000 else 0) | (low << 19) | (imm << 5) | rt
  }

  function BCondWord(cond: bv32, imm: bv32): (w: bv32) { 0x5400_0000 | (imm << 5) | cond }

  function LdrLitWord(opc: bv32, vector: bool, rt: bv32, imm: bv32): (w: bv32)
  {
    0x1800_0000 | (opc << 30) | (if vector then 0x400_0000 else 0) | (imm << 5) | rt
  }

  function AdrWord(page: bool, rd: bv32, high: bv32, low: bv32): (w: bv32)
  {
    (if page then 0x9000_0000 else 0x1000_0000) | (low << 29) | (high << 5) | rd
  }

  function MovWord(keep: bool, rd: bv32, imm: bv32, hw: bv32): (w: bv32)
  {
    (if keep then 0xF280_0000 else 0xD280_0000) | (hw << 21) | (imm << 5) | rd
  }

  function LdrXWord(rt: bv32, rn: bv32, imm: bv32): (w: bv32) { 0xF940_0000 | (imm << 10) | (rn << 5) | rt }

  function BrWord(link: bool, rn: bv32): (w: bv32) { (if link then 0xD63F_0000 else 0xD61F_0000) | (rn << 5) }

  // ----- Every printed word reads as what was printed -----

  lemma BReads(link: bool, imm: bv26)
    ensures Decode(BWord(link, imm as bv32)) == if link then Bl(imm) else B(imm)
    ensures KindOf(BWord(link, imm as bv32)) == BranchKind
    ensures (BWord(link, imm as bv32) & 0xFC00_0000 == 0x9400_0000) == link
  {
  }

  lemma CbzReads(wide: bool, negated: bool, rt: bv5, imm: bv19)
    ensures Decode(CbzWord(wide, negated, rt as bv32, imm as bv32)) == Cbz(negated, rt, wide, imm)
    ensures KindOf(CbzWord(wide, negated, rt as bv32, imm as bv32)) == CompareKind
  {
  }

  lemma TbzReads(negated: bool, high: bool, low: bv5, rt: bv5, imm: bv14)
    ensures Decode(TbzWord(negated, high, low as bv32, rt as bv32, imm as bv32))
         == Tbz(negated, rt, (if high then 32 else 0) | low as bv6, imm)
    ensures KindOf(TbzWord(negated, high, low as bv32, rt as bv32, imm as bv32)) == TestKind
  {
  }

  lemma BCondReads(cond: bv4, imm: bv19)
    ensures Decode(BCondWord(cond as bv32, imm as bv32)) == BCond(cond, imm)
    ensures KindOf(BCondWord(cond as bv32, imm as bv32)) == ConditionalKind
    ensures CondField(BCondWord(cond as bv32, imm as bv32)) == cond
  {
  }

  lemma LdrLitReads(opc: bv2, vector: bool, rt: bv5, imm: bv19)
    ensures Decode(LdrLitWord(opc as bv32, vector, rt as bv32, imm as bv32)) == LdrLiteral(opc, vector, rt, imm)
    ensures KindOf(LdrLitWord(opc as bv32, vector, rt as bv32, imm as bv32)) == LoadLiteralKind
  {
  }

  lemma AdrReads(page: bool, rd: bv5, high: bv19, low: bv2)
    ensures Decode(AdrWord(page, rd as bv32, high as bv32, low as bv32))
         == if page then Adrp(rd, high, low) else Adr(rd, high, low)
    ensures KindOf(AdrWord(page, rd as bv32, high as bv32, low as bv32)) == AddressKind
    ensures (AdrWord(page, rd as bv32, high as bv32, low as bv32) & 0x9F00_0000 == 0x1000_0000) == !page
  {
  }

  lemma MovReads(keep: bool, rd: bv5, imm: bv16, hw: bv2)
    ensures Decode(MovWord(keep, rd as bv32, imm as bv32, hw as bv32))
         == if keep then Movk(rd, imm, hw) else Movz(rd, imm, hw)
    ensures KindOf(MovWord(keep, rd as bv32, imm as bv32, hw as bv32)) == CopiedKind
  {
  }

  /** With register 31 the base is the stack pointer, and the word is copied as it is. */
  lemma LdrXReads(rt: bv5, rn: bv5, imm: bv12)
    ensures Decode(LdrXWord(rt as bv32, rn as bv32, imm as bv32)) == if rn == 31 then Plain else LdrX(rt, rn, imm)
    ensures KindOf(LdrXWord(rt as bv32, rn as bv32, imm as bv32)) == CopiedKind
  {
  }

  lemma BrReads(link: bool, rn: bv5)
    ensures Decode(BrWord(link, rn as bv32)) == if link then Blr(rn) else Br(rn)
    ensures KindOf(BrWord(link, rn as bv32)) == CopiedKind
  {
  }

  // ----- Displacements -----

  /** A displacement of so many units in a field of `size` values, in two's complement. */
  function FieldOf(units: int, size: nat): (k: nat)
    requires -(size as int) <= units
  {
    if units >= 0 then units else units + size
  }

  lemma FieldIsSigned(units: int, half: nat)
    requires -(half as int) <= units < half
    ensures FieldOf(units, 2 * half) < 2 * half && SignedField(FieldOf(units, 2 * half), half) == units
  {
  }

  lemma Bits26(f: bv32) returns (imm: bv26)
    requires f as int < 0x400_0000
    ensures imm as bv32 == f && imm as int == f as int
  {
    Below26(f);
    imm := f as bv26;
    Value26(f);
    Back26(f, imm);
  }

  lemma Below26(f: bv32) requires f as int < 0x400_0000 ensures f <= 0x3FF_FFFF {}
  lemma Value26(f: bv32) requires f <= 0x3FF_FFFF ensures (f as bv26) as int == f as int {}
  lemma Back26(f: bv32, imm: bv26) requires f <= 0x3FF_FFFF && imm == f as bv26 ensures imm as bv32 == f {}

  lemma Bits19(f: bv32) returns (imm: bv19)
    requires f as int < 0x8_0000
    ensures imm as bv32 == f && imm as int == f as int
  {
    Below19(f);
    imm := f as bv19;
    Value19(f);
    Back19(f, imm);
  }

  lemma Below19(f: bv32) requires f as int < 0x8_0000 ensures f <= 0x7_FFFF {}
  lemma Value19(f: bv32) requires f <= 0x7_FFFF ensures (f as bv19) as int == f as int {}
  lemma Back19(f: bv32, imm: bv19) requires f <= 0x7_FFFF && imm == f as bv19 ensures imm as bv32 == f {}

  lemma Bits14(f: bv32) returns (imm: bv14)
    requires f as int < 0x4000
    ensures imm as bv32 == f && imm as int == f as int
  {
    Below14(f);
    imm := f as bv14;
    Value14(f);
    Back14(f, imm);
  }

  lemma Below14(f: bv32) requires f as int < 0x4000 ensures f <= 0x3FFF {}
  lemma Value14(f: bv32) requires f <= 0x3FFF ensures (f as bv14) as int == f as int {}
  lemma Back14(f: bv32, imm: bv14) requires f <= 0x3FFF && imm == f as bv14 ensures imm as bv32 == f {}

  lemma Bits2(f: bv32) returns (imm: bv2)
    requires f as int < 4
    ensures imm as bv32 == f && imm as int == f as int
  {
    Below2(f);
    imm := f as bv2;
    Value2(f);
    Back2(f, imm);
  }

  lemma Below2(f: bv32) requires f as int < 4 ensures f <= 3 {}
  lemma Value2(f: bv32) requires f <= 3 ensures (f as bv2) as int == f as int {}
  lemma Back2(f: bv32, imm: bv2) requires f <= 3 && imm == f as bv2 ensures imm as bv32 == f {}

  /** w is a b or bl that goes to this place, for the relocator and for the machine. */
  predicate BranchesTo(w: bv32, link: bool, pc: uint64, to: uint64)
  {
    && KindOf(w) == BranchKind && LabelTarget(w, pc) == to
    && (w & 0xFC00_0000 == 0x9400_0000) == link
    && (if link then Decode(w).Bl? && Low64(pc + Offset26(Decode(w).imm26)) == to
        else Decode(w).B? && Low64(pc + Offset26(Decode(w).imm26)) == to)
  }

  lemma BranchField(link: bool, imm: bv26, d: int, pc: uint64)
    requires Offset26(imm) == d
    ensures BranchesTo(BWord(link, imm as bv32), link, pc, Low64(pc + d))
  {
    hide Decode, KindOf, BWord, Imm26Field, DecodeImm26Offset, Offset26, Low64;
    var w := BWord(link, imm as bv32);
    BReads(link, imm);
    BranchDecodes(w);
    Imm26IsArchitectural(w);
  }

  lemma Offset26Is(imm: bv26, k: nat) requires imm as int == k ensures Offset26(imm) == 4 * SignedField(k, 0x200_0000) {}
  lemma Offset19Is(imm: bv19, k: nat) requires imm as int == k ensures Offset19(imm) == 4 * SignedField(k, 0x4_0000) {}
  lemma Offset14Is(imm: bv14, k: nat) requires imm as int == k ensures Offset14(imm) == 4 * SignedField(k, 0x2000) {}

  lemma Offset21Is(high: bv19, low: bv2, h: nat, l: nat)
    requires high as int == h && low as int == l
    ensures Offset21(high, low) == SignedField(l + 4 * h, 0x10_0000)
  {
  }

  lemma Field26(units: int) returns (imm: bv26)
    requires -0x200_0000 <= units < 0x200_0000
    ensures imm as bv32 == ToWord(FieldOf(units, 0x400_0000)) && Offset26(imm) == 4 * units
  {
    hide ToWord, FieldOf, SignedField, Offset26;
    var k := FieldOf(units, 0x400_0000);
    FieldIsSigned(units, 0x200_0000);
    ToWordValue(k);
    imm := Bits26(ToWord(k));
    Offset26Is(imm, k);
  }

  /** b and bl: the label holds the place that the displacement names, for every one that
      can be encoded, backward or forward. */
  lemma BranchReaches(link: bool, units: int, pc: uint64)
    requires -0x200_0000 <= units < 0x200_0000
    ensures BranchesTo(BWord(link, ToWord(FieldOf(units, 0x400_0000))), link, pc, Low64(pc + 4 * units))
  {
    hide ToWord, BWord, BranchesTo, FieldOf, Offset26, Low64;
    var imm := Field26(units);
    BranchField(link, imm, 4 * units, pc);
  }

  lemma Field19(units: int) returns (imm: bv19)
    requires -0x4_0000 <= units < 0x4_0000
    ensures imm as bv32 == ToWord(FieldOf(units, 0x8_0000)) && Offset19(imm) == 4 * units
  {
    hide ToWord, FieldOf, SignedField, Offset19;
    var k := FieldOf(units, 0x8_0000);
    FieldIsSigned(units, 0x4_0000);
    ToWordValue(k);
    imm := Bits19(ToWord(k));
    Offset19Is(imm, k);
  }

  lemma Field14(units: int) returns (imm: bv14)
    requires -0x2000 <= units < 0x2000
    ensures imm as bv32 == ToWord(FieldOf(units, 0x4000)) && Offset14(imm) == 4 * units
  {
    hide ToWord, FieldOf, SignedField, Offset14;
    var k := FieldOf(units, 0x4000);
    FieldIsSigned(units, 0x2000);
    ToWordValue(k);
    imm := Bits14(ToWord(k));
    Offset14Is(imm, k);
  }

  /** The two parts of a 21-bit field. */
  lemma Field21(units: int) returns (high: bv19, low: bv2)
    requires -0x10_0000 <= units < 0x10_0000
    ensures high as bv32 == ToWord(FieldOf(units, 0x20_0000) / 4) && low as bv32 == ToWord(FieldOf(units, 0x20_0000) % 4)
    ensures Offset21(high, low) == units
  {
    hide ToWord, FieldOf, SignedField, Offset21;
    var k := FieldOf(units, 0x20_0000);
    FieldIsSigned(units, 0x10_0000);
    ToWordValue(k / 4);
    ToWordValue(k % 4);
    high := Bits19(ToWord(k / 4));
    low := Bits2(ToWord(k % 4));
    Offset21Is(high, low, k / 4, k % 4);
  }

  predicate ComparesTo(w: bv32, pc: uint64, to: uint64)
  {
    && KindOf(w) == CompareKind && LabelTarget(w, pc) == to
    && Decode(w).Cbz? && Low64(pc + Offset19(Decode(w).imm19)) == to
  }

  lemma CompareField(wide: bool, negated: bool, rt: bv5, imm: bv19, d: int, pc: uint64)
    requires Offset19(imm) == d
    ensures ComparesTo(CbzWord(wide, negated, rt as bv32, imm as bv32), pc, Low64(pc + d))
  {
    hide Decode, KindOf, CbzWord, Imm19Field, DecodeImm19Offset, Offset19, Low64;
    var w := CbzWord(wide, negated, rt as bv32, imm as bv32);
    CbzReads(wide, negated, rt, imm);
    CompareDecodes(w);
    Imm19IsArchitectural(w);
  }

  /** cbz and cbnz. */
  lemma CompareReaches(wide: bool, negated: bool, rt: bv5, units: int, pc: uint64)
    requires -0x4_0000 <= units < 0x4_0000
    ensures ComparesTo(CbzWord(wide, negated, rt as bv32, ToWord(FieldOf(units, 0x8_0000))), pc, Low64(pc + 4 * units))
  {
    hide ToWord, CbzWord, ComparesTo, FieldOf, Offset19, Low64;
    var imm := Field19(units);
    CompareField(wide, negated, rt, imm, 4 * units, pc);
  }

  predicate TestsTo(w: bv32, pc: uint64, to: uint64)
  {
    && KindOf(w) == TestKind && LabelTarget(w, pc) == to
    && Decode(w).Tbz? && Low64(pc + Offset14(Decode(w).imm14)) == to
  }

  lemma TestField(negated: bool, high: bool, low: bv5, rt: bv5, imm: bv14, d: int, pc: uint64)
    requires Offset14(imm) == d
    ensures TestsTo(TbzWord(negated, high, low as bv32, rt as bv32, imm as bv32), pc, Low64(pc + d))
  {
    hide Decode, KindOf, TbzWord, Imm14Field, DecodeImm14Offset, Offset14, Low64;
    var w := TbzWord(negated, high, low as bv32, rt as bv32, imm as bv32);
    TbzReads(negated, high, low, rt, imm);
    TestDecodes(w);
    Imm14IsArchitectural(w);
  }

  /** tbz and tbnz. */
  lemma TestReaches(negated: bool, high: bool, low: bv5, rt: bv5, units: int, pc: uint64)
    requires -0x2000 <= units < 0x2000
    ensures TestsTo(TbzWord(negated, high, low as bv32, rt as bv32, ToWord(FieldOf(units, 0x4000))), pc,
                    Low64(pc + 4 * units))
  {
    hide ToWord, TbzWord, TestsTo, FieldOf, Offset14, Low64;
    var imm := Field14(units);
    TestField(negated, high, low, rt, imm, 4 * units, pc);
  }

  predicate ConditionTo(w: bv32, cond: bv4, pc: uint64, to: uint64)
  {
    && KindOf(w) == ConditionalKind && LabelTarget(w, pc) == to
    && Decode(w).BCond? && Decode(w).cond == cond && Low64(pc + Offset19(Decode(w).imm19)) == to
  }

  lemma NoSpareBits(cond: bv4, imm: bv19)
    ensures BCondWord(cond as bv32, imm as bv32) & 0x100_0010 == 0
  {
  }

  lemma ConditionField(cond: bv4, imm: bv19, d: int, pc: uint64)
    requires Offset19(imm) == d
    ensures ConditionTo(BCondWord(cond as bv32, imm as bv32), cond, pc, Low64(pc + d))
  {
    hide Decode, KindOf, BCondWord, Imm19Field, DecodeImm19Offset, Offset19, Low64;
    var w := BCondWord(cond as bv32, imm as bv32);
    BCondReads(cond, imm);
    NoSpareBits(cond, imm);
    ConditionalDecodes(w);
    Imm19IsArchitectural(w);
  }

  /** b.cond. */
  lemma ConditionReaches(cond: bv4, units: int, pc: uint64)
    requires -0x4_0000 <= units < 0x4_0000
    ensures ConditionTo(BCondWord(cond as bv32, ToWord(FieldOf(units, 0x8_0000))), cond, pc, Low64(pc + 4 * units))
  {
    hide ToWord, BCondWord, ConditionTo, FieldOf, Offset19, Low64;
    var imm := Field19(units);
    ConditionField(cond, imm, 4 * units, pc);
  }

  predicate LoadsFrom(w: bv32, opc: bv2, vector: bool, rt: bv5, pc: uint64, from: uint64)
  {
    && KindOf(w) == LoadLiteralKind && Low64(DecodeImm19Offset(w) + pc) == from
    && OpcField(w) == opc && RegisterField(w) == rt && (w & 0x400_0000 != 0) == vector
    && Decode(w).LdrLiteral? && Low64(pc + Offset19(Decode(w).imm19)) == from
  }

  lemma LiteralField(opc: bv2, vector: bool, rt: bv5, imm: bv19, d: int, pc: uint64)
    requires Offset19(imm) == d
    ensures LoadsFrom(LdrLitWord(opc as bv32, vector, rt as bv32, imm as bv32), opc, vector, rt, pc, Low64(pc + d))
  {
    hide Decode, KindOf, LdrLitWord, Imm19Field, DecodeImm19Offset, Offset19, Low64, OpcField, RegisterField;
    var w := LdrLitWord(opc as bv32, vector, rt as bv32, imm as bv32);
    LdrLitReads(opc, vector, rt, imm);
    LoadLiteralDecodes(w);
    Imm19IsArchitectural(w);
  }

  /** Literal loads of every width. */
  lemma LiteralReaches(opc: bv2, vector: bool, rt: bv5, units: int, pc: uint64)
    requires -0x4_0000 <= units < 0x4_0000
    ensures LoadsFrom(LdrLitWord(opc as bv32, vector, rt as bv32, ToWord(FieldOf(units, 0x8_0000))), opc, vector, rt,
                      pc, Low64(pc + 4 * units))
  {
    hide ToWord, LdrLitWord, LoadsFrom, FieldOf, Offset19, Low64;
    var imm := Field19(units);
    LiteralField(opc, vector, rt, imm, 4 * units, pc);
  }

  predicate Addresses(w: bv32, page: bool, rd: bv5, pc: uint64, to: uint64)
  {
    && KindOf(w) == AddressKind && AddressOperand(w, pc) == to && RegisterField(w) == rd
    && (if page then Decode(w).Adrp? else Decode(w).Adr?)
  }

  lemma AddressField(page: bool, rd: bv5, high: bv19, low: bv2, units: int, pc: uint64)
    requires Offset21(high, low) == units
    ensures Addresses(AdrWord(page, rd as bv32, high as bv32, low as bv32), page, rd, pc,
                      if page then Low64(pc - pc % 0x1000 + 0x1000 * units) else Low64(pc + units))
  {
    hide Decode, KindOf, AdrWord, Imm19Field, ImmLoField, DecodeImmHiLoOffset, Offset21, Low64, RegisterField;
    var w := AdrWord(page, rd as bv32, high as bv32, low as bv32);
    AdrReads(page, rd, high, low);
    AddressDecodes(w);
    ImmHiLoIsArchitectural(w);
  }

  /** adr counts bytes from the instruction, adrp 4096-byte pages from its own page. */
  lemma AddressReaches(page: bool, rd: bv5, units: int, pc: uint64)
    requires -0x10_0000 <= units < 0x10_0000
    ensures var k := FieldOf(units, 0x20_0000);
      Addresses(AdrWord(page, rd as bv32, ToWord(k / 4), ToWord(k % 4)), page, rd, pc,
                if page then Low64(pc - pc % 0x1000 + 0x1000 * units) else Low64(pc + units))
  {
    hide ToWord, AdrWord, Addresses, FieldOf, Offset21, Low64;
    var high, low := Field21(units);
    AddressField(page, rd, high, low, units, pc);
  }
}

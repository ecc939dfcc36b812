/** A64 instruction words as the relocator reads and rewrites them: the mask tests
    and immediate decoders of the source, and, beside them, the architectural
    reading of the same words (Arm Architecture Reference Manual, DDI 0487,
    sections C4.1 and C6.2). */
module Arm64Encoding {
  import opened Bytes

  // ----- Encoding classes, with the masks and patterns of the source -----

  predicate IsLoadLiteral(w: bv32) { w & 0x3B00_0000 == 0x1800_0000 }
  predicate IsPcRelAddressing(w: bv32) { w & 0x1F00_0000 == 0x1000_0000 }
  predicate IsImmediateBranch(w: bv32) { w & 0x7C00_0000 == 0x1400_0000 }
  predicate IsTestBranch(w: bv32) { w & 0x7E00_0000 == 0x3600_0000 }
  predicate IsCompareBranch(w: bv32) { w & 0x7E00_0000 == 0x3400_0000 }
  predicate IsConditionalBranch(w: bv32) { w & 0xFE00_0000 == 0x5400_0000 }

  /** How the relocator treats a word: its chain of tests, in source order. */
  datatype Kind =
    | LoadLiteralKind | AddressKind | BranchKind | TestKind | CompareKind | ConditionalKind | CopiedKind

  function KindOf(w: bv32): (k: Kind)
  {
    if IsLoadLiteral(w) then LoadLiteralKind
    else if IsPcRelAddressing(w) then AddressKind
    else if IsImmediateBranch(w) then BranchKind
    else if IsTestBranch(w) then TestKind
    else if IsCompareBranch(w) then CompareKind
    else if IsConditionalBranch(w) then ConditionalKind
    else CopiedKind
  }

  // ----- Fields -----

  function RegisterField(w: bv32): (r: bv5) { (w & 0x1F) as bv5 }
  function SourceField(w: bv32): (r: bv5) { ((w >> 5) & 0x1F) as bv5 }
  function OpcField(w: bv32): (r: bv2) { (w >> 30) as bv2 }
  function Imm14Field(w: bv32): (r: bv14) { ((w >> 5) & 0x3FFF) as bv14 }
  function Imm16Field(w: bv32): (r: bv16) { ((w >> 5) & 0xFFFF) as bv16 }
  function Imm19Field(w: bv32): (r: bv19) { ((w >> 5) & 0x7_FFFF) as bv19 }
  function Imm26Field(w: bv32): (r: bv26) { (w & 0x3FF_FFFF) as bv26 }
  function ImmLoField(w: bv32): (r: bv2) { ((w >> 29) & 0x3) as bv2 }
  function CondField(w: bv32): (r: bv4) { (w & 0xF) as bv4 }
  function TestedBitField(w: bv32): (r: bv6) { (((w >> 31) << 5) | ((w >> 19) & 0x1F)) as bv6 }

  // ----- The decoders of the source -----

  /** The source's SignExtend(x, M, 64): shift left by 64 - M in 64 bits, then an
      arithmetic shift right by the same amount; `room` is 2^(64-M). */
  function ShiftUpAndDown(x: nat, room: nat): (r: int)
    requires room > 0
  {
    var up := Low64(x * room);
    var signed := if up >= 0x8000_0000_0000_0000 then up - TWO64 else up;
    signed / room
  }

  function DecodeImm14Offset(w: bv32): (r: int)
  {
    ShiftUpAndDown(4 * Imm14Field(w) as int, 0x1_0000_0000_0000)
  }

  function DecodeImm19Offset(w: bv32): (r: int)
  {
    ShiftUpAndDown(4 * Imm19Field(w) as int, 0x800_0000_0000)
  }

  function DecodeImm26Offset(w: bv32): (r: int)
  {
    ShiftUpAndDown(4 * Imm26Field(w) as int, 0x10_0000_0000)
  }

  function DecodeImmHiLoOffset(w: bv32): (r: int)
  {
    ShiftUpAndDown(ImmLoField(w) as int + 4 * Imm19Field(w) as int, 0x800_0000_0000)
  }

  function DecodeImmHiLoZero12Offset(w: bv32): (r: int)
  {
    DecodeImmHiLoOffset(w) * 0x1000
  }

  // ----- The architectural reading -----

  /** Two's-complement value of an n-bit field, with half == 2^(n-1). */
  function SignedField(f: nat, half: nat): (r: int)
  {
    if f < half then f else f - 2 * half
  }

  function Offset14(imm: bv14): (r: int) { 4 * SignedField(imm as int, 0x2000) }
  function Offset19(imm: bv19): (r: int) { 4 * SignedField(imm as int, 0x4_0000) }
  function Offset26(imm: bv26): (r: int) { 4 * SignedField(imm as int, 0x200_0000) }
  function Offset21(hi: bv19, lo: bv2): (r: int) { SignedField(lo as int + 4 * hi as int, 0x10_0000) }

  datatype Insn =
    | LdrLiteral(opc: bv2, vector: bool, rt: bv5, imm19: bv19)
    | Adr(rd: bv5, hi: bv19, lo: bv2)
    | Adrp(rd: bv5, hi: bv19, lo: bv2)
    | B(imm26: bv26)
    | Bl(imm26: bv26)
    | Tbz(negated: bool, rt: bv5, bit: bv6, imm14: bv14)
    | Cbz(negated: bool, rt: bv5, wide: bool, imm19: bv19)
    | BCond(cond: bv4, imm19: bv19)
    | Movz(rd: bv5, imm16: bv16, hw: bv2)
    | Movk(rd: bv5, imm16: bv16, hw: bv2)
    | LdrX(rt: bv5, rn: bv5, imm12: bv12)
    | Br(rn: bv5)
    | Blr(rn: bv5)
    | Plain

  function Decode(w: bv32): (i: Insn)
  {
    if w & 0x3B00_0000 == 0x1800_0000 then
      LdrLiteral(OpcField(w), w & 0x400_0000 != 0, RegisterField(w), Imm19Field(w))
    else if w & 0x9F00_0000 == 0x1000_0000 then Adr(RegisterField(w), Imm19Field(w), ImmLoField(w))
    else if w & 0x9F00_0000 == 0x9000_0000 then Adrp(RegisterField(w), Imm19Field(w), ImmLoField(w))
    else if w & 0xFC00_0000 == 0x1400_0000 then B(Imm26Field(w))
    else if w & 0xFC00_0000 == 0x9400_0000 then Bl(Imm26Field(w))
    else if w & 0x7E00_0000 == 0x3600_0000 then
      Tbz(w & 0x100_0000 != 0, RegisterField(w), TestedBitField(w), Imm14Field(w))
    else if w & 0x7E00_0000 == 0x3400_0000 then
      Cbz(w & 0x100_0000 != 0, RegisterField(w), w & 0x8000_0000 != 0, Imm19Field(w))
    else if w & 0xFF00_0010 == 0x5400_0000 then BCond(CondField(w), Imm19Field(w))
    else if w & 0xFF80_0000 == 0xD280_0000 then Movz(RegisterField(w), Imm16Field(w), ((w >> 21) & 3) as bv2)
    else if w & 0xFF80_0000 == 0xF280_0000 then Movk(RegisterField(w), Imm16Field(w), ((w >> 21) & 3) as bv2)
    else if w & 0xFFC0_0000 == 0xF940_0000 && SourceField(w) != 31 then
      LdrX(RegisterField(w), SourceField(w), ((w >> 10) & 0xFFF) as bv12)
    else if w & 0xFFFF_FC1F == 0xD61F_0000 then Br(SourceField(w))
    else if w & 0xFFFF_FC1F == 0xD63F_0000 then Blr(SourceField(w))
    else Plain
  }

  // ----- The source's decoders return the architectural signed offsets -----

  lemma SignExtendFrom16(x: nat)
    requires x < 0x1_0000
    ensures ShiftUpAndDown(x, 0x1_0000_0000_0000) == SignedField(x, 0x8000)
  {
  }

  lemma SignExtendFrom21(x: nat)
    requires x < 0x20_0000
    ensures ShiftUpAndDown(x, 0x800_0000_0000) == SignedField(x, 0x10_0000)
  {
  }

  lemma SignExtendFrom28(x: nat)
    requires x < 0x1000_0000
    ensures ShiftUpAndDown(x, 0x10_0000_0000) == SignedField(x, 0x800_0000)
  {
  }

  lemma ScaledFields(imm14: nat, imm19: nat, imm26: nat)
    requires imm14 < 0x4000 && imm19 < 0x8_0000 && imm26 < 0x400_0000
    ensures ShiftUpAndDown(4 * imm14, 0x1_0000_0000_0000) == 4 * SignedField(imm14, 0x2000)
    ensures ShiftUpAndDown(4 * imm19, 0x800_0000_0000) == 4 * SignedField(imm19, 0x4_0000)
    ensures ShiftUpAndDown(4 * imm26, 0x10_0000_0000) == 4 * SignedField(imm26, 0x200_0000)
  {
    SignExtendFrom16(4 * imm14);
    SignExtendFrom21(4 * imm19);
    SignExtendFrom28(4 * imm26);
  }

  lemma Imm14IsArchitectural(w: bv32)
    ensures DecodeImm14Offset(w) == Offset14(Imm14Field(w))
  {
    ScaledFields(Imm14Field(w) as int, 0, 0);
  }

  lemma Imm19IsArchitectural(w: bv32)
    ensures DecodeImm19Offset(w) == Offset19(Imm19Field(w))
  {
    ScaledFields(0, Imm19Field(w) as int, 0);
  }

  lemma Imm26IsArchitectural(w: bv32)
    ensures DecodeImm26Offset(w) == Offset26(Imm26Field(w))
  {
    ScaledFields(0, 0, Imm26Field(w) as int);
  }

  lemma ImmHiLoIsArchitectural(w: bv32)
    ensures DecodeImmHiLoOffset(w) == Offset21(Imm19Field(w), ImmLoField(w))
  {
    SignExtendFrom21(ImmLoField(w) as int + 4 * Imm19Field(w) as int);
  }

  // ----- The inverted branches the relocator emits -----

  /** Flips bit 24 (set_bit) and overwrites the 14-bit offset (set_bits). */
  function InvertTest(w: bv32, skip: bv32): (r: bv32)
  {
    var op := ((w >> 24) & 1) ^ 1;
    var flipped := (0xFEFF_FFFF & w) | (op << 24);
    (0xFFF8_001F & flipped) | (skip << 5)
  }

  /** Flips bit 24 and overwrites the 19-bit offset. */
  function InvertCompare(w: bv32, skip: bv32): (r: bv32)
  {
    var op := ((w >> 24) & 1) ^ 1;
    var flipped := (0xFEFF_FFFF & w) | (op << 24);
    (0xFF00_001F & flipped) | (skip << 5)
  }

  /** Flips the low bit of the condition and overwrites the 19-bit offset. */
  function InvertConditional(w: bv32, skip: bv32): (r: bv32)
  {
    var cond := (w & 0xF) ^ 1;
    var flipped := (0xFFFF_FFF0 & w) | cond;
    (0xFF00_001F & flipped) | (skip << 5)
  }

  // What is needed of a word for it to read as a given instruction.

  predicate TestBranchWord(r: bv32, negated: bool, rt: bv5, bit: bv6, imm14: bv14)
  {
    && r & 0x3B00_0000 != 0x1800_0000 && r & 0x1F00_0000 != 0x1000_0000 && r & 0x7C00_0000 != 0x1400_0000
    && r & 0x7E00_0000 == 0x3600_0000
    && (r & 0x100_0000 != 0 <==> negated)
    && RegisterField(r) == rt && TestedBitField(r) == bit && Imm14Field(r) == imm14
  }

  predicate CompareBranchWord(r: bv32, negated: bool, rt: bv5, wide: bool, imm19: bv19)
  {
    && r & 0x3B00_0000 != 0x1800_0000 && r & 0x1F00_0000 != 0x1000_0000 && r & 0x7C00_0000 != 0x1400_0000
    && r & 0x7E00_0000 == 0x3400_0000
    && (r & 0x100_0000 != 0 <==> negated) && (r & 0x8000_0000 != 0 <==> wide)
    && RegisterField(r) == rt && Imm19Field(r) == imm19
  }

  predicate ConditionalBranchWord(r: bv32, cond: bv4, imm19: bv19)
  {
    && r & 0x3B00_0000 != 0x1800_0000 && r & 0x1F00_0000 != 0x1000_0000 && r & 0x7C00_0000 != 0x1400_0000
    && r & 0x7E00_0000 != 0x3600_0000 && r & 0x7E00_0000 != 0x3400_0000
    && r & 0xFF00_0010 == 0x5400_0000
    && CondField(r) == cond && Imm19Field(r) == imm19
  }

  lemma DecodeTestBranch(r: bv32, negated: bool, rt: bv5, bit: bv6, imm14: bv14)
    requires TestBranchWord(r, negated, rt, bit, imm14)
    ensures Decode(r) == Tbz(negated, rt, bit, imm14)
  {
  }

  lemma DecodeCompareBranch(r: bv32, negated: bool, rt: bv5, wide: bool, imm19: bv19)
    requires CompareBranchWord(r, negated, rt, wide, imm19)
    ensures Decode(r) == Cbz(negated, rt, wide, imm19)
  {
  }

  lemma DecodeConditionalBranch(r: bv32, cond: bv4, imm19: bv19)
    requires ConditionalBranchWord(r, cond, imm19)
    ensures Decode(r) == BCond(cond, imm19)
  {
  }

  lemma InvertTestWord(w: bv32, r: bv32, skip: bv14)
    requires IsTestBranch(w)
    requires r == InvertTest(w, skip as bv32)
    ensures TestBranchWord(r, w & 0x100_0000 == 0, RegisterField(w), TestedBitField(w), skip)
  {
  }

  lemma InvertCompareWord(w: bv32, r: bv32, skip: bv19)
    requires IsCompareBranch(w)
    requires r == InvertCompare(w, skip as bv32)
    ensures CompareBranchWord(r, w & 0x100_0000 == 0, RegisterField(w), w & 0x8000_0000 != 0, skip)
  {
    hide InvertCompare, RegisterField, Imm19Field, IsCompareBranch;
    CompareKept(w, r, skip);
    CompareFields(w, r, skip);
  }

  lemma CompareKept(w: bv32, r: bv32, skip: bv19)
    requires IsCompareBranch(w) && r == InvertCompare(w, skip as bv32)
    ensures r & 0x3B00_0000 != 0x1800_0000 && r & 0x1F00_0000 != 0x1000_0000 && r & 0x7C00_0000 != 0x1400_0000
    ensures r & 0x7E00_0000 == 0x3400_0000
  {
  }

  lemma CompareFields(w: bv32, r: bv32, skip: bv19)
    requires r == InvertCompare(w, skip as bv32)
    ensures r & 0x100_0000 != 0 <==> w & 0x100_0000 == 0
    ensures r & 0x8000_0000 != 0 <==> w & 0x8000_0000 != 0
    ensures RegisterField(r) == RegisterField(w) && Imm19Field(r) == skip
  {
  }

  lemma InvertConditionalWord(w: bv32, r: bv32, skip: bv19)
    requires w & 0xFF00_0010 == 0x5400_0000
    requires r == InvertConditional(w, skip as bv32)
    ensures ConditionalBranchWord(r, CondField(w) ^ 1, skip)
  {
  }

  /** The rewritten tbz/tbnz tests the same bit of the same register for the
      opposite outcome, and skips `skip` words. */
  lemma InvertedTestBranch(w: bv32, r: bv32, skip: bv14)
    requires IsTestBranch(w)
    requires r == InvertTest(w, skip as bv32)
    ensures Decode(w).Tbz?
    ensures Decode(r) == Decode(w).(negated := !Decode(w).negated, imm14 := skip)
  {
    InvertTestWord(w, r, skip);
    DecodeTestBranch(r, w & 0x100_0000 == 0, RegisterField(w), TestedBitField(w), skip);
    DecodeTestBranch(w, w & 0x100_0000 != 0, RegisterField(w), TestedBitField(w), Imm14Field(w));
  }

  /** The rewritten cbz/cbnz compares the same register at the same width for the
      opposite outcome, and skips `skip` words. */
  lemma InvertedCompareBranch(w: bv32, r: bv32, skip: bv19)
    requires IsCompareBranch(w)
    requires r == InvertCompare(w, skip as bv32)
    ensures Decode(w).Cbz?
    ensures Decode(r) == Decode(w).(negated := !Decode(w).negated, imm19 := skip)
  {
    InvertCompareWord(w, r, skip);
    DecodeCompareBranch(r, w & 0x100_0000 == 0, RegisterField(w), w & 0x8000_0000 != 0, skip);
    DecodeCompareBranch(w, w & 0x100_0000 != 0, RegisterField(w), w & 0x8000_0000 != 0, Imm19Field(w));
  }

  /** The rewritten b.cond carries the condition with its low bit flipped, and skips
      `skip` words. */
  lemma InvertedConditionalBranch(w: bv32, r: bv32, skip: bv19)
    requires w & 0xFF00_0010 == 0x5400_0000
    requires r == InvertConditional(w, skip as bv32)
    ensures Decode(w).BCond?
    ensures Decode(r) == BCond(Decode(w).cond ^ 1, skip)
  {
    InvertConditionalWord(w, r, skip);
    DecodeConditionalBranch(r, CondField(w) ^ 1, skip);
    DecodeConditionalBranch(w, CondField(w), Imm19Field(w));
  }

  // ----- The words the assembler emits -----

  /** movz/movk Xd, #imm, lsl #16*hw (MoveWide). */
  function MovzWord(rd: bv32, imm: bv32, hw: bv32): (r: bv32) { 0xD280_0000 | (hw << 21) | ((imm & 0xFFFF) << 5) | rd }
  function MovkWord(rd: bv32, imm: bv32, hw: bv32): (r: bv32) { 0xF280_0000 | (hw << 21) | ((imm & 0xFFFF) << 5) | rd }

  /** ldr Xt, [Xn]: LoadStore always emits LDR_x, whatever the width of rt. */
  function LdrWord(rt: bv32, rn: bv32): (r: bv32) { 0xF940_0000 | (rn << 5) | rt }

  /** ldr X17, #4*words, unlinked when words is 0. */
  function LdrLiteralWord(words: bv32): (r: bv32) { 0x5800_0011 | ((words & 0x7_FFFF) << 5) }

  /** link_confused_instructions: keep opcode and register, set the distance. */
  function LinkLiteral(w: bv32, words: bv32): (r: bv32) { (w & 0xFF00_001F) | ((words & 0x7_FFFF) << 5) }

  const BR_X17: bv32 := 0xD61F_0220
  const BLR_X17: bv32 := 0xD63F_0220

  predicate MovzForm(r: bv32, rd: bv5, imm: bv16, hw: bv2)
  {
    r & 0xFF80_0000 == 0xD280_0000 && RegisterField(r) == rd && Imm16Field(r) == imm && ((r >> 21) & 3) as bv2 == hw
  }

  predicate MovkForm(r: bv32, rd: bv5, imm: bv16, hw: bv2)
  {
    r & 0xFF80_0000 == 0xF280_0000 && RegisterField(r) == rd && Imm16Field(r) == imm && ((r >> 21) & 3) as bv2 == hw
  }

  predicate LdrForm(r: bv32, rt: bv5, rn: bv5)
  {
    r & 0xFFFF_FC00 == 0xF940_0000 && RegisterField(r) == rt && SourceField(r) == rn && rn != 31
  }

  predicate LdrLiteralForm(r: bv32, imm19: bv19)
  {
    r & 0xFF00_001F == 0x5800_0011 && Imm19Field(r) == imm19
  }

  lemma DecodeMovz(r: bv32, rd: bv5, imm: bv16, hw: bv2)
    requires MovzForm(r, rd, imm, hw)
    ensures Decode(r) == Movz(rd, imm, hw)
  {
  }

  lemma DecodeMovk(r: bv32, rd: bv5, imm: bv16, hw: bv2)
    requires MovkForm(r, rd, imm, hw)
    ensures Decode(r) == Movk(rd, imm, hw)
  {
  }

  lemma DecodeLdr(r: bv32, rt: bv5, rn: bv5)
    requires LdrForm(r, rt, rn)
    ensures Decode(r) == LdrX(rt, rn, 0)
  {
  }

  lemma DecodeLdrLiteral(r: bv32, imm19: bv19)
    requires LdrLiteralForm(r, imm19)
    ensures Decode(r) == LdrLiteral(1, false, 17, imm19)
  {
  }

  lemma DecodeBranchRegisters()
    ensures Decode(BR_X17) == Br(17)
    ensures Decode(BLR_X17) == Blr(17)
  {
  }

  lemma MovzIsMovz(r: bv32, rd: bv5, imm: bv16, hw: bv2)
    requires r == MovzWord(rd as bv32, imm as bv32, hw as bv32)
    ensures MovzForm(r, rd, imm, hw)
  {
  }

  lemma MovkIsMovk(r: bv32, rd: bv5, imm: bv16, hw: bv2)
    requires r == MovkWord(rd as bv32, imm as bv32, hw as bv32)
    ensures MovkForm(r, rd, imm, hw)
  {
  }

  lemma LdrIsLdr(r: bv32, rt: bv5, rn: bv5)
    requires r == LdrWord(rt as bv32, rn as bv32) && rn != 31
    ensures LdrForm(r, rt, rn)
  {
  }

  lemma LinkedLiteral(r: bv32, imm19: bv19)
    requires r == LinkLiteral(LdrLiteralWord(0), imm19 as bv32)
    ensures LdrLiteralForm(r, imm19)
  {
  }

  // ----- The relocator's chain of tests sorts words as the architecture does -----

  lemma LoadLiteralDecodes(w: bv32)
    requires KindOf(w) == LoadLiteralKind
    ensures Decode(w) == LdrLiteral(OpcField(w), w & 0x400_0000 != 0, RegisterField(w), Imm19Field(w))
  {
  }

  lemma AddressDecodes(w: bv32)
    requires KindOf(w) == AddressKind
    ensures Decode(w) == if w & 0x9F00_0000 == 0x1000_0000 then Adr(RegisterField(w), Imm19Field(w), ImmLoField(w))
                         else Adrp(RegisterField(w), Imm19Field(w), ImmLoField(w))
  {
  }

  lemma BranchDecodes(w: bv32)
    requires KindOf(w) == BranchKind
    ensures Decode(w) == if w & 0xFC00_0000 == 0x9400_0000 then Bl(Imm26Field(w)) else B(Imm26Field(w))
  {
  }

  lemma TestDecodes(w: bv32)
    requires KindOf(w) == TestKind
    ensures IsTestBranch(w) && Decode(w).Tbz? && Decode(w).imm14 == Imm14Field(w)
  {
  }

  lemma CompareDecodes(w: bv32)
    requires KindOf(w) == CompareKind
    ensures IsCompareBranch(w) && Decode(w).Cbz? && Decode(w).imm19 == Imm19Field(w)
  {
  }

  lemma ConditionalDecodes(w: bv32)
    requires KindOf(w) == ConditionalKind && w & 0x100_0010 == 0
    ensures w & 0xFF00_0010 == 0x5400_0000 && Decode(w) == BCond(CondField(w), Imm19Field(w))
  {
  }

  lemma CopiedDecodes(w: bv32)
    requires KindOf(w) == CopiedKind
    ensures Decode(w).Movz? || Decode(w).Movk? || Decode(w).LdrX? || Decode(w).Br? || Decode(w).Blr? || Decode(w).Plain?
  {
  }
}

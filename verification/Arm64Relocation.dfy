/** GenRelocateCodeAndBranch for A64: rewrite a block of instructions so that it can
    run at another address. */
module Arm64Relocation {
  import opened Bytes
  import opened MachineWords
  import opened Arm64Encoding
  import opened Arm64Assembler

  /** UNIMPLEMENTED() aborts the process: a literal ldrsw, prfm or 128-bit vector load. */
  predicate AbortsOn(w: bv32)
  {
    KindOf(w) == LoadLiteralKind && OpcField(w) >= 2
  }

  predicate UsesLabel(w: bv32)
  {
    KindOf(w) in {BranchKind, TestKind, CompareKind, ConditionalKind}
  }

  function LabelTarget(w: bv32, pc: uint64): (r: uint64)
  {
    match KindOf(w)
    case BranchKind => Low64(DecodeImm26Offset(w) + pc)
    case TestKind => Low64(DecodeImm14Offset(w) + pc)
    case _ => Low64(DecodeImm19Offset(w) + pc)
  }

  function AddressOperand(w: bv32, pc: uint64): (r: uint64)
  {
    if w & 0x9F00_0000 == 0x1000_0000 then Low64(pc + DecodeImmHiLoOffset(w))
    else Low64(PageBase(pc) + DecodeImmHiLoZero12Offset(w))
  }

  function WordItems(ws: seq<bv32>): (r: seq<Item>)
    ensures |r| == |ws| && forall p :: 0 <= p < |ws| ==> r[p] == Word(ws[p])
  {
    seq(|ws|, p requires 0 <= p < |ws| => Word(ws[p]))
  }

  /** The literal's address in X17, and a load from there. */
  function LiteralWords(w: bv32, pc: uint64): (r: seq<bv32>)
    ensures |r| == 5
  {
    MovWords(17, Low64(DecodeImm19Offset(w) + pc)) + [LdrWord(w & 0x1F, 17)]
  }

  /** What one instruction becomes; its label, if it needs one, is number `slot`. */
  function Fragment(w: bv32, pc: uint64, slot: nat): (r: seq<Item>)
  {
    match KindOf(w)
    case LoadLiteralKind => WordItems(LiteralWords(w, pc))
    case AddressKind => WordItems(MovWords(w & 0x1F, AddressOperand(w, pc)))
    case BranchKind => [LoadLabel(slot), Word(if w & 0xFC00_0000 == 0x9400_0000 then BLR_X17 else BR_X17)]
    case TestKind => [Word(InvertTest(w, 3)), LoadLabel(slot), Word(BR_X17)]
    case CompareKind => [Word(InvertCompare(w, 3)), LoadLabel(slot), Word(BR_X17)]
    case ConditionalKind => [Word(InvertConditional(w, 3)), LoadLabel(slot), Word(BR_X17)]
    case CopiedKind => [Word(w)]
  }

  /** Where the fragment's label load sits, when it has one. */
  function LoadAt(w: bv32): (r: nat) { if KindOf(w) == BranchKind then 0 else 1 }

  /** Address of the i-th word from a base, counted up as the loop does. */
  function PcOf(base: uint64, i: nat): (r: uint64)
    decreases i
  {
    if i == 0 then base else Low64(PcOf(base, i - 1) + 4)
  }

  /** First pass over the first n instructions: label values, then items. */
  function Labels(block: seq<bv32>, pc: uint64, n: nat): (r: seq<uint64>)
    requires n <= |block|
  {
    if n == 0 then []
    else Labels(block, pc, n - 1) + (if UsesLabel(block[n - 1]) then [LabelTarget(block[n - 1], PcOf(pc, n - 1))]
      else [])
  }

  function Items(block: seq<bv32>, pc: uint64, n: nat): (r: seq<Item>)
    requires n <= |block|
  {
    if n == 0 then []
    else Items(block, pc, n - 1) + Fragment(block[n - 1], PcOf(pc, n - 1), |Labels(block, pc, n - 1)|)
  }

  function RelocatedCode(block: seq<bv32>, pc: uint64): (r: seq<bv32>)
  {
    Assembled(Items(block, pc, |block|), Labels(block, pc, |block|), PcOf(pc, |block|))
  }

  // ----- The unlinked form the loop builds -----

  function UnlinkedWord(item: Item): (w: bv32)
  {
    if item.Word? then item.w else LdrLiteralWord(0)
  }

  function Unlinked(items: seq<Item>): (r: seq<bv32>)
    ensures |r| == |items| && forall p :: 0 <= p < |items| ==> r[p] == UnlinkedWord(items[p])
  {
    seq(|items|, p requires 0 <= p < |items| => UnlinkedWord(items[p]))
  }

  function NewLabels(w: bv32, pc: uint64, at: nat): (r: seq<Label>)
  {
    if UsesLabel(w) then [Label(LabelTarget(w, pc), [at + LoadAt(w)], false, 0)] else []
  }

  lemma UnlinkedWords(ws: seq<bv32>)
    ensures Unlinked(WordItems(ws)) == ws
  {
  }

  lemma UnlinkedConcat(a: seq<Item>, b: seq<Item>)
    ensures Unlinked(a + b) == Unlinked(a) + Unlinked(b)
  {
  }

  /** Only a label-using fragment contains a label load: one, for its own slot. */
  lemma FragmentLoads(w: bv32, pc: uint64, slot: nat)
    ensures forall p :: 0 <= p < |Fragment(w, pc, slot)| ==>
      (Fragment(w, pc, slot)[p].LoadLabel? <==> UsesLabel(w) && p == LoadAt(w))
    ensures UsesLabel(w) ==> LoadAt(w) < |Fragment(w, pc, slot)| && Fragment(w, pc, slot)[LoadAt(w)] == LoadLabel(slot)
  {
    hide InvertTest, InvertCompare, InvertConditional, LiteralWords, MovWords, AddressOperand, KindOf;
  }

  lemma LinkedExtends(labels: seq<Label>, items: seq<Item>, data: seq<uint64>, w: bv32, pc: uint64)
    requires Linked(labels, items, data)
    ensures Linked(labels + NewLabels(w, pc, |items|), items + Fragment(w, pc, |data|),
                   data + (if UsesLabel(w) then [LabelTarget(w, pc)] else []))
  {
    FragmentLoads(w, pc, |data|);
  }

  lemma LinkLast(labels: seq<Label>, data: uint64, at: nat)
    ensures (labels + [Label(data, [], false, 0)])[|labels| := Label(data, [] + [at], false, 0)]
         == labels + [Label(data, [at], false, 0)]
  {
    var none: seq<nat> := [];
    assert none + [at] == [at];
  }

  /** `ldr X17, label; br/blr X17` through a fresh label. */
  method EmitJump(asm: TurboAssembler, target: uint64, register: bv32)
    modifies asm
    ensures asm.code == old(asm.code) + [LdrLiteralWord(0), register]
    ensures asm.labels == old(asm.labels) + [Label(target, [|old(asm.code)|], false, 0)]
  {
    var slot := asm.AppendRelocLabelEntry(target);
    LinkLast(old(asm.labels), target, |asm.code|);
    asm.Ldr(slot);
    asm.Emit(register);
  }

  /** An inverted branch over such a jump. */
  method EmitGuardedJump(asm: TurboAssembler, inverted: bv32, target: uint64)
    modifies asm
    ensures asm.code == old(asm.code) + [inverted, LdrLiteralWord(0), BR_X17]
    ensures asm.labels == old(asm.labels) + [Label(target, [|old(asm.code)| + 1], false, 0)]
  {
    asm.Emit(inverted);
    EmitJump(asm, target, BR_X17);
  }

  /** One pass of the source's loop body. */
  method RelocateOne(asm: TurboAssembler, w: bv32, pc: uint64)
    requires !AbortsOn(w)
    modifies asm
    ensures asm.code == old(asm.code) + Unlinked(Fragment(w, pc, |old(asm.labels)|))
    ensures asm.labels == old(asm.labels) + NewLabels(w, pc, |old(asm.code)|)
  {
    hide InvertTest, InvertCompare, InvertConditional, LdrWord, MovWords, LdrLiteralWord;
    hide DecodeImm14Offset, DecodeImm19Offset, DecodeImm26Offset, AddressOperand;
    if IsLoadLiteral(w) {
      var memoryAddress := Low64(DecodeImm19Offset(w) + pc);
      asm.Mov(17, memoryAddress);
      asm.Emit(LdrWord(w & 0x1F, 17));
      UnlinkedWords(MovWords(17, memoryAddress) + [LdrWord(w & 0x1F, 17)]);
    } else if IsPcRelAddressing(w) {
      asm.Mov(w & 0x1F, AddressOperand(w, pc));
      UnlinkedWords(MovWords(w & 0x1F, AddressOperand(w, pc)));
    } else if IsImmediateBranch(w) {
      EmitJump(asm, Low64(DecodeImm26Offset(w) + pc), if w & 0xFC00_0000 == 0x9400_0000 then BLR_X17 else BR_X17);
    } else if IsTestBranch(w) {
      EmitGuardedJump(asm, InvertTest(w, 3), Low64(DecodeImm14Offset(w) + pc));
    } else if IsCompareBranch(w) {
      EmitGuardedJump(asm, InvertCompare(w, 3), Low64(DecodeImm19Offset(w) + pc));
    } else if IsConditionalBranch(w) {
      EmitGuardedJump(asm, InvertConditional(w, 3), Low64(DecodeImm19Offset(w) + pc));
    } else {
      asm.Emit(w);
    }
  }

  lemma UnlinkedIsPatched(code: seq<bv32>, items: seq<Item>, tail: seq<bv32>, pool: nat)
    requires code == Unlinked(items) + tail
    ensures Patched(code, items, 0, pool)
  {
    forall p | 0 <= p < |items|
      ensures code[p] == Pending(items[p], p, 0, pool)
    {
      assert code[p] == UnlinkedWord(items[p]);
    }
  }

  lemma FirstPassStep(block: seq<bv32>, pc: uint64, i: nat)
    requires i < |block|
    ensures Items(block, pc, i + 1) == Items(block, pc, i) + Fragment(block[i], PcOf(pc, i), |Labels(block, pc, i)|)
    ensures Labels(block, pc, i + 1)
         == Labels(block, pc, i) + (if UsesLabel(block[i]) then [LabelTarget(block[i], PcOf(pc, i))] else [])
  {
  }

  /** The loop's state after n instructions: nothing is linked yet. */
  ghost predicate FirstPass(asm: TurboAssembler, block: seq<bv32>, pc: uint64, n: nat)
    requires n <= |block|
    reads asm
  {
    asm.code == Unlinked(Items(block, pc, n)) && Linked(asm.labels, Items(block, pc, n), Labels(block, pc, n))
  }

  ghost predicate Relocatable(block: seq<bv32>)
  {
    forall i :: 0 <= i < |block| ==> !AbortsOn(block[i])
  }

  lemma RelocatablePrefix(block: seq<bv32>, i: nat)
    requires i < |block| && Relocatable(block[..i])
    ensures !AbortsOn(block[i]) ==> Relocatable(block[..i + 1])
    ensures AbortsOn(block[i]) ==> !Relocatable(block)
  {
    assert block[..i + 1] == block[..i] + [block[i]];
  }

  lemma FirstPassStart(asm: TurboAssembler, block: seq<bv32>, pc: uint64)
    requires asm.code == [] && asm.labels == []
    ensures FirstPass(asm, block, pc, 0) && Relocatable(block[..0])
  {
  }

  method RelocateNext(asm: TurboAssembler, block: seq<bv32>, ghost pc: uint64, currOrigPc: uint64, i: nat)
    returns (ok: bool)
    requires i < |block| && currOrigPc == PcOf(pc, i) && Relocatable(block[..i])
    requires FirstPass(asm, block, pc, i)
    modifies asm
    ensures ok ==> FirstPass(asm, block, pc, i + 1) && Relocatable(block[..i + 1])
    ensures !ok ==> !Relocatable(block)
  {
    RelocatablePrefix(block, i);
    if AbortsOn(block[i]) {
      return false;
    }
    FirstPassStep(block, pc, i);
    LinkedExtends(asm.labels, Items(block, pc, i), Labels(block, pc, i), block[i], currOrigPc);
    UnlinkedConcat(Items(block, pc, i), Fragment(block[i], currOrigPc, |Labels(block, pc, i)|));
    RelocateOne(asm, block[i], currOrigPc);
    return true;
  }

  method Finish(asm: TurboAssembler, ghost block: seq<bv32>, ghost pc: uint64, currOrigPc: uint64)
    requires FirstPass(asm, block, pc, |block|) && currOrigPc == PcOf(pc, |block|)
    modifies asm
    ensures asm.code == RelocatedCode(block, pc)
  {
    ghost var items := Items(block, pc, |block|);
    ghost var data := Labels(block, pc, |block|);
    asm.LiteralLdrBranch(currOrigPc);
    UnlinkedIsPatched(asm.code, items, JumpWords(currOrigPc), PoolStart(items));
    assert asm.code[|items|..] == JumpWords(currOrigPc) + Pool(data[..0]);
    asm.RelocBind(items, data, currOrigPc);
  }

  /** The relocator. It fails exactly when the block holds a word it cannot express,
      and its back-patched output is the two-pass one. */
  method GenRelocateCodeAndBranch(block: seq<bv32>, pc: uint64) returns (ok: bool, code: seq<bv32>)
    ensures ok <==> Relocatable(block)
    ensures ok ==> code == RelocatedCode(block, pc)
  {
    hide FirstPass, Relocatable, RelocatedCode;
    var asm := new TurboAssembler();
    var currOrigPc: uint64 := pc;
    FirstPassStart(asm, block, pc);
    for i := 0 to |block|
      invariant currOrigPc == PcOf(pc, i)
      invariant Relocatable(block[..i])
      invariant FirstPass(asm, block, pc, i)
    {
      ok := RelocateNext(asm, block, pc, currOrigPc, i);
      if !ok {
        return false, [];
      }
      currOrigPc := Low64(currOrigPc + 4);
    }
    assert block[..|block|] == block;
    Finish(asm, block, pc, currOrigPc);
    return true, asm.code;
  }
}

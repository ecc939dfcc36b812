/** The A64 TurboAssembler: a growing code buffer, forward references to literal-pool
    labels that are back-patched when the label is bound, and the two-pass reading of
    the same output. Positions count 32-bit words. */
module Arm64Assembler {
  import opened Bytes
  import opened MachineWords
  import opened Arm64Encoding

  /** RelocLabelEntry: its pool value, where it was loaded from, where it was bound. */
  datatype Label = Label(data: uint64, links: seq<nat>, bound: bool, pos: nat)

  /** EmitInt64: a 64-bit value, low word first. */
  function DataWords(v: uint64): (r: seq<bv32>)
    ensures |r| == 2
  {
    [ToWord(v % TWO_TO_THE_32), ToWord(v / TWO_TO_THE_32)]
  }

  function Chunk(v: uint64, hw: nat): (r: nat)
    requires hw < 4
    ensures r < TWO_TO_THE_16
  {
    if hw == 0 then v % TWO_TO_THE_16
    else if hw == 1 then (v / 0x1_0000) % TWO_TO_THE_16
    else if hw == 2 then (v / 0x1_0000_0000) % TWO_TO_THE_16
    else (v / 0x1_0000_0000_0000) % TWO_TO_THE_16
  }

  function MovWords(rd: bv32, v: uint64): (r: seq<bv32>)
    ensures |r| == 4
  {
    [MovzWord(rd, ToWord(Chunk(v, 0)), 0), MovkWord(rd, ToWord(Chunk(v, 1)), 1),
     MovkWord(rd, ToWord(Chunk(v, 2)), 2), MovkWord(rd, ToWord(Chunk(v, 3)), 3)]
  }

  /** A linked `ldr X17` reading `distance` words ahead. */
  function LinkedLoad(distance: int): (w: bv32)
  {
    LinkLiteral(LdrLiteralWord(0), ToWord(if distance < 0 then 0 else distance))
  }

  /** LiteralLdrBranch: jump to an absolute address through a private literal. */
  function JumpWords(address: uint64): (r: seq<bv32>)
    ensures |r| == 4
  {
    [LinkedLoad(2), BR_X17] + DataWords(address)
  }

  // ----- The two-pass reading -----

  datatype Item = Word(w: bv32) | LoadLabel(slot: nat)

  function ResolveItem(item: Item, position: nat, pool: nat): (w: bv32)
  {
    match item
    case Word(w) => w
    case LoadLabel(j) => LinkedLoad(pool + 2 * j - position)
  }

  /** Second pass: every label has a known place, pool + 2 * slot. */
  function Resolve(items: seq<Item>, pool: nat): (r: seq<bv32>)
    ensures |r| == |items|
    ensures forall p :: 0 <= p < |items| ==> r[p] == ResolveItem(items[p], p, pool)
  {
    seq(|items|, p requires 0 <= p < |items| => ResolveItem(items[p], p, pool))
  }

  function Pool(data: seq<uint64>): (r: seq<bv32>)
    ensures |r| == 2 * |data|
    ensures forall j :: 0 <= j < |data| ==> r[2 * j] == DataWords(data[j])[0] && r[2 * j + 1] == DataWords(data[j])[1]
  {
    if data == [] then [] else
      var init := data[..|data| - 1];
      Pool(init) + DataWords(data[|data| - 1])
  }

  /** The literal pool starts after the four words of the final jump. */
  function PoolStart(items: seq<Item>): (r: nat) { |items| + 4 }

  function Assembled(items: seq<Item>, data: seq<uint64>, exit: uint64): (r: seq<bv32>)
  {
    Resolve(items, PoolStart(items)) + JumpWords(exit) + Pool(data)
  }

  // ----- Back-patching, on values -----

  /** A position while only the labels below `bound` are bound. */
  function Pending(item: Item, position: nat, bound: nat, pool: nat): (w: bv32)
  {
    if item.LoadLabel? && item.slot >= bound then LdrLiteralWord(0) else ResolveItem(item, position, pool)
  }

  ghost predicate Patched(code: seq<bv32>, items: seq<Item>, bound: nat, pool: nat)
    requires |code| >= |items|
  {
    forall p :: 0 <= p < |items| ==> code[p] == Pending(items[p], p, bound, pool)
  }

  lemma BindingPatchesOne(before: seq<bv32>, after: seq<bv32>, items: seq<Item>, bound: nat, pool: nat, link: nat)
    requires |before| == |after| >= |items| && pool >= |items|
    requires Patched(before, items, bound, pool)
    requires link < |items| && items[link] == LoadLabel(bound)
    requires forall p :: 0 <= p < |items| && items[p] == LoadLabel(bound) ==> p == link
    requires forall p :: 0 <= p < |items| ==>
      after[p] == if p == link then LinkLiteral(before[p], ToWord(pool + 2 * bound - p)) else before[p]
    ensures Patched(after, items, bound + 1, pool)
  {
    forall p | 0 <= p < |items|
      ensures after[p] == Pending(items[p], p, bound + 1, pool)
    {
      assert before[p] == Pending(items[p], p, bound, pool);
    }
  }

  /** Every item that loads a label is recorded in that label, once. */
  ghost predicate Linked(labels: seq<Label>, items: seq<Item>, data: seq<uint64>)
  {
    && |labels| == |data|
    && (forall j :: 0 <= j < |data| ==>
          labels[j].data == data[j] && |labels[j].links| == 1
          && labels[j].links[0] < |items| && items[labels[j].links[0]] == LoadLabel(j))
    && (forall p :: 0 <= p < |items| && items[p].LoadLabel? ==>
          items[p].slot < |data| && labels[items[p].slot].links[0] == p)
  }

  /** The buffer while RelocBind runs: the first `bound` labels are bound. */
  ghost predicate Binding(code: seq<bv32>, items: seq<Item>, data: seq<uint64>, exit: uint64, bound: nat)
  {
    && |code| >= |items| && bound <= |data|
    && Patched(code, items, bound, PoolStart(items))
    && code[|items|..] == JumpWords(exit) + Pool(data[..bound])
  }

  /** What PseudoBind needs to know of a pending label. */
  lemma PendingLabel(code: seq<bv32>, labels: seq<Label>, items: seq<Item>, data: seq<uint64>, exit: uint64, bound: nat)
    requires Linked(labels, items, data) && Binding(code, items, data, exit, bound) && bound < |data|
    ensures |code| == PoolStart(items) + 2 * bound && Patched(code, items, bound, PoolStart(items))
    ensures |labels[bound].links| == 1 && labels[bound].links[0] < |code| && labels[bound].data == data[bound]
    ensures forall pos: nat :: Linked(labels[bound := labels[bound].(bound := true, pos := pos)], items, data)
  {
    assert |code| == |items| + |code[|items|..]|;
  }

  lemma BindStepPatches(before: seq<bv32>, after: seq<bv32>, labels: seq<Label>, items: seq<Item>, data: seq<uint64>,
                        bound: nat)
    requires Linked(labels, items, data) && bound < |data|
    requires |after| == |before| == PoolStart(items) + 2 * bound
    requires Patched(before, items, bound, PoolStart(items))
    requires forall p :: 0 <= p < |after| ==>
      after[p] == if p in labels[bound].links then LinkLiteral(before[p], ToWord(|before| - p)) else before[p]
    ensures Patched(after, items, bound + 1, PoolStart(items))
    ensures after[|items|..] == before[|items|..]
  {
    var link := labels[bound].links[0];
    assert labels[bound].links == [link];
    BindingPatchesOne(before, after, items, bound, PoolStart(items), link);
  }

  lemma PoolGrows(data: seq<uint64>, bound: nat)
    requires bound < |data|
    ensures Pool(data[..bound + 1]) == Pool(data[..bound]) + DataWords(data[bound])
  {
    assert data[..bound + 1][..bound] == data[..bound];
  }

  lemma PatchedExtends(code: seq<bv32>, more: seq<bv32>, items: seq<Item>, bound: nat, pool: nat)
    requires |code| >= |items| && Patched(code, items, bound, pool)
    ensures Patched(code + more, items, bound, pool)
  {
    forall p | 0 <= p < |items|
      ensures (code + more)[p] == Pending(items[p], p, bound, pool)
    {
      assert (code + more)[p] == code[p];
    }
  }

  lemma TailExtends(code: seq<bv32>, from: nat, jump: seq<bv32>, pool: seq<bv32>, more: seq<bv32>)
    requires from <= |code| && code[from..] == jump + pool
    ensures (code + more)[from..] == jump + (pool + more)
  {
    assert (code + more)[from..] == code[from..] + more;
  }

  lemma BindStep(before: seq<bv32>, after: seq<bv32>, items: seq<Item>, data: seq<uint64>, exit: uint64, bound: nat)
    requires Binding(before, items, data, exit, bound) && bound < |data|
    requires |after| == |before|
    requires Patched(after, items, bound + 1, PoolStart(items))
    requires after[|items|..] == before[|items|..]
    ensures Binding(after + DataWords(data[bound]), items, data, exit, bound + 1)
  {
    PatchedExtends(after, DataWords(data[bound]), items, bound + 1, PoolStart(items));
    TailExtends(after, |items|, JumpWords(exit), Pool(data[..bound]), DataWords(data[bound]));
    PoolGrows(data, bound);
  }

  lemma BoundIsAssembled(code: seq<bv32>, items: seq<Item>, data: seq<uint64>, exit: uint64)
    requires Binding(code, items, data, exit, |data|)
    requires exists labels :: Linked(labels, items, data)
    ensures code == Assembled(items, data, exit)
  {
    assert data[..|data|] == data;
    assert code[..|items|] == Resolve(items, PoolStart(items));
    assert code == code[..|items|] + code[|items|..];
  }

  // ----- The one-pass assembler -----

  class TurboAssembler {
    var code: seq<bv32>
    var labels: seq<Label>

    constructor ()
      ensures code == [] && labels == []
    {
      code, labels := [], [];
    }

    method Emit(w: bv32)
      modifies this`code
      ensures code == old(code) + [w]
    {
      code := code + [w];
    }

    method EmitInt64(v: uint64)
      modifies this`code
      ensures code == old(code) + DataWords(v)
    {
      code := code + [ToWord(v % TWO_TO_THE_32), ToWord(v / TWO_TO_THE_32)];
    }

    method Mov(rd: bv32, imm: uint64)
      modifies this`code
      ensures code == old(code) + MovWords(rd, imm)
    {
      Emit(MovzWord(rd, ToWord(Chunk(imm, 0)), 0));
      Emit(MovkWord(rd, ToWord(Chunk(imm, 1)), 1));
      Emit(MovkWord(rd, ToWord(Chunk(imm, 2)), 2));
      Emit(MovkWord(rd, ToWord(Chunk(imm, 3)), 3));
    }

    method AppendRelocLabelEntry(data: uint64) returns (slot: nat)
      modifies this`labels
      ensures slot == |old(labels)|
      ensures labels == old(labels) + [Label(data, [], false, 0)]
    {
      slot := |labels|;
      labels := labels + [Label(data, [], false, 0)];
    }

    /** ldr X17, label, for a label that is not bound yet: emit an empty load and
        remember where it is. */
    method Ldr(slot: nat)
      requires slot < |labels| && !labels[slot].bound
      modifies this
      ensures code == old(code) + [LdrLiteralWord(0)]
      ensures labels == old(labels)[slot := old(labels)[slot].(links := old(labels)[slot].links + [|old(code)|])]
    {
      labels := labels[slot := labels[slot].(links := labels[slot].links + [|code|])];
      Emit(LdrLiteralWord(0));
    }

    /** PseudoBind: the label's place is the end of the buffer; patch its loads. */
    method PseudoBind(slot: nat)
      requires slot < |labels|
      requires forall k :: 0 <= k < |labels[slot].links| ==> labels[slot].links[k] < |code|
      requires forall k, l :: 0 <= k < l < |labels[slot].links| ==> labels[slot].links[k] != labels[slot].links[l]
      modifies this
      ensures labels == old(labels)[slot := old(labels)[slot].(bound := true, pos := |old(code)|)]
      ensures |code| == |old(code)|
      ensures forall p :: 0 <= p < |code| ==>
        code[p] == if p in old(labels)[slot].links
                   then LinkLiteral(old(code)[p], ToWord(|old(code)| - p)) else old(code)[p]
    {
      labels := labels[slot := labels[slot].(bound := true, pos := |code|)];
      var links := labels[slot].links;
      for k := 0 to |links|
        invariant labels == old(labels)[slot := old(labels)[slot].(bound := true, pos := |old(code)|)]
        invariant |code| == |old(code)|
        invariant forall p :: 0 <= p < |code| ==>
          code[p] == if p in links[..k] then LinkLiteral(old(code)[p], ToWord(|old(code)| - p)) else old(code)[p]
      {
        assert links[..k + 1] == links[..k] + [links[k]];
        assert links[k] !in links[..k];
        code := code[links[k] := LinkLiteral(code[links[k]], ToWord(labels[slot].pos - links[k]))];
      }
      assert links[..|links|] == links;
    }

    /** LiteralLdrBranch, with its private label. */
    method LiteralLdrBranch(address: uint64)
      modifies this`code
      ensures code == old(code) + JumpWords(address)
    {
      var link := |code|;
      Emit(LdrLiteralWord(0));
      Emit(BR_X17);
      var bound := |code|;
      code := code[link := LinkLiteral(code[link], ToWord(bound - link))];
      EmitInt64(address);
    }

    /** RelocBind: bind the labels in order, each followed by its pool value. One pass
        with back-patching yields what two passes would. */
    method RelocBind(ghost items: seq<Item>, ghost data: seq<uint64>, ghost exit: uint64)
      requires Linked(labels, items, data) && |labels| == |data|
      requires Binding(code, items, data, exit, 0)
      modifies this
      ensures code == Assembled(items, data, exit)
    {
      hide Linked, Binding, Patched, Pool;
      for i := 0 to |labels|
        invariant |labels| == |data|
        invariant Linked(labels, items, data)
        invariant Binding(code, items, data, exit, i)
      {
        ghost var before := code;
        ghost var table := labels;
        PendingLabel(code, labels, items, data, exit, i);
        PseudoBind(i);
        BindStepPatches(before, code, table, items, data, i);
        BindStep(before, code, items, data, exit, i);
        EmitInt64(labels[i].data);
      }
      BoundIsAssembled(code, items, data, exit);
    }
  }
}

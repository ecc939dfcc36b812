/** Relocation preserves meaning: the relocated stream simulates the original block. */
module Arm64Simulation {
  import opened Bytes
  import opened MachineWords
  import opened Arm64Encoding
  import opened Arm64Machine
  import opened Arm64Assembler
  import opened Arm64Relocation

  // ----- Relating the two machines -----

  ghost predicate Loaded(text: Text, base: uint64, code: seq<bv32>)
  {
    forall i :: 0 <= i < |code| ==> PcOf(base, i) in text && text[PcOf(base, i)] == code[i]
  }

  /** What two runs may differ in: some registers, and memory that is not read again. */
  datatype Hidden = Hidden(regs: set<nat>, dead: iset<uint64>)

  ghost predicate MemoryAgrees(dead: iset<uint64>, a: Memory, b: Memory)
  {
    forall at: uint64 :: at !in dead ==> (at in a <==> at in b) && (at in a && at in b ==> a[at] == b[at])
  }

  /** Same flags, and the same registers and memory but for what is in `dirty`. */
  ghost predicate AgreeOff(dirty: Hidden, a: Cpu, b: Cpu)
  {
    && a.flags == b.flags && MemoryAgrees(dirty.dead, a.mem, b.mem)
    && forall r: nat :: r !in dirty.regs ==> ReadX(a, r) == ReadX(b, r)
  }

  ghost predicate OutcomesAgree(dirty: Hidden, a: PlainOutcome, b: PlainOutcome)
  {
    && AgreeOff(dirty, a.cpu, b.cpu)
    && (a.Continue? <==> b.Continue?)
    && (a.Leave? && b.Leave? ==> a.target == b.target)
  }

  /** In state c the instruction's behaviour does not depend on what is dirty. */
  ghost predicate PlainIgnores(env: Env, w: bv32, dirty: Hidden, c: Cpu)
  {
    forall c' :: AgreeOff(dirty, c, c') ==> OutcomesAgree(dirty, env.plain(w, c), env.plain(w, c'))
  }

  /** A function called in state c may clobber X17, uses X30 only to return, and leaves
      whatever depends on them, such as a saved X30, at dead addresses. */
  ghost predicate CalleeIgnores(env: Env, target: uint64, dead: iset<uint64>, c: Cpu)
  {
    forall c' :: AgreeOff(Hidden({17, 30}, dead), c, c') ==>
      AgreeOff(Hidden({17, 30}, dead), env.callee(target, c), env.callee(target, c'))
  }

  predicate IsCall(w: bv32) { Decode(w).Bl? || Decode(w).Blr? }

  predicate CalledBefore(block: seq<bv32>, i: nat)
    requires i <= |block|
    decreases i
  {
    i > 0 && (CalledBefore(block, i - 1) || IsCall(block[i - 1]))
  }

  /** X17 is the relocator's scratch register; once a call has been made X30 holds an
      address of the stream that made it, and dead memory may hold it too. */
  ghost function Dirty(dead: iset<uint64>, called: bool): (d: Hidden)
  {
    if called then Hidden({17, 30}, dead) else Hidden({17}, iset{})
  }

  /** Four bytes, and eight, none of them dead. */
  ghost predicate WordAlive(dirty: Hidden, at: int)
  {
    && Low64(at) !in dirty.dead && Low64(at + 1) !in dirty.dead
    && Low64(at + 2) !in dirty.dead && Low64(at + 3) !in dirty.dead
  }

  ghost predicate Alive(dirty: Hidden, at: int) { WordAlive(dirty, at) && WordAlive(dirty, at + 4) }

  /** In state m the instruction reads nothing that is dirty. */
  ghost predicate ReadsNoDirty(env: Env, w: bv32, dirty: Hidden, m: Machine)
  {
    match Decode(w)
    case LdrLiteral(_, _, _, imm) => Alive(dirty, Low64(m.pc + Offset19(imm)))
    case Tbz(_, rt, _, _) => rt as int !in dirty.regs
    case Cbz(_, rt, _, _) => rt as int !in dirty.regs
    case LdrX(_, rn, imm) => rn as int !in dirty.regs && Alive(dirty, ReadX(m.cpu, rn as int) + 8 * imm as int)
    case Br(rn) => rn as int !in dirty.regs
    case Blr(rn) => rn as int !in dirty.regs
    case Plain => PlainIgnores(env, w, dirty, m.cpu)
    case _ => true
  }

  /** And if it is a call, the function called does not either. */
  ghost predicate CallIgnores(env: Env, w: bv32, dead: iset<uint64>, m: Machine)
  {
    match Decode(w)
    case Bl(imm) => CalleeIgnores(env, Low64(m.pc + Offset26(imm)), dead, WriteX(m.cpu, 30, Low64(m.pc + 4)))
    case Blr(rn) => CalleeIgnores(env, ReadX(m.cpu, rn as int), dead, WriteX(m.cpu, 30, Low64(m.pc + 4)))
    case _ => true
  }

  /** Words the relocator translates faithfully: of the literal loads only the 64-bit
      general-register one, of the conditional branches only real conditions. */
  predicate Faithful(w: bv32)
  {
    match KindOf(w)
    case LoadLiteralKind => w & 0x400_0000 == 0 && OpcField(w) == 1
    case ConditionalKind => w & 0x100_0010 == 0 && CondField(w) < 14
    case _ => true
  }

  /** Neither half of a literal is among the displaced bytes. */
  predicate LiteralOutside(text: Text, w: bv32, pc: uint64)
  {
    Decode(w).LdrLiteral? ==>
      (var a := Low64(pc + Offset19(Decode(w).imm19));
       a !in text && Low64(a + 4) !in text)
  }

  /** Two texts, the displaced block, and the addresses that hold nothing of use after a
      call, such as those below the stack pointer. */
  datatype Setup = Setup(
    env: Env, original: Text, relocated: Text, block: seq<bv32>, from: uint64, to: uint64, dead: iset<uint64>)

  function Code(s: Setup): (r: seq<bv32>) { RelocatedCode(s.block, s.from) }

  /** Start of the i-th instruction's translation, in words. */
  function Off(s: Setup, i: nat): (r: nat)
    requires i <= |s.block|
  {
    |Items(s.block, s.from, i)|
  }

  ghost predicate Valid(s: Setup)
  {
    && Loaded(s.original, s.from, s.block)
    && Loaded(s.relocated, s.to, Code(s))
    && |Code(s)| < 0x4_0000
    && forall i :: 0 <= i < |s.block| ==> ValidAt(s, i)
  }

  ghost predicate ValidAt(s: Setup, i: nat)
    requires i < |s.block|
  {
    && Faithful(s.block[i])
    && LiteralOutside(s.original, s.block[i], PcOf(s.from, i))
  }

  ghost function DirtyAt(s: Setup, i: nat): (d: Hidden)
    requires i <= |s.block|
    ensures 17 in d.regs
  {
    Dirty(s.dead, CalledBefore(s.block, i))
  }

  /** Instruction i, about to run in state a of the original, reads nothing dirty. */
  ghost predicate Blind(s: Setup, i: nat, a: Machine)
    requires i < |s.block|
  {
    ReadsNoDirty(s.env, s.block[i], DirtyAt(s, i), a) && CallIgnores(s.env, s.block[i], s.dead, a)
  }

  /** Nor does any instruction that the original runs from there. */
  ghost predicate BlindRun(s: Setup, i: nat, a: Machine)
    requires i <= |s.block|
    decreases |s.block| - i
  {
    i == |s.block| ||
    (Blind(s, i, a) && (Step(s.env, s.original, a).Next? ==> BlindRun(s, i + 1, Step(s.env, s.original, a).m)))
  }

  /** Two calls match: same function, and return addresses that correspond under the
      map from original to relocated instructions. */
  ghost predicate CallMatches(s: Setup, a: Call, b: Call)
  {
    a.target == b.target
    && exists i :: 0 <= i <= |s.block| && a.returnTo == PcOf(s.from, i) && b.returnTo == PcOf(s.to, Off(s, i))
  }

  ghost predicate CallsMatch(s: Setup, a: seq<Call>, b: seq<Call>)
  {
    |a| == |b| && forall k :: 0 <= k < |a| ==> CallMatches(s, a[k], b[k])
  }

  /** Both machines are about to start instruction i. */
  ghost predicate InStep(s: Setup, i: nat, a: Machine, b: Machine)
    requires i <= |s.block|
  {
    && a.pc == PcOf(s.from, i) && b.pc == PcOf(s.to, Off(s, i))
    && AgreeOff(DirtyAt(s, i), a.cpu, b.cpu)
    && CallsMatch(s, a.calls, b.calls)
  }

  /** Both machines have left at the same address. */
  ghost predicate LeftTogether(s: Setup, a: Machine, b: Machine)
  {
    a.pc == b.pc && AgreeOff(Hidden({17, 30}, s.dead), a.cpu, b.cpu) && CallsMatch(s, a.calls, b.calls)
    && (!CalledBefore(s.block, |s.block|) ==> AgreeOff(Hidden({17}, iset{}), a.cpu, b.cpu))
  }

  // ----- Where things are in the relocated stream -----

  lemma {:induction false} PcOfAdd(base: uint64, i: nat, k: nat)
    ensures Low64(PcOf(base, i) + 4 * k) == PcOf(base, i + k)
    decreases k
  {
    if k == 0 {
      assert PcOf(base, i) % TWO64 == PcOf(base, i);
    } else {
      PcOfAdd(base, i, k - 1);
      Low64Add(PcOf(base, i) + 4 * (k - 1), 4);
    }
  }

  lemma {:induction false} FirstPassPrefix(block: seq<bv32>, pc: uint64, i: nat, n: nat)
    requires i < n <= |block|
    ensures |Items(block, pc, i)| + |Fragment(block[i], PcOf(pc, i), |Labels(block, pc, i)|)| <= |Items(block, pc, n)|
    ensures |Items(block, pc, i + 1)| == |Items(block, pc, i)|
      + |Fragment(block[i], PcOf(pc, i), |Labels(block, pc, i)|)|
    ensures forall q :: 0 <= q < |Fragment(block[i], PcOf(pc, i), |Labels(block, pc, i)|)| ==>
      Items(block, pc, n)[|Items(block, pc, i)| + q] == Fragment(block[i], PcOf(pc, i), |Labels(block, pc, i)|)[q]
    ensures UsesLabel(block[i]) ==>
      && |Labels(block, pc, i)| < |Labels(block, pc, n)|
      && Labels(block, pc, n)[|Labels(block, pc, i)|] == LabelTarget(block[i], PcOf(pc, i))
    decreases n
  {
    hide Fragment, UsesLabel, LabelTarget, Items, Labels, PcOf;
    FirstPassStep(block, pc, n - 1);
    FirstPassStep(block, pc, i);
    if i < n - 1 {
      FirstPassPrefix(block, pc, i, n - 1);
    }
  }

  /** The items of a fragment stand resolved from `at` on, before the code's end. */
  ghost predicate ResolvedAt(code: seq<bv32>, at: nat, fragment: seq<Item>, end: nat)
  {
    && at + |fragment| <= end < |code|
    && forall q :: 0 <= q < |fragment| ==> code[at + q] == ResolveItem(fragment[q], at + q, end + 4)
  }

  lemma CodeAt(s: Setup, i: nat)
    requires i < |s.block|
    ensures var fragment := Fragment(s.block[i], PcOf(s.from, i), |Labels(s.block, s.from, i)|);
      && Off(s, i + 1) == Off(s, i) + |fragment| <= Off(s, |s.block|)
      && ResolvedAt(Code(s), Off(s, i), fragment, Off(s, |s.block|))
  {
    hide Fragment, Labels, Items, Assembled, ResolveItem, PcOf, UsesLabel, LabelTarget;
    FirstPassPrefix(s.block, s.from, i, |s.block|);
    var all, fragment := Items(s.block, s.from, |s.block|),
      Fragment(s.block[i], PcOf(s.from, i), |Labels(s.block, s.from, i)|);
    AssembledAt(all, Labels(s.block, s.from, |s.block|), PcOf(s.from, |s.block|));
    forall q | 0 <= q < |fragment|
      ensures Code(s)[Off(s, i) + q] == ResolveItem(fragment[q], Off(s, i) + q, Off(s, |s.block|) + 4)
    {
      assert all[Off(s, i) + q] == fragment[q];
    }
  }

  lemma AssembledAt(items: seq<Item>, data: seq<uint64>, exit: uint64)
    ensures |Assembled(items, data, exit)| == |items| + 4 + 2 * |data|
    ensures forall p {:trigger items[p]} :: 0 <= p < |items| ==>
      Assembled(items, data, exit)[p] == ResolveItem(items[p], p, |items| + 4)
  {
    hide ResolveItem, JumpWords, Pool;
  }

  /** The pool slot of instruction i's label holds its branch target. */
  lemma PoolAt(s: Setup, i: nat)
    requires i < |s.block| && UsesLabel(s.block[i])
    ensures var at := Off(s, |s.block|) + 4 + 2 * |Labels(s.block, s.from, i)|;
      && at + 1 < |Code(s)|
      && [Code(s)[at], Code(s)[at + 1]] == DataWords(LabelTarget(s.block[i], PcOf(s.from, i)))
  {
    hide Fragment, Resolve, DataWords, UsesLabel, LabelTarget;
    FirstPassPrefix(s.block, s.from, i, |s.block|);
  }

  /** After the last instruction comes the jump to the first undisplaced one. */
  lemma FinalJumpAt(s: Setup)
    ensures var at := Off(s, |s.block|);
      at + 4 <= |Code(s)| && Code(s)[at..at + 4] == JumpWords(PcOf(s.from, |s.block|))
  {
    hide Resolve, JumpWords, Pool;
  }

  // ----- Running the emitted words -----

  lemma Fetch(env: Env, text: Text, base: uint64, code: seq<bv32>, at: nat, m: Machine)
    requires Loaded(text, base, code) && at < |code| && m.pc == PcOf(base, at)
    ensures Step(env, text, m) == Execute(env, text, m, code[at], Decode(code[at]))
  {
    hide Execute, Decode;
  }

  function Low16(x: bv32): (r: bv16) { (x & 0xFFFF) as bv16 }

  lemma NarrowBits(x: bv32, y: bv16)
    requires x <= 0xFFFF && y == (x & 0xFFFF) as bv16
    ensures y == x as bv16 && y as bv32 == x
  {
  }

  lemma NarrowValue(x: bv32)
    requires x <= 0xFFFF
    ensures (x as bv16) as int == x as int
  {
  }

  lemma Narrow(x: bv32)
    requires x <= 0xFFFF
    ensures Low16(x) as bv32 == x
    ensures Low16(x) as int == x as int
  {
    NarrowBits(x, Low16(x));
    NarrowValue(x);
  }

  lemma NarrowWord(y: bv32, k: nat)
    requires y as int == k < TWO_TO_THE_16
    ensures Low16(y) as bv32 == y && Low16(y) as int == k
  {
    hide Low16;
    Below16Bits(y);
    Narrow(y);
  }

  lemma NarrowChunk(k: nat)
    requires k < TWO_TO_THE_16
    ensures Low16(ToWord(k)) as bv32 == ToWord(k)
    ensures Low16(ToWord(k)) as int == k
  {
    hide ToWord, Low16;
    ToWordValue(k);
    NarrowWord(ToWord(k), k);
  }

  lemma DecodeMovzChunk(w: bv32, rd: bv5, k: nat)
    requires k < TWO_TO_THE_16 && w == MovzWord(rd as bv32, ToWord(k), 0)
    ensures Decode(w) == Movz(rd, Low16(ToWord(k)), 0) && Low16(ToWord(k)) as int == k
  {
    hide ToWord, MovzWord, MovzForm, Decode, Low16;
    NarrowChunk(k);
    MovzIsMovz(w, rd, Low16(ToWord(k)), 0);
    DecodeMovz(w, rd, Low16(ToWord(k)), 0);
  }

  lemma DecodeMovkChunk(w: bv32, rd: bv5, k: nat, hw: bv2)
    requires k < TWO_TO_THE_16 && w == MovkWord(rd as bv32, ToWord(k), hw as bv32)
    ensures Decode(w) == Movk(rd, Low16(ToWord(k)), hw) && Low16(ToWord(k)) as int == k
  {
    hide ToWord, MovkWord, MovkForm, Decode, Low16;
    NarrowChunk(k);
    MovkIsMovk(w, rd, Low16(ToWord(k)), hw);
    DecodeMovk(w, rd, Low16(ToWord(k)), hw);
  }

  /** The value built by movz and the first hw - 1 movk. */
  function Built(v: uint64, hw: nat): (r: uint64)
    requires hw < 4
  {
    ReplaceChunk(if hw == 0 then 0 else Built(v, hw - 1), Chunk(v, hw), hw)
  }

  lemma BuildSecond(v: uint64)
    ensures ReplaceAt(v % TWO_TO_THE_16, (v / 0x1_0000) % TWO_TO_THE_16, 0x1_0000) == v % TWO_TO_THE_32
  {
  }

  lemma BuildThird(v: uint64)
    ensures ReplaceAt(v % TWO_TO_THE_32, (v / 0x1_0000_0000) % TWO_TO_THE_16, 0x1_0000_0000) == v % 0x1_0000_0000_0000
  {
  }

  lemma BuildFourth(v: uint64)
    ensures ReplaceAt(v % 0x1_0000_0000_0000, (v / 0x1_0000_0000_0000) % TWO_TO_THE_16, 0x1_0000_0000_0000) == v
  {
  }

  lemma BuiltIsWhole(v: uint64)
    ensures Built(v, 3) == v
  {
    hide ReplaceAt;
    assert Built(v, 0) == v % TWO_TO_THE_16 by {
      BuildFirst(v);
    }
    BuildSecond(v);
    BuildThird(v);
    BuildFourth(v);
    assert Built(v, 1) == v % TWO_TO_THE_32;
    assert Built(v, 2) == v % 0x1_0000_0000_0000;
  }

  lemma BuildFirst(v: uint64)
    ensures ReplaceAt(0, v % TWO_TO_THE_16, 1) == v % TWO_TO_THE_16
  {
  }

  lemma RewriteX(c: Cpu, r: nat, a: uint64, b: uint64)
    ensures WriteX(WriteX(c, r, a), r, b) == WriteX(c, r, b)
  {
    assert c.x[r := a][r := b] == c.x[r := b];
  }

  lemma MovzStep(env: Env, text: Text, base: uint64, code: seq<bv32>, at: nat, rd: bv5, k: nat, m: Machine)
    requires Loaded(text, base, code) && at < |code| && m.pc == PcOf(base, at)
    requires k < TWO_TO_THE_16 && code[at] == MovzWord(rd as bv32, ToWord(k), 0)
    ensures Step(env, text, m) == Next(Machine(PcOf(base, at + 1), WriteX(m.cpu, rd as int, ReplaceChunk(0, k, 0)),
      m.calls))
  {
    hide ToWord, MovzWord, Decode, Low16, ReplaceChunk, WriteX, ReadX, Loaded;
    Fetch(env, text, base, code, at, m);
    DecodeMovzChunk(code[at], rd, k);
  }

  lemma MovkStep(env: Env, text: Text, base: uint64, code: seq<bv32>, at: nat, rd: bv5, k: nat, hw: bv2, m: Machine,
                 c: Cpu, v: uint64)
    requires Loaded(text, base, code) && at < |code| && m.pc == PcOf(base, at) && m.cpu == WriteX(c, rd as int, v)
    requires k < TWO_TO_THE_16 && code[at] == MovkWord(rd as bv32, ToWord(k), hw as bv32)
    ensures Step(env, text, m)
         == Next(Machine(PcOf(base, at + 1), WriteX(c, rd as int, ReplaceChunk(v, k, hw as int)), m.calls))
  {
    hide ToWord, MovkWord, Decode, Low16, ReplaceChunk, Loaded;
    Fetch(env, text, base, code, at, m);
    DecodeMovkChunk(code[at], rd, k, hw);
    RewriteX(c, rd as int, v, ReplaceChunk(v, k, hw as int));
  }

  /** Four emitted words put any 64-bit value in a register. */
  lemma MovRuns(env: Env, text: Text, base: uint64, code: seq<bv32>, at: nat, rd: bv5, v: uint64, m: Machine)
    requires Loaded(text, base, code) && at + 4 <= |code| && m.pc == PcOf(base, at)
    requires code[at..at + 4] == MovWords(rd as bv32, v)
    ensures Steps(env, text, m, 4) == At(Machine(PcOf(base, at + 4), WriteX(m.cpu, rd as int, v), m.calls))
  {
    hide ToWord, MovzWord, MovkWord, ReplaceChunk, Loaded, Step, WriteX, Chunk;
    assert code[at] == MovWords(rd as bv32, v)[0];
    MovzStep(env, text, base, code, at, rd, Chunk(v, 0), m);
    var m1 := Step(env, text, m).m;
    assert code[at + 1] == MovWords(rd as bv32, v)[1];
    MovkStep(env, text, base, code, at + 1, rd, Chunk(v, 1), 1, m1, m.cpu, Built(v, 0));
    var m2 := Step(env, text, m1).m;
    assert code[at + 2] == MovWords(rd as bv32, v)[2];
    MovkStep(env, text, base, code, at + 2, rd, Chunk(v, 2), 2, m2, m.cpu, Built(v, 1));
    var m3 := Step(env, text, m2).m;
    assert code[at + 3] == MovWords(rd as bv32, v)[3];
    MovkStep(env, text, base, code, at + 3, rd, Chunk(v, 3), 3, m3, m.cpu, Built(v, 2));
    BuiltIsWhole(v);
    assert Steps(env, text, m3, 1).At?;
  }

  function Low19(x: bv32): (r: bv19) { (x & 0x7_FFFF) as bv19 }

  lemma Narrow19Bits(x: bv32, y: bv19)
    requires x <= 0x3_FFFF && y == (x & 0x7_FFFF) as bv19
    ensures y == x as bv19 && y as bv32 == x
  {
  }

  lemma Narrow19Value(x: bv32)
    requires x <= 0x3_FFFF
    ensures (x as bv19) as int == x as int
  {
  }

  lemma Narrow19(x: bv32, k: nat)
    requires x as int == k < 0x4_0000
    ensures Low19(x) as bv32 == x && Low19(x) as int == k
  {
    Below18Bits(x);
    Narrow19Bits(x, Low19(x));
    Narrow19Value(x);
  }

  lemma DecodeLinkedLoad(w: bv32, d: nat) returns (imm: bv19)
    requires d < 0x4_0000 && w == LinkedLoad(d)
    ensures Decode(w) == LdrLiteral(1, false, 17, imm) && Offset19(imm) == 4 * d
  {
    hide ToWord, LinkLiteral, LdrLiteralWord, LdrLiteralForm, Decode, Low19;
    ToWordValue(d);
    Narrow19(ToWord(d), d);
    imm := Low19(ToWord(d));
    LinkedLiteral(w, imm);
    DecodeLdrLiteral(w, imm);
  }

  lemma DataWordsValue(v: uint64)
    ensures DataWords(v)[0] as int + TWO_TO_THE_32 * DataWords(v)[1] as int == v
  {
    hide ToWord;
    ToWordValue(v % TWO_TO_THE_32);
    ToWordValue(v / TWO_TO_THE_32);
  }

  lemma PoolEntry(text: Text, base: uint64, code: seq<bv32>, at: nat, v: uint64, mem: Memory)
    requires Loaded(text, base, code) && at + 1 < |code| && [code[at], code[at + 1]] == DataWords(v)
    ensures LoadLiteral64(text, mem, PcOf(base, at)) == v
  {
    hide DataWords, Load32;
    PcOfAdd(base, at, 1);
    DataWordsValue(v);
    assert DataWords(v)[0] == code[at] && DataWords(v)[1] == code[at + 1];
  }

  /** `ldr X17, label` reads the label's pool entry. */
  lemma PoolLoadStep(env: Env, text: Text, base: uint64, code: seq<bv32>, at: nat, d: nat, v: uint64, m: Machine)
    requires Loaded(text, base, code) && at + d + 1 < |code| && d < 0x4_0000 && m.pc == PcOf(base, at)
    requires code[at] == LinkedLoad(d) && [code[at + d], code[at + d + 1]] == DataWords(v)
    ensures Step(env, text, m) == Next(Machine(PcOf(base, at + 1), WriteX(m.cpu, 17, v), m.calls))
  {
    hide ToWord, LinkedLoad, DataWords, Decode, WriteX, ReadX, Offset19, LoadLiteral64, Loaded, Execute, Step;
    Fetch(env, text, base, code, at, m);
    var imm := DecodeLinkedLoad(code[at], d);
    PcOfAdd(base, at, d);
    PoolEntry(text, base, code, at + d, v, m.cpu.mem);
    ScratchLoad(env, text, m, code[at], imm);
  }

  lemma ScratchLoad(env: Env, text: Text, m: Machine, w: bv32, imm: bv19)
    ensures Execute(env, text, m, w, LdrLiteral(1, false, 17, imm))
         == Advance(m, WriteX(m.cpu, 17, LoadLiteral64(text, m.cpu.mem, Low64(m.pc + Offset19(imm)))))
  {
    hide LoadLiteral64, LoadLiteral32, WriteX, Offset19;
    assert (17 as bv5) as int == 17;
  }

  lemma BranchRegisterStep(env: Env, text: Text, base: uint64, code: seq<bv32>, at: nat, m: Machine)
    requires Loaded(text, base, code) && at < |code| && m.pc == PcOf(base, at)
    ensures code[at] == BR_X17 ==> Step(env, text, m) == Jump(m.(pc := ReadX(m.cpu, 17)))
    ensures code[at] == BLR_X17 ==> Step(env, text, m) == CallAndReturn(env, m, ReadX(m.cpu, 17))
  {
    hide Decode, WriteX, ReadX, CallAndReturn;
    Fetch(env, text, base, code, at, m);
    DecodeBranchRegisters();
    assert (17 as bv5) as int == 17;
  }

  /** A linked load and `br X17` go to the label's address. */
  lemma JumpRuns(env: Env, text: Text, base: uint64, code: seq<bv32>, at: nat, d: nat, v: uint64, m: Machine)
    requires Loaded(text, base, code) && at + d + 1 < |code| && 2 <= d < 0x4_0000 && m.pc == PcOf(base, at)
    requires code[at] == LinkedLoad(d) && [code[at + d], code[at + d + 1]] == DataWords(v) && code[at + 1] == BR_X17
    ensures Steps(env, text, m, 2) == At(Machine(v, WriteX(m.cpu, 17, v), m.calls))
  {
    hide ToWord, LinkedLoad, DataWords, WriteX, Step, Loaded;
    PoolLoadStep(env, text, base, code, at, d, v, m);
    var m1 := Step(env, text, m).m;
    BranchRegisterStep(env, text, base, code, at + 1, m1);
    assert Steps(env, text, m1, 1) == At(Step(env, text, m1).m);
  }

  // ----- One original instruction, some relocated ones -----

  lemma AgreeScratch(dirty: Hidden, a: Cpu, b: Cpu, v: uint64)
    requires AgreeOff(dirty, a, b) && 17 in dirty.regs
    ensures AgreeOff(dirty, a, WriteX(b, 17, v))
  {
  }

  lemma AgreeWrite(dirty: Hidden, a: Cpu, b: Cpu, r: nat, v: uint64)
    requires AgreeOff(dirty, a, b)
    ensures AgreeOff(dirty, WriteX(a, r, v), WriteX(b, r, v))
  {
    forall q: nat | q !in dirty.regs
      ensures ReadX(WriteX(a, r, v), q) == ReadX(WriteX(b, r, v), q)
    {
      assert ReadX(a, q) == ReadX(b, q);
    }
  }

  /** The original's step i is matched by k relocated steps. */
  ghost predicate Simulated(s: Setup, i: nat, a: Machine, b: Machine, k: nat)
    requires i < |s.block|
  {
    var o := Step(s.env, s.original, a);
    var r := Steps(s.env, s.relocated, b, k);
    && !o.Stuck? && r.At?
    && (o.Next? ==> InStep(s, i + 1, o.m, r.m))
    && (o.Jump? ==>
          && o.m.pc == r.m.pc
          && AgreeOff(DirtyAt(s, i + 1), o.m.cpu, r.m.cpu)
          && CallsMatch(s, o.m.calls, r.m.calls))
  }

  lemma ValidFacts(s: Setup, i: nat)
    requires Valid(s) && i < |s.block|
    ensures Loaded(s.original, s.from, s.block) && Loaded(s.relocated, s.to, Code(s)) && |Code(s)| < 0x4_0000
    ensures ValidAt(s, i)
  {
    hide Loaded, ValidAt, Code;
  }

  /** The label load of instruction i, and the pool entry it reaches. */
  lemma LabelLoadAt(s: Setup, i: nat) returns (d: nat)
    requires |Code(s)| < 0x4_0000 && i < |s.block| && UsesLabel(s.block[i])
    ensures var at := Off(s, i) + LoadAt(s.block[i]);
      && at + d + 1 < |Code(s)| && 2 <= d < 0x4_0000
      && Code(s)[at] == LinkedLoad(d)
      && [Code(s)[at + d], Code(s)[at + d + 1]] == DataWords(LabelTarget(s.block[i], PcOf(s.from, i)))
  {
    hide LinkedLoad, DataWords, RelocatedCode, LabelTarget, Fragment, Items, Labels, LoadAt, PcOf, UsesLabel;
    CodeAt(s, i);
    PoolAt(s, i);
    FragmentLoads(s.block[i], PcOf(s.from, i), |Labels(s.block, s.from, i)|);
    d := Off(s, |s.block|) + 4 + 2 * |Labels(s.block, s.from, i)| - (Off(s, i) + LoadAt(s.block[i]));
  }

  lemma OriginalStep(s: Setup, i: nat, a: Machine)
    requires Loaded(s.original, s.from, s.block) && i < |s.block| && a.pc == PcOf(s.from, i)
    ensures Step(s.env, s.original, a) == Execute(s.env, s.original, a, s.block[i], Decode(s.block[i]))
    ensures Low64(a.pc + 4) == PcOf(s.from, i + 1)
  {
    hide Execute, Decode, Loaded;
    Fetch(s.env, s.original, s.from, s.block, i, a);
  }

  lemma AgreeMore(dead: iset<uint64>, called: bool, called': bool, a: Cpu, b: Cpu)
    requires called ==> called'
    requires AgreeOff(Dirty(dead, called), a, b)
    ensures AgreeOff(Dirty(dead, called'), a, b)
  {
  }

  lemma ConcludeJump(s: Setup, i: nat, a: Machine, b: Machine, k: nat, a': Machine, b': Machine)
    requires i < |s.block|
    requires Step(s.env, s.original, a) == Jump(a') && Steps(s.env, s.relocated, b, k) == At(b')
    requires a'.pc == b'.pc && AgreeOff(DirtyAt(s, i), a'.cpu, b'.cpu)
      && CallsMatch(s, a'.calls, b'.calls)
    ensures Simulated(s, i, a, b, k)
  {
    hide Step, Steps, AgreeOff, CallsMatch;
    AgreeMore(s.dead, CalledBefore(s.block, i), CalledBefore(s.block, i + 1), a'.cpu, b'.cpu);
  }

  lemma ConcludeNext(s: Setup, i: nat, a: Machine, b: Machine, k: nat, a': Machine, b': Machine)
    requires i < |s.block|
    requires Step(s.env, s.original, a) == Next(a') && Steps(s.env, s.relocated, b, k) == At(b')
    requires a'.pc == PcOf(s.from, i + 1) && b'.pc == PcOf(s.to, Off(s, i + 1))
    requires AgreeOff(DirtyAt(s, i), a'.cpu, b'.cpu) && CallsMatch(s, a'.calls, b'.calls)
    ensures Simulated(s, i, a, b, k)
  {
    hide Step, Steps, AgreeOff, CallsMatch, Off;
    AgreeMore(s.dead, CalledBefore(s.block, i), CalledBefore(s.block, i + 1), a'.cpu, b'.cpu);
  }

  lemma BranchTarget(w: bv32, pc: uint64)
    requires KindOf(w) == BranchKind
    ensures Decode(w).B? || Decode(w).Bl?
    ensures Decode(w).Bl? <==> w & 0xFC00_0000 == 0x9400_0000
    ensures LabelTarget(w, pc) == Low64(pc + Offset26(Decode(w).imm26))
  {
    hide Decode, KindOf, DecodeImm26Offset, Offset26, Imm26Field;
    BranchDecodes(w);
    Imm26IsArchitectural(w);
  }

  lemma BranchFragment(s: Setup, i: nat)
    requires i < |s.block| && KindOf(s.block[i]) == BranchKind
    ensures UsesLabel(s.block[i]) && LoadAt(s.block[i]) == 0
    ensures Off(s, i + 1) == Off(s, i) + 2 < |Code(s)|
    ensures Code(s)[Off(s, i) + 1] == if s.block[i] & 0xFC00_0000 == 0x9400_0000 then BLR_X17 else BR_X17
  {
    hide KindOf, Code;
    CodeAt(s, i);
    var fragment := Fragment(s.block[i], PcOf(s.from, i), |Labels(s.block, s.from, i)|);
    assert fragment[1].Word?;
    assert Code(s)[Off(s, i) + 1] == ResolveItem(fragment[1], Off(s, i) + 1, Off(s, |s.block|) + 4);
  }

  lemma BranchExecutes(env: Env, text: Text, w: bv32, m: Machine)
    requires KindOf(w) == BranchKind
    ensures Decode(w).B? ==> Execute(env, text, m, w, Decode(w)) == Jump(m.(pc := LabelTarget(w, m.pc)))
    ensures Decode(w).Bl? ==> Execute(env, text, m, w, Decode(w)) == CallAndReturn(env, m, LabelTarget(w, m.pc))
  {
    hide Decode, KindOf, LabelTarget, Offset26, CallAndReturn;
    BranchTarget(w, m.pc);
  }

  lemma SimulateBranch(s: Setup, i: nat, a: Machine, b: Machine)
    requires Valid(s) && i < |s.block| && InStep(s, i, a, b)
    requires KindOf(s.block[i]) == BranchKind && Decode(s.block[i]).B?
    ensures Simulated(s, i, a, b, 2)
  {
    hide Decode, KindOf, UsesLabel, LoadAt, Loaded, LinkedLoad, DataWords, Valid, ValidAt, LabelTarget, Code, Off;
    hide CallsMatch, AgreeOff, Simulated, Steps, Step, WriteX, Execute;
    var w := s.block[i];
    ValidFacts(s, i);
    BranchTarget(w, a.pc);
    BranchExecutes(s.env, s.original, w, a);
    BranchFragment(s, i);
    var d := LabelLoadAt(s, i);
    OriginalStep(s, i, a);
    var target := LabelTarget(w, a.pc);
    JumpRuns(s.env, s.relocated, s.to, Code(s), Off(s, i), d, target, b);
    AgreeScratch(DirtyAt(s, i), a.cpu, b.cpu, target);
    ConcludeJump(s, i, a, b, 2, a.(pc := target), Machine(target, WriteX(b.cpu, 17, target), b.calls));
  }

  lemma CallsMatchMore(s: Setup, a: seq<Call>, b: seq<Call>, target: uint64, i: nat)
    requires CallsMatch(s, a, b) && i <= |s.block|
    ensures CallsMatch(s, a + [Call(target, PcOf(s.from, i))], b + [Call(target, PcOf(s.to, Off(s, i)))])
  {
    hide Off, PcOf;
    assert CallMatches(s, Call(target, PcOf(s.from, i)), Call(target, PcOf(s.to, Off(s, i))));
  }

  lemma AgreeLink(dead: iset<uint64>, a: Cpu, b: Cpu, ra: uint64, rb: uint64)
    requires AgreeOff(Dirty(dead, true), a, b)
    ensures AgreeOff(Hidden({17, 30}, dead), WriteX(a, 30, ra), WriteX(b, 30, rb))
  {
    hide MemoryAgrees;
  }

  /** Both machines call the same function from corresponding places. */
  lemma ConcludeCall(s: Setup, i: nat, a: Machine, b: Machine, k: nat, b1: Machine, target: uint64)
    requires i < |s.block| && IsCall(s.block[i])
    requires CalleeIgnores(s.env, target, s.dead, WriteX(a.cpu, 30, Low64(a.pc + 4)))
    requires a.pc == PcOf(s.from, i) && Step(s.env, s.original, a) == CallAndReturn(s.env, a, target)
    requires Low64(b1.pc + 4) == PcOf(s.to, Off(s, i + 1))
    requires Steps(s.env, s.relocated, b, k) == At(CallAndReturn(s.env, b1, target).m)
    requires AgreeOff(DirtyAt(s, i), a.cpu, b1.cpu) && CallsMatch(s, a.calls, b1.calls)
    ensures Simulated(s, i, a, b, k)
  {
    hide Step, Steps, CallsMatch, Off, IsCall, AgreeOff;
    var ra, rb := PcOf(s.from, i + 1), PcOf(s.to, Off(s, i + 1));
    AgreeMore(s.dead, CalledBefore(s.block, i), true, a.cpu, b1.cpu);
    AgreeLink(s.dead, a.cpu, b1.cpu, ra, rb);
    CallsMatchMore(s, a.calls, b1.calls, target, i + 1);
    assert CalledBefore(s.block, i + 1);
  }

  lemma CalledIgnores(s: Setup, i: nat, a: Machine)
    requires i < |s.block| && Blind(s, i, a) && KindOf(s.block[i]) == BranchKind && Decode(s.block[i]).Bl?
    ensures CalleeIgnores(s.env, LabelTarget(s.block[i], a.pc), s.dead, WriteX(a.cpu, 30, Low64(a.pc + 4)))
  {
    hide Decode, KindOf, LabelTarget, Offset26, CalleeIgnores, ReadsNoDirty, WriteX;
    BranchTarget(s.block[i], a.pc);
  }

  lemma SimulateCall(s: Setup, i: nat, a: Machine, b: Machine)
    requires Valid(s) && i < |s.block| && InStep(s, i, a, b)
    requires KindOf(s.block[i]) == BranchKind && Decode(s.block[i]).Bl?
    requires Blind(s, i, a)
    ensures Simulated(s, i, a, b, 2)
  {
    hide Decode, KindOf, UsesLabel, LoadAt, Loaded, LinkedLoad, DataWords, Valid, ValidAt, LabelTarget, Code, Off;
    hide CallsMatch, AgreeOff, Simulated, Step, CallAndReturn, Execute, CalleeIgnores, Blind, DirtyAt, Low64;
    var w := s.block[i];
    ValidFacts(s, i);
    BranchTarget(w, a.pc);
    CalledIgnores(s, i, a);
    BranchExecutes(s.env, s.original, w, a);
    BranchFragment(s, i);
    var d := LabelLoadAt(s, i);
    OriginalStep(s, i, a);
    var target := LabelTarget(w, a.pc);
    PoolLoadStep(s.env, s.relocated, s.to, Code(s), Off(s, i), d, target, b);
    var b1 := Machine(PcOf(s.to, Off(s, i) + 1), WriteX(b.cpu, 17, target), b.calls);
    BranchRegisterStep(s.env, s.relocated, s.to, Code(s), Off(s, i) + 1, b1);
    assert Steps(s.env, s.relocated, b1, 1) == At(Step(s.env, s.relocated, b1).m);
    AgreeScratch(DirtyAt(s, i), a.cpu, b.cpu, target);
    ConcludeCall(s, i, a, b, 2, b1, target);
  }

  // Inverted conditional branches over an absolute jump.

  predicate IsGuarded(w: bv32) { KindOf(w) == TestKind || KindOf(w) == CompareKind || KindOf(w) == ConditionalKind }

  function Inverted(w: bv32): (r: bv32)
  {
    match KindOf(w)
    case TestKind => InvertTest(w, 3)
    case CompareKind => InvertCompare(w, 3)
    case _ => InvertConditional(w, 3)
  }

  /** Whether a conditional branch is taken. */
  predicate Taken(i: Insn, c: Cpu)
  {
    match i
    case Tbz(negated, rt, bit, _) => BitIsSet(ReadX(c, rt as int), bit) == negated
    case Cbz(negated, rt, wide, _) => IsZero(ReadX(c, rt as int), wide) != negated
    case BCond(cond, _) => ConditionHolds(cond, c.flags)
    case _ => false
  }

  lemma GuardedFragment(s: Setup, i: nat)
    requires i < |s.block| && IsGuarded(s.block[i])
    ensures UsesLabel(s.block[i]) && LoadAt(s.block[i]) == 1
    ensures Off(s, i + 1) == Off(s, i) + 3 < |Code(s)|
    ensures Code(s)[Off(s, i)] == Inverted(s.block[i]) && Code(s)[Off(s, i) + 2] == BR_X17
  {
    hide KindOf, Code, InvertTest, InvertCompare, InvertConditional;
    CodeAt(s, i);
    var fragment := Fragment(s.block[i], PcOf(s.from, i), |Labels(s.block, s.from, i)|);
    var pool := Off(s, |s.block|) + 4;
    assert Code(s)[Off(s, i) + 0] == ResolveItem(fragment[0], Off(s, i) + 0, pool);
    assert Code(s)[Off(s, i) + 2] == ResolveItem(fragment[2], Off(s, i) + 2, pool);
  }

  lemma SkipOffsets()
    ensures Offset14(3) == 12 && Offset19(3) == 12
  {
    assert (3 as bv14) as int == 3;
    assert (3 as bv19) as int == 3;
  }

  /** The original branches to the label's target when Taken; the rewritten word
      branches twelve bytes ahead when it is not. */
  ghost predicate GuardKept(env: Env, text: Text, w: bv32, m: Machine)
  {
    && Execute(env, text, m, w, Decode(w)) ==
         (if Taken(Decode(w), m.cpu) then Transfer(m, LabelTarget(w, m.pc)) else Advance(m, m.cpu))
    && Execute(env, text, m, Inverted(w), Decode(Inverted(w))) == BranchIf(m, !Taken(Decode(w), m.cpu), 12)
  }

  lemma TestKept(env: Env, text: Text, w: bv32, m: Machine)
    requires KindOf(w) == TestKind
    ensures GuardKept(env, text, w, m)
  {
    hide Decode, KindOf, InvertTest, InvertCompare, InvertConditional, BitIsSet;
    hide Offset14, DecodeImm14Offset, Imm14Field;
    SkipOffsets();
    TestDecodes(w);
    Imm14IsArchitectural(w);
    InvertedTestBranch(w, Inverted(w), 3);
  }

  lemma CompareKept(env: Env, text: Text, w: bv32, m: Machine)
    requires KindOf(w) == CompareKind
    ensures GuardKept(env, text, w, m)
  {
    hide Decode, KindOf, InvertTest, InvertCompare, InvertConditional, IsZero;
    hide Offset19, DecodeImm19Offset, Imm19Field;
    SkipOffsets();
    CompareDecodes(w);
    Imm19IsArchitectural(w);
    InvertedCompareBranch(w, Inverted(w), 3);
  }

  lemma ConditionalKept(env: Env, text: Text, w: bv32, m: Machine)
    requires KindOf(w) == ConditionalKind && Faithful(w)
    ensures GuardKept(env, text, w, m)
  {
    hide Decode, KindOf, InvertTest, InvertCompare, InvertConditional, ConditionHolds;
    hide Offset19, DecodeImm19Offset, Imm19Field;
    SkipOffsets();
    ConditionalDecodes(w);
    Imm19IsArchitectural(w);
    InvertedConditionalBranch(w, Inverted(w), 3);
    InvertedCondition(CondField(w), m.cpu.flags);
  }

  lemma GuardedSteps(env: Env, text: Text, w: bv32, m: Machine)
    requires IsGuarded(w) && Faithful(w)
    ensures Execute(env, text, m, w, Decode(w)) ==
      if Taken(Decode(w), m.cpu) then Transfer(m, LabelTarget(w, m.pc)) else Advance(m, m.cpu)
    ensures Execute(env, text, m, Inverted(w), Decode(Inverted(w))) == BranchIf(m, !Taken(Decode(w), m.cpu), 12)
  {
    hide Decode, KindOf, Inverted, Execute, Taken, LabelTarget;
    if KindOf(w) == TestKind {
      TestKept(env, text, w, m);
    } else if KindOf(w) == CompareKind {
      CompareKept(env, text, w, m);
    } else {
      ConditionalKept(env, text, w, m);
    }
  }

  lemma SameTaken(env: Env, w: bv32, dirty: Hidden, a: Machine, b: Machine)
    requires AgreeOff(dirty, a.cpu, b.cpu) && ReadsNoDirty(env, w, dirty, a)
    ensures Taken(Decode(w), a.cpu) == Taken(Decode(w), b.cpu)
  {
    hide Decode;
  }

  lemma SimulateGuarded(s: Setup, i: nat, a: Machine, b: Machine) returns (k: nat)
    requires Valid(s) && i < |s.block| && InStep(s, i, a, b) && IsGuarded(s.block[i])
    requires Blind(s, i, a)
    ensures Simulated(s, i, a, b, k)
  {
    hide Decode, KindOf, UsesLabel, LoadAt, Loaded, LinkedLoad, DataWords, Valid, LabelTarget, Code, Off, Inverted;
    hide CallsMatch, AgreeOff, Simulated, Step, Execute, Taken, Faithful, WriteX, IsGuarded, ReadsNoDirty;
    var w := s.block[i];
    var dirty := DirtyAt(s, i);
    ValidFacts(s, i);
    GuardedFragment(s, i);
    OriginalStep(s, i, a);
    GuardedSteps(s.env, s.original, w, a);
    GuardedSteps(s.env, s.relocated, w, b);
    SameTaken(s.env, w, dirty, a, b);
    Fetch(s.env, s.relocated, s.to, Code(s), Off(s, i), b);
    var b1 := Step(s.env, s.relocated, b).m;
    if Taken(Decode(w), a.cpu) {
      k := 3;
      var d := LabelLoadAt(s, i);
      var target := LabelTarget(w, a.pc);
      JumpRuns(s.env, s.relocated, s.to, Code(s), Off(s, i) + 1, d, target, b1);
      AgreeScratch(dirty, a.cpu, b.cpu, target);
      ConcludeJump(s, i, a, b, 3, a.(pc := target), Machine(target, WriteX(b.cpu, 17, target), b.calls));
    } else {
      k := 1;
      PcOfAdd(s.to, Off(s, i), 3);
      assert Steps(s.env, s.relocated, b, 1) == At(b1);
      ConcludeNext(s, i, a, b, 1, Machine(PcOf(s.from, i + 1), a.cpu, a.calls), b1);
    }
  }

  // Address computations and literal loads.

  lemma MovFragment(s: Setup, i: nat, rd: bv32, v: uint64, rest: seq<bv32>)
    requires i < |s.block|
    requires Fragment(s.block[i], PcOf(s.from, i), |Labels(s.block, s.from, i)|) == WordItems(MovWords(rd, v) + rest)
    ensures Off(s, i + 1) == Off(s, i) + 4 + |rest| < |Code(s)|
    ensures Code(s)[Off(s, i)..Off(s, i) + 4] == MovWords(rd, v)
    ensures rest != [] ==> Code(s)[Off(s, i) + 4] == rest[0]
  {
    hide Code, Off, MovWords, Fragment;
    CodeAt(s, i);
    var ws := MovWords(rd, v) + rest;
    var fragment := Fragment(s.block[i], PcOf(s.from, i), |Labels(s.block, s.from, i)|);
    assert |fragment| == 4 + |rest|;
    forall q | 0 <= q < |ws|
      ensures Code(s)[Off(s, i) + q] == ws[q]
    {
      assert fragment[q] == Word(ws[q]);
      assert Code(s)[Off(s, i) + q] == ResolveItem(fragment[q], Off(s, i) + q, Off(s, |s.block|) + 4);
    }
    var start := Off(s, i);
    var slice := Code(s)[start..start + 4];
    forall q | 0 <= q < 4
      ensures slice[q] == MovWords(rd, v)[q]
    {
      assert slice[q] == Code(s)[start + q] == ws[q];
    }
    assert slice == MovWords(rd, v);
    if rest != [] {
      assert Code(s)[start + 4] == ws[4] == rest[0];
    }
  }

  lemma AddressValue(w: bv32, pc: uint64)
    requires KindOf(w) == AddressKind
    ensures Decode(w).Adr? ==>
      RegisterField(w) == Decode(w).rd && AddressOperand(w, pc) == Low64(pc + Offset21(Decode(w).hi, Decode(w).lo))
    ensures Decode(w).Adrp? ==>
      RegisterField(w) == Decode(w).rd
      && AddressOperand(w, pc) == Low64(PageBase(pc) + 0x1000 * Offset21(Decode(w).hi, Decode(w).lo))
    ensures Decode(w).Adr? || Decode(w).Adrp?
  {
    hide Decode, KindOf, DecodeImmHiLoOffset, Offset21, Imm19Field, ImmLoField, RegisterField;
    AddressDecodes(w);
    ImmHiLoIsArchitectural(w);
  }

  lemma AddressExecutes(env: Env, text: Text, w: bv32, m: Machine)
    requires KindOf(w) == AddressKind
    ensures Execute(env, text, m, w, Decode(w))
         == Advance(m, WriteX(m.cpu, RegisterField(w) as int, AddressOperand(w, m.pc)))
  {
    hide Decode, KindOf, AddressOperand, Offset21, RegisterField, PageBase;
    AddressValue(w, m.pc);
  }

  lemma RegisterWord(w: bv32)
    ensures RegisterField(w) as bv32 == w & 0x1F
  {
  }

  lemma SimulateAddress(s: Setup, i: nat, a: Machine, b: Machine)
    requires Valid(s) && i < |s.block| && InStep(s, i, a, b) && KindOf(s.block[i]) == AddressKind
    ensures Simulated(s, i, a, b, 4)
  {
    hide Decode, KindOf, Loaded, Valid, ValidAt, Code, Off, MovWords, AddressOperand, RegisterField, Offset21, PageBase;
    hide WordItems, CalledBefore, CallsMatch, AgreeOff, Simulated, Steps, Step;
    hide WriteX, Execute;
    var w := s.block[i];
    var v := AddressOperand(w, a.pc);
    ValidFacts(s, i);
    AddressExecutes(s.env, s.original, w, a);
    RegisterWord(w);
    OriginalStep(s, i, a);
    assert MovWords(w & 0x1F, v) + [] == MovWords(w & 0x1F, v);
    MovFragment(s, i, w & 0x1F, v, []);
    MovRuns(s.env, s.relocated, s.to, Code(s), Off(s, i), RegisterField(w), v, b);
    var rd := RegisterField(w) as int;
    AgreeWrite(DirtyAt(s, i), a.cpu, b.cpu, rd, v);
    ConcludeNext(s, i, a, b, 4, Machine(PcOf(s.from, i + 1), WriteX(a.cpu, rd, v), a.calls),
                 Machine(PcOf(s.to, Off(s, i) + 4), WriteX(b.cpu, rd, v), b.calls));
  }

  lemma LiteralExecutes(env: Env, text: Text, w: bv32, m: Machine)
    requires KindOf(w) == LoadLiteralKind && LiteralOutside(text, w, m.pc) && OpcField(w) < 2
    ensures var v := Low64(DecodeImm19Offset(w) + m.pc);
      Execute(env, text, m, w, Decode(w))
        == Advance(m, if w & 0x400_0000 != 0 then env.vectorLoad(w, v, m.cpu)
                      else WriteX(m.cpu, RegisterField(w) as int,
                                  if OpcField(w) == 1 then Load64(m.cpu.mem, v) else Load32(m.cpu.mem, v)))
  {
    hide Decode, KindOf, DecodeImm19Offset, Offset19, Imm19Field, RegisterField, OpcField, WriteX, Load64, Load32;
    hide LoadLiteral32, LoadLiteral64, Advance;
    LoadLiteralDecodes(w);
    Imm19IsArchitectural(w);
    LiteralInMemory(text, m.cpu.mem, Low64(DecodeImm19Offset(w) + m.pc));
    OpcBelow2(OpcField(w));
  }

  lemma OpcBelow2(opc: bv2)
    ensures opc < 2 <==> opc == 0 || opc == 1
  {
  }

  lemma LiteralValue(text: Text, w: bv32, m: Machine)
    requires KindOf(w) == LoadLiteralKind && Faithful(w) && LiteralOutside(text, w, m.pc)
    ensures var v := Low64(DecodeImm19Offset(w) + m.pc);
      forall env :: Execute(env, text, m, w, Decode(w))
        == Advance(m, WriteX(m.cpu, RegisterField(w) as int, Load64(m.cpu.mem, v)))
  {
    hide Decode, KindOf, DecodeImm19Offset, Imm19Field, RegisterField, OpcField, WriteX, Load64, Execute;
    hide LiteralOutside;
    forall env: Env
      ensures Execute(env, text, m, w, Decode(w))
           == Advance(m, WriteX(m.cpu, RegisterField(w) as int, Load64(m.cpu.mem, Low64(DecodeImm19Offset(w) + m.pc))))
    {
      LiteralExecutes(env, text, w, m);
    }
  }

  lemma LoadStep(env: Env, text: Text, base: uint64, code: seq<bv32>, at: nat, w: bv32, m: Machine)
    requires Loaded(text, base, code) && at < |code| && m.pc == PcOf(base, at) && code[at] == LdrWord(w & 0x1F, 17)
    ensures Step(env, text, m)
         == Next(Machine(PcOf(base, at + 1), WriteX(m.cpu, RegisterField(w) as int,
           Load64(m.cpu.mem, ReadX(m.cpu, 17))), m.calls))
  {
    hide Decode, LdrWord, LdrForm, RegisterField, WriteX, ReadX, Load64, Loaded;
    RegisterWord(w);
    Fetch(env, text, base, code, at, m);
    LdrIsLdr(code[at], RegisterField(w), 17);
    DecodeLdr(code[at], RegisterField(w), 17);
    assert (17 as bv5) as int == 17;
    assert (0 as bv12) as int == 0;
  }

  /** The translation of any literal load, run: eight bytes from the literal, whatever
      was asked for. */
  lemma LiteralRuns(env: Env, text: Text, base: uint64, code: seq<bv32>, at: nat, w: bv32, pc: uint64, m: Machine)
    requires Loaded(text, base, code) && at + 5 <= |code| && m.pc == PcOf(base, at)
    requires code[at..at + 4] + [code[at + 4]] == LiteralWords(w, pc)
    ensures var v := Low64(DecodeImm19Offset(w) + pc);
      Steps(env, text, m, 5) == At(Machine(PcOf(base, at + 5),
        WriteX(WriteX(m.cpu, 17, v), RegisterField(w) as int, Load64(m.cpu.mem, v)), m.calls))
  {
    hide Loaded, MovWords, LdrWord, RegisterField, Step, WriteX, Load64, DecodeImm19Offset;
    var v := Low64(DecodeImm19Offset(w) + pc);
    assert code[at..at + 4] == LiteralWords(w, pc)[..4] == MovWords(17, v);
    assert code[at + 4] == LiteralWords(w, pc)[4] == LdrWord(w & 0x1F, 17);
    assert (17 as bv5) as int == 17 && (17 as bv5) as bv32 == 17;
    MovRuns(env, text, base, code, at, 17, v, m);
    var m4 := Machine(PcOf(base, at + 4), WriteX(m.cpu, 17, v), m.calls);
    LoadStep(env, text, base, code, at + 4, w, m4);
    StepsCompose(env, text, m, 4, 1);
  }

  lemma LiteralFragmentIs(w: bv32, pc: uint64, slot: nat)
    requires KindOf(w) == LoadLiteralKind
    ensures Fragment(w, pc, slot)
         == WordItems(MovWords(17, Low64(DecodeImm19Offset(w) + pc)) + [LdrWord(w & 0x1F, 17)])
  {
    hide KindOf, MovWords, LdrWord, DecodeImm19Offset, WordItems;
  }

  lemma LiteralFragment(s: Setup, i: nat)
    requires i < |s.block| && KindOf(s.block[i]) == LoadLiteralKind
    ensures Off(s, i + 1) == Off(s, i) + 5 < |Code(s)|
    ensures Code(s)[Off(s, i)..Off(s, i) + 4] + [Code(s)[Off(s, i) + 4]] == LiteralWords(s.block[i], PcOf(s.from, i))
  {
    hide KindOf, Code, Off, MovWords, LdrWord, DecodeImm19Offset, Fragment, WordItems, Labels, PcOf;
    var w, pc := s.block[i], PcOf(s.from, i);
    LiteralFragmentIs(w, pc, |Labels(s.block, s.from, i)|);
    MovFragment(s, i, 17, Low64(DecodeImm19Offset(w) + pc), [LdrWord(w & 0x1F, 17)]);
  }

  lemma LiteralAlive(env: Env, w: bv32, dirty: Hidden, m: Machine)
    requires KindOf(w) == LoadLiteralKind && ReadsNoDirty(env, w, dirty, m)
    ensures Alive(dirty, Low64(DecodeImm19Offset(w) + m.pc))
  {
    hide Decode, KindOf, DecodeImm19Offset, Offset19, Imm19Field, RegisterField, OpcField, Alive;
    LoadLiteralDecodes(w);
    Imm19IsArchitectural(w);
  }

  lemma SimulateLiteral(s: Setup, i: nat, a: Machine, b: Machine)
    requires Valid(s) && i < |s.block| && InStep(s, i, a, b) && KindOf(s.block[i]) == LoadLiteralKind
    requires Blind(s, i, a)
    ensures Simulated(s, i, a, b, 5)
  {
    hide Decode, KindOf, Loaded, Valid, Faithful, LiteralOutside, Code, Off, LiteralWords, RegisterField, Fragment;
    hide CallsMatch, Simulated, Step, Steps, Execute, WriteX, Load64, ReadsNoDirty, DecodeImm19Offset, AgreeOff;
    var w := s.block[i];
    var v := Low64(DecodeImm19Offset(w) + a.pc);
    ValidFacts(s, i);
    OriginalStep(s, i, a);
    LiteralValue(s.original, w, a);
    LiteralFragment(s, i);
    LiteralRuns(s.env, s.relocated, s.to, Code(s), Off(s, i), w, a.pc, b);
    var dirty := DirtyAt(s, i);
    var rt, value := RegisterField(w) as int, Load64(a.cpu.mem, v);
    LiteralAlive(s.env, w, dirty, a);
    AgreeMemory(dirty, a.cpu, b.cpu, v);
    AgreeScratch(dirty, a.cpu, b.cpu, v);
    AgreeWrite(dirty, a.cpu, WriteX(b.cpu, 17, v), rt, value);
    ConcludeNext(s, i, a, b, 5, Machine(PcOf(s.from, i + 1), WriteX(a.cpu, rt, value), a.calls),
                 Machine(PcOf(s.to, Off(s, i) + 5), WriteX(WriteX(b.cpu, 17, v), rt, value), b.calls));
  }

  // Copied instructions.

  lemma CopiedFragment(s: Setup, i: nat)
    requires i < |s.block| && KindOf(s.block[i]) == CopiedKind
    ensures Off(s, i + 1) == Off(s, i) + 1 < |Code(s)|
    ensures Code(s)[Off(s, i)] == s.block[i]
  {
    hide KindOf, Code;
    CodeAt(s, i);
    var fragment := Fragment(s.block[i], PcOf(s.from, i), |Labels(s.block, s.from, i)|);
    assert Code(s)[Off(s, i) + 0] == ResolveItem(fragment[0], Off(s, i) + 0, Off(s, |s.block|) + 4);
  }

  /** Two outcomes that fall through together or jump to the same place. */
  ghost predicate SameOutcome(dirty: Hidden, a: Machine, b: Machine, o: Outcome, o': Outcome)
  {
    && !o.Stuck? && !o'.Stuck? && (o.Next? <==> o'.Next?)
    && AgreeOff(dirty, o.m.cpu, o'.m.cpu) && o.m.calls == a.calls && o'.m.calls == b.calls
    && (o.Next? ==> o.m.pc == Low64(a.pc + 4) && o'.m.pc == Low64(b.pc + 4))
    && (o.Jump? ==> o.m.pc == o'.m.pc)
  }

  lemma SamePlain(env: Env, w: bv32, dirty: Hidden, text: Text, text': Text, a: Machine, b: Machine)
    requires PlainIgnores(env, w, dirty, a.cpu) && AgreeOff(dirty, a.cpu, b.cpu)
    ensures SameOutcome(dirty, a, b, Execute(env, text, a, w, Plain), Execute(env, text', b, w, Plain))
  {
    hide AgreeOff;
    assert OutcomesAgree(dirty, env.plain(w, a.cpu), env.plain(w, b.cpu));
  }

  lemma SameAdvance(dirty: Hidden, a: Machine, b: Machine, c: Cpu, c': Cpu)
    requires AgreeOff(dirty, c, c')
    ensures SameOutcome(dirty, a, b, Advance(a, c), Advance(b, c'))
  {
    hide AgreeOff;
  }

  lemma SameMovz(env: Env, w: bv32, dirty: Hidden, text: Text, text': Text, a: Machine, b: Machine, rd: bv5,
                 imm: bv16, hw: bv2)
    requires AgreeOff(dirty, a.cpu, b.cpu)
    ensures SameOutcome(dirty, a, b, Execute(env, text, a, w, Movz(rd, imm, hw)),
      Execute(env, text', b, w, Movz(rd, imm, hw)))
  {
    hide AgreeOff, ReplaceChunk, WriteX, ReadX, SameOutcome, Advance;
    var v := ReplaceChunk(0, imm as int, hw as int);
    AgreeWrite(dirty, a.cpu, b.cpu, rd as int, v);
    SameAdvance(dirty, a, b, WriteX(a.cpu, rd as int, v), WriteX(b.cpu, rd as int, v));
  }

  lemma SameMovk(env: Env, w: bv32, dirty: Hidden, text: Text, text': Text, a: Machine, b: Machine, rd: bv5,
                 imm: bv16, hw: bv2)
    requires AgreeOff(dirty, a.cpu, b.cpu)
    ensures SameOutcome(dirty, a, b, Execute(env, text, a, w, Movk(rd, imm, hw)),
      Execute(env, text', b, w, Movk(rd, imm, hw)))
  {
    hide AgreeOff, ReplaceChunk, WriteX, ReadX, SameOutcome, Advance;
    AgreeMovk(dirty, a.cpu, b.cpu, rd as int, imm as int, hw as int);
    SameAdvance(dirty, a, b, WriteX(a.cpu, rd as int, ReplaceChunk(ReadX(a.cpu, rd as int), imm as int, hw as int)),
                WriteX(b.cpu, rd as int, ReplaceChunk(ReadX(b.cpu, rd as int), imm as int, hw as int)));
  }

  lemma LdrXExecutes(env: Env, text: Text, m: Machine, w: bv32, rt: bv5, rn: bv5, imm: bv12)
    ensures Execute(env, text, m, w, LdrX(rt, rn, imm))
         == Advance(m, WriteX(m.cpu, rt as int, Load64(m.cpu.mem, ReadX(m.cpu, rn as int) + 8 * imm as int)))
  {
    hide Load64, WriteX, ReadX, Advance;
  }

  lemma SameLdrX(env: Env, w: bv32, dirty: Hidden, text: Text, text': Text, a: Machine, b: Machine, rt: bv5,
                 rn: bv5, imm: bv12)
    requires AgreeOff(dirty, a.cpu, b.cpu) && rn as int !in dirty.regs
    requires Alive(dirty, ReadX(a.cpu, rn as int) + 8 * imm as int)
    ensures SameOutcome(dirty, a, b, Execute(env, text, a, w, LdrX(rt, rn, imm)),
      Execute(env, text', b, w, LdrX(rt, rn, imm)))
  {
    hide AgreeOff, Load64, WriteX, ReadX, SameOutcome, Advance, Alive, Execute;
    LdrXExecutes(env, text, a, w, rt, rn, imm);
    LdrXExecutes(env, text', b, w, rt, rn, imm);
    AgreeLoad(dirty, a.cpu, b.cpu, rt as int, rn as int, 8 * imm as int);
    SameAdvance(dirty, a, b, WriteX(a.cpu, rt as int, Load64(a.cpu.mem, ReadX(a.cpu, rn as int) + 8 * imm as int)),
                WriteX(b.cpu, rt as int, Load64(b.cpu.mem, ReadX(b.cpu, rn as int) + 8 * imm as int)));
  }

  lemma SameWrite(env: Env, w: bv32, dirty: Hidden, text: Text, text': Text, a: Machine, b: Machine, i: Insn)
    requires AgreeOff(dirty, a.cpu, b.cpu) && (i.Movz? || i.Movk? || i.LdrX?)
    requires i.LdrX? ==>
      i.rn as int !in dirty.regs && Alive(dirty, ReadX(a.cpu, i.rn as int) + 8 * i.imm12 as int)
    ensures SameOutcome(dirty, a, b, Execute(env, text, a, w, i), Execute(env, text', b, w, i))
  {
    hide AgreeOff, SameOutcome, Execute;
    match i
    case Movz(rd, imm, hw) => SameMovz(env, w, dirty, text, text', a, b, rd, imm, hw);
    case Movk(rd, imm, hw) => SameMovk(env, w, dirty, text, text', a, b, rd, imm, hw);
    case LdrX(rt, rn, imm) => SameLdrX(env, w, dirty, text, text', a, b, rt, rn, imm);
  }

  /** A copied instruction other than a call does the same on both sides. */
  lemma CopiedOutcomes(env: Env, w: bv32, dirty: Hidden, text: Text, text': Text, a: Machine, b: Machine)
    requires KindOf(w) == CopiedKind && !Decode(w).Blr? && ReadsNoDirty(env, w, dirty, a)
    requires AgreeOff(dirty, a.cpu, b.cpu)
    ensures SameOutcome(dirty, a, b, Execute(env, text, a, w, Decode(w)), Execute(env, text', b, w, Decode(w)))
  {
    hide Decode, KindOf, AgreeOff, PlainIgnores;
    CopiedDecodes(w);
    if Decode(w).Plain? {
      SamePlain(env, w, dirty, text, text', a, b);
    } else if Decode(w).Br? {
      AgreeRead(dirty, a.cpu, b.cpu, Decode(w).rn as int);
    } else {
      SameWrite(env, w, dirty, text, text', a, b, Decode(w));
    }
  }

  lemma AgreeRead(dirty: Hidden, a: Cpu, b: Cpu, r: nat)
    requires AgreeOff(dirty, a, b) && r !in dirty.regs
    ensures ReadX(a, r) == ReadX(b, r)
  {
  }

  lemma AgreeMovk(dirty: Hidden, a: Cpu, b: Cpu, r: nat, imm: nat, hw: nat)
    requires AgreeOff(dirty, a, b) && imm < TWO_TO_THE_16 && hw < 4
    ensures AgreeOff(dirty, WriteX(a, r, ReplaceChunk(ReadX(a, r), imm, hw)),
      WriteX(b, r, ReplaceChunk(ReadX(b, r), imm, hw)))
  {
    hide ReplaceChunk;
    var a', b' := WriteX(a, r, ReplaceChunk(ReadX(a, r), imm, hw)), WriteX(b, r, ReplaceChunk(ReadX(b, r), imm, hw));
    forall q: nat | q !in dirty.regs
      ensures ReadX(a', q) == ReadX(b', q)
    {
      assert ReadX(a, q) == ReadX(b, q);
    }
  }

  /** What is alive is the same on both sides. */
  lemma AgreeMemory(dirty: Hidden, a: Cpu, b: Cpu, at: int)
    requires AgreeOff(dirty, a, b) && Alive(dirty, at)
    ensures Load64(a.mem, at) == Load64(b.mem, at)
  {
    hide AgreeOff, WordAlive, Load32;
    AgreeWord(dirty, a, b, at);
    AgreeWord(dirty, a, b, at + 4);
  }

  lemma AgreeWord(dirty: Hidden, a: Cpu, b: Cpu, at: int)
    requires AgreeOff(dirty, a, b) && WordAlive(dirty, at)
    ensures Load32(a.mem, at) == Load32(b.mem, at)
  {
    hide AgreeOff, LoadByte;
    AgreeByte(dirty, a, b, at);
    AgreeByte(dirty, a, b, at + 1);
    AgreeByte(dirty, a, b, at + 2);
    AgreeByte(dirty, a, b, at + 3);
  }

  lemma AgreeByte(dirty: Hidden, a: Cpu, b: Cpu, at: int)
    requires AgreeOff(dirty, a, b) && Low64(at) !in dirty.dead
    ensures LoadByte(a.mem, at) == LoadByte(b.mem, at)
  {
  }

  lemma AgreeLoad(dirty: Hidden, a: Cpu, b: Cpu, r: nat, rn: nat, offset: int)
    requires AgreeOff(dirty, a, b) && rn !in dirty.regs && Alive(dirty, ReadX(a, rn) + offset)
    ensures AgreeOff(dirty, WriteX(a, r, Load64(a.mem, ReadX(a, rn) + offset)),
                     WriteX(b, r, Load64(b.mem, ReadX(b, rn) + offset)))
  {
    hide Load64, Alive, MemoryAgrees;
    AgreeMemory(dirty, a, b, ReadX(a, rn) + offset);
    AgreeWrite(dirty, a, b, r, Load64(a.mem, ReadX(a, rn) + offset));
  }

  lemma SimulateCopied(s: Setup, i: nat, a: Machine, b: Machine)
    requires Valid(s) && i < |s.block| && InStep(s, i, a, b) && KindOf(s.block[i]) == CopiedKind
    requires Blind(s, i, a)
    ensures Simulated(s, i, a, b, 1)
  {
    hide Decode, KindOf, Loaded, Valid, Faithful, LiteralOutside, Code, Off;
    hide CallsMatch, AgreeOff, Simulated, Step, Execute, CallAndReturn, ReadsNoDirty;
    var w := s.block[i];
    var dirty := DirtyAt(s, i);
    ValidFacts(s, i);
    CopiedFragment(s, i);
    OriginalStep(s, i, a);
    Fetch(s.env, s.relocated, s.to, Code(s), Off(s, i), b);
    assert Steps(s.env, s.relocated, b, 1) == At(Step(s.env, s.relocated, b).m) by {
      CopiedNotStuck(s.env, s.relocated, w, b);
    }
    if Decode(w).Blr? {
      SameBlr(s.env, w, dirty, a, b, s.original, s.relocated);
      ConcludeCall(s, i, a, b, 1, b, ReadX(a.cpu, Decode(w).rn as int));
    } else {
      CopiedOutcomes(s.env, w, dirty, s.original, s.relocated, a, b);
      var a', b' := Step(s.env, s.original, a), Step(s.env, s.relocated, b);
      if a'.Next? {
        ConcludeNext(s, i, a, b, 1, a'.m, b'.m);
      } else {
        ConcludeJump(s, i, a, b, 1, a'.m, b'.m);
      }
    }
  }

  lemma CopiedNotStuck(env: Env, text: Text, w: bv32, m: Machine)
    ensures !Execute(env, text, m, w, Decode(w)).Stuck?
  {
    hide Decode;
  }

  lemma SameBlr(env: Env, w: bv32, dirty: Hidden, a: Machine, b: Machine, text: Text, text': Text)
    requires AgreeOff(dirty, a.cpu, b.cpu) && ReadsNoDirty(env, w, dirty, a) && Decode(w).Blr?
    ensures IsCall(w)
    ensures Execute(env, text, a, w, Decode(w)) == CallAndReturn(env, a, ReadX(a.cpu, Decode(w).rn as int))
    ensures Execute(env, text', b, w, Decode(w)) == CallAndReturn(env, b, ReadX(a.cpu, Decode(w).rn as int))
  {
    hide Decode, CallAndReturn;
    AgreeRead(dirty, a.cpu, b.cpu, Decode(w).rn as int);
  }

  // ----- The theorem -----

  /** Every original instruction is simulated by its translation. */
  lemma SimulateOne(s: Setup, i: nat, a: Machine, b: Machine) returns (k: nat)
    requires Valid(s) && i < |s.block| && InStep(s, i, a, b)
    requires Blind(s, i, a)
    ensures Simulated(s, i, a, b, k)
  {
    hide Decode, Valid, InStep, Simulated, IsLoadLiteral, IsPcRelAddressing, IsImmediateBranch, IsTestBranch;
    hide IsCompareBranch;
    hide IsConditionalBranch;
    var w := s.block[i];
    match KindOf(w)
    case LoadLiteralKind =>
      SimulateLiteral(s, i, a, b);
      k := 5;
    case AddressKind =>
      SimulateAddress(s, i, a, b);
      k := 4;
    case BranchKind =>
      BranchTarget(w, a.pc);
      if Decode(w).B? {
        SimulateBranch(s, i, a, b);
      } else {
        SimulateCall(s, i, a, b);
      }
      k := 2;
    case CopiedKind =>
      SimulateCopied(s, i, a, b);
      k := 1;
    case _ =>
      k := SimulateGuarded(s, i, a, b);
  }

  lemma StartInStep(s: Setup, c: Cpu)
    ensures InStep(s, 0, Machine(s.from, c, []), Machine(s.to, c, []))
  {
  }

  /** The end of the block: the relocated stream jumps to the first instruction that
      was not displaced. */
  lemma FinalJumpRuns(s: Setup, a: Machine, b: Machine)
    requires Valid(s) && InStep(s, |s.block|, a, b)
    ensures Steps(s.env, s.relocated, b, 2) == At(Machine(a.pc, WriteX(b.cpu, 17, a.pc), b.calls))
    ensures LeftTogether(s, a, Machine(a.pc, WriteX(b.cpu, 17, a.pc), b.calls))
  {
    hide Loaded, Code, LinkedLoad, DataWords, Steps, WriteX, LeftTogether, Off, Valid, InStep;
    FinalJumpWords(s);
    FinalJumpReached(s, a, b);
    JumpRuns(s.env, s.relocated, s.to, Code(s), Off(s, |s.block|), 2, a.pc, b);
    FinalJumpTogether(s, a, b);
  }

  lemma FinalJumpWords(s: Setup)
    ensures var at := Off(s, |s.block|);
      && at + 4 <= |Code(s)| && Code(s)[at] == LinkedLoad(2) && Code(s)[at + 1] == BR_X17
      && [Code(s)[at + 2], Code(s)[at + 3]] == DataWords(PcOf(s.from, |s.block|))
  {
    hide Code, LinkedLoad, DataWords, Off;
    FinalJumpAt(s);
    var at := Off(s, |s.block|);
    var tail := Code(s)[at..at + 4];
    assert tail[0] == Code(s)[at] && tail[1] == Code(s)[at + 1];
    assert tail[2] == Code(s)[at + 2] && tail[3] == Code(s)[at + 3];
  }

  lemma FinalJumpReached(s: Setup, a: Machine, b: Machine)
    requires Valid(s) && InStep(s, |s.block|, a, b)
    ensures Loaded(s.relocated, s.to, Code(s)) && a.pc == PcOf(s.from, |s.block|) && b.pc == PcOf(s.to, Off(s, |s.block|))
  {
    hide Loaded, Code, CallsMatch, ValidAt, AgreeOff, CalledBefore, Off;
  }

  lemma FinalJumpTogether(s: Setup, a: Machine, b: Machine)
    requires Valid(s) && InStep(s, |s.block|, a, b)
    ensures LeftTogether(s, a, Machine(a.pc, WriteX(b.cpu, 17, a.pc), b.calls))
  {
    hide Loaded, Code, LinkedLoad, DataWords, CallsMatch, Steps, WriteX, ValidAt, AgreeOff;
    hide CalledBefore, ToWord, LinkLiteral;
    var called := CalledBefore(s.block, |s.block|);
    AgreeScratch(Dirty(s.dead, called), a.cpu, b.cpu, a.pc);
    AgreeMore(s.dead, called, true, a.cpu, WriteX(b.cpu, 17, a.pc));
  }

  /** The original leaves its `todo` remaining instructions, and n relocated steps
      bring the relocated machine to the same place. */
  ghost predicate LeaveAfter(s: Setup, todo: nat, a: Machine, b: Machine, n: nat)
  {
    var original, relocated := RunBlock(s.env, s.original, a, todo), Steps(s.env, s.relocated, b, n);
    original.At? && relocated.At? && LeftTogether(s, original.m, relocated.m)
  }

  lemma {:induction false} SimulateFrom(s: Setup, i: nat, a: Machine, b: Machine) returns (n: nat)
    requires Valid(s) && i <= |s.block| && InStep(s, i, a, b) && BlindRun(s, i, a)
    ensures LeaveAfter(s, |s.block| - i, a, b, n)
    decreases |s.block| - i
  {
    hide Valid, InStep, Step, LeftTogether, Blind;
    if i == |s.block| {
      FinalJumpRuns(s, a, b);
      n := 2;
    } else {
      var k := SimulateOne(s, i, a, b);
      var o := Step(s.env, s.original, a);
      var b' := Steps(s.env, s.relocated, b, k).m;
      if o.Next? {
        var rest := SimulateFrom(s, i + 1, o.m, b');
        StepsCompose(s.env, s.relocated, b, k, rest);
        n := k + rest;
      } else {
        LeaveTogether(s, i, o.m, b');
        n := k;
      }
    }
  }

  lemma {:induction false} CalledMonotone(block: seq<bv32>, i: nat, n: nat)
    requires i <= n <= |block|
    ensures CalledBefore(block, i) ==> CalledBefore(block, n)
    decreases n - i
  {
    hide IsCall;
    if i < n {
      CalledMonotone(block, i + 1, n);
    }
  }

  lemma LeaveTogether(s: Setup, i: nat, a: Machine, b: Machine)
    requires i < |s.block| && a.pc == b.pc && AgreeOff(DirtyAt(s, i + 1), a.cpu, b.cpu)
    requires CallsMatch(s, a.calls, b.calls)
    ensures LeftTogether(s, a, b)
  {
    hide AgreeOff, CallsMatch, CalledBefore;
    CalledMonotone(s.block, i + 1, |s.block|);
    AgreeMore(s.dead, CalledBefore(s.block, i + 1), true, a.cpu, b.cpu);
  }

  /** Relocation preserves meaning. For every block the relocator translates
      faithfully, every environment and every processor state, the relocated stream,
      entered at its start, reaches the address at which the original block leaves
      (a taken branch or the first instruction after it), having made the same calls
      and with the same memory, flags and registers, X17 and, after a call, X30
      excepted. */
  lemma RelocationPreservesMeaning(s: Setup, c: Cpu) returns (n: nat)
    requires Valid(s) && BlindRun(s, 0, Machine(s.from, c, []))
    ensures LeaveAfter(s, |s.block|, Machine(s.from, c, []), Machine(s.to, c, []), n)
  {
    hide Valid, InStep, LeaveAfter, BlindRun;
    StartInStep(s, c);
    n := SimulateFrom(s, 0, Machine(s.from, c, []), Machine(s.to, c, []));
  }

  // ----- When a run is blind -----

  /** A condition on the block alone: no instruction reads anything dirty, in any state. */
  ghost predicate NeverReadsDirty(s: Setup)
  {
    forall i: nat, m: Machine :: i < |s.block| ==> Blind(s, i, m)
  }

  lemma {:induction false} BlindEverywhere(s: Setup, i: nat, a: Machine)
    requires NeverReadsDirty(s) && i <= |s.block|
    ensures BlindRun(s, i, a)
    decreases |s.block| - i
  {
    hide Blind, Step;
    if i < |s.block| && Step(s.env, s.original, a).Next? {
      BlindEverywhere(s, i + 1, Step(s.env, s.original, a).m);
    }
  }

  /** A function that keeps its return address in memory, as one that calls others does,
      is admitted when it keeps it at a dead address. */
  lemma SavedLinkAllowed(env: Env, target: uint64, dead: iset<uint64>, at: uint64, c: Cpu)
    requires at in dead && forall d: Cpu :: env.callee(target, d) == d.(mem := d.mem[at := ReadX(d, 30)])
    ensures CalleeIgnores(env, target, dead, c)
  {
    forall c' | AgreeOff(Hidden({17, 30}, dead), c, c')
      ensures AgreeOff(Hidden({17, 30}, dead), env.callee(target, c), env.callee(target, c'))
    {
      var e, e' := env.callee(target, c), env.callee(target, c');
      assert forall r: nat :: ReadX(e, r) == ReadX(c, r) && ReadX(e', r) == ReadX(c', r);
    }
  }

  // ----- There are such machines -----

  /** Code stored from `base` on. */
  function StoredAt(base: uint64, code: seq<bv32>): (text: Text)
  {
    if code == [] then map[]
    else StoredAt(base, code[..|code| - 1])[PcOf(base, |code| - 1) := code[|code| - 1]]
  }

  lemma {:induction false} PcOfIs(base: uint64, i: nat)
    ensures PcOf(base, i) == Low64(base + 4 * i)
  {
    if i > 0 {
      PcOfIs(base, i - 1);
      Low64Add(base + 4 * (i - 1), 4);
    }
  }

  lemma PcOfDistinct(base: uint64, i: nat, j: nat)
    requires i < j < 0x4_0000
    ensures PcOf(base, i) != PcOf(base, j)
  {
    hide PcOf;
    PcOfIs(base, i);
    PcOfIs(base, j);
  }

  /** Any block, and the stream that replaces it, can be in memory at any addresses: what
      the simulation asks for is only the block's own properties. */
  lemma {:induction false} StoredIsLoaded(base: uint64, code: seq<bv32>)
    requires |code| < 0x4_0000
    ensures Loaded(StoredAt(base, code), base, code)
  {
    hide PcOf;
    if code != [] {
      StoredIsLoaded(base, code[..|code| - 1]);
      forall i | 0 <= i < |code| - 1 ensures PcOf(base, i) != PcOf(base, |code| - 1)
      {
        PcOfDistinct(base, i, |code| - 1);
      }
    }
  }
}

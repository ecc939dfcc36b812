/** An A64 machine, as far as the relocator needs one: instructions are fetched from
    `text`, data lives in `mem`, and everything the relocator copies without looking
    at it is a parameter (`Env`). Section C6.2 of the Arm Architecture Reference
    Manual, DDI 0487, gives the semantics of each modelled instruction. */
module Arm64Machine {
  import opened Arithmetic
  import opened Bytes
  import opened MachineWords
  import opened Arm64Encoding

  datatype Flags = Flags(n: bool, z: bool, c: bool, v: bool)

  type Memory = map<uint64, nat>

  datatype Cpu = Cpu(x: map<nat, uint64>, flags: Flags, mem: Memory)

  /** A call event: where control went, and the return address left in X30. */
  datatype Call = Call(target: uint64, returnTo: uint64)

  datatype Machine = Machine(pc: uint64, cpu: Cpu, calls: seq<Call>)

  /** What one instruction does: fall through to the next one (a completed call does
      too), transfer control, or nothing, when no instruction is there. */
  datatype Outcome = Stuck | Next(m: Machine) | Jump(m: Machine)

  datatype PlainOutcome = Continue(cpu: Cpu) | Leave(target: uint64, cpu: Cpu)

  /** The parts of the world outside the relocated block: instructions that do not
      depend on where they are, whole called functions, and vector literal loads. */
  datatype Env = Env(
    plain: (bv32, Cpu) -> PlainOutcome,
    callee: (uint64, Cpu) -> Cpu,
    vectorLoad: (bv32, uint64, Cpu) -> Cpu)

  type Text = map<uint64, bv32>

  function ReadX(c: Cpu, r: nat): (v: uint64)
  {
    if r == 31 || r !in c.x then 0 else c.x[r]
  }

  function WriteX(c: Cpu, r: nat, v: uint64): (c': Cpu)
    ensures c'.flags == c.flags && c'.mem == c.mem
    ensures forall q: nat :: q != r ==> ReadX(c', q) == ReadX(c, q)
    ensures r != 31 ==> ReadX(c', r) == v
  {
    if r == 31 then c else c.(x := c.x[r := v])
  }

  function LoadByte(mem: Memory, a: int): (v: nat)
    ensures v < 256
  {
    if Low64(a) in mem then mem[Low64(a)] % 256 else 0
  }

  function Load32(mem: Memory, a: int): (v: nat)
    ensures v < TWO_TO_THE_32
  {
    LoadByte(mem, a) + 0x100 * LoadByte(mem, a + 1) + 0x1_0000 * LoadByte(mem, a + 2)
      + 0x100_0000 * LoadByte(mem, a + 3)
  }

  function Load64(mem: Memory, a: int): (v: uint64)
  {
    Load32(mem, a) + TWO_TO_THE_32 * Load32(mem, a + 4)
  }

  /** A PC-relative load sees the instruction stream where there is one. */
  function LoadLiteral32(text: Text, mem: Memory, a: uint64): (v: uint64)
    ensures v < TWO_TO_THE_32
  {
    if a in text then text[a] as int else Load32(mem, a)
  }

  /** Each half where it is. */
  function LoadLiteral64(text: Text, mem: Memory, a: uint64): (v: uint64)
  {
    LoadLiteral32(text, mem, a) + TWO_TO_THE_32 * LoadLiteral32(text, mem, Low64(a + 4))
  }

  lemma Load32Around(mem: Memory, a: int)
    ensures Load32(mem, Low64(a)) == Load32(mem, a)
  {
    Low64Add(a, 1);
    Low64Add(a, 2);
    Low64Add(a, 3);
    Low64Add(a, 0);
  }

  /** Away from the instructions it is an ordinary load. */
  lemma LiteralInMemory(text: Text, mem: Memory, a: uint64)
    requires a !in text && Low64(a + 4) !in text
    ensures LoadLiteral32(text, mem, a) == Load32(mem, a) && LoadLiteral64(text, mem, a) == Load64(mem, a)
  {
    hide Load32;
    Load32Around(mem, a + 4);
  }

  /** ConditionHolds of the manual. */
  predicate ConditionHolds(cond: bv4, f: Flags)
  {
    var base := match cond >> 1
      case 0 => f.z
      case 1 => f.c
      case 2 => f.n
      case 3 => f.v
      case 4 => f.c && !f.z
      case 5 => f.n == f.v
      case 6 => f.n == f.v && !f.z
      case _ => true;
    if cond & 1 == 1 && cond != 15 then !base else base
  }

  predicate BitIsSet(v: uint64, bit: bv6)
  {
    (v / Pow2(bit as int)) % 2 == 1
  }

  predicate IsZero(v: uint64, wide: bool)
  {
    if wide then v == 0 else v % TWO_TO_THE_32 == 0
  }

  /** v with the 16 bits from `scale` up replaced by imm; scale is a power of 2^16. */
  function ReplaceAt(v: nat, imm: nat, scale: nat): (r: int)
    requires scale > 0
  {
    v - ((v / scale) % TWO_TO_THE_16) * scale + imm * scale
  }

  lemma ReplaceAt0(v: uint64, imm: nat)
    requires imm < TWO_TO_THE_16
    ensures 0 <= ReplaceAt(v, imm, 1) < TWO64
  {
  }

  lemma ReplaceAt1(v: uint64, imm: nat)
    requires imm < TWO_TO_THE_16
    ensures 0 <= ReplaceAt(v, imm, 0x1_0000) < TWO64
  {
  }

  lemma ReplaceAt2(v: uint64, imm: nat)
    requires imm < TWO_TO_THE_16
    ensures 0 <= ReplaceAt(v, imm, 0x1_0000_0000) < TWO64
  {
  }

  lemma ReplaceAt3(v: uint64, imm: nat)
    requires imm < TWO_TO_THE_16
    ensures 0 <= ReplaceAt(v, imm, 0x1_0000_0000_0000) < TWO64
  {
  }

  /** movz/movk: replace the 16-bit chunk number hw. */
  function ReplaceChunk(v: uint64, imm: nat, hw: nat): (r: uint64)
    requires imm < TWO_TO_THE_16 && hw < 4
  {
    ReplaceAt0(v, imm);
    ReplaceAt1(v, imm);
    ReplaceAt2(v, imm);
    ReplaceAt3(v, imm);
    if hw == 0 then ReplaceAt(v, imm, 1)
    else if hw == 1 then ReplaceAt(v, imm, 0x1_0000)
    else if hw == 2 then ReplaceAt(v, imm, 0x1_0000_0000)
    else ReplaceAt(v, imm, 0x1_0000_0000_0000)
  }

  function Advance(m: Machine, c: Cpu): (o: Outcome) { Next(Machine(Low64(m.pc + 4), c, m.calls)) }

  function Transfer(m: Machine, target: uint64): (o: Outcome) { Jump(m.(pc := target)) }

  function BranchIf(m: Machine, taken: bool, offset: int): (o: Outcome)
  {
    if taken then Transfer(m, Low64(m.pc + offset)) else Advance(m, m.cpu)
  }

  /** A call runs the callee to its return and then falls through. */
  function CallAndReturn(env: Env, m: Machine, target: uint64): (o: Outcome)
    ensures o.Next?
  {
    var returnTo := Low64(m.pc + 4);
    Next(Machine(returnTo, env.callee(target, WriteX(m.cpu, 30, returnTo)), m.calls + [Call(target, returnTo)]))
  }

  function Execute(env: Env, text: Text, m: Machine, w: bv32, i: Insn): (o: Outcome)
  {
    match i
    case LdrLiteral(opc, vector, rt, imm) =>
      var a := Low64(m.pc + Offset19(imm));
      if vector then Advance(m, env.vectorLoad(w, a, m.cpu))
      else if opc == 0 then Advance(m, WriteX(m.cpu, rt as int, LoadLiteral32(text, m.cpu.mem, a)))
      else if opc == 1 then Advance(m, WriteX(m.cpu, rt as int, LoadLiteral64(text, m.cpu.mem, a)))
      else if opc == 2 then
        var v := LoadLiteral32(text, m.cpu.mem, a);
        Advance(m, WriteX(m.cpu, rt as int, Low64(if v % TWO_TO_THE_32 < 0x8000_0000 then v else v - TWO_TO_THE_32)))
      else Advance(m, m.cpu)
    case Adr(rd, hi, lo) => Advance(m, WriteX(m.cpu, rd as int, Low64(m.pc + Offset21(hi, lo))))
    case Adrp(rd, hi, lo) => Advance(m, WriteX(m.cpu, rd as int, Low64(PageBase(m.pc) + 0x1000 * Offset21(hi, lo))))
    case B(imm) => Transfer(m, Low64(m.pc + Offset26(imm)))
    case Bl(imm) => CallAndReturn(env, m, Low64(m.pc + Offset26(imm)))
    case Tbz(negated, rt, bit, imm) => BranchIf(m, BitIsSet(ReadX(m.cpu, rt as int), bit) == negated, Offset14(imm))
    case Cbz(negated, rt, wide, imm) => BranchIf(m, IsZero(ReadX(m.cpu, rt as int), wide) != negated, Offset19(imm))
    case BCond(cond, imm) => BranchIf(m, ConditionHolds(cond, m.cpu.flags), Offset19(imm))
    case Movz(rd, imm, hw) => Advance(m, WriteX(m.cpu, rd as int, ReplaceChunk(0, imm as int, hw as int)))
    case Movk(rd, imm, hw) => Advance(m, WriteX(m.cpu, rd as int,
      ReplaceChunk(ReadX(m.cpu, rd as int), imm as int, hw as int)))
    case LdrX(rt, rn, imm) => Advance(m, WriteX(m.cpu, rt as int,
      Load64(m.cpu.mem, ReadX(m.cpu, rn as int) + 8 * imm as int)))
    case Br(rn) => Transfer(m, ReadX(m.cpu, rn as int))
    case Blr(rn) => CallAndReturn(env, m, ReadX(m.cpu, rn as int))
    case Plain =>
      match env.plain(w, m.cpu)
      case Continue(c) => Advance(m, c)
      case Leave(target, c) => Jump(Machine(target, c, m.calls))
  }

  function Step(env: Env, text: Text, m: Machine): (o: Outcome)
  {
    if m.pc in text then Execute(env, text, m, text[m.pc], Decode(text[m.pc])) else Stuck
  }

  /** n steps; None when an instruction is missing on the way. */
  datatype Reached = Nowhere | At(m: Machine)

  function Steps(env: Env, text: Text, m: Machine, n: nat): (r: Reached)
    decreases n
  {
    if n == 0 then At(m)
    else match Step(env, text, m)
      case Stuck => Nowhere
      case Next(m') => Steps(env, text, m', n - 1)
      case Jump(m') => Steps(env, text, m', n - 1)
  }

  /** Straight-line execution of a block with `todo` instructions left: up to the
      first taken branch, or to the end. */
  function RunBlock(env: Env, text: Text, m: Machine, todo: nat): (r: Reached)
    decreases todo
  {
    if todo == 0 then At(m)
    else match Step(env, text, m)
      case Stuck => Nowhere
      case Next(m') => RunBlock(env, text, m', todo - 1)
      case Jump(m') => At(m')
  }

  lemma {:induction false} StepsCompose(env: Env, text: Text, m: Machine, n: nat, k: nat)
    requires Steps(env, text, m, n).At?
    ensures Steps(env, text, m, n + k) == Steps(env, text, Steps(env, text, m, n).m, k)
    decreases n
  {
    hide Step;
    if n > 0 {
      StepsCompose(env, text, Step(env, text, m).m, n - 1, k);
    }
  }

  /** RunBlock is the machine's own run, cut where control first leaves the line. */
  lemma {:induction false} RunBlockIsARun(env: Env, text: Text, m: Machine, todo: nat) returns (n: nat)
    requires RunBlock(env, text, m, todo).At?
    ensures n <= todo
    ensures Steps(env, text, m, n) == RunBlock(env, text, m, todo)
    ensures RunBlock(env, text, m, todo).m.pc !in text ==>
      forall k :: n < k ==> Steps(env, text, m, k) == Nowhere
    decreases todo
  {
    if todo == 0 {
      n := 0;
    } else {
      match Step(env, text, m)
      case Next(m') =>
        n := RunBlockIsARun(env, text, m', todo - 1);
        n := n + 1;
      case Jump(m') =>
        n := 1;
    }
    forall k | n < k && RunBlock(env, text, m, todo).m.pc !in text
      ensures Steps(env, text, m, k) == Nowhere
    {
      StepsCompose(env, text, m, n, k - n);
    }
  }

  /** Flipping the low bit of a condition negates it, except that both always-codes
      always hold. */
  lemma InvertedCondition(cond: bv4, f: Flags)
    ensures (ConditionHolds(cond ^ 1, f) == !ConditionHolds(cond, f)) <==> cond < 14
  {
  }
}

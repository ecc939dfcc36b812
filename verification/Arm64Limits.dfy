/** Exactly where the relocator does not keep the meaning of a rewritten word. */
module Arm64Limits {
  import opened Bytes
  import opened MachineWords
  import opened Arm64Encoding
  import opened Arm64Machine
  import opened Arm64Relocation
  import opened Arm64Simulation

  // ----- Literal loads -----

  /** Same calls, and the same registers, flags and memory but for X17, which counts only
      when it is the destination. */
  ghost predicate SameEffect(w: bv32, o: Outcome, r: Reached)
  {
    && o.Next? && r.At? && o.m.calls == r.m.calls
    && AgreeOff(Hidden(if RegisterField(w) == 17 then {} else {17}, iset{}), o.m.cpu, r.m.cpu)
  }

  /** Wherever w and its translation are, with the literal outside the displaced bytes,
      running the translation does what executing w does. */
  ghost predicate LiteralKept(w: bv32)
  {
    forall env: Env, original: Text, relocated: Text, to: uint64, m: Machine |
      LiteralOutside(original, w, m.pc) && Loaded(relocated, to, LiteralWords(w, m.pc)) ::
      SameEffect(w, Execute(env, original, m, w, Decode(w)), Steps(env, relocated, m.(pc := to), 5))
  }

  /** Both runs, spelled out. */
  lemma BothRuns(w: bv32, env: Env, original: Text, relocated: Text, to: uint64, m: Machine)
    requires KindOf(w) == LoadLiteralKind && !AbortsOn(w)
    requires LiteralOutside(original, w, m.pc) && Loaded(relocated, to, LiteralWords(w, m.pc))
    ensures var v, rt := Low64(DecodeImm19Offset(w) + m.pc), RegisterField(w) as int;
      && Execute(env, original, m, w, Decode(w))
         == Advance(m, if w & 0x400_0000 != 0 then env.vectorLoad(w, v, m.cpu)
                       else WriteX(m.cpu, rt, if OpcField(w) == 1 then Load64(m.cpu.mem, v) else Load32(m.cpu.mem, v)))
      && Steps(env, relocated, m.(pc := to), 5)
         == At(Machine(PcOf(to, 5), WriteX(WriteX(m.cpu, 17, v), rt, Load64(m.cpu.mem, v)), m.calls))
  {
    hide Decode, KindOf, DecodeImm19Offset, RegisterField, OpcField, Load64, Load32, Execute, Steps, WriteX;
    hide LiteralOutside, Loaded, Advance;
    OpcBelow2(OpcField(w));
    LiteralExecutes(env, original, w, m);
    var code := LiteralWords(w, m.pc);
    assert code[0..4] + [code[4]] == code;
    LiteralRuns(env, relocated, to, code, 0, w, m.pc, m.(pc := to));
  }

  lemma RegisterNumber(r: bv5)
    ensures r as int == 31 <==> r == 31
    ensures r as int == 17 <==> r == 17
  {
  }

  lemma FirstByteCounts(mem: Memory, a: int)
    requires LoadByte(mem, a) > 0
    ensures Load32(mem, a) > 0
  {
    hide LoadByte;
  }

  lemma HighHalfCounts(mem: Memory, a: int)
    requires Load32(mem, a + 4) > 0
    ensures Load64(mem, a) > Load32(mem, a)
  {
    assert Load32(mem, a) < TWO_TO_THE_32 && Load32(mem, a + 4) < TWO_TO_THE_32;
  }

  /** A machine on which a 32-bit and a 64-bit load at w's literal differ. */
  lemma WidthsDiffer(w: bv32) returns (m: Machine)
    ensures var a := Low64(DecodeImm19Offset(w) + m.pc);
      Load32(m.cpu.mem, a) != Load64(m.cpu.mem, a)
  {
    hide Load32, Load64, DecodeImm19Offset;
    var a: int := Low64(DecodeImm19Offset(w));
    var high := Low64(a + 4);
    m := Machine(0, Cpu(map[], Flags(false, false, false, false), map[high := 1]), []);
    assert LoadByte(m.cpu.mem, a + 4) == 1;
    FirstByteCounts(m.cpu.mem, a + 4);
    HighHalfCounts(m.cpu.mem, a);
  }

  /** Two results that must be told apart. */
  lemma Unlike(w: bv32, c: Cpu, wide: uint64, narrow: uint64, v: uint64, m: Machine, r: Machine)
    requires RegisterField(w) as int != 31 && wide != narrow
    requires m.cpu == WriteX(c, RegisterField(w) as int, narrow)
    requires r.cpu == WriteX(WriteX(c, 17, v), RegisterField(w) as int, wide)
    ensures !SameEffect(w, Next(m), At(r))
  {
    hide RegisterField;
    RegisterNumber(RegisterField(w));
    var rt := RegisterField(w) as int;
    assert ReadX(m.cpu, rt) == narrow && ReadX(r.cpu, rt) == wide;
  }

  lemma Alike(w: bv32, c: Cpu, wide: uint64, narrow: uint64, v: uint64, m: Machine, r: Machine)
    requires RegisterField(w) as int == 31 || wide == narrow
    requires m.cpu == WriteX(c, RegisterField(w) as int, narrow) && m.calls == r.calls
    requires r.cpu == WriteX(WriteX(c, 17, v), RegisterField(w) as int, wide)
    ensures SameEffect(w, Next(m), At(r))
  {
    hide RegisterField;
    RegisterNumber(RegisterField(w));
    if RegisterField(w) == 17 {
      RewriteX(c, 17, v, wide);
    }
  }

  function OtherFlags(c: Cpu): (r: Cpu) { c.(flags := c.flags.(n := !c.flags.n)) }

  /** A vector load that only changes a flag is enough to see the difference. */
  lemma VectorDiffers(w: bv32)
    requires KindOf(w) == LoadLiteralKind && !AbortsOn(w) && w & 0x400_0000 != 0
    ensures !LiteralKept(w)
  {
    hide Decode, KindOf, DecodeImm19Offset, RegisterField, OpcField, Load64, Load32, Execute, Steps, Loaded;
    hide LiteralWords;
    var env := Env((w, c) => Continue(c), (t, c) => c, (w, a, c: Cpu) => OtherFlags(c));
    var m := Machine(0, Cpu(map[], Flags(false, false, false, false), map[]), []);
    var relocated := StoredAt(0, LiteralWords(w, 0));
    StoredIsLoaded(0, LiteralWords(w, 0));
    BothRuns(w, env, map[], relocated, 0, m);
    assert !SameEffect(w, Execute(env, map[], m, w, Decode(w)), Steps(env, relocated, m.(pc := 0), 5));
  }

  lemma NarrowDiffers(w: bv32)
    requires KindOf(w) == LoadLiteralKind && !AbortsOn(w) && w & 0x400_0000 == 0 && OpcField(w) == 0
      && RegisterField(w) != 31
    ensures !LiteralKept(w)
  {
    hide Decode, KindOf, DecodeImm19Offset, RegisterField, OpcField, Load64, Load32, Execute, Steps, Loaded;
    hide LiteralWords, WriteX, SameEffect;
    var env := Env((w, c) => Continue(c), (t, c) => c, (w, a, c) => c);
    var m := WidthsDiffer(w);
    var relocated := StoredAt(0, LiteralWords(w, m.pc));
    StoredIsLoaded(0, LiteralWords(w, m.pc));
    BothRuns(w, env, map[], relocated, 0, m);
    RegisterNumber(RegisterField(w));
    var o, r := Execute(env, map[], m, w, Decode(w)), Steps(env, relocated, m.(pc := 0), 5);
    var v := Low64(DecodeImm19Offset(w) + m.pc);
    Unlike(w, m.cpu, Load64(m.cpu.mem, v), Load32(m.cpu.mem, v), v, o.m, r.m);
    assert !SameEffect(w, o, r);
  }

  /** Of all the literal loads that the relocator accepts, exactly the 64-bit ones into a
      general register (and those into the zero register) keep their meaning when their
      translation is run: `ldr Wt, label` becomes a 64-bit load, and a vector load one into
      a general register. */
  lemma LiteralKeptExactlyWhenWide(w: bv32)
    requires KindOf(w) == LoadLiteralKind && !AbortsOn(w)
    ensures LiteralKept(w) <==> w & 0x400_0000 == 0 && (OpcField(w) == 1 || RegisterField(w) == 31)
  {
    hide Decode, KindOf, DecodeImm19Offset, RegisterField, OpcField, Load64, Load32, Execute, Steps, Loaded;
    hide LiteralWords, WriteX;
    hide LiteralOutside, SameEffect;
    OpcBelow2(OpcField(w));
    RegisterNumber(RegisterField(w));
    if w & 0x400_0000 != 0 {
      VectorDiffers(w);
    } else if OpcField(w) == 1 || RegisterField(w) == 31 {
      forall env: Env, original: Text, relocated: Text, to: uint64, m: Machine |
        LiteralOutside(original, w, m.pc) && Loaded(relocated, to, LiteralWords(w, m.pc))
        ensures SameEffect(w, Execute(env, original, m, w, Decode(w)), Steps(env, relocated, m.(pc := to), 5))
      {
        BothRuns(w, env, original, relocated, to, m);
        var o, r := Execute(env, original, m, w, Decode(w)), Steps(env, relocated, m.(pc := to), 5);
        var v := Low64(DecodeImm19Offset(w) + m.pc);
        Alike(w, m.cpu, Load64(m.cpu.mem, v), if OpcField(w) == 1 then Load64(m.cpu.mem, v)
          else Load32(m.cpu.mem, v), v, o.m, r.m);
      }
    } else {
      NarrowDiffers(w);
    }
  }

  // ----- Conditional branches -----

  /** The word put in front of the jump branches over it exactly when w does not branch. */
  ghost predicate ConditionKept(w: bv32)
  {
    forall env: Env, text: Text, m: Machine ::
      Execute(env, text, m, Inverted(w), Decode(Inverted(w))) == BranchIf(m, !Taken(Decode(w), m.cpu), 12)
  }

  lemma InvertedExecutes(env: Env, text: Text, m: Machine, w: bv32)
    requires KindOf(w) == ConditionalKind && w & 0x100_0010 == 0
    ensures Taken(Decode(w), m.cpu) == ConditionHolds(CondField(w), m.cpu.flags)
    ensures Execute(env, text, m, Inverted(w), Decode(Inverted(w)))
         == BranchIf(m, ConditionHolds(CondField(w) ^ 1, m.cpu.flags), 12)
  {
    hide Decode, KindOf, InvertConditional, ConditionHolds, Offset19, CondField, Imm19Field;
    SkipOffsets();
    ConditionalDecodes(w);
    InvertedConditionalBranch(w, Inverted(w), 3);
  }

  /** A b.cond is kept exactly when cond is below 14. */
  lemma ConditionKeptExactlyBelow14(w: bv32)
    requires KindOf(w) == ConditionalKind && w & 0x100_0010 == 0
    ensures ConditionKept(w) <==> CondField(w) < 14
  {
    hide Decode, KindOf, Inverted, ConditionHolds, CondField, Execute, Taken;
    forall env: Env, text: Text, m: Machine
      ensures Execute(env, text, m, Inverted(w), Decode(Inverted(w))) == BranchIf(m, !Taken(Decode(w), m.cpu), 12)
         <==> CondField(w) < 14
    {
      InvertedExecutes(env, text, m, w);
      InvertedCondition(CondField(w), m.cpu.flags);
    }
    var env := Env((w, c) => Continue(c), (t, c) => c, (w, a, c) => c);
    var m := Machine(0, Cpu(map[], Flags(false, false, false, false), map[]), []);
    assert Execute(env, map[], m, Inverted(w), Decode(Inverted(w))) == BranchIf(m, !Taken(Decode(w), m.cpu), 12)
      <==> CondField(w) < 14;
  }

  const B_AL: bv32 := 0x5400_000E

  lemma AlwaysWord()
    ensures KindOf(B_AL) == ConditionalKind && B_AL & 0x100_0010 == 0 && CondField(B_AL) == 14
  {
  }

  /** `b.al label` always branches; relocated, it always skips the jump to the label. */
  lemma AlwaysBranchLost(env: Env, text: Text, m: Machine)
    ensures Taken(Decode(B_AL), m.cpu) && !ConditionKept(B_AL)
    ensures Execute(env, text, m, Inverted(B_AL), Decode(Inverted(B_AL))) == Transfer(m, Low64(m.pc + 12))
  {
    hide Decode, KindOf, Inverted, CondField, Execute, Taken, ConditionKept;
    AlwaysWord();
    InvertedExecutes(env, text, m, B_AL);
    ConditionKeptExactlyBelow14(B_AL);
  }
}

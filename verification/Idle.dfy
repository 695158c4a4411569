/** The shortest program that conforms for ever: a branch to itself with a NOP in its delay slot. It shows
    that the hypotheses of Refinement.RunRefines are met by runs of every length. */
module Idle {
  import opened Words
  import opened Decode
  import opened Memory
  import opened Engine
  import opened Chains
  import opened Refinement
  import M = Mips32

  // BEQ $0,$0,-1
  const LOOP: word := 0x1000_ffff

  // BEQ at 0x3000 and NOP behind it, in one segment.
  ghost predicate Idling(s: State) {
    && Sound(s) && |s.mem| > 0 && s.reg[PC] == 0x3000
    && WordMapped(s.mem, 0x3000) && WordMapped(s.mem, 0x3004)
    && ToWord(LoadWord(s.mem, 0x3000)) == LOOP && ToWord(LoadWord(s.mem, 0x3004)) == 0
  }

  lemma LoopDecoded()
    ensures var i := Decoded(LOOP); i.m == BEQ && i.rs == 0 && i.rt == 0 && i.im == -1
    ensures M.Decode(LOOP) == M.Beq(0, 0, 0xffff) && M.Decode(0) == M.Nop
  {
    hide M.Decode, Decoded;
    LoopFields();
    LoopReference();
  }

  lemma LoopFields()
    ensures var i := Decoded(LOOP); i.m == BEQ && i.rs == 0 && i.rt == 0 && i.im == -1
  {
    hide Opcode, Funct, GetRS, GetRT, GetRD, GetSA, GetIm, GetTarget;
    LoopParts();
  }

  lemma LoopParts()
    ensures Opcode(LOOP) == 4 && GetRS(LOOP) == 0 && GetRT(LOOP) == 0 && GetIm(LOOP) == -1
  {
    hide Opcode, GetRS, GetRT, GetIm;
  }

  lemma LoopReference()
    ensures M.Decode(LOOP) == M.Beq(0, 0, 0xffff) && M.Decode(0) == M.Nop
  {
  }

  lemma Fetches(s: State)
    requires Idling(s)
    ensures Fetch(s) == LOOP && SlotState(s) == Put(s, PC, 0x3004) && SlotState(s).reg[PC] == 0x3004
            && Fetch(SlotState(s)) == 0
  {
    hide LoadWord, Decoded, WordMapped;
    LoopDecoded();
  }

  // The emulator's step changes nothing at all.
  lemma StaysPut(s: State)
    requires Idling(s)
    ensures Step(s) == (0, s)
  {
    hide Fetch, Decoded, WordMapped, LoadWord;
    LoopDecoded();
    Fetches(s);
    ZeroIsNop();
    var s1 := SlotState(s);
    SimpleCall(0, s1);
    assert ExecuteSimple(Decoded(0), s1) == (0, s1);
    assert Execute(LOOP, s) == (0, Put(s1, PC, 0x2ffc));
    assert Step(s).1.reg == s.reg;
  }

  lemma MappedWord(s: State, a: word)
    requires Sound(s) && WordMapped(s.mem, a) && a % 4 == 0
    ensures M.HoldsWord(Flat(s.mem), a) && M.ReadWord(Flat(s.mem), a) == ToWord(LoadWord(s.mem, a))
  {
    hide Flat, LoadWord, WordMapped;
    LoadWordFlat(s.mem, a);
    ReadAgrees(s.mem, a);
  }

  // The reference executes the branch and its slot.
  lemma ReferenceSteps(s: State)
    requires Idling(s)
    ensures M.StepTwice(Abs(s)).Done?
  {
    hide Flat, LoadWord, WordMapped, M.Step, M.ReadWord, M.HoldsWord;
    MappedWord(s, 0x3000);
    MappedWord(s, 0x3004);
    ReferenceBranches(Abs(s));
    ReferenceIdles(M.Step(Abs(s)).value);
  }

  lemma ReferenceBranches(m: M.Machine)
    requires |m.core.gpr| == 32 && M.HoldsWord(m.core.mem, m.pc) && M.ReadWord(m.core.mem, m.pc) == LOOP
    ensures M.Step(m).Done? && M.Step(m).value.core == m.core && M.Step(m).value.pc == m.npc
  {
    hide M.HoldsWord, M.ReadWord, M.Decode, M.Target;
    LoopDecoded();
  }

  lemma ReferenceIdles(m: M.Machine)
    requires |m.core.gpr| == 32 && M.HoldsWord(m.core.mem, m.pc) && M.ReadWord(m.core.mem, m.pc) == 0
    ensures M.Step(m).Done?
  {
    hide M.HoldsWord, M.ReadWord, M.Decode, M.Perform, M.Target;
    LoopDecoded();
    NopPerforms(m.core);
  }

  lemma NopPerforms(c: M.Core)
    requires |c.gpr| == 32
    ensures M.Perform(M.Nop, c) == M.Done(c)
  {
  }

  lemma Conforms(s: State)
    requires Idling(s)
    ensures GoodStep(s)
  {
    hide Fetch, Decoded, WordMapped, LoadWord, M.StepTwice, M.Decode, Abs, SlotState, Sound, Flat;
    LoopDecoded();
    Fetches(s);
    ZeroIsNop();
    ReferenceSteps(s);
  }

  // Every run from such a state conforms, and leaves it as it was.
  lemma {:induction false} IdlesForEver(s: State, n: nat)
    requires Idling(s)
    ensures GoodRun(s, n) && Run(s, n) == s
    decreases n
  {
    hide GoodStep, Step, Idling;
    SoundOfIdling(s);
    if n > 0 {
      Conforms(s);
      StaysPut(s);
      IdlesForEver(s, n - 1);
    }
  }

  lemma SoundOfIdling(s: State)
    requires Idling(s)
    ensures Sound(s) && |s.mem| > 0
  {
  }

  /* ---------- in memory ---------- */

  const IDLE_BYTES: seq<byte> := [0x10, 0x00, 0xff, 0xff, 0, 0, 0, 0, 0, 0, 0, 0]

  function IdleState(): State {
    State(seq(NREG, (i: nat) => if i == PC then 0x3000 else 0), [Segment(Some(".text"), IDLE_BYTES, 0x3000, 8, 0)])
  }

  lemma IdleInMemory()
    ensures Idling(IdleState())
  {
    hide Locate, BigEndian;
    var s := IdleState();
    assert ValidSegment(s.mem[0]) && Inside(s.mem[0], 0x3000) && Inside(s.mem[0], 0x3004);
    assert Inside(s.mem[0], 0x3003) && Inside(s.mem[0], 0x3007);
    LocateInside(s.mem, 0x3000, 0);
    LocateInside(s.mem, 0x3004, 0);
    IdleBytes();
  }

  lemma IdleBytes()
    ensures BigEndian(IDLE_BYTES[0], IDLE_BYTES[1], IDLE_BYTES[2], IDLE_BYTES[3]) == LOOP
    ensures BigEndian(IDLE_BYTES[4], IDLE_BYTES[5], IDLE_BYTES[6], IDLE_BYTES[7]) == 0
  {
  }
}

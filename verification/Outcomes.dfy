/** How a call and a step end: every return code, and when a program stops. */
module Outcomes {
  import opened Words
  import opened Decode
  import opened Memory
  import opened Engine
  import opened Chains

  predicate IsSyscall(u: word) {
    Opcode(u) == 0 && Funct(u) == 0x0c
  }

  predicate IsBreak(u: word) {
    Opcode(u) == 0 && Funct(u) == 0x0d
  }

  // A system call changes nothing and reports by $v0: 10 for exit, 0 for the two print calls, 1 otherwise.
  lemma SyscallOutcome(u: word, s: State)
    requires Valid(s) && IsSyscall(u)
    ensures Execute(u, s).1 == s
    ensures Execute(u, s).0 == 10 <==> s.reg[2] == 10
    ensures Execute(u, s).0 == 0 <==> s.reg[2] == 1 || s.reg[2] == 4
    ensures Execute(u, s).0 in {0, 1, 10}
  {
    hide GetBits, Opcode, Funct, GetRS, GetRT, GetRD, GetSA, GetIm, GetTarget;
  }

  lemma BreakOutcome(u: word, s: State)
    requires Valid(s) && IsBreak(u)
    ensures Execute(u, s) == (3, s)
  {
    hide GetBits, Opcode, Funct, GetRS, GetRT, GetRD, GetSA, GetIm, GetTarget;
  }

  // The code of every instruction without a delay slot.
  lemma CodeExactly(i: Instr, s: State)
    requires Valid(s) && !Control(i)
    ensures var (code, a, b) := (ExecuteSimple(i, s).0, s.reg[i.rs] as int, s.reg[i.rt] as int);
            var (address, v0) := ((a + i.im) % 0x1_0000_0000, s.reg[2]);
            match i.m
            case ADD => code == if InInt32(a + b) then 0 else 1
            case ADDI => code == if InInt32(a + i.im) then 0 else 1
            case SUB => code == if InInt32(a - b) then 0 else 1
            case DIV => code == if b == 0 then -1 else 0
            case LW => code == if address % 4 == 0 then 0 else 1
            case SW => code == if address % 4 == 0 then Reached(s.mem, address) else 1
            case SB => code == Reached(s.mem, address)
            case BREAK => code == 3
            case SYSCALL => code == if v0 == 10 then 10 else if v0 == 1 || v0 == 4 then 0 else 1
            case JALR => code == 2
            case PROBLEME => code == 2
            case _ => code == 0
    ensures ExecuteSimple(i, s).0 != 0 ==> ExecuteSimple(i, s).1 == s
  {
    hide ExecuteSimple, Reached, Locate;
    if i.m.SW? || i.m.SB? {
      StoreCode(i, s);
    } else if i.m.LW? {
      LoadCode(i, s);
    } else {
      OtherCode(i, s);
    }
  }

  // What a store returns by where it lands.
  function Reached(m: Image, a: word): int
    requires ValidImage(m)
  {
    match Locate(m, a)
    case Nowhere => -1
    case Fault => SEGV
    case At(_, _) => 0
  }

  lemma StoreCode(i: Instr, s: State)
    requires Valid(s) && (i.m.SW? || i.m.SB?)
    ensures var (code, address) := (ExecuteSimple(i, s).0, (i.im + s.reg[i.rs]) % 0x1_0000_0000);
            code == if i.m.SW? && address % 4 != 0 then 1 else Reached(s.mem, address)
    ensures ExecuteSimple(i, s).0 != 0 ==> ExecuteSimple(i, s).1 == s
  {
    hide Locate, GetBits, PutContent, PutWord, Misaligned;
  }

  lemma LoadCode(i: Instr, s: State)
    requires Valid(s) && i.m.LW?
    ensures ExecuteSimple(i, s).0 == if (i.im + s.reg[i.rs]) % 0x1_0000_0000 % 4 == 0 then 0 else 1
    ensures ExecuteSimple(i, s).0 != 0 ==> ExecuteSimple(i, s).1 == s
  {
    hide Locate, LoadWord, Put, Misaligned;
  }

  lemma OtherCode(i: Instr, s: State)
    requires Valid(s) && !Control(i) && !i.m.LW? && !i.m.SW? && !i.m.SB?
    ensures var (code, a, b, v0) := (ExecuteSimple(i, s).0, s.reg[i.rs] as int, s.reg[i.rt] as int, s.reg[2]);
            match i.m
            case ADD => code == if InInt32(a + b) then 0 else 1
            case ADDI => code == if InInt32(a + i.im) then 0 else 1
            case SUB => code == if InInt32(a - b) then 0 else 1
            case DIV => code == if b == 0 then -1 else 0
            case BREAK => code == 3
            case SYSCALL => code == if v0 == 10 then 10 else if v0 == 1 || v0 == 4 then 0 else 1
            case JALR => code == 2
            case PROBLEME => code == 2
            case _ => code == 0
    ensures ExecuteSimple(i, s).0 != 0 ==> ExecuteSimple(i, s).1 == s
  {
    hide Put, LoadByte, AddOverflows, SubOverflows, GetBits, Shl, CDiv, CMod, ToInt32, AndInt, OrInt, XorInt, Pow2;
  }

  // Only an exit call stops a program: PC goes back to the start of the first segment and nothing else
  // changes. After any other word PC is four past where the call left it.
  lemma StopsExactly(s: State)
    requires Valid(s) && |s.mem| > 0
    ensures Step(s).0 == 10 <==> IsSyscall(Fetch(s)) && s.reg[2] == 10
    ensures Step(s).0 == 10 ==>
              Step(s).1 == s.(reg := s.reg[PC := Step(s).1.reg[PC]]) && ToWord(Step(s).1.reg[PC]) == s.mem[0].start
    ensures Step(s).0 != 10 ==>
              var t := Execute(Fetch(s), s).1;
              Step(s).0 == 0 && Step(s).1 == t.(reg := t.reg[PC := Step(s).1.reg[PC]])
              && ToWord(Step(s).1.reg[PC]) == (t.reg[PC] as int + 4) % 0x1_0000_0000
  {
    hide Decoded, ExecuteSimple, Fetch, Execute, IsSyscall;
    var u := Fetch(s);
    ExitCode(u, s);
    CallFootprint(u, s);
  }

  lemma ExitCode(u: word, s: State)
    requires Valid(s)
    ensures Execute(u, s).0 == 10 <==> IsSyscall(u) && s.reg[2] == 10
    ensures Execute(u, s).0 == 10 ==> Execute(u, s).1 == s
  {
    hide Decoded, ExecuteSimple, Execute, IsSyscall, NextInstruction;
    SyscallDecoded(u);
    if IsSyscall(u) {
      SyscallOutcome(u, s);
    } else if Control(Decoded(u)) {
      ControlCode(u, s);
    } else {
      SimpleCall(u, s);
      CodeNotTen(Decoded(u), s);
    }
  }

  lemma ControlCode(u: word, s: State)
    requires Valid(s) && Control(Decoded(u))
    ensures Execute(u, s).0 == 0
  {
    hide Decoded, NextInstruction;
  }

  lemma CodeNotTen(i: Instr, s: State)
    requires Valid(s) && !Control(i) && !i.m.SYSCALL?
    ensures ExecuteSimple(i, s).0 != 10
  {
    hide ExecuteSimple, Locate;
    CodeExactly(i, s);
  }

  lemma SyscallDecoded(u: word)
    ensures Decoded(u).m == SYSCALL <==> IsSyscall(u)
  {
    hide Opcode, Funct, GetRS, GetRT, GetRD, GetSA, GetIm, GetTarget;
  }

  // The first k steps do not exit.
  ghost predicate GoesOn(s: State, k: nat)
    requires Valid(s) && |s.mem| > 0
    decreases k
  {
    k == 0 || (Step(s).0 != 10 && GoesOn(Step(s).1, k - 1))
  }

  // A run that exits at some step stays there, however many steps are asked for; a run that does not
  // is so many steps, one after another.
  lemma {:induction false} RunEnds(s: State, k: nat, n: nat)
    requires Valid(s) && |s.mem| > 0 && GoesOn(s, k) && k < n
    ensures |Run(s, k).mem| > 0
    ensures Step(Run(s, k)).0 == 10 ==> Run(s, n) == Step(Run(s, k)).1
    ensures Step(Run(s, k)).0 != 10 ==> GoesOn(s, k + 1) && Run(s, k + 1) == Step(Run(s, k)).1
    decreases k
  {
    hide Step;
    if k > 0 {
      RunEnds(Step(s).1, k - 1, n - 1);
    }
  }

  // The guard of the command: the scan found a segment, and PC lies in the first one. Outside, PC alone
  // changes, to the first segment's start.
  lemma InTextExactly(s: State, segment: int)
    requires Valid(s) && |s.mem| > 0
    ensures InText(s, segment) <==>
            segment != -1 && s.mem[0].start <= ToWord(s.reg[PC]) < s.mem[0].start + s.mem[0].size
    ensures InText(s, segment) ==> StepCommand(s, segment) == Step(s)
    ensures !InText(s, segment) ==>
              var (code, t) := StepCommand(s, segment);
              code == CMD_WRONG_ARG && t == s.(reg := s.reg[PC := t.reg[PC]]) && ToWord(t.reg[PC]) == s.mem[0].start
  {
    hide Step;
    assert ValidSegment(s.mem[0]);
  }

  // The executor's JARL, which no word decodes to: the link is the address behind the slot, and the target is
  // the register read before the link is written.
  lemma JarlOutcome(i: Instr, s: State, slot: int32)
    requires Valid(s) && i.m.JARL?
    ensures var (linked, goes) := (Link(i, s), Redirect(i, s, slot));
            && ToWord(linked.reg[i.rd]) == (ToWord(s.reg[PC]) as int + 8) % 0x1_0000_0000
            && linked == s.(reg := s.reg[i.rd := linked.reg[i.rd]])
            && (goes as int + 4) % 0x1_0000_0000 == ToWord(s.reg[i.rs])
  {
    hide ToWord, ToInt32, JumpBits, Taken;
    WordOfInt(s.reg[PC] as int + 8);
    WordSum(s.reg[PC], 8);
    WordOfInt(s.reg[i.rs] as int - 4);
  }

  lemma WordSum(x: int32, k: int)
    ensures (x as int + k) % 0x1_0000_0000 == (ToWord(x) as int + k) % 0x1_0000_0000
  {
  }

  lemma WordOfInt(x: int)
    ensures ToWord(ToInt32(x)) == x % 0x1_0000_0000 == ToInt32(x) as int % 0x1_0000_0000
    ensures (ToInt32(x) as int + 4) % 0x1_0000_0000 == ToWord(x + 4)
  {
  }
}

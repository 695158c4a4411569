/** The disassembly is faithful: the printed line determines what execute_asm does. */
module Faithful {
  import opened Words
  import opened Decode
  import opened Memory
  import opened Engine
  import opened Disasm
  import N = Numerals

  // Fields a line does not show are never read by the executor.
  lemma ShownSuffices(i: Instr, s: State)
    requires Valid(s)
    ensures Control(Shown(i)) == Control(i)
    ensures !Control(i) ==> ExecuteSimple(Shown(i), s) == ExecuteSimple(i, s)
  {
    hide ExecuteSimple, Shown;
    ShownControl(i);
    if i.m.ADD? || i.m.ADDU? || i.m.AND? || i.m.OR? || i.m.SLT? || i.m.SLTU? || i.m.SUB? || i.m.SUBU? || i.m.XOR? {
      ShownThreeRegisters(i, s);
    } else if i.m.DIV? || i.m.MULT? || i.m.MFHI? || i.m.MFLO? {
      ShownProductForms(i, s);
    } else if i.m.SLL? || i.m.SRA? || i.m.SRL? || i.m.SEB? || i.m.JALR? || i.m.PROBLEME? || i.m.BREAK? || i.m.SYSCALL? {
      ShownShiftForms(i, s);
    } else if !Control(i) {
      ShownImmediateForms(i, s);
    }
  }

  lemma ShownControl(i: Instr)
    ensures Control(Shown(i)) == Control(i)
  {
  }

  lemma ShownThreeRegisters(i: Instr, s: State)
    requires Valid(s) && (i.m.ADD? || i.m.ADDU? || i.m.AND? || i.m.OR? || i.m.SLT? || i.m.SLTU? || i.m.SUB?
             || i.m.SUBU? || i.m.XOR?)
    ensures ExecuteSimple(Shown(i), s) == ExecuteSimple(i, s)
  {
    hide AddOverflows, SubOverflows, ToInt32, AndInt, OrInt, XorInt, ToWord, Put;
  }

  lemma ShownProductForms(i: Instr, s: State)
    requires Valid(s) && (i.m.DIV? || i.m.MULT? || i.m.MFHI? || i.m.MFLO?)
    ensures ExecuteSimple(Shown(i), s) == ExecuteSimple(i, s)
  {
    hide AddOverflows, SubOverflows, ToInt32, CDiv, CMod, AndInt, OrInt, XorInt, ToWord, Put;
  }

  lemma ShownShiftForms(i: Instr, s: State)
    requires Valid(s) && (i.m.SLL? || i.m.SRA? || i.m.SRL? || i.m.SEB? || i.m.JALR? || i.m.PROBLEME?
             || i.m.BREAK? || i.m.SYSCALL?)
    ensures Control(Shown(i)) == Control(i) && ExecuteSimple(Shown(i), s) == ExecuteSimple(i, s)
  {
    hide ToInt32, Shl, GetBits, Pow2, ToWord, Put, And, Shr;
    if i.m == SLL {
      assert FormatOf(i) in {NopLine, RdRtSa};
    }
  }

  lemma ShownImmediateForms(i: Instr, s: State)
    requires Valid(s) && !Control(i)
    requires !(i.m.ADD? || i.m.ADDU? || i.m.AND? || i.m.OR? || i.m.SLT? || i.m.SLTU? || i.m.SUB? || i.m.SUBU?
             || i.m.XOR? || i.m.DIV? || i.m.MULT? || i.m.MFHI? || i.m.MFLO?)
    requires !(i.m.SLL? || i.m.SRA? || i.m.SRL? || i.m.SEB? || i.m.JALR? || i.m.PROBLEME? || i.m.BREAK? || i.m.SYSCALL?)
    ensures Control(Shown(i)) == Control(i) && ExecuteSimple(Shown(i), s) == ExecuteSimple(i, s)
  {
    hide AddOverflows, ToInt32, LoadWord, LoadByte, StoreWord, StoreByte, GetBits, AndInt, OrInt, Misaligned,
         ToWord, Put;
  }

  lemma ShownRedirects(i: Instr, s: State, pc: int32)
    requires Valid(s) && Control(i)
    ensures Link(Shown(i), s) == Link(i, s) && Redirect(Shown(i), s, pc) == Redirect(i, s, pc)
  {
    hide ToInt32, JumpBits, Put;
  }

  // Words printed alike behave alike from every state: same code, registers and memory.
  lemma SameLineSameBehaviour(u: word, v: word, s: State)
    requires Valid(s) && DispAssem(u) == DispAssem(v)
    ensures Execute(u, s) == Execute(v, s)
  {
    hide Line, Shown, ExecuteSimple, Decoded, Redirect, Link, NextInstruction, Put;
    var i, j := Decoded(u), Decoded(v);
    LineInjective(i, j);
    ShownSuffices(i, s);
    ShownSuffices(j, s);
    if Control(i) {
      var s' := NextInstruction(Link(i, s));
      ShownRedirects(i, s, s'.reg[PC]);
      ShownRedirects(j, s, s'.reg[PC]);
    }
  }

  // "Instruction inconnue" is printed for exactly the words the executor refuses with code 2.
  lemma UnknownExactly(u: word, s: State)
    requires Valid(s)
    ensures DispAssem(u) == "Instruction inconnue !!!\n" <==> Execute(u, s).0 == 2
  {
    hide Decoded, Line, ExecuteSimple, FormatOf, Execute;
    var i := Decoded(u);
    UnknownLines(i);
    CodeTwo(u, s);
    NeverUnknownBranch(i);
  }

  lemma UnknownLines(i: Instr)
    ensures Line(i) == "Instruction inconnue !!!\n" <==> FormatOf(i) == UnknownLine
  {
    hide Shown, Line, FormatOf;
    var p := Bare(PROBLEME);
    PlainUnknown(p);
    if Line(i) == Line(p) {
      LineInjective(i, p);
      ShownUnknown(i);
      ShownUnknown(p);
    } else {
      AllUnknown(i);
    }
  }

  lemma PlainUnknown(p: Instr)
    requires p == Bare(PROBLEME)
    ensures Line(p) == "Instruction inconnue !!!\n" && FormatOf(p) == UnknownLine
  {
    hide RegName, Name, Comma, End, Paren, N.Signed, N.Unsigned;
  }

  lemma AllUnknown(i: Instr)
    ensures FormatOf(i) == UnknownLine ==> Line(i) == Line(Bare(PROBLEME))
  {
    hide RegName, Name, Comma, End, Paren, N.Signed, N.Unsigned;
    if FormatOf(i) == UnknownLine {
      assert Head(i) == "Instruction" && Operands(i) == " inconnue !!!\n";
    }
  }

  lemma ShownUnknown(i: Instr)
    ensures Shown(i).m == PROBLEME <==> FormatOf(i) == UnknownLine
  {
  }

  lemma NeverUnknownBranch(i: Instr)
    ensures Control(i) ==> FormatOf(i) != UnknownLine
    ensures FormatOf(i) == UnknownLine <==> i.m in {JALR, PROBLEME}
  {
  }

  lemma CodeTwo(u: word, s: State)
    requires Valid(s)
    ensures Execute(u, s).0 == 2 <==> Decoded(u).m in {JALR, PROBLEME}
  {
    hide Decoded, NextInstruction, Redirect, AddOverflows, SubOverflows, StoreWord, StoreByte, Put, Link;
    if !Control(Decoded(u)) {
      CodeTwoSimple(Decoded(u), s);
    }
  }

  lemma CodeTwoSimple(i: Instr, s: State)
    requires Valid(s) && !Control(i)
    ensures ExecuteSimple(i, s).0 == 2 <==> i.m in {JALR, PROBLEME}
  {
    hide AddOverflows, SubOverflows, Put, LoadWord, LoadByte, Misaligned, Address, Locate, PutContent, PutWord, GetBits;
  }
}

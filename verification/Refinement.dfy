/** One fetch step of the emulator is one step of the reference machine, or two when the word has a
    delay slot. */
module Refinement {
  import opened Words
  import opened Decode
  import opened Memory
  import opened Engine
  import opened Chains
  import M = Mips32

  /* ---------- the abstraction ---------- */

  ghost function AbsCore(s: State): M.Core
    requires Valid(s)
  {
    M.Core(seq(32, i requires 0 <= i < 32 => ToWord(s.reg[i])), ToWord(s.reg[HI]), ToWord(s.reg[LO]), Flat(s.mem))
  }

  ghost function Abs(s: State): (m: M.Machine)
    requires Valid(s)
    ensures |m.core.gpr| == 32
  {
    M.Machine(AbsCore(s), ToWord(s.reg[PC]), ToWord(s.reg[PC] as int + 4))
  }

  // The states the comparison is about: an ascending image and register 0 holding zero.
  ghost predicate Sound(s: State) {
    Valid(s) && Ascending(s.mem) && s.reg[0] == 0
  }

  /* ---------- decoding ---------- */

  // The instruction the emulator's mnemonic and fields describe.
  function Described(i: Instr): (d: M.Instruction)
    ensures M.WellFormed(d)
    ensures M.HasDelaySlot(d) <==> Control(i) && i.m != JARL
  {
    var imm := i.im % 0x1_0000;
    match i.m
    case ADD => M.Add(i.rd, i.rs, i.rt)
    case ADDU => M.Addu(i.rd, i.rs, i.rt)
    case SUB => M.Sub(i.rd, i.rs, i.rt)
    case SUBU => M.Subu(i.rd, i.rs, i.rt)
    case AND => M.AndR(i.rd, i.rs, i.rt)
    case OR => M.OrR(i.rd, i.rs, i.rt)
    case XOR => M.XorR(i.rd, i.rs, i.rt)
    case ADDI => M.Addi(i.rt, i.rs, imm)
    case ADDIU => M.Addiu(i.rt, i.rs, imm)
    case SLTI => M.Slti(i.rt, i.rs, imm)
    case LUI => M.Lui(i.rt, imm)
    case MFHI => M.Mfhi(i.rd)
    case MFLO => M.Mflo(i.rd)
    case DIV => M.Div(i.rs, i.rt)
    case LBU => M.Lbu(i.rt, i.rs, imm)
    case LW => M.Lw(i.rt, i.rs, imm)
    case SW => M.Sw(i.rt, i.rs, imm)
    case SLL => if i.rd == 0 && i.rt == 0 && i.sa == 0 then M.Nop else M.Other(M.ShiftL, 0, i.rt, i.rd, i.sa, 0)
    case SRL => M.Other(M.ShiftRL, 0, i.rt, i.rd, i.sa, 0)
    case SRA => M.Other(M.ShiftRA, 0, i.rt, i.rd, i.sa, 0)
    case MULT => M.Other(M.MulR, i.rs, i.rt, 0, 0, 0)
    case JALR => M.Other(M.JumpLR, i.rs, 0, i.rd, 0, 0)
    case SYSCALL => M.Other(M.SysCall, 0, 0, 0, 0, 0)
    case BREAK => M.Other(M.Brk, 0, 0, 0, 0, 0)
    case SLT => M.Other(M.SltR, i.rs, i.rt, i.rd, 0, 0)
    case SLTU => M.Other(M.SltUR, i.rs, i.rt, i.rd, 0, 0)
    case SLTIU => M.Other(M.SltIU, i.rs, i.rt, 0, 0, imm)
    case ANDI => M.Other(M.AndI, i.rs, i.rt, 0, 0, imm)
    case ORI => M.Other(M.OrI, i.rs, i.rt, 0, 0, imm)
    case LB => M.Other(M.LoadB, i.rs, i.rt, 0, 0, imm)
    case SB => M.Other(M.StoreB, i.rs, i.rt, 0, 0, imm)
    case SEB => M.Other(M.SignB, 0, i.rt, i.rd, 0, 0)
    case BEQ => M.Beq(i.rs, i.rt, imm)
    case BNE => M.Bne(i.rs, i.rt, imm)
    case BGEZ => M.Bgez(i.rs, imm)
    case BGTZ => M.Bgtz(i.rs, imm)
    case BLEZ => M.Blez(i.rs, imm)
    case BLTZ => M.Bltz(i.rs, imm)
    case J => M.Jump(i.target)
    case JAL => M.Jal(i.target)
    case JR => M.Jr(i.rs)
    case _ => M.Unsupported
  }

  // The words the emulator's tables take for something else.
  predicate Misread(u: word) {
    || (Opcode(u) == 0 && Funct(u) in {0x2a, 0x2b, 0x2c})
    || (Opcode(u) == 0x1f && GetSA(u) == 0x10 && Funct(u) != 0x20)
  }

  // Every other word is decoded as the architecture's tables have it, operands included. SLT (0x2a) is
  // read as OR, SLTU (0x2b) is unknown, 0x2c is read as SLTU, and SEB is recognised by its sa field alone.
  lemma DecodersAgree(u: word)
    ensures !Misread(u) ==> M.Decode(u) == Described(Decoded(u))
    ensures var (d, i) := (M.Decode(u), Decoded(u));
            && (Opcode(u) == 0 && Funct(u) == 0x2a ==> d == M.Other(M.SltR, i.rs, i.rt, i.rd, 0, 0) && i.m == OR)
            && (Opcode(u) == 0 && Funct(u) == 0x2b ==> d == M.Other(M.SltUR, i.rs, i.rt, i.rd, 0, 0) && i.m == PROBLEME)
            && (Opcode(u) == 0 && Funct(u) == 0x2c ==> d == M.Unsupported && i.m == SLTU)
            && (Opcode(u) == 0x1f && GetSA(u) == 0x10 && Funct(u) != 0x20 ==> d == M.Unsupported && i.m == SEB)
    ensures M.Performed(M.Decode(u)) ==> M.Decode(u) == Described(Decoded(u))
  {
    hide GetBits, ToInt16, GetRS, GetRT, GetRD, GetSA, GetTarget, Opcode, Funct, GetIm, Described, M.DecodeFields;
    ImmediateBits(u);
    var i := Decoded(u);
    assert M.Decode(u) == M.DecodeFields(Opcode(u), i.rs, i.rt, i.rd, i.sa, Funct(u), i.im % 0x1_0000, i.target);
    if Opcode(u) == 0 {
      SpecialTablesAgree(u, i, Funct(u));
    } else {
      NormalTablesAgree(u, i, Opcode(u));
    }
  }

  lemma SpecialTablesAgree(u: word, i: Instr, fn: nat)
    requires i == Decoded(u) && 0 == Opcode(u) && fn == Funct(u)
    ensures var d := M.DecodeFields(0, i.rs, i.rt, i.rd, i.sa, fn, i.im % 0x1_0000, i.target);
            if fn == 0x2a then d == M.Other(M.SltR, i.rs, i.rt, i.rd, 0, 0) && i.m == OR
            else if fn == 0x2b then d == M.Other(M.SltUR, i.rs, i.rt, i.rd, 0, 0) && i.m == PROBLEME
            else if fn == 0x2c then d == M.Unsupported && i.m == SLTU
            else d == Described(i)
  {
    hide GetInstr, M.DecodeFields, Described, Decoded, Opcode, Funct;
    if fn == 0 {
      ShiftFunction(u, i, fn);
    } else if fn < 0x10 {
      LowFunctions(u, i, fn);
    } else if fn < 0x24 {
      MiddleFunctions(u, i, fn);
    } else {
      HighFunctions(u, i, fn);
    }
  }

  lemma ShiftFunction(u: word, i: Instr, fn: nat)
    requires i == Decoded(u) && 0 == Opcode(u) && fn == Funct(u) && fn == 0
    ensures M.DecodeFields(0, i.rs, i.rt, i.rd, i.sa, fn, i.im % 0x1_0000, i.target) == Described(i)
  {
    hide GetRS, GetRT, GetRD, GetSA, GetTarget, Opcode, Funct, GetIm;
  }

  lemma LowFunctions(u: word, i: Instr, fn: nat)
    requires i == Decoded(u) && 0 == Opcode(u) && fn == Funct(u) && 0 < fn < 0x10
    ensures M.DecodeFields(0, i.rs, i.rt, i.rd, i.sa, fn, i.im % 0x1_0000, i.target) == Described(i)
  {
    hide GetRS, GetRT, GetRD, GetSA, GetTarget, Opcode, Funct, GetIm;
  }

  lemma MiddleFunctions(u: word, i: Instr, fn: nat)
    requires i == Decoded(u) && 0 == Opcode(u) && fn == Funct(u) && 0x10 <= fn < 0x24
    ensures M.DecodeFields(0, i.rs, i.rt, i.rd, i.sa, fn, i.im % 0x1_0000, i.target) == Described(i)
  {
    hide GetRS, GetRT, GetRD, GetSA, GetTarget, Opcode, Funct, GetIm;
  }

  lemma HighFunctions(u: word, i: Instr, fn: nat)
    requires i == Decoded(u) && 0 == Opcode(u) && fn == Funct(u) && fn >= 0x24
    ensures var d := M.DecodeFields(0, i.rs, i.rt, i.rd, i.sa, fn, i.im % 0x1_0000, i.target);
            if fn == 0x2a then d == M.Other(M.SltR, i.rs, i.rt, i.rd, 0, 0) && i.m == OR
            else if fn == 0x2b then d == M.Other(M.SltUR, i.rs, i.rt, i.rd, 0, 0) && i.m == PROBLEME
            else if fn == 0x2c then d == M.Unsupported && i.m == SLTU
            else d == Described(i)
  {
    hide GetRS, GetRT, GetRD, GetSA, GetTarget, Opcode, Funct, GetIm;
  }

  lemma NormalTablesAgree(u: word, i: Instr, op: nat)
    requires i == Decoded(u) && 0 != op == Opcode(u)
    ensures var d := M.DecodeFields(op, i.rs, i.rt, i.rd, i.sa, Funct(u), i.im % 0x1_0000, i.target);
            if op == 0x1f && i.sa == 0x10 && Funct(u) != 0x20 then d == M.Unsupported && i.m == SEB
            else d == Described(i)
    ensures i.sa == GetSA(u)
  {
    hide GetInstr, M.DecodeFields, Described, Opcode, Funct, GetRS, GetRT, GetRD, GetSA, GetTarget, GetIm;
    if op < 8 {
      LowOpcodes(u, i, op);
    } else if op < 0x10 {
      MiddleOpcodes(u, i, op);
    } else if op < 0x20 {
      ExtensionOpcodes(u, i, op);
    } else {
      MemoryOpcodes(u, i, op);
    }
  }

  lemma LowOpcodes(u: word, i: Instr, op: nat)
    requires i == Decoded(u) && 0 != op == Opcode(u) && op < 8
    ensures M.DecodeFields(op, i.rs, i.rt, i.rd, i.sa, Funct(u), i.im % 0x1_0000, i.target) == Described(i)
  {
    hide GetRS, GetRT, GetRD, GetSA, GetTarget, Opcode, Funct, GetIm;
  }

  lemma MiddleOpcodes(u: word, i: Instr, op: nat)
    requires i == Decoded(u) && op == Opcode(u) && 8 <= op < 0x10
    ensures M.DecodeFields(op, i.rs, i.rt, i.rd, i.sa, Funct(u), i.im % 0x1_0000, i.target) == Described(i)
  {
    hide GetRS, GetRT, GetRD, GetSA, GetTarget, Opcode, Funct, GetIm;
  }

  lemma ExtensionOpcodes(u: word, i: Instr, op: nat)
    requires i == Decoded(u) && op == Opcode(u) && 0x10 <= op < 0x20
    ensures var d := M.DecodeFields(op, i.rs, i.rt, i.rd, i.sa, Funct(u), i.im % 0x1_0000, i.target);
            if op == 0x1f && i.sa == 0x10 && Funct(u) != 0x20 then d == M.Unsupported && i.m == SEB
            else d == Described(i)
  {
    hide GetRS, GetRT, GetRD, GetSA, GetTarget, Opcode, Funct, GetIm;
  }

  lemma MemoryOpcodes(u: word, i: Instr, op: nat)
    requires i == Decoded(u) && op == Opcode(u) && op >= 0x20
    ensures M.DecodeFields(op, i.rs, i.rt, i.rd, i.sa, Funct(u), i.im % 0x1_0000, i.target) == Described(i)
  {
    hide GetRS, GetRT, GetRD, GetSA, GetTarget, Opcode, Funct, GetIm;
  }

  lemma ImmediateBits(u: word)
    ensures ToInt16(u) % 0x1_0000 == u % 0x1_0000
  {
  }

  lemma SignedImmediate(im: int16)
    ensures M.SignExtend(im % 0x1_0000) == im
  {
  }

  /* ---------- values ---------- */

  lemma AbsPut(s: State, i: nat, v: int, v': int)
    requires Valid(s) && 0 < i < 32 && M.Unsigned(v) == M.Unsigned(v')
    ensures AbsCore(Put(s, i, v)) == M.Write(AbsCore(s), i, v')
  {
    hide Flat;
    assert ToWord(ToInt32(v)) == M.Unsigned(v');
    assert AbsCore(Put(s, i, v)).gpr == M.Write(AbsCore(s), i, v').gpr;
  }

  lemma AbsDivide(s: State, q: int, r: int)
    requires Valid(s)
    ensures AbsCore(Put(Put(s, LO, q), HI, r)) == AbsCore(s).(lo := M.Unsigned(q), hi := M.Unsigned(r))
  {
    hide Flat;
    var s' := Put(Put(s, LO, q), HI, r);
    assert ToWord(ToInt32(q)) == M.Unsigned(q) && ToWord(ToInt32(r)) == M.Unsigned(r);
    assert AbsCore(s').gpr == AbsCore(s).gpr;
  }

  // Arithmetic on words and on the signed values they stand for agrees modulo 2^32.
  lemma WordArithmetic(a: int32, b: int)
    ensures M.Signed(ToWord(a)) == a
    ensures M.Unsigned(a + b) == M.Unsigned(ToWord(a) as int + ToWord(b)) == M.Unsigned(ToWord(a) as int + b)
    ensures M.Unsigned(a - b) == M.Unsigned(ToWord(a) as int - ToWord(b))
  {
    hide M.Signed;
    SignedOf(a);
    WordSum(a, b);
    WordSum(a, -b);
    WordDifference(ToWord(a), b);
  }

  lemma WordSum(a: int, b: int)
    ensures M.Unsigned(a + b) == M.Unsigned(ToWord(a) as int + ToWord(b)) == M.Unsigned(ToWord(a) as int + b)
  {
    WrapSum(a, b);
    WrapSum(ToWord(a), b);
  }

  lemma WordDifference(a: int, b: int)
    ensures M.Unsigned(a - ToWord(b)) == M.Unsigned(a - b) == M.Unsigned(a + -b)
  {
    WrapSum(a, b);
  }

  lemma SignedOf(a: int32)
    ensures M.Signed(ToWord(a)) == a
  {
  }

  lemma QuotientsAgree(a: int, b: int)
    requires b != 0
    ensures CDiv(a, b) == M.Quotient(a, b)
  {
    if b < 0 {
      NegatedDivisor(if a < 0 then -a else a, -b);
    }
  }

  /* ---------- instructions without a delay slot ---------- */

  // The register an instruction writes must not be $zero, which the emulator does not protect.
  ghost predicate ZeroSafe(i: Instr) {
    i.m in {SW, DIV, SLL} || Dest(i) != 0
  }

  // A word access must lie in one segment; the reference only sees four mapped bytes.
  ghost predicate OneSegment(i: Instr, s: State)
    requires Valid(s)
  {
    i.m in {LW, SW} ==> WordMapped(s.mem, Address(i, s))
  }

  // The reference performs the described instruction without a trap.
  ghost predicate Performable(i: Instr, s: State)
    requires Valid(s)
  {
    && M.Performed(Described(i)) && !Control(i)
    && M.Perform(Described(i), AbsCore(s)).Done?
  }

  // The emulator computes what the reference performs.
  lemma PerformRefines(i: Instr, s: State)
    requires Sound(s) && ZeroSafe(i) && OneSegment(i, s) && Performable(i, s)
    ensures ExecuteSimple(i, s).0 == 0
    ensures AbsCore(ExecuteSimple(i, s).1) == M.Perform(Described(i), AbsCore(s)).value
  {
    hide M.Perform, ExecuteSimple, AbsCore;
    if i.m == ADD {
      AddForm(i, s);
    } else if i.m == ADDU {
      AdduForm(i, s);
    } else if i.m == SUB {
      SubForm(i, s);
    } else if i.m == SUBU {
      SubuForm(i, s);
    } else if i.m in {AND, OR, XOR} {
      LogicForms(i, s);
    } else if i.m in {MFHI, MFLO} {
      MoveForms(i, s);
    } else if i.m in {ADDI, ADDIU} {
      AddImmediateForms(i, s);
    } else if i.m in {SLTI, LUI} {
      OtherImmediateForms(i, s);
    } else if i.m in {DIV, SLL} {
      DivideForm(i, s);
    } else if i.m in {LBU, LW} {
      LoadForms(i, s);
    } else {
      StoreForm(i, s);
    }
  }

  lemma AddForm(i: Instr, s: State)
    requires Sound(s) && ZeroSafe(i) && Performable(i, s) && i.m.ADD?
    ensures ExecuteSimple(i, s).0 == 0
    ensures AbsCore(ExecuteSimple(i, s).1) == M.Perform(Described(i), AbsCore(s)).value
  {
    var a: int, b: int := s.reg[i.rs], s.reg[i.rt];
    hide ToWord, ToInt32, M.Signed, M.Unsigned, M.Write, Put, Flat, AddOverflows;
    WordArithmetic(a, b);
    WordArithmetic(b, 0);
    AbsPut(s, i.rd, a + b, a + b);
  }

  lemma AdduForm(i: Instr, s: State)
    requires Sound(s) && ZeroSafe(i) && Performable(i, s) && i.m.ADDU?
    ensures ExecuteSimple(i, s).0 == 0
    ensures AbsCore(ExecuteSimple(i, s).1) == M.Perform(Described(i), AbsCore(s)).value
  {
    var a: int, b: int := s.reg[i.rs], s.reg[i.rt];
    hide ToWord, ToInt32, M.Signed, M.Unsigned, M.Write, Put, Flat;
    WordArithmetic(a, b);
    AbsPut(s, i.rd, a + b, ToWord(a) as int + ToWord(b));
  }

  lemma SubForm(i: Instr, s: State)
    requires Sound(s) && ZeroSafe(i) && Performable(i, s) && i.m.SUB?
    ensures ExecuteSimple(i, s).0 == 0
    ensures AbsCore(ExecuteSimple(i, s).1) == M.Perform(Described(i), AbsCore(s)).value
  {
    var a: int, b: int := s.reg[i.rs], s.reg[i.rt];
    hide ToWord, ToInt32, M.Signed, M.Unsigned, M.Write, Put, Flat, SubOverflows;
    WordArithmetic(a, b);
    WordArithmetic(b, 0);
    AbsPut(s, i.rd, a - b, a - b);
  }

  lemma SubuForm(i: Instr, s: State)
    requires Sound(s) && ZeroSafe(i) && Performable(i, s) && i.m.SUBU?
    ensures ExecuteSimple(i, s).0 == 0
    ensures AbsCore(ExecuteSimple(i, s).1) == M.Perform(Described(i), AbsCore(s)).value
  {
    var a: int, b: int := s.reg[i.rs], s.reg[i.rt];
    hide ToWord, ToInt32, M.Signed, M.Unsigned, M.Write, Put, Flat;
    WordArithmetic(a, b);
    AbsPut(s, i.rd, a - b, ToWord(a) as int - ToWord(b));
  }

  lemma LogicForms(i: Instr, s: State)
    requires Sound(s) && ZeroSafe(i) && Performable(i, s)
    requires i.m in {AND, OR, XOR}
    ensures ExecuteSimple(i, s).0 == 0
    ensures AbsCore(ExecuteSimple(i, s).1) == M.Perform(Described(i), AbsCore(s)).value
  {
    hide ExecuteSimple, M.Perform, LogicInt;
    LogicExecutes(i, s);
    LogicPerforms(i, s);
    AbsPut(s, i.rd, LogicInt(i.m, s.reg[i.rs], s.reg[i.rt]), LogicInt(i.m, s.reg[i.rs], s.reg[i.rt]));
  }

  function LogicInt(m: Mnemonic, a: int32, b: int32): int
    requires m in {AND, OR, XOR}
  {
    if m == AND then AndInt(a, b) else if m == OR then OrInt(a, b) else XorInt(a, b)
  }

  lemma LogicExecutes(i: Instr, s: State)
    requires Valid(s) && i.m in {AND, OR, XOR}
    ensures ExecuteSimple(i, s) == (0, Put(s, i.rd, LogicInt(i.m, s.reg[i.rs], s.reg[i.rt])))
  {
    hide And, Or, Xor, ToWord, ToInt32, AndInt, OrInt, XorInt;
  }

  lemma LogicPerforms(i: Instr, s: State)
    requires Valid(s) && i.m in {AND, OR, XOR}
    ensures M.Perform(Described(i), AbsCore(s)) ==
            M.Done(M.Write(AbsCore(s), i.rd, LogicInt(i.m, s.reg[i.rs], s.reg[i.rt])))
  {
    hide ToWord, M.Unsigned, M.Write, Flat, AndInt, OrInt, XorInt, M.AndBits, M.OrBits, M.XorBits;
    LogicAgrees(s.reg[i.rs], s.reg[i.rt]);
  }

  lemma LogicAgrees(a: int32, b: int32)
    ensures AndInt(a, b) == M.AndBits(ToWord(a), ToWord(b))
    ensures OrInt(a, b) == M.OrBits(ToWord(a), ToWord(b))
    ensures XorInt(a, b) == M.XorBits(ToWord(a), ToWord(b))
  {
    hide And, Or, Xor, M.AndBits, M.OrBits, M.XorBits;
    M.BitwiseAgree(ToWord(a), ToWord(b));
  }

  lemma MoveForms(i: Instr, s: State)
    requires Sound(s) && ZeroSafe(i) && Performable(i, s)
    requires i.m in {MFHI, MFLO}
    ensures ExecuteSimple(i, s).0 == 0
    ensures AbsCore(ExecuteSimple(i, s).1) == M.Perform(Described(i), AbsCore(s)).value
  {
    hide ToWord, ToInt32, M.Unsigned, M.Write, Put, Flat;
    SameWord(s.reg[HI]);
    SameWord(s.reg[LO]);
    match i.m
    case MFHI => AbsPut(s, i.rd, s.reg[HI], ToWord(s.reg[HI]));
    case MFLO => AbsPut(s, i.rd, s.reg[LO], ToWord(s.reg[LO]));
  }

  lemma SameWord(x: int)
    ensures M.Unsigned(x) == M.Unsigned(ToWord(x)) == ToWord(x)
  {
  }

  lemma AddImmediateForms(i: Instr, s: State)
    requires Sound(s) && ZeroSafe(i) && Performable(i, s)
    requires i.m in {ADDI, ADDIU}
    ensures ExecuteSimple(i, s).0 == 0
    ensures AbsCore(ExecuteSimple(i, s).1) == M.Perform(Described(i), AbsCore(s)).value
  {
    hide ToWord, ToInt32, M.Signed, M.Unsigned, M.Write, Put, Flat, AddOverflows, M.SignExtend;
    var a: int, im: int := s.reg[i.rs], i.im;
    WordArithmetic(a, im);
    SignedImmediate(i.im);
    match i.m
    case ADDI => AbsPut(s, i.rt, a + im, a + im);
    case ADDIU => AbsPut(s, i.rt, a + im, ToWord(a) as int + im);
  }

  lemma OtherImmediateForms(i: Instr, s: State)
    requires Sound(s) && ZeroSafe(i) && Performable(i, s)
    requires i.m in {SLTI, LUI}
    ensures ExecuteSimple(i, s).0 == 0
    ensures AbsCore(ExecuteSimple(i, s).1) == M.Perform(Described(i), AbsCore(s)).value
  {
    hide ToWord, ToInt32, M.Signed, M.Unsigned, M.Write, Put, Flat, M.SignExtend;
    var a: int, im: int := s.reg[i.rs], i.im;
    WordArithmetic(a, im);
    SignedImmediate(i.im);
    match i.m
    case SLTI => AbsPut(s, i.rt, Flag(a < im), Flag(a < im));
    case LUI =>
      UpperHalf(i.im);
      AbsPut(s, i.rt, im * 0x1_0000, im % 0x1_0000 * 0x1_0000);
  }

  lemma UpperHalf(im: int16)
    ensures M.Unsigned(im * 0x1_0000) == M.Unsigned(im % 0x1_0000 * 0x1_0000)
  {
  }

  lemma DivideForm(i: Instr, s: State)
    requires Sound(s) && Performable(i, s)
    requires i.m in {DIV, SLL}
    ensures ExecuteSimple(i, s).0 == 0
    ensures AbsCore(ExecuteSimple(i, s).1) == M.Perform(Described(i), AbsCore(s)).value
  {
    var a: int, b: int := s.reg[i.rs], s.reg[i.rt];
    hide ToWord, ToInt32, M.Signed, M.Unsigned, Put, Flat, CDiv, M.Quotient;
    WordArithmetic(a, 0);
    WordArithmetic(b, 0);
    if i.m == DIV {
      QuotientsAgree(a, b);
      AbsDivide(s, CDiv(a, b), CMod(a, b));
    }
  }

  lemma LoadForms(i: Instr, s: State)
    requires Sound(s) && ZeroSafe(i) && OneSegment(i, s) && Performable(i, s)
    requires i.m in {LBU, LW}
    ensures ExecuteSimple(i, s).0 == 0
    ensures AbsCore(ExecuteSimple(i, s).1) == M.Perform(Described(i), AbsCore(s)).value
  {
    var a := Address(i, s);
    hide ToWord, ToInt32, M.Unsigned, M.Write, Put, Flat, Address, M.EffectiveAddress, LoadWord, LoadByte,
         WordMapped, M.SignExtend, M.ReadWord, ValidImage, Ascending;
    AddressAgrees(i, s);
    match i.m
    case LBU =>
      FlatByte(s.mem, a);
      AbsPut(s, i.rt, LoadByte(s.mem, a), LoadByte(s.mem, a));
    case LW =>
      ReadAgrees(s.mem, a);
      AbsPut(s, i.rt, LoadWord(s.mem, a), M.ReadWord(Flat(s.mem), a));
  }

  lemma StoreForm(i: Instr, s: State)
    requires Sound(s) && OneSegment(i, s) && Performable(i, s)
    requires i.m in {SW}
    ensures ExecuteSimple(i, s).0 == 0
    ensures AbsCore(ExecuteSimple(i, s).1) == M.Perform(Described(i), AbsCore(s)).value
  {
    hide ToWord, ToInt32, M.Unsigned, Flat, Address, M.EffectiveAddress, StoreWord, WordMapped, Misaligned,
         M.SignExtend, M.WriteWord, ValidImage, Ascending;
    AddressAgrees(i, s);
    StoreAgrees(s, Address(i, s), i.rt);
  }

  // Where trapping agrees, in the operands and the mapped addresses: not on the quotient that does not
  // fit; for a load, not at an address without memory, which reads as 0 here; for a store, not where it
  // reaches a buffer without lying in mapped memory, past the end of a segment.
  ghost predicate TrapCondition(i: Instr, s: State)
    requires Valid(s)
  {
    var a := Address(i, s);
    match i.m
    case DIV => !(s.reg[i.rs] == -0x8000_0000 && s.reg[i.rt] == -1)
    case LBU => a in Flat(s.mem)
    case LW => a % 4 != 0 || M.HoldsWord(Flat(s.mem), a)
    case SW => a % 4 != 0 || M.HoldsWord(Flat(s.mem), a) || !Locate(s.mem, a).At?
    case _ => true
  }

  // The other half of the agreement: when the emulator returns a code exactly if the reference traps.
  lemma TrapsAgree(i: Instr, s: State)
    requires Sound(s) && i.m in {ADD, ADDI, SUB, DIV, LBU, LW, SW}
    ensures (M.Perform(Described(i), AbsCore(s)).Trap? <==> ExecuteSimple(i, s).0 != 0) <==> TrapCondition(i, s)
  {
    hide M.Perform, ExecuteSimple, AbsCore, Described, Address, Locate, Flat;
    if i.m in {LBU, LW, SW} {
      AccessTraps(i, s);
    } else {
      ArithmeticTraps(i, s);
      ArithmeticCodes(i, s);
    }
  }

  lemma ArithmeticTraps(i: Instr, s: State)
    requires Sound(s) && i.m in {ADD, ADDI, SUB, DIV}
    ensures M.Perform(Described(i), AbsCore(s)).Trap? <==>
            ExecuteSimple(i, s).0 != 0 || (i.m == DIV && s.reg[i.rs] == -0x8000_0000 && s.reg[i.rt] == -1)
  {
    hide M.Perform, ExecuteSimple, Described;
    ReferenceTraps(i, AbsCore(s));
    RegisterValue(s, i.rs);
    RegisterValue(s, i.rt);
    ArithmeticCodes(i, s);
  }

  lemma RegisterValue(s: State, r: field5)
    requires Valid(s)
    ensures M.Signed(AbsCore(s).gpr[r]) == s.reg[r]
  {
    hide Flat;
    SignedOf(s.reg[r]);
  }

  // When the reference traps, in the values of the operands,
  lemma ReferenceTraps(i: Instr, c: M.Core)
    requires |c.gpr| == 32 && i.m in {ADD, ADDI, SUB, DIV}
    ensures M.Perform(Described(i), c).Trap? <==>
            var (a, b) := (M.Signed(c.gpr[i.rs]), M.Signed(c.gpr[i.rt]));
            if i.m == ADD then !InInt32(a + b) else if i.m == ADDI then !InInt32(a + i.im)
            else if i.m == SUB then !InInt32(a - b) else b == 0 || (a == -0x8000_0000 && b == -1)
  {
    hide M.Signed, M.Unsigned, M.Write, M.Quotient, M.SignExtend;
    SignedImmediate(i.im);
  }

  // and when the emulator returns a code.
  lemma ArithmeticCodes(i: Instr, s: State)
    requires Valid(s) && i.m in {ADD, ADDI, SUB, DIV}
    ensures ExecuteSimple(i, s).0 != 0 <==>
            var (a, b) := (s.reg[i.rs] as int, s.reg[i.rt] as int);
            if i.m == ADD then !InInt32(a + b) else if i.m == ADDI then !InInt32(a + i.im)
            else if i.m == SUB then !InInt32(a - b) else b == 0
  {
    hide Put, AddOverflows, SubOverflows, CDiv, CMod, ToInt32;
  }

  lemma AccessTraps(i: Instr, s: State)
    requires Sound(s) && i.m in {LBU, LW, SW}
    ensures (M.Perform(Described(i), AbsCore(s)).Trap? <==> ExecuteSimple(i, s).0 != 0) <==> TrapCondition(i, s)
  {
    hide M.Perform, ExecuteSimple, AbsCore, Described, Address, Locate, Flat, M.HoldsWord;
    AccessTrapped(i, s);
    AccessCode(i, s);
    if M.HoldsWord(Flat(s.mem), Address(i, s)) {
      HeldIsLocated(s.mem, Address(i, s));
    }
  }

  // When the reference traps on an access,
  lemma AccessTrapped(i: Instr, s: State)
    requires Valid(s) && i.m in {LBU, LW, SW}
    ensures var a := Address(i, s);
            M.Perform(Described(i), AbsCore(s)).Trap? <==>
            if i.m == LBU then a !in Flat(s.mem) else !M.HoldsWord(Flat(s.mem), a)
  {
    hide Flat, Address, M.EffectiveAddress, M.HoldsWord, M.ReadWord, M.WriteWord, M.Write, M.SignExtend;
    AddressAgrees(i, s);
  }

  // and when the emulator returns a code.
  lemma AccessCode(i: Instr, s: State)
    requires Valid(s) && i.m in {LBU, LW, SW}
    ensures var a := Address(i, s);
            ExecuteSimple(i, s).0 != 0 <==>
            if i.m == LBU then false else if i.m == LW then a % 4 != 0 else a % 4 != 0 || !Locate(s.mem, a).At?
  {
    hide Address, Put, LoadWord, LoadByte, Locate, PutContent, PutWord, ToInt32;
  }

  lemma HeldIsLocated(m: Image, a: word)
    requires ValidImage(m) && Ascending(m) && M.HoldsWord(Flat(m), a)
    ensures a % 4 == 0 && Locate(m, a).At?
  {
    hide Locate, LoadByte;
    var i :| 0 <= i < |m| && Inside(m[i], a);
    LocateInside(m, a, i);
  }

  lemma AddressAgrees(i: Instr, s: State)
    requires Valid(s)
    ensures Address(i, s) == M.EffectiveAddress(AbsCore(s), i.rs, i.im % 0x1_0000)
  {
    hide Flat;
    SignedImmediate(i.im);
    WordArithmetic(s.reg[i.rs], i.im);
  }

  lemma FlatByte(m: Image, a: word)
    requires ValidImage(m)
    ensures a in Flat(m) ==> Flat(m)[a] == LoadByte(m, a)
  {
  }

  lemma ReadAgrees(m: Image, a: word)
    requires ValidImage(m) && Ascending(m) && WordMapped(m, a) && M.HoldsWord(Flat(m), a)
    ensures M.Unsigned(LoadWord(m, a)) == M.Unsigned(M.ReadWord(Flat(m), a))
    ensures ToWord(LoadWord(m, a)) == M.ReadWord(Flat(m), a)
  {
    hide Flat, LoadWord, WordMapped;
    LoadWordFlat(m, a);
  }

  lemma StoreAgrees(s: State, a: word, rt: nat)
    requires Valid(s) && Ascending(s.mem) && WordMapped(s.mem, a) && rt < 32 && M.HoldsWord(Flat(s.mem), a)
    ensures var r := StoreWord(s.mem, a, s.reg[rt]);
            && r.0 == 0
            && AbsCore(s.(mem := r.1)) == AbsCore(s).(mem := M.WriteWord(Flat(s.mem), a, ToWord(s.reg[rt])))
  {
    hide Flat, StoreWord, WordMapped;
    StoreWordFlat(s.mem, a, s.reg[rt]);
    var s' := s.(mem := StoreWord(s.mem, a, s.reg[rt]).1);
    assert AbsCore(s').gpr == AbsCore(s).gpr;
  }

  /* ---------- whole fetch steps ---------- */

  lemma AbsPC(s: State, v: int)
    requires Valid(s)
    ensures AbsCore(Put(s, PC, v)) == AbsCore(s)
    ensures Abs(Put(s, PC, v)) == M.Machine(AbsCore(s), M.Unsigned(v), M.Unsigned(v + 4))
  {
    hide Flat;
    assert AbsCore(Put(s, PC, v)).gpr == AbsCore(s).gpr;
    assert ToWord(ToInt32(v)) == M.Unsigned(v) && ToWord(ToInt32(v) as int + 4) == M.Unsigned(v + 4);
  }

  // A word fetched from inside a segment is the one the reference reads.
  lemma FetchAgrees(s: State)
    requires Sound(s) && WordMapped(s.mem, ToWord(s.reg[PC])) && M.HoldsWord(Flat(s.mem), ToWord(s.reg[PC]))
    ensures M.ReadWord(Flat(s.mem), ToWord(s.reg[PC])) == Fetch(s)
  {
    hide Flat, LoadWord, WordMapped;
    ReadAgrees(s.mem, ToWord(s.reg[PC]));
  }

  // The side conditions under which a word is executed as the architecture says.
  ghost predicate Conforming(s: State)
    requires Valid(s)
  {
    && WordMapped(s.mem, ToWord(s.reg[PC]))
    && M.Performed(M.Decode(Fetch(s)))
    && (Control(Decoded(Fetch(s))) || (ZeroSafe(Decoded(Fetch(s))) && OneSegment(Decoded(Fetch(s)), s)))
  }

  // Without a delay slot, one fetch step is one reference step.
  lemma SimpleStepRefines(s: State)
    requires Sound(s) && |s.mem| > 0 && Conforming(s) && !Control(Decoded(Fetch(s)))
    requires M.Step(Abs(s)).Done?
    ensures Step(s).0 == 0 && Abs(Step(s).1) == M.Step(Abs(s)).value
  {
    hide M.Decode, Described, Decoded, Fetch, ExecuteSimple, M.Perform, AbsCore, WordMapped, Flat, ToWord,
         M.Unsigned, Put, Misread, Opcode, Funct, GetSA;
    var u := Fetch(s);
    FetchWellDefined(s);
    FetchAgrees(s);
    DecodersAgree(u);
    PerformRefines(Decoded(u), s);
    SimpleCall(u, s);
    var s' := ExecuteSimple(Decoded(u), s).1;
    SimpleRegisters(Decoded(u), s);
    AbsPC(s', s'.reg[PC] as int + 4);
    NextTwo(s.reg[PC]);
  }

  lemma FetchWellDefined(s: State)
    requires Valid(s) && M.Step(Abs(s)).Done?
    ensures AbsCore(s).mem == Flat(s.mem) && M.HoldsWord(Flat(s.mem), ToWord(s.reg[PC]))
  {
  }

  lemma NextTwo(pc: int32)
    ensures ToWord(pc as int + 4) == M.Unsigned(pc as int + 4) == M.Unsigned(ToWord(pc) as int + 4)
    ensures M.Unsigned(ToWord(pc as int + 4) as int + 4) == M.Unsigned(pc as int + 4 + 4) == M.Unsigned(pc as int + 8)
    ensures M.Unsigned(pc as int + 8) == M.Unsigned(ToWord(pc) as int + 8)
  {
  }

  /* ---------- branches and jumps ---------- */

  // Where the emulator's step goes after the delay slot of i, issued from s.
  function Lands(i: Instr, s: State): word
    requires Valid(s)
  {
    ToWord(Redirect(i, s, ToInt32(s.reg[PC] as int + 4)) as int + 4)
  }

  lemma JumpLands(i: Instr, s: State)
    requires Valid(s) && i.m in {J, JAL}
    ensures Lands(i, s) == M.Target(Described(i), AbsCore(s), ToWord(s.reg[PC])) <==>
            ToWord(s.reg[PC] as int + 4) < 0x1000_0000
  {
    hide Flat, Or, TopNibble, AbsCore;
    var pc: int, slot := s.reg[PC], ToInt32(s.reg[PC] as int + 4);
    NextTwo(s.reg[PC]);
    SlotWord(pc);
    assert Lands(i, s) == JumpBits(i.target, slot) by { MinusFour(JumpBits(i.target, slot)); }
    var region := M.Region(ToWord(pc));
    RegionOf(pc);
    if ToWord(pc + 4) < 0x1000_0000 {
      LowJump(i.target, slot);
    }
  }

  lemma SlotWord(pc: int)
    ensures ToWord(ToInt32(pc + 4)) == ToWord(pc + 4)
  {
  }

  lemma MinusFour(x: word)
    ensures ToWord(ToInt32(x as int - 4) as int + 4) == x
  {
  }

  lemma RegionOf(pc: int)
    ensures ToWord(pc + 4) < 0x1000_0000 ==> M.Region(ToWord(pc)) == 0
    ensures ToWord(pc + 4) >= 0x1000_0000 ==> M.Region(ToWord(pc)) >= 0x1000_0000
  {
    WrapSum(pc, 4);
  }

  lemma LowJump(target: field26, pc: int32)
    requires ToWord(pc) < 0x1000_0000
    ensures JumpBits(target, pc) == target as int * 4
  {
    hide TopNibble, And;
    OrZero(target as int * 4);
  }

  lemma BranchLands(i: Instr, s: State)
    requires Valid(s) && (Conditional(i) || i.m == JR)
    ensures Lands(i, s) == M.Target(Described(i), AbsCore(s), ToWord(s.reg[PC]))
  {
    if i.m == JR {
      hide Flat, M.SignExtend, M.Unsigned;
      RegisterJump(s.reg[i.rs]);
    } else {
      ConditionalLands(i, s);
    }
  }

  lemma RegisterJump(a: int32)
    ensures ToWord(ToInt32(a as int - 4) as int + 4) == ToWord(a)
  {
  }

  lemma ConditionalLands(i: Instr, s: State)
    requires Valid(s) && Conditional(i)
    ensures Lands(i, s) == M.Target(Described(i), AbsCore(s), ToWord(s.reg[PC]))
  {
    hide Lands, M.Target, AbsCore, Described, ToWord, M.Unsigned, Taken;
    EmulatorBranch(i, s);
    ReferenceBranch(i, s);
  }

  lemma EmulatorBranch(i: Instr, s: State)
    requires Valid(s) && Conditional(i)
    ensures Lands(i, s) ==
            if Taken(i.m, s.reg[i.rs], s.reg[i.rt]) then M.Unsigned(ToWord(s.reg[PC]) as int + 4 + i.im * 4)
            else M.Unsigned(ToWord(s.reg[PC]) as int + 8)
  {
    hide ToWord, ToInt32, M.Unsigned, Taken;
    TakenArithmetic(s.reg[PC], i.im);
    UntakenArithmetic(s.reg[PC]);
  }

  lemma ReferenceBranch(i: Instr, s: State)
    requires Valid(s) && Conditional(i)
    ensures M.Target(Described(i), AbsCore(s), ToWord(s.reg[PC])) ==
            if Taken(i.m, s.reg[i.rs], s.reg[i.rt]) then M.Unsigned(ToWord(s.reg[PC]) as int + 4 + i.im * 4)
            else M.Unsigned(ToWord(s.reg[PC]) as int + 8)
  {
    hide Flat, ToWord, M.Signed, M.Unsigned, M.SignExtend;
    SignedOf(s.reg[i.rs]);
    SignedImmediate(i.im);
    EqualWords(s.reg[i.rs], s.reg[i.rt]);
  }

  lemma EqualWords(a: int32, b: int32)
    ensures ToWord(a) == ToWord(b) <==> a == b
  {
  }

  lemma TakenArithmetic(pc: int32, im: int16)
    ensures ToWord(ToInt32(ToInt32(pc as int + 4) as int + im * 4 - 4) as int + 4) ==
            M.Unsigned(ToWord(pc) as int + 4 + im * 4)
  {
    hide ToInt32, ToWord, M.Unsigned;
    WrapAdd(pc as int + 4, im * 4 - 4);
    MinusFourAgain(pc as int + im * 4);
    UnsignedShift(pc, im * 4 + 4);
  }

  lemma UnsignedShift(pc: int32, k: int)
    ensures M.Unsigned(pc as int + k) == M.Unsigned(ToWord(pc) as int + k)
  {
  }

  lemma MinusFourAgain(x: int)
    ensures ToWord(ToInt32(x) as int + 4) == M.Unsigned(x + 4)
  {
  }

  lemma UntakenArithmetic(pc: int32)
    ensures ToWord(ToInt32(pc as int + 4) as int + 4) == M.Unsigned(ToWord(pc) as int + 8)
  {
    MinusFourAgain(pc as int + 4);
  }

  // The state in which the delay slot of a jump or branch at s executes.
  function SlotState(s: State): (s1: State)
    requires Valid(s)
    ensures Valid(s1)
  {
    Advance(Link(Decoded(Fetch(s)), s))
  }

  // The call that executes a branch and its slot: the slot's effect, and PC redirected.
  lemma SlotExecuted(s: State)
    requires Valid(s) && Control(Decoded(Fetch(s))) && !Control(Decoded(Fetch(SlotState(s))))
    ensures var e := ExecuteSimple(Decoded(Fetch(SlotState(s))), SlotState(s)).1;
            && e.reg[PC] == ToInt32(s.reg[PC] as int + 4)
            && Execute(Fetch(s), s) == (0, Put(e, PC, Redirect(Decoded(Fetch(s)), s, e.reg[PC])))
  {
    hide Decoded, Fetch, ExecuteSimple, ToInt32, Redirect, Link, Put;
    var s1 := SlotState(s);
    SimpleCall(Fetch(s1), s1);
    SimpleRegisters(Decoded(Fetch(s1)), s1);
    SlotAddress(Decoded(Fetch(s)), s);
  }

  // A step over a jump or branch whose slot is no jump or branch ends where Lands says.
  lemma StepLands(s: State)
    requires Valid(s) && |s.mem| > 0 && Control(Decoded(Fetch(s))) && !Control(Decoded(Fetch(SlotState(s))))
    ensures Step(s).0 == 0 && ToWord(Step(s).1.reg[PC]) == Lands(Decoded(Fetch(s)), s)
  {
    hide Decoded, Fetch, ExecuteSimple, ToWord, ToInt32, Redirect, Put, Execute, Link;
    SlotExecuted(s);
    var e := ExecuteSimple(Decoded(Fetch(SlotState(s))), SlotState(s)).1;
    PutTwice(e, Redirect(Decoded(Fetch(s)), s, e.reg[PC]));
  }

  lemma SlotAddress(i: Instr, s: State)
    requires Valid(s)
    ensures Advance(Link(i, s)).reg[PC] == ToInt32(s.reg[PC] as int + 4)
  {
  }

  lemma PutTwice(e: State, pc: int32)
    requires Valid(e)
    ensures var t := Put(e, PC, pc);
            t.reg[PC] == pc && ToWord(Put(t, PC, pc as int + 4).reg[PC]) == ToWord(pc as int + 4)
  {
  }

  // The 256 MB region of the delay slot is lost by J and JAL: a step over one, with its slot, ends
  // where the architecture says if and only if the slot lies in the lowest region.
  lemma JumpExact(s: State)
    requires Valid(s) && |s.mem| > 0 && Decoded(Fetch(s)).m in {J, JAL} && !Control(Decoded(Fetch(SlotState(s))))
    ensures ToWord(Step(s).1.reg[PC]) == M.Target(Described(Decoded(Fetch(s))), AbsCore(s), ToWord(s.reg[PC])) <==>
            ToWord(s.reg[PC] as int + 4) < 0x1000_0000
  {
    hide Decoded, Fetch, Step, Lands, M.Target, Described, AbsCore, SlotState, ToWord;
    StepLands(s);
    JumpLands(Decoded(Fetch(s)), s);
  }

  // Where they end in any case: the top nibble of the slot's address or-ed into the low bits of the target.
  lemma JumpResult(s: State)
    requires Valid(s) && |s.mem| > 0 && Decoded(Fetch(s)).m in {J, JAL} && !Control(Decoded(Fetch(SlotState(s))))
    ensures var slot := (s.reg[PC] as int + 4) % 0x1_0000_0000;
            ToWord(Step(s).1.reg[PC]) == Or(slot / 0x1000_0000, Fetch(s) % 0x400_0000 * 4)
  {
    hide Decoded, Fetch, Step, SlotState, Lands;
    StepLands(s);
    LandsInLowBits(Decoded(Fetch(s)), s);
    TargetField(Fetch(s));
  }

  lemma TargetField(u: word)
    ensures Decoded(u).target == u % 0x400_0000
  {
    hide GetTarget;
  }

  lemma LandsInLowBits(i: Instr, s: State)
    requires Valid(s) && i.m in {J, JAL}
    ensures Lands(i, s) == Or((s.reg[PC] as int + 4) % 0x1_0000_0000 / 0x1000_0000, i.target as int * 4)
  {
    hide Or, And, ToInt32, TopNibble;
    var slot := ToInt32(s.reg[PC] as int + 4);
    SlotWord(s.reg[PC]);
    MinusFour(JumpBits(i.target, slot));
  }

  // The word of J 0, fetched at 2^28, does not go to the start of its region.
  lemma JumpLeavesItsRegion(s: State)
    requires Valid(s) && |s.mem| > 0 && s.reg[PC] == 0x1000_0000 && Fetch(s) == 0x0800_0000
    requires !Control(Decoded(Fetch(SlotState(s))))
    ensures ToWord(Step(s).1.reg[PC]) != 0x1000_0000 == M.Region(ToWord(s.reg[PC]))
  {
    hide Fetch, Step, M.Target, Flat, SlotState, Decoded, Described, ToWord, Control, ValidImage, M.Region;
    JumpWord();
    HighAddress();
    JumpExact(s);
    JumpTarget(AbsCore(s), ToWord(s.reg[PC]));
  }

  lemma HighAddress()
    ensures ToWord(0x1000_0000) == 0x1000_0000 && ToWord(0x1000_0000 + 4) == 0x1000_0004
    ensures M.Region(0x1000_0000) == 0x1000_0000
  {
  }

  lemma JumpTarget(c: M.Core, pc: word)
    requires |c.gpr| == 32
    ensures M.Target(M.Jump(0), c, pc) == M.Region(pc)
  {
  }

  lemma JumpWord()
    ensures Decoded(0x0800_0000).m == J && Described(Decoded(0x0800_0000)) == M.Jump(0)
  {
    hide GetBits;
  }

  // The delay slot is fetched from inside a segment, has no slot itself, and conforms.
  ghost predicate ConformingSlot(s: State)
    requires Valid(s)
  {
    Conforming(SlotState(s)) && !Control(Decoded(Fetch(SlotState(s))))
  }

  lemma SlotCore(s: State)
    requires Sound(s) && Control(Decoded(Fetch(s))) && Decoded(Fetch(s)).m != JARL
    ensures var (i, s1) := (Decoded(Fetch(s)), SlotState(s));
            && Sound(s1) && s1.reg[PC] == ToInt32(s.reg[PC] as int + 4)
            && AbsCore(s1) == if i.m == JAL then M.Write(AbsCore(s), 31, ToWord(s.reg[PC]) as int + 8) else AbsCore(s)
  {
    hide Decoded, Fetch, Flat, ToInt32, AbsCore, M.Write, ToWord, M.Unsigned, Put;
    var i := Decoded(Fetch(s));
    var s0 := Link(i, s);
    AbsPC(s0, s.reg[PC] as int + 4);
    NextTwo(s.reg[PC]);
    if i.m == JAL {
      AbsPut(s, RA, s.reg[PC] as int + 8, ToWord(s.reg[PC]) as int + 8);
    }
    SlotRegisters(i, s);
  }

  lemma SlotRegisters(i: Instr, s: State)
    requires Sound(s) && i.m != JARL
    ensures var s1 := Advance(Link(i, s));
            Sound(s1) && s1.reg[PC] == ToInt32(s.reg[PC] as int + 4)
  {
  }

  // With a delay slot, one fetch step is two reference steps: the branch and its slot.
  lemma BranchStepRefines(s: State)
    requires Sound(s) && |s.mem| > 0 && Conforming(s) && Control(Decoded(Fetch(s))) && ConformingSlot(s)
    requires Decoded(Fetch(s)).m in {J, JAL} ==> ToWord(s.reg[PC] as int + 4) < 0x1000_0000
    requires M.StepTwice(Abs(s)).Done?
    ensures Step(s).0 == 0 && Abs(Step(s).1) == M.StepTwice(Abs(s)).value
  {
    hide Decoded, Fetch, ExecuteSimple, AbsCore, SlotState, Put, Redirect, Step, Execute;
    hide M.StepTwice, M.Target, Described, Conforming, ToWord, M.Unsigned;
    NeverJarl(Fetch(s));
    BranchReference(s);
    SlotExecuted(s);
    var i, e := Decoded(Fetch(s)), ExecuteSimple(Decoded(Fetch(SlotState(s))), SlotState(s)).1;
    StepAfterSlot(s, e, Redirect(i, s, e.reg[PC]));
    TargetsAgree(i, s);
  }

  // The reference's two steps.
  lemma BranchReference(s: State)
    requires Sound(s) && Conforming(s) && Control(Decoded(Fetch(s))) && Decoded(Fetch(s)).m != JARL && ConformingSlot(s)
    requires M.StepTwice(Abs(s)).Done?
    ensures var t := M.Target(Described(Decoded(Fetch(s))), AbsCore(s), ToWord(s.reg[PC]));
            M.StepTwice(Abs(s)).value ==
            M.Machine(AbsCore(ExecuteSimple(Decoded(Fetch(SlotState(s))), SlotState(s)).1), t, M.Unsigned(t as int + 4))
  {
    hide Decoded, Fetch, ExecuteSimple, AbsCore, SlotState, M.Step, M.Target, M.Decode, Described, WordMapped, Flat;
    FetchWellDefined(s);
    FetchAgrees(s);
    DecodersAgree(Fetch(s));
    var m1 := BranchMachine(s);
    SlotCore(s);
    SlotWord(s.reg[PC]);
    SlotReference(SlotState(s), m1);
  }

  // The reference's second step: the slot.
  lemma SlotReference(s1: State, m1: M.Machine)
    requires Sound(s1) && Conforming(s1) && !Control(Decoded(Fetch(s1)))
    requires m1.core == AbsCore(s1) && m1.pc == ToWord(s1.reg[PC]) && M.Step(m1).Done?
    ensures M.Step(m1).value ==
            M.Machine(AbsCore(ExecuteSimple(Decoded(Fetch(s1)), s1).1), m1.npc, M.Unsigned(m1.npc as int + 4))
  {
    hide M.Decode, Described, Decoded, Fetch, ExecuteSimple, M.Perform, AbsCore, WordMapped, Flat, ToWord, M.Unsigned;
    SlotFetch(s1, m1);
    DecodersAgree(Fetch(s1));
    PerformRefines(Decoded(Fetch(s1)), s1);
  }

  lemma TargetsAgree(i: Instr, s: State)
    requires Valid(s) && Control(i) && i.m != JARL
    requires i.m in {J, JAL} ==> ToWord(s.reg[PC] as int + 4) < 0x1000_0000
    ensures Lands(i, s) == M.Target(Described(i), AbsCore(s), ToWord(s.reg[PC]))
  {
    hide Lands, M.Target, Described, AbsCore;
    if i.m in {J, JAL} {
      JumpLands(i, s);
    } else {
      BranchLands(i, s);
    }
  }

  // The reference machine between a branch and its delay slot.
  lemma BranchMachine(s: State) returns (m1: M.Machine)
    requires Sound(s) && Control(Decoded(Fetch(s))) && Decoded(Fetch(s)).m != JARL
    requires M.HoldsWord(Flat(s.mem), ToWord(s.reg[PC])) && M.ReadWord(Flat(s.mem), ToWord(s.reg[PC])) == Fetch(s)
    requires M.Decode(Fetch(s)) == Described(Decoded(Fetch(s)))
    ensures M.Step(Abs(s)) == M.Done(m1)
    ensures m1 == M.Machine(AbsCore(SlotState(s)), ToWord(s.reg[PC] as int + 4),
                            M.Target(Described(Decoded(Fetch(s))), AbsCore(s), ToWord(s.reg[PC])))
  {
    hide M.Decode, Decoded, Fetch, Flat, ToWord, ToInt32, M.Unsigned, Put, SlotState, M.Target, M.Write;
    SlotCore(s);
    m1 := M.Step(Abs(s)).value;
  }

  lemma SlotFetch(s1: State, m1: M.Machine)
    requires Sound(s1) && WordMapped(s1.mem, ToWord(s1.reg[PC]))
    requires m1.core == AbsCore(s1) && m1.pc == ToWord(s1.reg[PC])
    requires M.Step(m1).Done?
    ensures m1.core.mem == Flat(s1.mem)
    ensures M.HoldsWord(Flat(s1.mem), m1.pc) && M.ReadWord(Flat(s1.mem), m1.pc) == Fetch(s1)
  {
    hide WordMapped, Flat, Fetch, M.Decode, M.Perform, M.ReadWord;
    FetchAgrees(s1);
  }

  lemma StepAfterSlot(s: State, e: State, pc': int32)
    requires Valid(s) && Valid(e) && |s.mem| > 0
    requires Execute(Fetch(s), s) == (0, Put(e, PC, pc'))
    ensures Step(s).0 == 0
    ensures Abs(Step(s).1) == M.Machine(AbsCore(e), ToWord(pc' as int + 4),
            M.Unsigned(ToWord(pc' as int + 4) as int + 4))
  {
    hide Execute, Fetch, Flat, AbsCore;
    AbsPC(Put(e, PC, pc'), pc' as int + 4);
    AbsPC(e, pc');
    WrapNothing(pc');
  }

  /* ---------- whole runs ---------- */

  // The checkable conditions of one step: what is fetched conforms, a jump stays in the lowest
  // region, and the reference does not trap.
  ghost predicate GoodStep(s: State)
    requires Valid(s)
  {
    && |s.mem| > 0 && Conforming(s)
    && if Control(Decoded(Fetch(s))) then
         && ConformingSlot(s) && M.StepTwice(Abs(s)).Done?
         && (Decoded(Fetch(s)).m in {J, JAL} ==> ToWord(s.reg[PC] as int + 4) < 0x1000_0000)
       else M.Step(Abs(s)).Done?
  }

  ghost predicate GoodRun(s: State, n: nat)
    requires Valid(s)
    decreases n
  {
    n == 0 || (GoodStep(s) && GoodRun(Step(s).1, n - 1))
  }

  // Reference steps taken during n emulator steps: two where there is a delay slot.
  ghost function Cost(s: State, n: nat): nat
    requires Valid(s) && |s.mem| > 0
    decreases n
  {
    if n == 0 then 0
    else (if Control(Decoded(Fetch(s))) then 2 else 1) + Cost(Step(s).1, n - 1)
  }

  lemma GoodStepRefines(s: State)
    requires Sound(s) && GoodStep(s)
    ensures Step(s).0 == 0 && Sound(Step(s).1)
    ensures Control(Decoded(Fetch(s))) ==> M.StepTwice(Abs(s)) == M.Done(Abs(Step(s).1))
    ensures !Control(Decoded(Fetch(s))) ==> M.Step(Abs(s)) == M.Done(Abs(Step(s).1))
  {
    hide Step, M.Step, M.StepTwice, Conforming, ConformingSlot, Fetch, Decoded;
    if Control(Decoded(Fetch(s))) {
      BranchStepRefines(s);
      M.ZeroStaysTwice(Abs(s));
    } else {
      SimpleStepRefines(s);
      M.ZeroStays(Abs(s));
    }
    StepShape(s);
    AscendingShape(s.mem, Step(s).1.mem);
    ZeroRegister(s);
    ZeroRegister(Step(s).1);
  }

  lemma ZeroRegister(s: State)
    requires Valid(s)
    ensures Abs(s).core.gpr[0] == 0 <==> s.reg[0] == 0
  {
    hide Flat;
  }

  // Any conforming run is a run of the reference machine, and register 0 stays zero throughout.
  lemma {:induction false} RunRefines(s: State, n: nat)
    requires Sound(s) && |s.mem| > 0 && GoodRun(s, n)
    ensures Sound(Run(s, n))
    ensures M.Run(Abs(s), Cost(s, n)) == M.Done(Abs(Run(s, n)))
    decreases n
  {
    hide Step, M.Step, GoodStep, Fetch, Decoded, Sound, Abs, Valid;
    if n > 0 {
      ValidOfSound(s);
      GoodStepRefines(s);
      var s1 := Step(s).1;
      RunRefines(s1, n - 1);
      if Control(Decoded(Fetch(s))) {
        M.RunTwo(Abs(s), Abs(s1), Cost(s1, n - 1));
      }
    }
  }

  lemma ValidOfSound(s: State)
    requires Sound(s)
    ensures Valid(s)
  {
  }
}

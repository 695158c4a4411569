/** The disassembler (getR and dispAssem in src/lib.c): the line printed for a word. */
module Disasm {
  import opened Words
  import opened Decode
  import N = Numerals

  // The string getInstr returns.
  function Name(m: Mnemonic): string {
    match m
    case ADD => "ADD" case ADDI => "ADDI" case ADDIU => "ADDIU" case ADDU => "ADDU" case AND => "AND"
    case ANDI => "ANDI" case BEQ => "BEQ" case BGEZ => "BGEZ" case BGTZ => "BGTZ" case BLEZ => "BLEZ"
    case BLTZ => "BLTZ" case BNE => "BNE" case BREAK => "BREAK" case DIV => "DIV" case J => "J"
    case JAL => "JAL" case JALR => "JALR" case JARL => "JARL" case JR => "JR" case LB => "LB"
    case LBU => "LBU" case LUI => "LUI" case LW => "LW" case MFHI => "MFHI" case MFLO => "MFLO"
    case MULT => "MULT" case OR => "OR" case ORI => "ORI" case SB => "SB" case SEB => "SEB"
    case SLL => "SLL" case SLT => "SLT" case SLTI => "SLTI" case SLTIU => "SLTIU" case SLTU => "SLTU"
    case SRA => "SRA" case SRL => "SRL" case SUB => "SUB" case SUBU => "SUBU" case SW => "SW"
    case SYSCALL => "SYSCALL" case XOR => "XOR" case PROBLEME => "PROBLEME"
  }

  // The register name getR returns for a register field.
  function RegName(a: field5): string {
    if a == 0 then "$zero" else if a == 1 then "$at" else if a == 2 then "$v0" else if a == 3 then "$v1"
    else if a == 4 then "$a0" else if a == 5 then "$a1" else if a == 6 then "$a2" else if a == 7 then "$a3"
    else if a == 8 then "$t0" else if a == 9 then "$t1" else if a == 10 then "$t2" else if a == 11 then "$t3"
    else if a == 12 then "$t4" else if a == 13 then "$t5" else if a == 14 then "$t6" else if a == 15 then "$t7"
    else if a == 16 then "$s0" else if a == 17 then "$s1" else if a == 18 then "$s2" else if a == 19 then "$s3"
    else if a == 20 then "$s4" else if a == 21 then "$s5" else if a == 22 then "$s6" else if a == 23 then "$s7"
    else if a == 24 then "$t8" else if a == 25 then "$t9" else if a == 26 then "$k0" else if a == 27 then "$k1"
    else if a == 28 then "$gp" else if a == 29 then "$sp" else if a == 30 then "$fp" else "$ra"
  }

  // The operand lists dispAssem prints.
  datatype Format =
    | RdRsRt | RtRsImm | RsRtBranch | RsBranch | RsRt | RdRs | RdRt | RdRtSa | OneRs | OneRd | RtImm
    | RtOffRs | RtOffSpaceRs | Hexadecimal | NoOperand | NopLine | UnknownLine

  function FormatOf(i: Instr): Format {
    match i.m
    case ADD => RdRsRt case ADDU => RdRsRt case AND => RdRsRt case OR => RdRsRt case SLT => RdRsRt
    case SLTU => RdRsRt case SUB => RdRsRt case SUBU => RdRsRt case XOR => RdRsRt
    case ADDI => RtRsImm case ADDIU => RtRsImm case ANDI => RtRsImm case ORI => RtRsImm
    case SLTI => RtRsImm case SLTIU => RtRsImm
    case BEQ => RsRtBranch case BNE => RsRtBranch
    case BGEZ => RsBranch case BGTZ => RsBranch case BLEZ => RsBranch case BLTZ => RsBranch
    case DIV => RsRt case MULT => RsRt
    case J => Hexadecimal case JAL => Hexadecimal
    case JARL => RdRs
    case JR => OneRs
    case LB => RtOffSpaceRs case LBU => RtOffSpaceRs
    case LW => RtOffRs case SB => RtOffRs case SW => RtOffRs
    case LUI => RtImm
    case MFHI => OneRd case MFLO => OneRd
    case SEB => RdRt
    case SLL => if i.rd == 0 && i.rt == 0 && i.sa == 0 then NopLine else RdRtSa
    case SRA => RdRtSa case SRL => RdRtSa
    case BREAK => NoOperand case SYSCALL => NoOperand
    case JALR => UnknownLine case PROBLEME => UnknownLine
  }

  // Operand text is built from the right, each piece followed by its separator.
  function Comma(a: string, rest: string): string { a + (", " + rest) }

  function End(a: string): string { a + "\n" }

  function Paren(a: string, open: string, r: string): string { a + (open + (r + ")\n")) }

  function Operands(i: Instr): string {
    match FormatOf(i)
    case RdRsRt => " " + Comma(RegName(i.rd), Comma(RegName(i.rs), End(RegName(i.rt))))
    case RtRsImm => " " + Comma(RegName(i.rt), Comma(RegName(i.rs), End(N.Signed(i.im))))
    case RsRtBranch => " " + Comma(RegName(i.rs), Comma(RegName(i.rt), End(N.Signed(i.im * 4))))
    case RsBranch => " " + Comma(RegName(i.rs), End(N.Signed(i.im * 4)))
    case RsRt => " " + Comma(RegName(i.rs), End(RegName(i.rt)))
    case RdRs => " " + Comma(RegName(i.rd), End(RegName(i.rs)))
    case RdRt => " " + Comma(RegName(i.rd), End(RegName(i.rt)))
    case RdRtSa => " " + Comma(RegName(i.rd), Comma(RegName(i.rt), End(N.Signed(i.sa))))
    case OneRs => " " + End(RegName(i.rs))
    case OneRd => " " + End(RegName(i.rd))
    case RtImm => " " + Comma(RegName(i.rt), End(N.Signed(i.im)))
    case RtOffRs => " " + Comma(RegName(i.rt), Paren(N.Signed(i.im), "(", RegName(i.rs)))
    case RtOffSpaceRs => " " + Comma(RegName(i.rt), Paren(N.Signed(i.im), " (", RegName(i.rs)))
    case Hexadecimal => " " + End("0x" + N.Unsigned(i.target * 4, 16))
    case NoOperand => "\n"
    case NopLine => "\n"
    case UnknownLine => " inconnue !!!\n"
  }

  function Head(i: Instr): string {
    match FormatOf(i)
    case NopLine => "NOP"
    case UnknownLine => "Instruction"
    case _ => Name(i.m)
  }

  function Line(i: Instr): string { Head(i) + Operands(i) }

  // dispAssem(u)
  function DispAssem(u: word): string { Line(Decoded(u)) }

  /* ---------- reading a line back ---------- */

  // Only what a line shows: fields it does not print are cleared.
  function Shown(i: Instr): Instr {
    var b := Bare(i.m);
    match FormatOf(i)
    case RdRsRt => b.(rd := i.rd, rs := i.rs, rt := i.rt)
    case RtRsImm => b.(rt := i.rt, rs := i.rs, im := i.im)
    case RsRtBranch => b.(rs := i.rs, rt := i.rt, im := i.im)
    case RsBranch => b.(rs := i.rs, im := i.im)
    case RsRt => b.(rs := i.rs, rt := i.rt)
    case RdRs => b.(rd := i.rd, rs := i.rs)
    case RdRt => b.(rd := i.rd, rt := i.rt)
    case RdRtSa => b.(rd := i.rd, rt := i.rt, sa := i.sa)
    case OneRs => b.(rs := i.rs)
    case OneRd => b.(rd := i.rd)
    case RtImm => b.(rt := i.rt, im := i.im)
    case RtOffRs => b.(rt := i.rt, im := i.im, rs := i.rs)
    case RtOffSpaceRs => b.(rt := i.rt, im := i.im, rs := i.rs)
    case Hexadecimal => b.(target := i.target)
    case NoOperand => b
    case NopLine => b
    case UnknownLine => Bare(PROBLEME)
  }

  // Characters that end a printed item.
  predicate Separator(c: char) {
    c == ' ' || c == '\n' || c == ',' || c == '(' || c == ')'
  }

  predicate Clean(s: string) {
    forall k :: 0 <= k < |s| ==> !Separator(s[k])
  }

  predicate Starts(s: string) {
    s != "" && Separator(s[0])
  }

  // Two equal texts agree up to their first separator and from it on.
  lemma Cut(a: string, x: string, b: string, y: string)
    requires a + x == b + y && Clean(a) && Clean(b) && Starts(x) && Starts(y)
    ensures a == b && x == y
  {
    HeadNotLonger(a, x, b, y);
    HeadNotLonger(b, y, a, x);
    assert a == (a + x)[..|a|] && b == (b + y)[..|b|];
    assert x == (a + x)[|a|..] && y == (b + y)[|b|..];
  }

  lemma HeadNotLonger(a: string, x: string, b: string, y: string)
    requires a + x == b + y && Clean(a) && Starts(y)
    ensures |a| <= |b|
  {
    assert (a + x)[|b|] == y[0];
  }

  lemma CommaInjective(a: string, x: string, b: string, y: string)
    requires Comma(a, x) == Comma(b, y) && Clean(a) && Clean(b)
    ensures a == b && x == y
  {
    Cut(a, ", " + x, b, ", " + y);
    assert (", " + x)[2..] == x && (", " + y)[2..] == y;
  }

  lemma EndInjective(a: string, b: string)
    requires End(a) == End(b) && Clean(a) && Clean(b)
    ensures a == b
  {
    Cut(a, "\n", b, "\n");
  }

  lemma ParenInjective(a: string, r: string, b: string, q: string, open: string)
    requires Starts(open) && Paren(a, open, r) == Paren(b, open, q) && Clean(a) && Clean(b) && Clean(r) && Clean(q)
    ensures a == b && r == q
  {
    Cut(a, open + (r + ")\n"), b, open + (q + ")\n"));
    assert (open + (r + ")\n"))[|open|..] == r + ")\n" && (open + (q + ")\n"))[|open|..] == q + ")\n";
    Cut(r, ")\n", q, ")\n");
  }

  lemma SpaceInjective(x: string, y: string)
    requires " " + x == " " + y
    ensures x == y
  {
    assert (" " + x)[1..] == x && (" " + y)[1..] == y;
  }

  /* ---------- names ---------- */

  // The register a name stands for.
  function RegOf(s: string): int
    requires |s| >= 3
  {
    var d := s[2] as int - '0' as int;
    if s[1] == 'z' then 0
    else if s[1] == 'a' then (if s[2] == 't' then 1 else 4 + d)
    else if s[1] == 'v' then 2 + d
    else if s[1] == 't' then (if d < 8 then 8 + d else 16 + d)
    else if s[1] == 's' then (if s[2] == 'p' then 29 else 16 + d)
    else if s[1] == 'k' then 26 + d
    else if s[1] == 'g' then 28
    else if s[1] == 'f' then 30
    else 31
  }

  lemma RegNames(a: field5)
    ensures |RegName(a)| >= 3 && Clean(RegName(a)) && RegOf(RegName(a)) == a
  {
  }

  /* ---------- first words ---------- */

  datatype HeadWord = Op(m: Mnemonic) | NopWord | UnknownWord

  function HeadWordOf(i: Instr): HeadWord {
    match FormatOf(i)
    case NopLine => NopWord
    case UnknownLine => UnknownWord
    case _ => Op(i.m)
  }

  // The first word of a line, read back.
  function ReadHead(s: string): HeadWord {
    if |s| == 1 then Op(J)
    else if |s| == 2 then
      if s[0] == 'J' then Op(JR) else if s[0] == 'O' then Op(OR)
      else if s[0] == 'L' then (if s[1] == 'B' then Op(LB) else Op(LW))
      else if s[1] == 'B' then Op(SB) else Op(SW)
    else if |s| == 3 then
      if s[0] == 'A' then (if s[1] == 'D' then Op(ADD) else Op(AND))
      else if s[0] == 'B' then (if s[1] == 'E' then Op(BEQ) else Op(BNE))
      else if s[0] == 'D' then Op(DIV) else if s[0] == 'J' then Op(JAL)
      else if s[0] == 'L' then (if s[1] == 'B' then Op(LBU) else Op(LUI))
      else if s[0] == 'N' then NopWord else if s[0] == 'O' then Op(ORI) else if s[0] == 'X' then Op(XOR)
      else if s[1] == 'E' then Op(SEB) else if s[1] == 'U' then Op(SUB)
      else if s[1] == 'L' then (if s[2] == 'L' then Op(SLL) else Op(SLT))
      else if s[2] == 'A' then Op(SRA) else Op(SRL)
    else if |s| == 4 then
      if s[0] == 'A' then (if s[1] == 'N' then Op(ANDI) else if s[3] == 'I' then Op(ADDI) else Op(ADDU))
      else if s[0] == 'B' then
        if s[1] == 'G' then (if s[2] == 'E' then Op(BGEZ) else Op(BGTZ)) else if s[2] == 'E' then Op(BLEZ) else Op(BLTZ)
      else if s[0] == 'J' then Op(JARL)
      else if s[0] == 'M' then (if s[1] == 'U' then Op(MULT) else if s[2] == 'H' then Op(MFHI) else Op(MFLO))
      else if s[1] == 'U' then Op(SUBU) else if s[3] == 'I' then Op(SLTI) else Op(SLTU)
    else if |s| == 5 then
      if s[0] == 'A' then Op(ADDIU) else if s[0] == 'B' then Op(BREAK) else Op(SLTIU)
    else if |s| == 7 then Op(SYSCALL)
    else UnknownWord
  }

  // Mnemonics of at most three letters that the decoder can produce or the printer tests for.
  predicate ShortName(m: Mnemonic) {
    EarlyName(m) || LateName(m) || LastName(m)
  }

  predicate EarlyName(m: Mnemonic) {
    || m.ADD? || m.AND? || m.BEQ? || m.BNE? || m.DIV? || m.J? || m.JAL? || m.JR? || m.LB? || m.LBU? || m.LUI? || m.LW?
  }

  predicate LateName(m: Mnemonic) {
    || m.OR? || m.ORI? || m.SB? || m.SEB? || m.SLL?
  }

  predicate LastName(m: Mnemonic) {
    || m.SLT? || m.SRA? || m.SRL? || m.SUB? || m.SW? || m.XOR?
  }

  lemma EarlyNames(m: Mnemonic)
    requires EarlyName(m)
    ensures ReadHead(Name(m)) == Op(m)
  {
  }

  lemma LateNames(m: Mnemonic)
    requires LateName(m)
    ensures ReadHead(Name(m)) == Op(m)
  {
  }

  lemma LastNames(m: Mnemonic)
    requires LastName(m)
    ensures ReadHead(Name(m)) == Op(m)
  {
  }

  lemma ShortNames(m: Mnemonic)
    requires ShortName(m)
    ensures ReadHead(Name(m)) == Op(m)
  {
    hide ReadHead, Name;
    if EarlyName(m) {
      EarlyNames(m);
    } else if LateName(m) {
      LateNames(m);
    } else {
      LastNames(m);
    }
  }

  lemma LongNames(m: Mnemonic)
    requires !ShortName(m) && m !in {JALR, PROBLEME}
    ensures ReadHead(Name(m)) == Op(m)
  {
  }

  lemma ShortNamesClean(m: Mnemonic)
    requires ShortName(m)
    ensures Clean(Name(m))
  {
  }

  lemma LongNamesClean(m: Mnemonic)
    requires !ShortName(m)
    ensures Clean(Name(m))
  {
  }

  lemma OtherHeads()
    ensures Clean("NOP") && Clean("Instruction")
    ensures ReadHead("NOP") == NopWord && ReadHead("Instruction") == UnknownWord
  {
  }

  lemma HeadReads(i: Instr)
    ensures ReadHead(Head(i)) == HeadWordOf(i) && Clean(Head(i))
  {
    hide ReadHead, Clean, Name, ShortName;
    OtherHeads();
    if i.m !in {JALR, PROBLEME} {
      if ShortName(i.m) {
        ShortNames(i.m);
        ShortNamesClean(i.m);
      } else {
        LongNames(i.m);
        LongNamesClean(i.m);
      }
    }
  }

  // The rest of a line starts with a separator.
  lemma OperandsStart(i: Instr)
    ensures Starts(Operands(i))
  {
    hide RegName, Comma, End, Paren;
  }

  /* ---------- the line determines the instruction ---------- */

  // A line shows the mnemonic and every printed field without ambiguity.
  lemma LineInjective(i: Instr, j: Instr)
    requires Line(i) == Line(j)
    ensures Shown(i) == Shown(j)
  {
    hide Head, Operands, Shown, FormatOf, ReadHead, Clean, Starts, HeadWordOf;
    HeadReads(i);
    HeadReads(j);
    OperandsStart(i);
    OperandsStart(j);
    Cut(Head(i), Operands(i), Head(j), Operands(j));
    SameFormat(i, j);
    if FormatOf(i) in {NopLine, UnknownLine, NoOperand} {
      NoFields(i, j);
    } else {
      OperandsInjective(i, j);
    }
  }

  lemma SameFormat(i: Instr, j: Instr)
    requires HeadWordOf(i) == HeadWordOf(j)
    ensures FormatOf(i) == FormatOf(j)
    ensures FormatOf(i) !in {NopLine, UnknownLine} ==> i.m == j.m
  {
  }

  lemma NoFields(i: Instr, j: Instr)
    requires HeadWordOf(i) == HeadWordOf(j) && FormatOf(i) == FormatOf(j)
    requires FormatOf(i) in {NopLine, UnknownLine, NoOperand}
    ensures Shown(i) == Shown(j)
  {
  }

  lemma OneArg(a: string, b: string)
    requires " " + End(a) == " " + End(b) && Clean(a) && Clean(b)
    ensures a == b
  {
    SpaceInjective(End(a), End(b));
    EndInjective(a, b);
  }

  lemma TwoArgs(a: string, x: string, b: string, y: string)
    requires " " + Comma(a, End(x)) == " " + Comma(b, End(y))
    requires Clean(a) && Clean(x) && Clean(b) && Clean(y)
    ensures a == b && x == y
  {
    SpaceInjective(Comma(a, End(x)), Comma(b, End(y)));
    CommaInjective(a, End(x), b, End(y));
    EndInjective(x, y);
  }

  lemma ThreeArgs(a: string, x: string, u: string, b: string, y: string, v: string)
    requires " " + Comma(a, Comma(x, End(u))) == " " + Comma(b, Comma(y, End(v)))
    requires Clean(a) && Clean(x) && Clean(u) && Clean(b) && Clean(y) && Clean(v)
    ensures a == b && x == y && u == v
  {
    SpaceInjective(Comma(a, Comma(x, End(u))), Comma(b, Comma(y, End(v))));
    CommaInjective(a, Comma(x, End(u)), b, Comma(y, End(v)));
    CommaInjective(x, End(u), y, End(v));
    EndInjective(u, v);
  }

  lemma MemoryArgs(a: string, x: string, u: string, b: string, y: string, v: string, open: string)
    requires " " + Comma(a, Paren(x, open, u)) == " " + Comma(b, Paren(y, open, v)) && Starts(open)
    requires Clean(a) && Clean(x) && Clean(u) && Clean(b) && Clean(y) && Clean(v)
    ensures a == b && x == y && u == v
  {
    SpaceInjective(Comma(a, Paren(x, open, u)), Comma(b, Paren(y, open, v)));
    CommaInjective(a, Paren(x, open, u), b, Paren(y, open, v));
    ParenInjective(x, u, y, v, open);
  }

  // Register names and numbers are clean, and distinct ones are distinct.
  ghost predicate SameReg(a: field5, b: field5) {
    && Clean(RegName(a)) && Clean(RegName(b)) && (RegName(a) == RegName(b) ==> a == b)
  }

  ghost predicate SameNumber(m: int, n: int) {
    && Clean(N.Signed(m)) && Clean(N.Signed(n)) && (N.Signed(m) == N.Signed(n) ==> m == n)
  }

  lemma Regs(a: field5, b: field5)
    ensures SameReg(a, b)
  {
    hide RegName;
    RegNames(a);
    RegNames(b);
  }

  lemma Numbers(m: int, n: int)
    ensures SameNumber(m, n)
  {
    SignedClean(m);
    SignedClean(n);
    if N.Signed(m) == N.Signed(n) {
      N.SignedInjective(m, n);
    }
  }

  lemma SignedClean(n: int)
    ensures Clean(N.Signed(n))
  {
    N.UnsignedReads(AbsInt(n), 10);
  }

  lemma HexReads(m: nat, n: nat)
    ensures Clean("0x" + N.Unsigned(m, 16)) && Clean("0x" + N.Unsigned(n, 16))
    ensures "0x" + N.Unsigned(m, 16) == "0x" + N.Unsigned(n, 16) ==> m == n
  {
    hide N.Unsigned;
    HexClean(m);
    HexClean(n);
    N.UnsignedReads(m, 16);
    N.UnsignedReads(n, 16);
    assert ("0x" + N.Unsigned(m, 16))[2..] == N.Unsigned(m, 16);
    assert ("0x" + N.Unsigned(n, 16))[2..] == N.Unsigned(n, 16);
  }

  lemma HexClean(m: nat)
    ensures Clean("0x" + N.Unsigned(m, 16))
  {
    hide N.Unsigned;
    N.UnsignedReads(m, 16);
  }

  lemma OperandsInjective(i: Instr, j: Instr)
    requires FormatOf(i) == FormatOf(j) && FormatOf(i) !in {NopLine, UnknownLine, NoOperand} && i.m == j.m
    requires Operands(i) == Operands(j)
    ensures Shown(i) == Shown(j)
  {
    hide RegName, Comma, End, Paren, Clean, N.Signed, N.Unsigned, FormatOf;
    Regs(i.rd, j.rd);
    Regs(i.rs, j.rs);
    Regs(i.rt, j.rt);
    Numbers(i.im, j.im);
    Numbers(i.im * 4, j.im * 4);
    Numbers(i.sa, j.sa);
    HexReads(i.target * 4, j.target * 4);
    match FormatOf(i)
    case RdRsRt => ThreeArgs(RegName(i.rd), RegName(i.rs), RegName(i.rt), RegName(j.rd), RegName(j.rs), RegName(j.rt));
    case RtRsImm => ThreeArgs(RegName(i.rt), RegName(i.rs), N.Signed(i.im), RegName(j.rt), RegName(j.rs),
        N.Signed(j.im));
    case RsRtBranch => ThreeArgs(RegName(i.rs), RegName(i.rt), N.Signed(i.im * 4), RegName(j.rs), RegName(j.rt),
        N.Signed(j.im * 4));
    case RsBranch => TwoArgs(RegName(i.rs), N.Signed(i.im * 4), RegName(j.rs), N.Signed(j.im * 4));
    case RsRt => TwoArgs(RegName(i.rs), RegName(i.rt), RegName(j.rs), RegName(j.rt));
    case RdRs => TwoArgs(RegName(i.rd), RegName(i.rs), RegName(j.rd), RegName(j.rs));
    case RdRt => TwoArgs(RegName(i.rd), RegName(i.rt), RegName(j.rd), RegName(j.rt));
    case RdRtSa => ThreeArgs(RegName(i.rd), RegName(i.rt), N.Signed(i.sa), RegName(j.rd), RegName(j.rt),
        N.Signed(j.sa));
    case OneRs => OneArg(RegName(i.rs), RegName(j.rs));
    case OneRd => OneArg(RegName(i.rd), RegName(j.rd));
    case RtImm => TwoArgs(RegName(i.rt), N.Signed(i.im), RegName(j.rt), N.Signed(j.im));
    case RtOffRs => MemoryArgs(RegName(i.rt), N.Signed(i.im), RegName(i.rs), RegName(j.rt), N.Signed(j.im),
        RegName(j.rs), "(");
    case RtOffSpaceRs => MemoryArgs(RegName(i.rt), N.Signed(i.im), RegName(i.rs), RegName(j.rt), N.Signed(j.im),
        RegName(j.rs), " (");
    case Hexadecimal => OneArg("0x" + N.Unsigned(i.target * 4, 16), "0x" + N.Unsigned(j.target * 4, 16));
  }
}

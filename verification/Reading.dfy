/** Reading a disassembled line, by position: the mnemonic and register names are looked up in tables of
    their own, operands stand in the order of the assembler's syntax, and numbers are positional numerals. */
module Reading {
  import opened Words
  import opened Decode
  import opened Memory
  import opened Engine
  import opened Chains
  import opened Disasm
  import N = Numerals

  /* ---------- register names, as the set and disp commands read them ---------- */

  const REGISTER_NAMES: seq<string> :=
    ["$zero", "$at", "$v0", "$v1", "$a0", "$a1", "$a2", "$a3", "$t0", "$t1", "$t2", "$t3", "$t4", "$t5", "$t6", "$t7",
     "$s0", "$s1", "$s2", "$s3", "$s4", "$s5", "$s6", "$s7", "$t8", "$t9", "$k0", "$k1", "$gp", "$sp", "$fp", "$ra",
     "$PC", "$HI", "$LO"]

  const REGISTER_NUMBERS: seq<string> :=
    ["$0", "$1", "$2", "$3", "$4", "$5", "$6", "$7", "$8", "$9", "$10", "$11", "$12", "$13", "$14", "$15",
     "$16", "$17", "$18", "$19", "$20", "$21", "$22", "$23", "$24", "$25", "$26", "$27", "$28", "$29", "$30", "$31",
     "$32", "$33", "$34"]

  // The first index from k on at which either table holds the name, or -1.
  function FindRegister(name: string, k: nat): int
    decreases 35 - k
  {
    if k >= 35 then -1
    else if REGISTER_NUMBERS[k] == name || REGISTER_NAMES[k] == name then k
    else FindRegister(name, k + 1)
  }

  // convert (src/registre.c); the last three names may also be spelled in lower case.
  function Convert(name: string): int {
    var k := FindRegister(name, 0);
    if k != -1 || |name| != 3 || name[0] != '$' then k
    else if name[1] == 'p' && name[2] == 'c' then 32
    else if name[1] == 'h' && name[2] == 'i' then 33
    else if name[1] == 'l' && name[2] == 'o' then 34
    else -1
  }

  lemma {:induction false} FindsFirst(name: string, k: nat, a: nat)
    requires k <= a < 35 && (REGISTER_NUMBERS[a] == name || REGISTER_NAMES[a] == name)
    requires forall j :: k <= j < a ==> REGISTER_NUMBERS[j] != name && REGISTER_NAMES[j] != name
    ensures FindRegister(name, k) == a
    decreases a - k
  {
    hide REGISTER_NAMES, REGISTER_NUMBERS;
    if k < a {
      FindsFirst(name, k + 1, a);
    }
  }

  lemma TableSizes()
    ensures |REGISTER_NAMES| == |REGISTER_NUMBERS| == 35
  {
  }

  lemma NamesTable(a: field5)
    ensures RegName(a) == REGISTER_NAMES[a]
  {
  }

  lemma NumbersTable(k: nat)
    requires k < 35
    ensures |REGISTER_NUMBERS[k]| >= 2 && '0' <= REGISTER_NUMBERS[k][1] <= '9'
  {
  }

  lemma NameIsNoNumber(a: field5)
    ensures |RegName(a)| >= 2 && !('0' <= RegName(a)[1] <= '9')
  {
  }

  // convert gives back the register whose name getR returned.
  lemma ConvertReads(a: field5)
    ensures Convert(RegName(a)) == a
  {
    hide RegName, RegOf, REGISTER_NAMES, REGISTER_NUMBERS;
    TableSizes();
    NamesTable(a);
    NameIsNoNumber(a);
    RegNames(a);
    forall j: nat | j < a
      ensures REGISTER_NUMBERS[j] != RegName(a) && REGISTER_NAMES[j] != RegName(a)
    {
      NumbersTable(j);
      NamesTable(j);
      RegNames(j);
    }
    FindsFirst(RegName(a), 0, a);
  }

  /* ---------- mnemonics ---------- */

  // Comparison with a text of so many characters.
  predicate Is1(s: string, c0: char) {
    |s| == 1 && s[0] == c0
  }

  predicate Is2(s: string, c0: char, c1: char) {
    |s| == 2 && s[0] == c0 && s[1] == c1
  }

  predicate Is3(s: string, c0: char, c1: char, c2: char) {
    |s| == 3 && s[0] == c0 && s[1] == c1 && s[2] == c2
  }

  predicate Is4(s: string, c0: char, c1: char, c2: char, c3: char) {
    |s| == 4 && s[0] == c0 && s[1] == c1 && s[2] == c2 && s[3] == c3
  }

  predicate Is5(s: string, c0: char, c1: char, c2: char, c3: char, c4: char) {
    |s| == 5 && s[0] == c0 && s[1] == c1 && s[2] == c2 && s[3] == c3 && s[4] == c4
  }

  predicate Is7(s: string, c0: char, c1: char, c2: char, c3: char, c4: char, c5: char, c6: char) {
    |s| == 7 && s[0] == c0 && s[1] == c1 && s[2] == c2 && s[3] == c3 && s[4] == c4 && s[5] == c5 && s[6] == c6
  }

  function WithA(s: string): Mnemonic {
    if Is3(s, 'A', 'D', 'D') then ADD else if Is4(s, 'A', 'D', 'D', 'I') then ADDI
    else if Is5(s, 'A', 'D', 'D', 'I', 'U') then ADDIU
    else if Is4(s, 'A', 'D', 'D', 'U') then ADDU else if Is3(s, 'A', 'N', 'D') then AND
    else if Is4(s, 'A', 'N', 'D', 'I') then ANDI else PROBLEME
  }

  function WithB(s: string): Mnemonic {
    if Is3(s, 'B', 'E', 'Q') then BEQ else if Is4(s, 'B', 'G', 'E', 'Z') then BGEZ
    else if Is4(s, 'B', 'G', 'T', 'Z') then BGTZ
    else if Is4(s, 'B', 'L', 'E', 'Z') then BLEZ else if Is4(s, 'B', 'L', 'T', 'Z') then BLTZ
    else if Is3(s, 'B', 'N', 'E') then BNE
    else if Is5(s, 'B', 'R', 'E', 'A', 'K') then BREAK else PROBLEME
  }

  function WithDJ(s: string): Mnemonic {
    if Is3(s, 'D', 'I', 'V') then DIV else if Is1(s, 'J') then J else if Is3(s, 'J', 'A', 'L') then JAL
    else if Is4(s, 'J', 'A', 'R', 'L') then JARL
    else if Is2(s, 'J', 'R') then JR else PROBLEME
  }

  function WithL(s: string): Mnemonic {
    if Is2(s, 'L', 'B') then LB else if Is3(s, 'L', 'B', 'U') then LBU else if Is3(s, 'L', 'U', 'I') then LUI
    else if Is2(s, 'L', 'W') then LW
    else PROBLEME
  }

  function WithMO(s: string): Mnemonic {
    if Is4(s, 'M', 'F', 'H', 'I') then MFHI else if Is4(s, 'M', 'F', 'L', 'O') then MFLO
    else if Is4(s, 'M', 'U', 'L', 'T') then MULT else if Is2(s, 'O', 'R') then OR
    else if Is3(s, 'O', 'R', 'I') then ORI else PROBLEME
  }

  function WithS(s: string): Mnemonic {
    if Is2(s, 'S', 'B') then SB else if Is3(s, 'S', 'E', 'B') then SEB else if Is2(s, 'S', 'W') then SW
    else if Is7(s, 'S', 'Y', 'S', 'C', 'A', 'L', 'L') then SYSCALL
    else if Is3(s, 'S', 'U', 'B') then SUB else if Is4(s, 'S', 'U', 'B', 'U') then SUBU
    else if Is3(s, 'X', 'O', 'R') then XOR else PROBLEME
  }

  function WithSL(s: string): Mnemonic {
    if Is3(s, 'S', 'L', 'L') then SLL else if Is3(s, 'S', 'L', 'T') then SLT
    else if Is4(s, 'S', 'L', 'T', 'I') then SLTI
    else if Is5(s, 'S', 'L', 'T', 'I', 'U') then SLTIU else if Is4(s, 'S', 'L', 'T', 'U') then SLTU
    else if Is3(s, 'S', 'R', 'A') then SRA
    else if Is3(s, 'S', 'R', 'L') then SRL else PROBLEME
  }

  // The mnemonic spelled s.
  function MnemonicOf(s: string): Mnemonic {
    if s == "" then PROBLEME
    else if s[0] == 'A' then WithA(s) else if s[0] == 'B' then WithB(s)
    else if s[0] == 'D' || s[0] == 'J' then WithDJ(s) else if s[0] == 'L' then WithL(s)
    else if s[0] == 'M' || s[0] == 'O' then WithMO(s)
    else if |s| >= 2 && s[0] == 'S' && (s[1] == 'L' || s[1] == 'R') then WithSL(s)
    else WithS(s)
  }

  lemma ReadsWithA(m: Mnemonic)
    requires m.ADD? || m.ADDI? || m.ADDIU? || m.ADDU? || m.AND? || m.ANDI?
    ensures MnemonicOf(Name(m)) == m
  {
  }

  lemma ReadsWithB(m: Mnemonic)
    requires m.BEQ? || m.BGEZ? || m.BGTZ? || m.BLEZ? || m.BLTZ? || m.BNE? || m.BREAK?
    ensures MnemonicOf(Name(m)) == m
  {
  }

  lemma ReadsWithDJ(m: Mnemonic)
    requires m.DIV? || m.J? || m.JAL? || m.JARL? || m.JR?
    ensures MnemonicOf(Name(m)) == m
  {
  }

  lemma ReadsWithL(m: Mnemonic)
    requires m.LB? || m.LBU? || m.LUI? || m.LW?
    ensures MnemonicOf(Name(m)) == m
  {
  }

  lemma ReadsWithMO(m: Mnemonic)
    requires m.MFHI? || m.MFLO? || m.MULT? || m.OR? || m.ORI?
    ensures MnemonicOf(Name(m)) == m
  {
  }

  lemma ReadsWithS(m: Mnemonic)
    requires m.SB? || m.SEB? || m.SW? || m.SYSCALL? || m.SUB? || m.SUBU? || m.XOR?
    ensures MnemonicOf(Name(m)) == m
  {
  }

  lemma ReadsWithSL(m: Mnemonic)
    requires m.SLL? || m.SLT? || m.SLTI? || m.SLTIU? || m.SLTU? || m.SRA? || m.SRL?
    ensures MnemonicOf(Name(m)) == m
  {
  }

  // A printed mnemonic is spelled as the instruction it stands for.
  lemma MnemonicReads(m: Mnemonic)
    requires m !in {JALR, PROBLEME}
    ensures MnemonicOf(Name(m)) == m
  {
    hide MnemonicOf, Name;
    if m.ADD? || m.ADDI? || m.ADDIU? || m.ADDU? || m.AND? || m.ANDI? {
      ReadsWithA(m);
    } else if m.BEQ? || m.BGEZ? || m.BGTZ? || m.BLEZ? || m.BLTZ? || m.BNE? || m.BREAK? {
      ReadsWithB(m);
    } else if m.DIV? || m.J? || m.JAL? || m.JARL? || m.JR? {
      ReadsWithDJ(m);
    } else if m.LB? || m.LBU? || m.LUI? || m.LW? {
      ReadsWithL(m);
    } else if m.MFHI? || m.MFLO? || m.MULT? || m.OR? || m.ORI? {
      ReadsWithMO(m);
    } else if m.SB? || m.SEB? || m.SW? || m.SYSCALL? || m.SUB? || m.SUBU? || m.XOR? {
      ReadsWithS(m);
    } else {
      ReadsWithSL(m);
    }
  }

  lemma NameIsNoOther(m: Mnemonic)
    ensures Name(m) != "NOP" && Name(m) != "Instruction"
  {
  }

  /* ---------- items ---------- */

  // The runs of characters between separators; cur has been read of the current one.
  function ItemsFrom(cur: string, s: string): seq<string>
    decreases |s|
  {
    if s == "" then (if cur == "" then [] else [cur])
    else if Separator(s[0]) then (if cur == "" then [] else [cur]) + ItemsFrom("", s[1..])
    else ItemsFrom(cur + [s[0]], s[1..])
  }

  function Items(s: string): seq<string> { ItemsFrom("", s) }

  lemma {:induction false} ItemRuns(cur: string, a: string, x: string)
    requires Clean(a) && Starts(x) && cur + a != ""
    ensures ItemsFrom(cur, a + x) == [cur + a] + ItemsFrom("", x)
    decreases |a|
  {
    if a == "" {
      assert a + x == x && cur + a == cur;
      assert ItemsFrom("", x) == ItemsFrom("", x[1..]);
    } else {
      assert (a + x)[0] == a[0] && (a + x)[1..] == a[1..] + x;
      assert cur + a == (cur + [a[0]]) + a[1..];
      ItemRuns(cur + [a[0]], a[1..], x);
    }
  }

  lemma NextItem(a: string, x: string)
    requires Clean(a) && a != "" && Starts(x)
    ensures Items(a + x) == [a] + Items(x)
  {
    assert "" + a == a;
    ItemRuns("", a, x);
  }

  lemma SkipOne(c: char, x: string)
    requires Separator(c)
    ensures Items([c] + x) == Items(x)
  {
    assert ([c] + x)[0] == c && ([c] + x)[1..] == x;
  }

  lemma EndItems(a: string)
    requires Clean(a) && a != ""
    ensures Items(End(a)) == [a]
  {
    hide ItemsFrom;
    NextItem(a, "\n");
    SkipOne('\n', "");
    NoItems();
    assert "\n" == ['\n'] + "";
  }

  lemma NoItems()
    ensures Items("") == []
  {
  }

  lemma CommaItems(a: string, rest: string)
    requires Clean(a) && a != ""
    ensures Items(Comma(a, rest)) == [a] + Items(rest)
  {
    hide ItemsFrom;
    NextItem(a, ", " + rest);
    assert ", " + rest == [','] + ([' '] + rest);
    SkipOne(',', [' '] + rest);
    SkipOne(' ', rest);
  }

  lemma ParenItems(a: string, open: string, r: string)
    requires Clean(a) && a != "" && Clean(r) && r != "" && (open == "(" || open == " (")
    ensures Items(Paren(a, open, r)) == [a, r]
  {
    hide ItemsFrom;
    var x := r + ")\n";
    NextItem(a, open + x);
    SkipOne('(', x);
    if open == " (" {
      assert open + x == [' '] + (['('] + x);
      SkipOne(' ', ['('] + x);
    } else {
      assert open + x == ['('] + x;
    }
    NextItem(r, ")\n");
    assert ")\n" == [')'] + (['\n'] + "");
    SkipOne(')', ['\n'] + "");
    SkipOne('\n', "");
    NoItems();
  }

  /* ---------- operands by position ---------- */

  datatype Operand = Rd | Rs | Rt | Immediate | Displacement | Amount | Address

  // The assembler's operand order.
  function Syntax(m: Mnemonic): seq<Operand> {
    match m
    case ADD => [Rd, Rs, Rt] case ADDU => [Rd, Rs, Rt] case AND => [Rd, Rs, Rt] case OR => [Rd, Rs, Rt]
    case SLT => [Rd, Rs, Rt] case SLTU => [Rd, Rs, Rt] case SUB => [Rd, Rs, Rt] case SUBU => [Rd, Rs, Rt]
    case XOR => [Rd, Rs, Rt]
    case ADDI => [Rt, Rs, Immediate] case ADDIU => [Rt, Rs, Immediate] case ANDI => [Rt, Rs, Immediate]
    case ORI => [Rt, Rs, Immediate] case SLTI => [Rt, Rs, Immediate] case SLTIU => [Rt, Rs, Immediate]
    case BEQ => [Rs, Rt, Displacement] case BNE => [Rs, Rt, Displacement]
    case BGEZ => [Rs, Displacement] case BGTZ => [Rs, Displacement] case BLEZ => [Rs, Displacement]
    case BLTZ => [Rs, Displacement]
    case DIV => [Rs, Rt] case MULT => [Rs, Rt]
    case J => [Address] case JAL => [Address] case JARL => [Rd, Rs] case JR => [Rs]
    case LB => [Rt, Immediate, Rs] case LBU => [Rt, Immediate, Rs] case LW => [Rt, Immediate, Rs]
    case SB => [Rt, Immediate, Rs] case SW => [Rt, Immediate, Rs]
    case LUI => [Rt, Immediate]
    case MFHI => [Rd] case MFLO => [Rd]
    case SEB => [Rd, Rt]
    case SLL => [Rd, Rt, Amount] case SRA => [Rd, Rt, Amount] case SRL => [Rd, Rt, Amount]
    case _ => []
  }

  // A decimal numeral, perhaps with a minus sign.
  function Number(t: string): int {
    if t != "" && t[0] == '-' then -N.Value(t[1..], 10) else N.Value(t, 10)
  }

  function Set(i: Instr, o: Operand, v: int): Instr {
    match o
    case Rd => if 0 <= v < 32 then i.(rd := v) else i
    case Rs => if 0 <= v < 32 then i.(rs := v) else i
    case Rt => if 0 <= v < 32 then i.(rt := v) else i
    case Immediate => if -0x8000 <= v < 0x8000 then i.(im := v) else i
    case Displacement => if -0x8000 <= v / 4 < 0x8000 then i.(im := v / 4) else i
    case Amount => if 0 <= v < 32 then i.(sa := v) else i
    case Address => if 0 <= v / 4 < 0x400_0000 then i.(target := v / 4) else i
  }

  // What an item stands for.
  function Meaning(o: Operand, t: string): int {
    match o
    case Rd => Convert(t)
    case Rs => Convert(t)
    case Rt => Convert(t)
    case Address => if |t| >= 2 && t[..2] == "0x" then N.Value(t[2..], 16) else 0
    case _ => Number(t)
  }

  function ReadOperands(i: Instr, ops: seq<Operand>, items: seq<string>): Instr
    decreases |ops|
  {
    if ops == [] || items == [] then i
    else ReadOperands(Set(i, ops[0], Meaning(ops[0], items[0])), ops[1..], items[1..])
  }

  function ReadLine(line: string): Instr {
    var items := Items(line);
    if items == [] || items[0] == "Instruction" then Bare(PROBLEME)
    else if items[0] == "NOP" then Bare(SLL)
    else
      var m := MnemonicOf(items[0]);
      ReadOperands(Bare(m), Syntax(m), items[1..])
  }

  lemma SignedReads(n: int)
    ensures Number(N.Signed(n)) == n && Clean(N.Signed(n)) && N.Signed(n) != ""
  {
    hide N.Value, N.Unsigned;
    N.UnsignedReads(AbsInt(n), 10);
    SignedClean(n);
    if n < 0 {
      assert ("-" + N.Unsigned(-n, 10))[1..] == N.Unsigned(-n, 10);
    }
  }

  lemma HexMeaning(n: nat)
    ensures Meaning(Address, "0x" + N.Unsigned(n, 16)) == n && Clean("0x" + N.Unsigned(n, 16))
  {
    hide N.Value, N.Unsigned;
    N.UnsignedReads(n, 16);
    HexClean(n);
    assert ("0x" + N.Unsigned(n, 16))[2..] == N.Unsigned(n, 16);
  }

  lemma RegisterText(a: field5)
    ensures Convert(RegName(a)) == a && Clean(RegName(a)) && RegName(a) != ""
  {
    hide RegName, RegOf;
    ConvertReads(a);
    RegNames(a);
  }

  lemma ReadOne(i: Instr, o: Operand, x: string)
    ensures ReadOperands(i, [o], [x]) == Set(i, o, Meaning(o, x))
  {
    assert [o][1..] == [];
  }

  lemma ReadTwo(i: Instr, o: Operand, p: Operand, x: string, y: string)
    ensures ReadOperands(i, [o, p], [x, y]) == Set(Set(i, o, Meaning(o, x)), p, Meaning(p, y))
  {
    hide Set, Meaning;
    assert [o, p][1..] == [p] && [x, y][1..] == [y];
    ReadOne(Set(i, o, Meaning(o, x)), p, y);
  }

  lemma ReadThree(i: Instr, o: Operand, p: Operand, q: Operand, x: string, y: string, z: string)
    ensures ReadOperands(i, [o, p, q], [x, y, z]) ==
            Set(Set(Set(i, o, Meaning(o, x)), p, Meaning(p, y)), q, Meaning(q, z))
  {
    hide Set, Meaning;
    assert [o, p, q][1..] == [p, q] && [x, y, z][1..] == [y, z];
    ReadTwo(Set(i, o, Meaning(o, x)), p, q, y, z);
  }

  // The items of a line after its first word.
  function OperandTexts(i: Instr): seq<string> {
    match FormatOf(i)
    case RdRsRt => [RegName(i.rd), RegName(i.rs), RegName(i.rt)]
    case RtRsImm => [RegName(i.rt), RegName(i.rs), N.Signed(i.im)]
    case RsRtBranch => [RegName(i.rs), RegName(i.rt), N.Signed(i.im * 4)]
    case RsBranch => [RegName(i.rs), N.Signed(i.im * 4)]
    case RsRt => [RegName(i.rs), RegName(i.rt)]
    case RdRs => [RegName(i.rd), RegName(i.rs)]
    case RdRt => [RegName(i.rd), RegName(i.rt)]
    case RdRtSa => [RegName(i.rd), RegName(i.rt), N.Signed(i.sa)]
    case OneRs => [RegName(i.rs)]
    case OneRd => [RegName(i.rd)]
    case RtImm => [RegName(i.rt), N.Signed(i.im)]
    case RtOffRs => [RegName(i.rt), N.Signed(i.im), RegName(i.rs)]
    case RtOffSpaceRs => [RegName(i.rt), N.Signed(i.im), RegName(i.rs)]
    case Hexadecimal => ["0x" + N.Unsigned(i.target * 4, 16)]
    case NoOperand => []
    case NopLine => []
    case UnknownLine => ["inconnue", "!!!"]
  }

  lemma OperandItems(i: Instr)
    ensures Items(Operands(i)) == OperandTexts(i)
  {
    hide RegName, Comma, End, Paren, Clean, N.Signed, N.Unsigned, ItemsFrom, FormatOf;
    RegisterText(i.rd);
    RegisterText(i.rs);
    RegisterText(i.rt);
    SignedReads(i.im);
    SignedReads(i.im * 4);
    SignedReads(i.sa);
    HexMeaning(i.target * 4);
    match FormatOf(i)
    case RdRsRt => ThreeItems(RegName(i.rd), RegName(i.rs), RegName(i.rt));
    case RtRsImm => ThreeItems(RegName(i.rt), RegName(i.rs), N.Signed(i.im));
    case RsRtBranch => ThreeItems(RegName(i.rs), RegName(i.rt), N.Signed(i.im * 4));
    case RsBranch => TwoItems(RegName(i.rs), N.Signed(i.im * 4));
    case RsRt => TwoItems(RegName(i.rs), RegName(i.rt));
    case RdRs => TwoItems(RegName(i.rd), RegName(i.rs));
    case RdRt => TwoItems(RegName(i.rd), RegName(i.rt));
    case RdRtSa => ThreeItems(RegName(i.rd), RegName(i.rt), N.Signed(i.sa));
    case OneRs => OneItem(RegName(i.rs));
    case OneRd => OneItem(RegName(i.rd));
    case RtImm => TwoItems(RegName(i.rt), N.Signed(i.im));
    case RtOffRs => MemoryItems(RegName(i.rt), N.Signed(i.im), "(", RegName(i.rs));
    case RtOffSpaceRs => MemoryItems(RegName(i.rt), N.Signed(i.im), " (", RegName(i.rs));
    case Hexadecimal => OneItem("0x" + N.Unsigned(i.target * 4, 16));
    case NoOperand => NewLineItems();
    case NopLine => NewLineItems();
    case UnknownLine => UnknownItems();
  }

  lemma OneItem(a: string)
    requires Clean(a) && a != ""
    ensures Items(" " + End(a)) == [a]
  {
    hide End, ItemsFrom;
    SkipOne(' ', End(a));
    assert " " + End(a) == [' '] + End(a);
    EndItems(a);
  }

  lemma TwoItems(a: string, b: string)
    requires Clean(a) && a != "" && Clean(b) && b != ""
    ensures Items(" " + Comma(a, End(b))) == [a, b]
  {
    hide End, Comma, ItemsFrom;
    SkipOne(' ', Comma(a, End(b)));
    assert " " + Comma(a, End(b)) == [' '] + Comma(a, End(b));
    CommaItems(a, End(b));
    EndItems(b);
  }

  lemma ThreeItems(a: string, b: string, c: string)
    requires Clean(a) && a != "" && Clean(b) && b != "" && Clean(c) && c != ""
    ensures Items(" " + Comma(a, Comma(b, End(c)))) == [a, b, c]
  {
    hide End, Comma, ItemsFrom;
    SkipOne(' ', Comma(a, Comma(b, End(c))));
    assert " " + Comma(a, Comma(b, End(c))) == [' '] + Comma(a, Comma(b, End(c)));
    CommaItems(a, Comma(b, End(c)));
    CommaItems(b, End(c));
    EndItems(c);
  }

  lemma MemoryItems(a: string, b: string, open: string, c: string)
    requires Clean(a) && a != "" && Clean(b) && b != "" && Clean(c) && c != "" && (open == "(" || open == " (")
    ensures Items(" " + Comma(a, Paren(b, open, c))) == [a, b, c]
  {
    hide Paren, Comma, ItemsFrom;
    SkipOne(' ', Comma(a, Paren(b, open, c)));
    assert " " + Comma(a, Paren(b, open, c)) == [' '] + Comma(a, Paren(b, open, c));
    CommaItems(a, Paren(b, open, c));
    ParenItems(b, open, c);
  }

  lemma NewLineItems()
    ensures Items("\n") == []
  {
    SkipOne('\n', "");
    NoItems();
    assert "\n" == ['\n'] + "";
  }

  lemma UnknownItems()
    ensures Items(" inconnue !!!\n") == ["inconnue", "!!!"]
  {
    hide ItemsFrom;
    assert " inconnue !!!\n" == [' '] + ("inconnue" + ([' '] + ("!!!" + "\n")));
    SkipOne(' ', "inconnue" + ([' '] + ("!!!" + "\n")));
    NextItem("inconnue", [' '] + ("!!!" + "\n"));
    SkipOne(' ', "!!!" + "\n");
    NextItem("!!!", "\n");
    NewLineItems();
  }

  lemma LineItems(i: Instr)
    ensures Items(Line(i)) == [Head(i)] + OperandTexts(i)
    ensures Head(i) != ""
  {
    hide Head, Operands, OperandTexts, ItemsFrom, Clean, ReadHead, HeadWordOf;
    HeadReads(i);
    HeadNotEmpty(i);
    OperandsStart(i);
    NextItem(Head(i), Operands(i));
    OperandItems(i);
  }

  lemma HeadNotEmpty(i: Instr)
    ensures Head(i) != ""
  {
  }

  /* ---------- the line read back ---------- */

  // Read by position, a line gives back the mnemonic and every field it shows.
  lemma LineReads(i: Instr)
    ensures ReadLine(Line(i)) == Shown(i)
  {
    hide Line, Shown, Items, OperandTexts, ReadOperands, MnemonicOf, Syntax;
    LineItems(i);
    var it := Items(Line(i));
    assert it[0] == Head(i) && it[1..] == OperandTexts(i);
    if FormatOf(i) == NopLine || FormatOf(i) == UnknownLine {
      PlainLines(i);
    } else {
      KnownMnemonic(i);
      OperandsRead(i);
    }
  }

  lemma PlainLines(i: Instr)
    requires FormatOf(i) == NopLine || FormatOf(i) == UnknownLine
    ensures Shown(i) == if FormatOf(i) == NopLine then Bare(SLL) else Bare(PROBLEME)
    ensures Head(i) == if FormatOf(i) == NopLine then "NOP" else "Instruction"
  {
  }

  lemma KnownMnemonic(i: Instr)
    requires FormatOf(i) != NopLine && FormatOf(i) != UnknownLine
    ensures i.m !in {JALR, PROBLEME} && Head(i) == Name(i.m) && MnemonicOf(Name(i.m)) == i.m
    ensures Name(i.m) != "NOP" && Name(i.m) != "Instruction"
  {
    hide Name, MnemonicOf;
    NameIsNoOther(i.m);
    NotPlain(i);
    MnemonicReads(i.m);
  }

  lemma NotPlain(i: Instr)
    ensures FormatOf(i) != UnknownLine ==> i.m !in {JALR, PROBLEME}
  {
  }

  lemma OperandsRead(i: Instr)
    requires FormatOf(i) != NopLine && FormatOf(i) != UnknownLine
    ensures ReadOperands(Bare(i.m), Syntax(i.m), OperandTexts(i)) == Shown(i)
  {
    hide RegName, N.Signed, N.Unsigned, N.Value, Convert, Number, ReadOperands, Clean, Syntax, FormatOf;
    RegisterText(i.rd);
    RegisterText(i.rs);
    RegisterText(i.rt);
    SignedReads(i.im);
    SignedReads(i.im * 4);
    SignedReads(i.sa);
    HexMeaning(i.target * 4);
    SyntaxFits(i);
    var b := Bare(i.m);
    match FormatOf(i)
    case RdRsRt => ReadThree(b, Rd, Rs, Rt, RegName(i.rd), RegName(i.rs), RegName(i.rt));
    case RtRsImm => ReadThree(b, Rt, Rs, Immediate, RegName(i.rt), RegName(i.rs), N.Signed(i.im));
    case RsRtBranch => ReadThree(b, Rs, Rt, Displacement, RegName(i.rs), RegName(i.rt), N.Signed(i.im * 4));
    case RsBranch => ReadTwo(b, Rs, Displacement, RegName(i.rs), N.Signed(i.im * 4));
    case RsRt => ReadTwo(b, Rs, Rt, RegName(i.rs), RegName(i.rt));
    case RdRs => ReadTwo(b, Rd, Rs, RegName(i.rd), RegName(i.rs));
    case RdRt => ReadTwo(b, Rd, Rt, RegName(i.rd), RegName(i.rt));
    case RdRtSa => ReadThree(b, Rd, Rt, Amount, RegName(i.rd), RegName(i.rt), N.Signed(i.sa));
    case OneRs => ReadOne(b, Rs, RegName(i.rs));
    case OneRd => ReadOne(b, Rd, RegName(i.rd));
    case RtImm => ReadTwo(b, Rt, Immediate, RegName(i.rt), N.Signed(i.im));
    case RtOffRs => ReadThree(b, Rt, Immediate, Rs, RegName(i.rt), N.Signed(i.im), RegName(i.rs));
    case RtOffSpaceRs => ReadThree(b, Rt, Immediate, Rs, RegName(i.rt), N.Signed(i.im), RegName(i.rs));
    case Hexadecimal => ReadOne(b, Address, "0x" + N.Unsigned(i.target * 4, 16));
    case NoOperand => ReadNone(b, []);
  }

  lemma ReadNone(i: Instr, items: seq<string>)
    ensures ReadOperands(i, [], items) == i
  {
  }

  // The printer's operand lists are those of the assembler.
  lemma SyntaxFits(i: Instr)
    ensures match FormatOf(i)
            case RdRsRt => Syntax(i.m) == [Rd, Rs, Rt]
            case RtRsImm => Syntax(i.m) == [Rt, Rs, Immediate]
            case RsRtBranch => Syntax(i.m) == [Rs, Rt, Displacement]
            case RsBranch => Syntax(i.m) == [Rs, Displacement]
            case RsRt => Syntax(i.m) == [Rs, Rt]
            case RdRs => Syntax(i.m) == [Rd, Rs]
            case RdRt => Syntax(i.m) == [Rd, Rt]
            case RdRtSa => Syntax(i.m) == [Rd, Rt, Amount]
            case OneRs => Syntax(i.m) == [Rs]
            case OneRd => Syntax(i.m) == [Rd]
            case RtImm => Syntax(i.m) == [Rt, Immediate]
            case RtOffRs => Syntax(i.m) == [Rt, Immediate, Rs]
            case RtOffSpaceRs => Syntax(i.m) == [Rt, Immediate, Rs]
            case Hexadecimal => Syntax(i.m) == [Address]
            case NoOperand => Syntax(i.m) == []
            case NopLine => i.m == SLL
            case UnknownLine => i.m in {JALR, PROBLEME}
  {
  }

  // Every disassembled word, read by position.
  lemma DisassemblyReads(u: word)
    ensures ReadLine(DispAssem(u)) == Shown(Decoded(u))
  {
    hide ReadLine, Line, Shown, Decoded;
    LineReads(Decoded(u));
  }

  /* ---------- what the line says about the executor ---------- */

  // Instructions that write one general register.
  predicate WritesRegister(m: Mnemonic) {
    Syntax(m) != [] && !(m.BEQ? || m.BNE? || m.BGEZ? || m.BGTZ? || m.BLEZ? || m.BLTZ? || m.J? || m.JAL? || m.JARL?
      || m.JR? || m.SB? || m.SW? || m.DIV? || m.MULT?)
  }

  // The first operand printed is the register the executor writes.
  lemma FirstOperandIsDest(i: Instr)
    requires WritesRegister(i.m) && FormatOf(i) != NopLine
    ensures |Items(Line(i))| >= 2 && Items(Line(i))[1] == RegName(Dest(i))
  {
    hide RegName, Items, Line, N.Signed, N.Unsigned;
    LineItems(i);
  }

  // The last operand of a branch is the displacement a taken branch adds to PC, plus the 4 the fetch step adds.
  lemma PrintedDisplacement(i: Instr, s: State)
    requires Valid(s) && Conditional(i)
    ensures var it := Items(Line(i));
            |it| >= 3 && Swing(i, s) == if Taken(i.m, s.reg[i.rs], s.reg[i.rt]) then Number(it[|it| - 1]) - 4 else 0
  {
    hide RegName, Items, Line, N.Signed, N.Unsigned, Number, Taken;
    LineItems(i);
    SignedReads(i.im * 4);
  }

  // How the items are laid out.
  function Layout(m: Mnemonic, it: seq<string>): string {
    if |it| == 0 then ""
    else if |it| == 1 then it[0] + "\n"
    else if |it| == 2 then it[0] + (" " + (it[1] + "\n"))
    else if |it| == 3 then it[0] + (" " + (it[1] + (", " + (it[2] + "\n"))))
    else if m.LB? || m.LBU? then it[0] + (" " + (it[1] + (", " + (it[2] + (" (" + (it[3] + ")\n"))))))
    else if m.LW? || m.SB? || m.SW? then it[0] + (" " + (it[1] + (", " + (it[2] + ("(" + (it[3] + ")\n"))))))
    else it[0] + (" " + (it[1] + (", " + (it[2] + (", " + (it[3] + "\n"))))))
  }

  // The whole text: the items, with a space, commas and parentheses where the assembler has them.
  lemma LineLayout(i: Instr)
    ensures FormatOf(i) == UnknownLine ==> Line(i) == "Instruction inconnue !!!\n"
    ensures FormatOf(i) != UnknownLine ==> Line(i) == Layout(i.m, Items(Line(i)))
  {
    hide RegName, N.Signed, N.Unsigned, Items, Name, Layout, Comma, End, Paren, FormatOf;
    LineItems(i);
    if FormatOf(i) == UnknownLine {
      UnknownText();
    } else {
      OperandLayout(i);
    }
  }

  lemma UnknownText()
    ensures "Instruction" + " inconnue !!!\n" == "Instruction inconnue !!!\n"
  {
  }

  lemma Layouts(m: Mnemonic, h: string)
    ensures Layout(m, [h]) == h + "\n"
    ensures forall a :: Layout(m, [h, a]) == h + (" " + End(a))
    ensures forall a, b :: Layout(m, [h, a, b]) == h + (" " + Comma(a, End(b)))
  {
  }

  lemma LayoutFour(m: Mnemonic, h: string, a: string, b: string, c: string)
    ensures Layout(m, [h, a, b, c]) ==
            h + (" " + if m.LB? || m.LBU? then Comma(a, Paren(b, " (", c))
                       else if m.LW? || m.SB? || m.SW? then Comma(a, Paren(b, "(", c))
                       else Comma(a, Comma(b, End(c))))
  {
  }

  lemma FourthStyle(i: Instr)
    ensures FormatOf(i) == RtOffSpaceRs <==> i.m.LB? || i.m.LBU?
    ensures FormatOf(i) == RtOffRs <==> i.m.LW? || i.m.SB? || i.m.SW?
  {
  }

  lemma OperandLayout(i: Instr)
    requires FormatOf(i) != UnknownLine
    ensures Head(i) + Operands(i) == Layout(i.m, [Head(i)] + OperandTexts(i))
  {
    hide RegName, N.Signed, N.Unsigned, Name, Layout, Comma, End, Paren, FormatOf, Head;
    var h := Head(i);
    Layouts(i.m, h);
    FourthStyle(i);
    assert forall a :: [h] + [a] == [h, a];
    assert forall a, b :: [h] + [a, b] == [h, a, b];
    assert forall a, b, c :: [h] + [a, b, c] == [h, a, b, c];
    match FormatOf(i)
    case RdRsRt => LayoutFour(i.m, h, RegName(i.rd), RegName(i.rs), RegName(i.rt));
    case RtRsImm => LayoutFour(i.m, h, RegName(i.rt), RegName(i.rs), N.Signed(i.im));
    case RsRtBranch => LayoutFour(i.m, h, RegName(i.rs), RegName(i.rt), N.Signed(i.im * 4));
    case RdRtSa => LayoutFour(i.m, h, RegName(i.rd), RegName(i.rt), N.Signed(i.sa));
    case RtOffRs => LayoutFour(i.m, h, RegName(i.rt), N.Signed(i.im), RegName(i.rs));
    case RtOffSpaceRs => LayoutFour(i.m, h, RegName(i.rt), N.Signed(i.im), RegName(i.rs));
    case NopLine => assert [h] + [] == [h];
    case NoOperand => assert [h] + [] == [h];
    case _ =>
  }

  /* ---------- a listing ---------- */

  lemma Twelve()
    ensures N.Signed(12) == "12" && N.Signed(1) == "1" && N.Signed(-8) == "-8"
  {
    assert N.Digits(1, 10) == "1" && N.Digits(8, 10) == "8";
    assert N.Digits(12, 10) == N.Digits(1, 10) + [N.Digit(2)] == "12";
  }

  lemma ListingFields()
    ensures var i := Decoded(0x2009000c); i.m == ADDI && i.rt == 9 && i.rs == 0 && i.im == 12
    ensures var i := Decoded(0x00005020); i.m == ADD && i.rd == 10 && i.rs == 0 && i.rt == 0
    ensures var i := Decoded(0x214a0001); i.m == ADDI && i.rt == 10 && i.rs == 10 && i.im == 1
    ensures var i := Decoded(0x1549fffe); i.m == BNE && i.rs == 10 && i.rt == 9 && i.im == -2
  {
    hide Opcode, Funct, GetRS, GetRT, GetRD, GetSA, GetIm, GetTarget;
  }

  lemma AddImmediateLine(i: Instr, n: string, a: string, b: string)
    requires i.m == ADDI && N.Signed(i.im) == n && RegName(i.rt) == a && RegName(i.rs) == b
    ensures Line(i) == "ADDI" + (" " + (a + (", " + (b + (", " + (n + "\n"))))))
  {
    hide RegName, N.Signed;
  }

  lemma AddLine(i: Instr, d: string, a: string, b: string)
    requires i.m == ADD && RegName(i.rd) == d && RegName(i.rs) == a && RegName(i.rt) == b
    ensures Line(i) == "ADD" + (" " + (d + (", " + (a + (", " + (b + "\n"))))))
  {
    hide RegName, N.Signed;
  }

  lemma BranchLine(i: Instr, n: string, a: string, b: string)
    requires i.m == BNE && N.Signed(i.im * 4) == n && RegName(i.rs) == a && RegName(i.rt) == b
    ensures Line(i) == "BNE" + (" " + (a + (", " + (b + (", " + (n + "\n"))))))
  {
    hide RegName, N.Signed;
  }

  lemma FirstSample()
    ensures DispAssem(0x2009000c) == "ADDI $t1, $zero, 12\n"
  {
    hide Decoded, N.Signed, Line;
    Twelve();
    ListingFields();
    AddImmediateLine(Decoded(0x2009000c), "12", "$t1", "$zero");
    assert "ADDI" + (" " + ("$t1" + (", " + ("$zero" + (", " + ("12" + "\n")))))) == "ADDI $t1, $zero, 12\n";
  }

  lemma SecondSample()
    ensures DispAssem(0x00005020) == "ADD $t2, $zero, $zero\n"
  {
    hide Decoded, N.Signed, Line;
    ListingFields();
    AddLine(Decoded(0x00005020), "$t2", "$zero", "$zero");
    assert "ADD" + (" " + ("$t2" + (", " + ("$zero" + (", " + ("$zero" + "\n")))))) == "ADD $t2, $zero, $zero\n";
  }

  lemma ThirdSample()
    ensures DispAssem(0x214a0001) == "ADDI $t2, $t2, 1\n"
  {
    hide Decoded, N.Signed, Line;
    Twelve();
    ListingFields();
    AddImmediateLine(Decoded(0x214a0001), "1", "$t2", "$t2");
    assert "ADDI" + (" " + ("$t2" + (", " + ("$t2" + (", " + ("1" + "\n")))))) == "ADDI $t2, $t2, 1\n";
  }

  lemma FourthSample()
    ensures DispAssem(0x1549fffe) == "BNE $t2, $t1, -8\n"
  {
    hide Decoded, N.Signed, Line;
    Twelve();
    ListingFields();
    BranchLine(Decoded(0x1549fffe), "-8", "$t2", "$t1");
    assert "BNE" + (" " + ("$t2" + (", " + ("$t1" + (", " + ("-8" + "\n")))))) == "BNE $t2, $t1, -8\n";
  }

  // The five words of the repository's sample object file print as its expected listing has them.
  lemma SampleListing()
    ensures DispAssem(0x2009000c) == "ADDI $t1, $zero, 12\n"
    ensures DispAssem(0x00005020) == "ADD $t2, $zero, $zero\n"
    ensures DispAssem(0x214a0001) == "ADDI $t2, $t2, 1\n"
    ensures DispAssem(0x1549fffe) == "BNE $t2, $t1, -8\n"
    ensures DispAssem(0x00000000) == "NOP\n"
  {
    hide DispAssem;
    FirstSample();
    SecondSample();
    ThirdSample();
    FourthSample();
    NopSample();
  }

  lemma NopSample()
    ensures DispAssem(0x00000000) == "NOP\n"
  {
    hide Decoded;
    ZeroIsNop();
    assert "NOP" + "\n" == "NOP\n";
  }
}

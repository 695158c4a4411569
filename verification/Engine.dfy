/** The execution engine (execute_asm and NextInstruction in src/asm.c), as a function on states. */
module Engine {
  import opened Words
  import opened Decode
  import opened Memory

  const RA: nat := 31
  const PC: nat := 32
  const HI: nat := 33
  const LO: nat := 34
  const NREG: nat := 35
  const TWO_64: int := 0x1_0000_0000_0000_0000

  // The 35-entry register array (src/registre.c) and the memory.
  datatype State = State(reg: seq<int32>, mem: Image)

  ghost predicate Valid(s: State) {
    |s.reg| == NREG && ValidImage(s.mem)
  }

  function Put(s: State, i: nat, v: int): (s': State)
    requires i < |s.reg|
    ensures |s'.reg| == |s.reg|
  {
    s.(reg := s.reg[i := ToInt32(v)])
  }

  /* ---------- overflow detection on 64-bit words ---------- */

  // ((uint64_t)getbits(x,31,31) << 32) | (uint64_t)x
  function Extend33(x: int32): nat {
    Or(GetBits(ToWord(x), 31, 31) * 0x1_0000_0000, x % TWO_64)
  }

  // Do bits 32 and 31 differ?
  predicate TopBitsDiffer(temp: nat) {
    Shr(And(temp, 0x1_0000_0000), 32) != Shr(And(temp, 0x8000_0000), 31)
  }

  // The contracts say the two tests are exact.
  predicate AddOverflows(a: int32, b: int32)
    ensures AddOverflows(a, b) <==> !InInt32(a + b)
  {
    AddTestExact(a, b);
    TopBitsDiffer((Extend33(a) + Extend33(b)) % TWO_64)
  }

  predicate SubOverflows(a: int32, b: int32)
    ensures SubOverflows(a, b) <==> !InInt32(a - b)
  {
    SubTestExact(a, b);
    TopBitsDiffer((Extend33(a) - Extend33(b)) % TWO_64)
  }

  lemma AddTestExact(a: int32, b: int32)
    ensures TopBitsDiffer((Extend33(a) + Extend33(b)) % TWO_64) <==> !InInt32(a + b)
  {
    hide TopBitsDiffer, Extend33;
    Extend33Is(a);
    Extend33Is(b);
    WrapSum64(a, b);
    TopBitsDetect(a + b);
  }

  lemma SubTestExact(a: int32, b: int32)
    ensures TopBitsDiffer((Extend33(a) - Extend33(b)) % TWO_64) <==> !InInt32(a - b)
  {
    hide TopBitsDiffer, Extend33;
    Extend33Is(a);
    Extend33Is(b);
    WrapSum64(a, b);
    TopBitsDetect(a - b);
  }

  lemma WrapSum64(a: int, b: int)
    ensures (a % TWO_64 + b % TWO_64) % TWO_64 == (a + b) % TWO_64
    ensures (a % TWO_64 - b % TWO_64) % TWO_64 == (a - b) % TWO_64
  {
    var q, r := a / TWO_64, b / TWO_64;
    DivUnique(a % TWO_64 + b % TWO_64, TWO_64, (a + b) / TWO_64 - q - r, (a + b) % TWO_64);
    DivUnique(a % TWO_64 - b % TWO_64, TWO_64, (a - b) / TWO_64 - q + r, (a - b) % TWO_64);
  }

  lemma {:induction false} OrSetBit(w: nat, n: nat)
    requires Bit(w, n)
    ensures Or(Pow2(n), w) == w
    decreases n
  {
    ZeroHasNoBits(n);
    if n == 0 {
      BitZero(w);
    } else {
      BitShift(w, n);
      OrSetBit(w / 2, n - 1);
    }
  }

  // Bit 32 is already set in the sign extension of a negative value.
  lemma Extend33Is(x: int32)
    ensures Extend33(x) == x % TWO_64
  {
    hide Or;
    SignBit(x);
    if x < 0 {
      OrSetBit(x % TWO_64, 32);
    } else {
      OrZero(x);
    }
  }

  lemma OrZero(w: nat)
    ensures Or(0, w) == w
  {
  }

  lemma SignBit(x: int32)
    ensures GetBits(ToWord(x), 31, 31) == if x < 0 then 1 else 0
    ensures x < 0 ==> Bit(x % TWO_64, 32)
    ensures Pow2(32) == 0x1_0000_0000
  {
    hide GetBits;
    Pow2Values();
    assert Pow2(31 - 31 + 1) == 2;
    assert ToWord(x) / 0x8000_0000 == if x < 0 then 1 else 0;
    if x < 0 {
      DivUnique(x % TWO_64, 0x1_0000_0000, 0xffff_ffff, x + 0x1_0000_0000);
    }
  }

  lemma SingleBit(u: nat, n: nat)
    ensures Shr(And(u, Pow2(n)), n) == if Bit(u, n) then 1 else 0
  {
    hide And, Shr;
    AndMask(u, n, n);
    ShrMultiple(Shr(u, n) % 2, n);
  }

  // On a sum or difference of two 32-bit values, bits 32 and 31 differ exactly on overflow.
  lemma TopBitsDetect(t: int)
    requires -0x1_0000_0000 <= t < 0x1_0000_0000
    ensures TopBitsDiffer(t % TWO_64) <==> !InInt32(t)
  {
    hide And;
    Pow2Values();
    var temp := t % TWO_64;
    SingleBit(temp, 32);
    SingleBit(temp, 31);
    TopQuotients(t);
  }

  lemma TopQuotients(t: int)
    requires -0x1_0000_0000 <= t < 0x1_0000_0000
    ensures (t % TWO_64 / 0x1_0000_0000 % 2 != t % TWO_64 / 0x8000_0000 % 2) <==> !InInt32(t)
  {
    var temp := t % TWO_64;
    assert temp == if t < 0 then t + TWO_64 else t;
    var base := if t < 0 then 0x2_0000_0000 else 0;
    if t >= 0x8000_0000 {
      DivUnique(temp, 0x8000_0000, base + 1, t - 0x8000_0000);
      DivUnique(temp, 0x1_0000_0000, base / 2, t);
    } else if t >= 0 {
      DivUnique(temp, 0x8000_0000, base, t);
      DivUnique(temp, 0x1_0000_0000, base / 2, t);
    } else if t >= -0x8000_0000 {
      DivUnique(temp, 0x8000_0000, base - 1, t + 0x8000_0000);
      DivUnique(temp, 0x1_0000_0000, base / 2 - 1, t + 0x1_0000_0000);
    } else {
      DivUnique(temp, 0x8000_0000, base - 2, t + 0x1_0000_0000);
      DivUnique(temp, 0x1_0000_0000, base / 2 - 1, t + 0x1_0000_0000);
    }
  }

  /* ---------- the values the instructions compute ---------- */

  function AndInt(a: int32, b: int): int { And(ToWord(a), ToWord(b)) }

  function OrInt(a: int32, b: int): int { Or(ToWord(a), ToWord(b)) }

  function XorInt(a: int32, b: int): int { Xor(ToWord(a), ToWord(b)) }

  // (int32_t)(getOffset(u)) + r->reg[getRS(u)], converted to uint32_t
  function Address(i: Instr, s: State): word
    requires Valid(s)
  {
    ToWord(i.im + s.reg[i.rs])
  }

  // getbits(vAddr,0,1) != 0
  predicate Misaligned(a: word)
    ensures Misaligned(a) <==> a % 4 != 0
  {
    Pow2Values();
    HalfWord(a);
    GetBits(a, 0, 1) != 0
  }

  function Flag(b: bool): int { if b then 1 else 0 }

  predicate Control(i: Instr) {
    i.m in {BEQ, BGEZ, BGTZ, BLEZ, BLTZ, BNE, J, JAL, JARL, JR}
  }

  // Every instruction that has no delay slot. Results are the return code and the new state.
  function ExecuteSimple(i: Instr, s: State): (r: (int, State))
    requires Valid(s) && !Control(i)
    ensures Valid(r.1)
  {
    var rd, rt := i.rd, i.rt;
    var a: int, b: int, im: int := s.reg[i.rs], s.reg[rt], i.im;
    match i.m
    case ADD => if AddOverflows(a, b) then (1, s) else (0, Put(s, rd, a + b))
    case ADDI => if AddOverflows(a, im) then (1, s) else (0, Put(s, rt, a + im))
    case ADDIU => (0, Put(s, rt, a + im))
    case ADDU => (0, Put(s, rd, a + b))
    case AND => (0, Put(s, rd, AndInt(a, b)))
    case ANDI => (0, Put(s, rt, AndInt(a, im)))
    case BREAK => (3, s)
    case DIV =>
      if b == 0 then (-1, s) else (0, Put(Put(s, LO, CDiv(a, b)), HI, CMod(a, b)))
    case LB => (0, Put(s, rt, LoadByte(s.mem, Address(i, s))))
    case LBU => (0, Put(s, rt, LoadByte(s.mem, Address(i, s))))
    case LUI => (0, Put(s, rt, im * 0x1_0000))
    case LW =>
      if Misaligned(Address(i, s)) then (1, s) else (0, Put(s, rt, LoadWord(s.mem, Address(i, s))))
    case MFHI => (0, Put(s, rd, s.reg[HI]))
    case MFLO => (0, Put(s, rd, s.reg[LO]))
    case MULT =>
      // a 32-bit product, then sign-extended: HI only ever receives 0 or -1
      var prod := ToInt32(a * b);
      (0, Put(Put(s, LO, prod), HI, if prod < 0 then -1 else 0))
    case OR => (0, Put(s, rd, OrInt(a, b)))
    case ORI => (0, Put(s, rt, OrInt(a, im)))
    case SB =>
      // the byte comes from rs
      var (code, mem) := StoreByte(s.mem, Address(i, s), GetBits(ToWord(a), 0, 7));
      (code, s.(mem := mem))
    case SEB => (0, Put(s, rd, GetBits(ToWord(b), 0, 7)))
    case SLL =>
      if rd == 0 && rt == 0 && i.sa == 0 then (0, s)
      else (0, Put(s, rd, Shl(GetBits(ToWord(b), 0, i.sa), i.sa)))
    case SLT => (0, Put(s, rd, Flag(a < b)))
    case SLTI => (0, Put(s, rt, Flag(a < im)))
    case SLTIU => (0, Put(s, rt, Flag(a < im)))
    case SLTU => (0, Put(s, rd, Flag(a < b)))
    case SRA => (0, Put(s, rd, GetBits(ToWord(s.reg[rd]), i.sa, 31)))
    case SRL => (0, Put(s, rd, s.reg[rd] / Pow2(i.sa)))
    case SUB => if SubOverflows(a, b) then (1, s) else (0, Put(s, rd, a - b))
    case SUBU => (0, Put(s, rd, a - b))
    case SW =>
      if Misaligned(Address(i, s)) then (1, s)
      else
        var (code, mem) := StoreWord(s.mem, Address(i, s), b);
        (code, s.(mem := mem))
    case SYSCALL =>
      var v0 := s.reg[2];
      (if v0 == 10 then 10 else if v0 == 1 || v0 == 4 then 0 else 1, s)
    case XOR => (0, Put(s, rd, XorInt(a, b)))
    case JALR => (2, s)      // decoded under this name, but the executor tests for "JARL"
    case PROBLEME => (2, s)
    case _ => assert false; (2, s)
  }

  /* ---------- branches, jumps and their delay slot ---------- */

  // The condition of a conditional branch on the two operand registers.
  predicate Taken(m: Mnemonic, a: int32, b: int32) {
    match m
    case BEQ => a == b
    case BGEZ => a >= 0
    case BGTZ => a > 0
    case BLEZ => a <= 0
    case BLTZ => a < 0
    case BNE => a != b
    case _ => false
  }

  // What is written before the delay slot runs.
  function Link(i: Instr, s: State): (s': State)
    requires Valid(s)
    ensures Valid(s') && s'.mem == s.mem && s'.reg[PC] == s.reg[PC]
  {
    match i.m
    case JAL => Put(s, RA, s.reg[PC] as int + 8)
    case JARL => Put(s, i.rd, s.reg[PC] as int + 8)
    case _ => s
  }

  // (pc & 0xF0000000) >> 28
  function TopNibble(w: word): (r: word)
    ensures r == w / 0x1000_0000
  {
    TopNibbleIs(w);
    Shr(And(w, 0xF000_0000), 28)
  }

  lemma TopNibbleIs(w: word)
    ensures Shr(And(w, 0xF000_0000), 28) == w / 0x1000_0000
  {
    hide And;
    Pow2Values();
    AndMask(w, 28, 31);
    assert Pow2(31 - 28 + 1) == 16;
    ShrMultiple(w / 0x1000_0000 % 16, 28);
  }

  // TopNibble(pc) | (getTarget(u) << 2)
  function JumpBits(target: field26, pc: int32): (r: word)
    ensures r < 0x1000_0000
  {
    JumpBitsFit(target, pc);
    Or(TopNibble(ToWord(pc)), target as int * 4)
  }

  lemma JumpBitsFit(target: field26, pc: int32)
    ensures Or(TopNibble(ToWord(pc)), target as int * 4) < 0x1000_0000
  {
    hide Or, TopNibble;
    Pow2Values();
    OperatorsFit(TopNibble(ToWord(pc)), target as int * 4, 28);
  }

  // The PC after the delay slot: s is the state before the instruction, pc the value the slot left.
  function Redirect(i: Instr, s: State, pc: int32): int32
    requires Valid(s)
  {
    match i.m
    case J => ToInt32(JumpBits(i.target, pc) as int - 4)
    case JAL => ToInt32(JumpBits(i.target, pc) as int - 4)
    case JR => ToInt32(s.reg[i.rs] as int - 4)
    case JARL => ToInt32(s.reg[i.rs] as int - 4)
    case _ => if Taken(i.m, s.reg[i.rs], s.reg[i.rt]) then ToInt32(pc as int + i.im * 4 - 4) else pc
  }

  // A bound on the remaining depth of the delay-slot recursion: 0 for a word without a slot,
  // otherwise the distance from PC to the top of the address space, which no segment reaches.
  function Depth(u: word, pc: int32): nat {
    if !Control(Decoded(u)) then 0
    else if ToWord(pc) >= 0x1_0000_0000 - SLACK then 0x1_0000_0001
    else 0x1_0000_0000 - ToWord(pc)
  }

  // The state in which the delay slot is fetched, and the word fetched.
  function Advance(s: State): (s': State)
    requires Valid(s)
    ensures Valid(s')
  {
    Put(s, PC, s.reg[PC] as int + 4)
  }

  function Fetch(s: State): word
    requires Valid(s)
  {
    ToWord(LoadWord(s.mem, ToWord(s.reg[PC])))
  }

  lemma DepthDecreases(u: word, s: State)
    requires Valid(s) && Control(Decoded(u))
    ensures Depth(Fetch(Advance(s)), Advance(s).reg[PC]) < Depth(u, s.reg[PC])
  {
    hide Decoded, LoadWord, ToWord, ToInt32, Advance, Fetch, Control;
    var s' := Advance(s);
    AdvanceAddress(s);
    FetchAtTop(s');
    NotControl();
  }

  lemma AdvanceAddress(s: State)
    requires Valid(s)
    ensures var (p, q) := (ToWord(s.reg[PC]) as int, ToWord(Advance(s).reg[PC]) as int);
            q == if p >= 0x1_0000_0000 - 4 then p + 4 - 0x1_0000_0000 else p + 4
  {
  }

  lemma FetchAtTop(s: State)
    requires Valid(s)
    ensures ToWord(s.reg[PC]) >= 0x1_0000_0000 - SLACK ==> Fetch(s) == 0
  {
    hide LoadWord;
    if ToWord(s.reg[PC]) >= 0x1_0000_0000 - SLACK {
      TopIsUnmapped(s.mem, ToWord(s.reg[PC]));
    }
  }

  lemma NotControl()
    ensures !Control(Decoded(0))
  {
    hide Decoded;
    ZeroIsNop();
  }

  // One call of execute_asm: the return code and the new state.
  function Execute(u: word, s: State): (r: (int, State))
    requires Valid(s)
    ensures Valid(r.1)
    decreases Depth(u, s.reg[PC]), 0
  {
    var i := Decoded(u);
    if !Control(i) then ExecuteSimple(i, s)
    else
      DepthDecreases(u, Link(i, s));
      var s' := NextInstruction(Link(i, s));
      (0, Put(s', PC, Redirect(i, s, s'.reg[PC])))
  }

  // One call of NextInstruction. The slot's return code is dropped.
  function NextInstruction(s: State): (s': State)
    requires Valid(s)
    ensures Valid(s')
    decreases Depth(Fetch(Advance(s)), Advance(s).reg[PC]), 1
  {
    Execute(Fetch(Advance(s)), Advance(s)).1
  }
}

/** A reference machine for the part of MIPS32 the emulator is measured against, written from the
    per-instruction descriptions of "MIPS32 Architecture for Programmers, Volume II". Registers are
    unsigned words, memory is flat, and a branch acts through the pair (pc, npc), so its delay slot
    is simply the next instruction. */
module Mips32 {
  import opened Words

  datatype Instruction =
    | Add(rd: nat, rs: nat, rt: nat) | Addu(rd: nat, rs: nat, rt: nat)
    | Sub(rd: nat, rs: nat, rt: nat) | Subu(rd: nat, rs: nat, rt: nat)
    | AndR(rd: nat, rs: nat, rt: nat) | OrR(rd: nat, rs: nat, rt: nat) | XorR(rd: nat, rs: nat, rt: nat)
    | Addi(rt: nat, rs: nat, imm: nat) | Addiu(rt: nat, rs: nat, imm: nat) | Slti(rt: nat, rs: nat, imm: nat)
    | Lui(rt: nat, imm: nat)
    | Mfhi(rd: nat) | Mflo(rd: nat) | Div(rs: nat, rt: nat)
    | Lbu(rt: nat, rs: nat, imm: nat) | Lw(rt: nat, rs: nat, imm: nat) | Sw(rt: nat, rs: nat, imm: nat)
    | Nop
    | Beq(rs: nat, rt: nat, imm: nat) | Bne(rs: nat, rt: nat, imm: nat)
    | Bgez(rs: nat, imm: nat) | Bgtz(rs: nat, imm: nat) | Blez(rs: nat, imm: nat) | Bltz(rs: nat, imm: nat)
    | Jump(index: nat) | Jal(index: nat) | Jr(rs: nat)
    | Other(op: OtherOp, rs: nat, rt: nat, rd: nat, sa: nat, imm: nat)
    | Unsupported

  // Instructions the reference decodes and does not perform. Operands a format lacks are zero.
  datatype OtherOp =
    | AndI | OrI | SltIU | SltR | SltUR | LoadB | StoreB | SignB | MulR | ShiftL | ShiftRL | ShiftRA
    | JumpLR | SysCall | Brk

  predicate WellFormed(i: Instruction) {
    match i
    case Add(rd, rs, rt) => rd < 32 && rs < 32 && rt < 32
    case Addu(rd, rs, rt) => rd < 32 && rs < 32 && rt < 32
    case Sub(rd, rs, rt) => rd < 32 && rs < 32 && rt < 32
    case Subu(rd, rs, rt) => rd < 32 && rs < 32 && rt < 32
    case AndR(rd, rs, rt) => rd < 32 && rs < 32 && rt < 32
    case OrR(rd, rs, rt) => rd < 32 && rs < 32 && rt < 32
    case XorR(rd, rs, rt) => rd < 32 && rs < 32 && rt < 32
    case Addi(rt, rs, imm) => rs < 32 && rt < 32 && imm < 0x1_0000
    case Addiu(rt, rs, imm) => rs < 32 && rt < 32 && imm < 0x1_0000
    case Slti(rt, rs, imm) => rs < 32 && rt < 32 && imm < 0x1_0000
    case Lui(rt, imm) => rt < 32 && imm < 0x1_0000
    case Mfhi(rd) => rd < 32
    case Mflo(rd) => rd < 32
    case Div(rs, rt) => rs < 32 && rt < 32
    case Lbu(rt, rs, imm) => rs < 32 && rt < 32 && imm < 0x1_0000
    case Lw(rt, rs, imm) => rs < 32 && rt < 32 && imm < 0x1_0000
    case Sw(rt, rs, imm) => rs < 32 && rt < 32 && imm < 0x1_0000
    case Nop => true
    case Beq(rs, rt, imm) => rs < 32 && rt < 32 && imm < 0x1_0000
    case Bne(rs, rt, imm) => rs < 32 && rt < 32 && imm < 0x1_0000
    case Bgez(rs, imm) => rs < 32 && imm < 0x1_0000
    case Bgtz(rs, imm) => rs < 32 && imm < 0x1_0000
    case Blez(rs, imm) => rs < 32 && imm < 0x1_0000
    case Bltz(rs, imm) => rs < 32 && imm < 0x1_0000
    case Jump(index) => index < 0x400_0000
    case Jal(index) => index < 0x400_0000
    case Jr(rs) => rs < 32
    case Other(op, rs, rt, rd, sa, imm) => rs < 32 && rt < 32 && rd < 32 && sa < 32 && imm < 0x1_0000
    case Unsupported => true
  }

  // The encoding tables: opcode, then the function field (opcode 0) or the rt field (opcode 1).
  function Decode(w: word): (i: Instruction)
    ensures WellFormed(i)
  {
    DecodeFields(w / 0x400_0000, w / 0x20_0000 % 32, w / 0x1_0000 % 32, w / 0x800 % 32, w / 64 % 32, w % 64,
                 w % 0x1_0000, w % 0x400_0000)
  }

  function DecodeFields(op: nat, rs: nat, rt: nat, rd: nat, sa: nat, fn: nat, imm: nat, index: nat): (i: Instruction)
    requires rs < 32 && rt < 32 && rd < 32 && sa < 32 && imm < 0x1_0000 && index < 0x400_0000
    ensures WellFormed(i)
  {
    if op == 0 then
      if fn == 0x20 then Add(rd, rs, rt) else if fn == 0x21 then Addu(rd, rs, rt)
      else if fn == 0x22 then Sub(rd, rs, rt) else if fn == 0x23 then Subu(rd, rs, rt)
      else if fn == 0x24 then AndR(rd, rs, rt) else if fn == 0x25 then OrR(rd, rs, rt)
      else if fn == 0x26 then XorR(rd, rs, rt)
      else if fn == 0x10 then Mfhi(rd) else if fn == 0x12 then Mflo(rd)
      else if fn == 0x1a then Div(rs, rt)
      else if fn == 0x08 then Jr(rs)
      else if fn == 0 then (if rt == 0 && rd == 0 && sa == 0 then Nop else Other(ShiftL, 0, rt, rd, sa, 0))
      else if fn == 0x02 then Other(ShiftRL, 0, rt, rd, sa, 0) else if fn == 0x03 then Other(ShiftRA, 0, rt, rd, sa, 0)
      else if fn == 0x09 then Other(JumpLR, rs, 0, rd, 0, 0)
      else if fn == 0x0c then Other(SysCall, 0, 0, 0, 0, 0) else if fn == 0x0d then Other(Brk, 0, 0, 0, 0, 0)
      else if fn == 0x18 then Other(MulR, rs, rt, 0, 0, 0)
      else if fn == 0x2a then Other(SltR, rs, rt, rd, 0, 0) else if fn == 0x2b then Other(SltUR, rs, rt, rd, 0, 0)
      else Unsupported
    else if op == 1 then
      if rt == 0 then Bltz(rs, imm) else if rt == 1 then Bgez(rs, imm) else Unsupported
    else if op == 0x02 then Jump(index) else if op == 0x03 then Jal(index)
    else if op == 0x04 then Beq(rs, rt, imm) else if op == 0x05 then Bne(rs, rt, imm)
    else if op == 0x06 then Blez(rs, imm) else if op == 0x07 then Bgtz(rs, imm)
    else if op == 0x08 then Addi(rt, rs, imm) else if op == 0x09 then Addiu(rt, rs, imm)
    else if op == 0x0a then Slti(rt, rs, imm) else if op == 0x0f then Lui(rt, imm)
    else if op == 0x23 then Lw(rt, rs, imm) else if op == 0x24 then Lbu(rt, rs, imm)
    else if op == 0x2b then Sw(rt, rs, imm)
    else if op == 0x0b then Other(SltIU, rs, rt, 0, 0, imm) else if op == 0x0c then Other(AndI, rs, rt, 0, 0, imm)
    else if op == 0x0d then Other(OrI, rs, rt, 0, 0, imm)
    else if op == 0x20 then Other(LoadB, rs, rt, 0, 0, imm) else if op == 0x28 then Other(StoreB, rs, rt, 0, 0, imm)
    else if op == 0x1f && fn == 0x20 && sa == 0x10 then Other(SignB, 0, rt, rd, 0, 0)
    else Unsupported
  }

  predicate Performed(i: Instruction) {
    !i.Other? && !i.Unsupported?
  }

  // Of the instructions performed.
  predicate HasDelaySlot(i: Instruction) {
    i.Beq? || i.Bne? || i.Bgez? || i.Bgtz? || i.Blez? || i.Bltz? || i.Jump? || i.Jal? || i.Jr?
  }

  /* ---------- values ---------- */

  // Two's complement reading of a word.
  function Signed(w: word): int {
    if w < 0x8000_0000 then w else w - 0x1_0000_0000
  }

  function SignExtend(imm: nat): int
    requires imm < 0x1_0000
  {
    if imm < 0x8000 then imm else imm - 0x1_0000
  }

  function Unsigned(x: int): word {
    x % 0x1_0000_0000
  }

  // The n-bit number whose bit i is f(i).
  function FromBits(n: nat, f: nat -> bool): (r: nat)
    ensures r < Pow2(n)
  {
    if n == 0 then 0 else FromBits(n - 1, f) + (if f(n - 1) then Pow2(n - 1) else 0)
  }

  function AndBits(a: word, b: word): nat {
    FromBits(32, (i: nat) => Bit(a, i) && Bit(b, i))
  }

  function OrBits(a: word, b: word): nat {
    FromBits(32, (i: nat) => Bit(a, i) || Bit(b, i))
  }

  function XorBits(a: word, b: word): nat {
    FromBits(32, (i: nat) => Bit(a, i) != Bit(b, i))
  }

  // Quotient toward zero, by sign and magnitude.
  function Quotient(a: int, b: int): int
    requires b != 0
  {
    var q := (if a < 0 then -a else a) / (if b < 0 then -b else b);
    if (a < 0) == (b < 0) then q else -q
  }

  /* ---------- the machine ---------- */

  // What an instruction other than a branch can touch.
  datatype Core = Core(gpr: seq<word>, hi: word, lo: word, mem: map<word, byte>)

  datatype Machine = Machine(core: Core, pc: word, npc: word)

  datatype Result<+T> = Done(value: T) | Trap

  // General register 0 discards what is written to it.
  function Write(c: Core, i: nat, v: int): Core
    requires i < |c.gpr|
  {
    if i == 0 then c else c.(gpr := c.gpr[i := Unsigned(v)])
  }

  ghost predicate HoldsWord(mem: map<word, byte>, a: word) {
    a % 4 == 0 && a in mem && a + 1 in mem && a + 2 in mem && a + 3 in mem
  }

  ghost function ReadWord(mem: map<word, byte>, a: word): word
    requires HoldsWord(mem, a)
  {
    ((mem[a] as int * 0x100 + mem[a + 1]) * 0x100 + mem[a + 2]) * 0x100 + mem[a + 3]
  }

  ghost function WriteWord(mem: map<word, byte>, a: word, w: word): map<word, byte>
    requires HoldsWord(mem, a)
  {
    mem[a := w / 0x100_0000][a + 1 := w / 0x1_0000 % 0x100][a + 2 := w / 0x100 % 0x100][a + 3 := w % 0x100]
  }

  function EffectiveAddress(c: Core, rs: nat, imm: nat): word
    requires rs < |c.gpr| && imm < 0x1_0000
  {
    Unsigned(c.gpr[rs] + SignExtend(imm))
  }

  // Everything without a delay slot. Overflow, a bad address and an undefined division trap.
  ghost function Perform(i: Instruction, c: Core): (r: Result<Core>)
    requires |c.gpr| == 32 && WellFormed(i) && !HasDelaySlot(i)
    ensures r.Done? ==> |r.value.gpr| == 32
  {
    match i
    case Add(rd, rs, rt) => Checked(c, rd, Signed(c.gpr[rs]) + Signed(c.gpr[rt]))
    case Addu(rd, rs, rt) => Done(Write(c, rd, c.gpr[rs] as int + c.gpr[rt]))
    case Sub(rd, rs, rt) => Checked(c, rd, Signed(c.gpr[rs]) - Signed(c.gpr[rt]))
    case Subu(rd, rs, rt) => Done(Write(c, rd, c.gpr[rs] as int - c.gpr[rt]))
    case AndR(rd, rs, rt) => Done(Write(c, rd, AndBits(c.gpr[rs], c.gpr[rt])))
    case OrR(rd, rs, rt) => Done(Write(c, rd, OrBits(c.gpr[rs], c.gpr[rt])))
    case XorR(rd, rs, rt) => Done(Write(c, rd, XorBits(c.gpr[rs], c.gpr[rt])))
    case Addi(rt, rs, imm) => Checked(c, rt, Signed(c.gpr[rs]) + SignExtend(imm))
    case Addiu(rt, rs, imm) => Done(Write(c, rt, c.gpr[rs] + SignExtend(imm)))
    case Slti(rt, rs, imm) => Done(Write(c, rt, if Signed(c.gpr[rs]) < SignExtend(imm) then 1 else 0))
    case Lui(rt, imm) => Done(Write(c, rt, imm * 0x1_0000))
    case Mfhi(rd) => Done(Write(c, rd, c.hi))
    case Mflo(rd) => Done(Write(c, rd, c.lo))
    case Div(rs, rt) =>
      var (a, b) := (Signed(c.gpr[rs]), Signed(c.gpr[rt]));
      if b == 0 || (a == -0x8000_0000 && b == -1) then Trap
      else Done(c.(lo := Unsigned(Quotient(a, b)), hi := Unsigned(a - b * Quotient(a, b))))
    case Lbu(rt, rs, imm) =>
      var a := EffectiveAddress(c, rs, imm);
      if a in c.mem then Done(Write(c, rt, c.mem[a])) else Trap
    case Lw(rt, rs, imm) =>
      var a := EffectiveAddress(c, rs, imm);
      if HoldsWord(c.mem, a) then Done(Write(c, rt, ReadWord(c.mem, a))) else Trap
    case Sw(rt, rs, imm) =>
      var a := EffectiveAddress(c, rs, imm);
      if HoldsWord(c.mem, a) then Done(c.(mem := WriteWord(c.mem, a, c.gpr[rt]))) else Trap
    case Nop => Done(c)
    case Other(_, _, _, _, _, _) => Trap
    case Unsupported => Trap
  }

  function Checked(c: Core, i: nat, v: int): Result<Core>
    requires i < |c.gpr|
  {
    if InInt32(v) then Done(Write(c, i, v)) else Trap
  }

  // Where a branch or jump at pc sends the machine after its delay slot.
  function Target(i: Instruction, c: Core, pc: word): word
    requires |c.gpr| == 32 && WellFormed(i) && HasDelaySlot(i)
  {
    match i
    case Beq(rs, rt, imm) => BranchTo(c.gpr[rs] == c.gpr[rt], pc, imm)
    case Bne(rs, rt, imm) => BranchTo(c.gpr[rs] != c.gpr[rt], pc, imm)
    case Bgez(rs, imm) => BranchTo(Signed(c.gpr[rs]) >= 0, pc, imm)
    case Bgtz(rs, imm) => BranchTo(Signed(c.gpr[rs]) > 0, pc, imm)
    case Blez(rs, imm) => BranchTo(Signed(c.gpr[rs]) <= 0, pc, imm)
    case Bltz(rs, imm) => BranchTo(Signed(c.gpr[rs]) < 0, pc, imm)
    case Jump(index) => Region(pc) + index * 4
    case Jal(index) => Region(pc) + index * 4
    case Jr(rs) => c.gpr[rs]
  }

  function BranchTo(taken: bool, pc: word, imm: nat): word
    requires imm < 0x1_0000
  {
    if taken then Unsigned(pc + 4 + SignExtend(imm) * 4) else Unsigned(pc + 8)
  }

  // The 256 MB region of the delay slot.
  function Region(pc: word): (r: word)
    ensures r <= 0xf000_0000
  {
    Unsigned(pc + 4) / 0x1000_0000 * 0x1000_0000
  }

  ghost function Step(m: Machine): (r: Result<Machine>)
    requires |m.core.gpr| == 32
    ensures r.Done? ==> |r.value.core.gpr| == 32
  {
    if !HoldsWord(m.core.mem, m.pc) then Trap
    else
      var i := Decode(ReadWord(m.core.mem, m.pc));
      if HasDelaySlot(i) then
        var c := if i.Jal? then Write(m.core, 31, m.pc + 8) else m.core;
        Done(Machine(c, m.npc, Target(i, m.core, m.pc)))
      else
        match Perform(i, m.core)
        case Done(c) => Done(Machine(c, m.npc, Unsigned(m.npc + 4)))
        case Trap => Trap
  }

  // An instruction and the one in its delay slot.
  ghost function StepTwice(m: Machine): Result<Machine>
    requires |m.core.gpr| == 32
  {
    match Step(m)
    case Done(m1) => Step(m1)
    case Trap => Trap
  }

  ghost function Run(m: Machine, k: nat): Result<Machine>
    requires |m.core.gpr| == 32
    decreases k
  {
    if k == 0 then Done(m)
    else
      match Step(m)
      case Done(m1) => Run(m1, k - 1)
      case Trap => Trap
  }

  lemma RunTwo(m: Machine, m2: Machine, k: nat)
    requires |m.core.gpr| == 32 && StepTwice(m) == Done(m2)
    ensures Run(m, 2 + k) == Run(m2, k)
  {
    hide Step;
    var m1 := Step(m).value;
    assert Run(m1, 1 + k) == Run(m2, k);
  }

  // No instruction changes register 0.
  lemma ZeroStays(m: Machine)
    requires |m.core.gpr| == 32 && Step(m).Done?
    ensures Step(m).value.core.gpr[0] == m.core.gpr[0]
  {
    hide Decode, ReadWord, HoldsWord, Target;
    var i := Decode(ReadWord(m.core.mem, m.pc));
    if !HasDelaySlot(i) {
      PerformKeepsZero(i, m.core);
    }
  }

  lemma PerformKeepsZero(i: Instruction, c: Core)
    requires |c.gpr| == 32 && WellFormed(i) && !HasDelaySlot(i) && Perform(i, c).Done?
    ensures Perform(i, c).value.gpr[0] == c.gpr[0]
  {
    hide Signed, Unsigned, AndBits, OrBits, XorBits, Quotient, EffectiveAddress, HoldsWord, ReadWord, WriteWord,
         SignExtend;
  }

  lemma ZeroStaysTwice(m: Machine)
    requires |m.core.gpr| == 32 && StepTwice(m).Done?
    ensures StepTwice(m).value.core.gpr[0] == m.core.gpr[0]
  {
    hide Step;
    ZeroStays(m);
    ZeroStays(Step(m).value);
  }

  lemma {:induction false} BitsOfFromBits(n: nat, f: nat -> bool, i: nat)
    requires i < n
    ensures Bit(FromBits(n, f), i) == f(i)
  {
    hide Bit, Pow2;
    var low, top := FromBits(n - 1, f), if f(n - 1) then 1 else 0;
    assert FromBits(n, f) == low + (if f(n - 1) then Pow2(n - 1) else 0) == top * Pow2(n - 1) + low;
    if i == n - 1 {
      TopBit(low, top, i);
    } else {
      BitsOfFromBits(n - 1, f, i);
      HighBitKeepsLow(low, top, n - 1, i);
    }
  }

  lemma TopBit(low: nat, top: nat, n: nat)
    requires low < Pow2(n) && top <= 1
    ensures top * Pow2(n) >= 0 && Bit(top * Pow2(n) + low, n) == (top == 1)
  {
    hide Pow2;
    DivUnique(top * Pow2(n) + low, Pow2(n), top, low);
  }

  lemma HighBitKeepsLow(low: nat, top: nat, n: nat, i: nat)
    requires i < n
    ensures top * Pow2(n) >= 0 && Bit(top * Pow2(n) + low, i) == Bit(low, i)
  {
    var d, e := Pow2(i), Pow2(n - i - 1);
    Pow2Add(i, n - i);
    assert Pow2(n) == d * (2 * e);
    Regroup(top, d, e);
    ShiftedSum(d, low, top * e);
    ParityOfSum(top * e, low / d);
  }

  lemma ParityOfSum(k: int, q: int)
    ensures (2 * k + q) % 2 == q % 2
  {
  }

  lemma ShiftedSum(d: int, low: nat, k: nat)
    requires d > 0
    ensures (d * (2 * k) + low) / d == 2 * k + low / d
  {
    DivUnique(d * (2 * k) + low, d, 2 * k + low / d, low % d);
  }

  lemma Regroup(t: nat, d: nat, e: nat)
    ensures t * (d * (2 * e)) == d * (2 * (t * e))
  {
  }

  // The reference's bitwise results are those of C's operators.
  lemma BitwiseAgree(a: word, b: word)
    ensures AndBits(a, b) == And(a, b) && OrBits(a, b) == Or(a, b) && XorBits(a, b) == Xor(a, b)
  {
    hide And, Or, Xor, Bit;
    assert Pow2(32) == 0x1_0000_0000 by { Pow2Values(); }
    OperatorsFit(a, b, 32);
    forall i: nat | i < 32
      ensures Bit(AndBits(a, b), i) == Bit(And(a, b), i)
      ensures Bit(OrBits(a, b), i) == Bit(Or(a, b), i)
      ensures Bit(XorBits(a, b), i) == Bit(Xor(a, b), i)
    {
      BitsOfOperators(a, b, i);
      BitsOfFromBits(32, (j: nat) => Bit(a, j) && Bit(b, j), i);
      BitsOfFromBits(32, (j: nat) => Bit(a, j) || Bit(b, j), i);
      BitsOfFromBits(32, (j: nat) => Bit(a, j) != Bit(b, j), i);
    }
    BitsDetermine(AndBits(a, b), And(a, b), 32);
    BitsDetermine(OrBits(a, b), Or(a, b), 32);
    BitsDetermine(XorBits(a, b), Xor(a, b), 32);
  }
}

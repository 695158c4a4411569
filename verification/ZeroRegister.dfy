/** Register 0 is not protected: exactly which instructions without a delay slot keep it zero. */
module ZeroRegister {
  import opened Words
  import opened Decode
  import opened Memory
  import opened Engine
  import opened Chains

  // The condition, on the fields of the instruction.
  predicate KeepsZero(i: Instr) {
    match i.m
    case ADD => i.rd != 0 || (i.rs == 0 && i.rt == 0)
    case ADDU => i.rd != 0 || (i.rs == 0 && i.rt == 0)
    case OR => i.rd != 0 || (i.rs == 0 && i.rt == 0)
    case AND => i.rd != 0 || i.rs == 0 || i.rt == 0
    case SUB => i.rd != 0 || i.rs == i.rt
    case SUBU => i.rd != 0 || i.rs == i.rt
    case XOR => i.rd != 0 || i.rs == i.rt
    case SLT => i.rd != 0 || i.rs == i.rt
    case SLTU => i.rd != 0 || i.rs == i.rt
    case ADDI => i.rt != 0 || (i.rs == 0 && i.im == 0)
    case ADDIU => i.rt != 0 || (i.rs == 0 && i.im == 0)
    case ORI => i.rt != 0 || (i.rs == 0 && i.im == 0)
    case ANDI => i.rt != 0 || i.rs == 0 || i.im == 0
    case SLTI => i.rt != 0 || (i.rs == 0 && i.im <= 0)
    case SLTIU => i.rt != 0 || (i.rs == 0 && i.im <= 0)
    case LUI => i.rt != 0 || i.im == 0
    case LB => i.rt != 0 || (i.rs == 0 && -4 <= i.im < 0)
    case LBU => i.rt != 0 || (i.rs == 0 && -4 <= i.im < 0)
    case LW => i.rt != 0 || (i.rs == 0 && (i.im % 4 != 0 || i.im == -4))
    case MFHI => i.rd != 0
    case MFLO => i.rd != 0
    case SEB => i.rd != 0 || i.rt == 0
    case SLL => i.rd != 0 || i.rt == 0
    case _ => true
  }

  predicate FromRegisters(m: Mnemonic) {
    m.ADD? || m.ADDU? || m.OR? || m.AND? || m.SUB? || m.SUBU? || m.XOR? || m.SLT? || m.SLTU?
  }

  predicate FromImmediate(m: Mnemonic) {
    m.ADDI? || m.ADDIU? || m.ORI? || m.ANDI? || m.SLTI? || m.SLTIU? || m.LUI?
  }

  predicate FromMemory(m: Mnemonic) {
    m.LB? || m.LBU? || m.LW?
  }

  predicate FromOne(m: Mnemonic) {
    m.MFHI? || m.MFLO? || m.SEB? || m.SLL? || m.SRA? || m.SRL?
  }

  /* ---------- where it is kept ---------- */

  lemma Kept(i: Instr, s: State)
    requires Valid(s) && s.reg[0] == 0 && !Control(i) && KeepsZero(i)
    ensures ExecuteSimple(i, s).1.reg[0] == 0
  {
    hide ExecuteSimple, KeepsZero;
    if Dest(i) != 0 && !i.m.DIV? && !i.m.MULT? {
      SimpleRegisters(i, s);
    } else if FromRegisters(i.m) {
      KeptFromRegisters(i, s);
    } else if FromImmediate(i.m) {
      KeptFromImmediate(i, s);
    } else if FromMemory(i.m) {
      KeptFromMemory(i, s);
    } else if FromOne(i.m) {
      KeptFromOne(i, s);
    } else {
      KeptOtherwise(i, s);
    }
  }

  lemma ZeroOperators(a: int32)
    ensures OrInt(0, 0) == 0 && AndInt(0, a) == 0 && AndInt(a, 0) == 0 && XorInt(a, a) == 0 && ToInt32(0) == 0
  {
    hide And, Xor;
    AndZero(ToWord(a));
    ZeroAnd(ToWord(a));
    XorSame(ToWord(a));
  }

  lemma ZeroAnd(a: nat)
    ensures And(0, a) == 0
  {
  }

  lemma {:induction false} XorSame(a: nat)
    ensures Xor(a, a) == 0
    decreases a
  {
    if a > 0 {
      XorSame(a / 2);
    }
  }

  lemma KeptFromRegisters(i: Instr, s: State)
    requires Valid(s) && s.reg[0] == 0 && FromRegisters(i.m) && i.rd == 0 && KeepsZero(i)
    ensures ExecuteSimple(i, s).1.reg[0] == 0
  {
    hide AddOverflows, SubOverflows, ToInt32, AndInt, OrInt, XorInt;
    ZeroOperators(s.reg[i.rs]);
    ZeroOperators(s.reg[i.rt]);
  }

  lemma KeptFromImmediate(i: Instr, s: State)
    requires Valid(s) && s.reg[0] == 0 && FromImmediate(i.m) && i.rt == 0 && KeepsZero(i)
    ensures ExecuteSimple(i, s).1.reg[0] == 0
  {
    hide AddOverflows, ToInt32;
    ZeroOperators(s.reg[i.rs]);
    ZeroAnd(ToWord(i.im));
    AndZero(ToWord(s.reg[i.rs]));
  }

  lemma KeptFromMemory(i: Instr, s: State)
    requires Valid(s) && s.reg[0] == 0 && FromMemory(i.m) && i.rt == 0 && KeepsZero(i)
    ensures ExecuteSimple(i, s).1.reg[0] == 0
  {
    hide Locate, Misaligned, ToInt32;
    SmallInt();
    var a := Address(i, s);
    if i.m.LW? && i.im % 4 != 0 {
      assert a % 4 != 0;
    } else {
      assert a >= 0x1_0000_0000 - SLACK;
      assert !Locate(s.mem, a).At?;
    }
  }

  lemma SmallInt()
    ensures ToInt32(0) == 0
  {
  }

  lemma KeptFromOne(i: Instr, s: State)
    requires Valid(s) && s.reg[0] == 0 && FromOne(i.m) && i.rd == 0 && KeepsZero(i)
    ensures ExecuteSimple(i, s).1.reg[0] == 0
  {
    hide GetBits, Pow2, ToInt32;
    SmallInt();
    ZeroBits(i.sa);
  }

  lemma ZeroBits(k: nat)
    requires k <= 31
    ensures GetBits(0, k, 31) == 0 && GetBits(0, 0, k) == 0 && GetBits(0, 0, 7) == 0 && Shl(0, k) == 0
    ensures 0 / Pow2(k) == 0
  {
    hide Pow2;
    DivUnique(0, Pow2(k), 0, 0);
    DivUnique(0, Pow2(0), 0, 0);
  }

  lemma KeptOtherwise(i: Instr, s: State)
    requires Valid(s) && s.reg[0] == 0 && !Control(i)
    requires !FromRegisters(i.m) && !FromImmediate(i.m) && !FromMemory(i.m) && !FromOne(i.m)
    ensures ExecuteSimple(i, s).1.reg[0] == 0
  {
    hide Locate, PutContent, PutWord, GetBits, CDiv, CMod, ToInt32;
  }

  /* ---------- where it is not ---------- */

  // Every register zero but x, which holds v, and y, which holds w.
  function Registers(x: nat, v: int32, y: nat, w: int32): (reg: seq<int32>)
    ensures |reg| == NREG && forall k :: 0 <= k < NREG ==> reg[k] == if k == x then v else if k == y then w else 0
  {
    seq(NREG, (k: nat) => if k == x then v else if k == y then w else 0)
  }

  // A segment of no size whose spare bytes answer for a.
  function Ones(a: word): (m: Image)
    requires a < 0x1_0000_0000 - SLACK
    ensures ValidImage(m) && LoadByte(m, a) == 1 && LoadWord(m, a) == 0x0101_0101
  {
    var g := Segment(None, [1, 1, 1, 1], a, 0, 0);
    assert ValidSegment(g) && Hit(g, a);
    [g]
  }

  lemma BrokenFromRegisters(i: Instr) returns (s: State)
    requires FromRegisters(i.m) && !KeepsZero(i)
    ensures Valid(s) && s.reg[0] == 0 && ExecuteSimple(i, s).1.reg[0] != 0
  {
    hide AddOverflows, SubOverflows, AndInt, OrInt, XorInt;
    var minus := (i.m.SLT? || i.m.SLTU?) && i.rt == 0;
    var v := if minus then -1 else 1;
    var both := i.m.AND?;
    var first := if i.m.SLT? || i.m.SLTU? then i.rt == 0 else i.rs != 0;
    s := State(if both then Registers(i.rs, 1, i.rt, 1)
               else if first then Registers(i.rs, v, i.rs, v)
               else Registers(i.rt, 1, i.rt, 1), []);
    OneOperators();
  }

  lemma OneOperators()
    ensures AndInt(1, 1) == 1 && OrInt(1, 1) == 1 && OrInt(1, 0) == 1 && OrInt(0, 1) == 1
    ensures XorInt(1, 0) == 1 && XorInt(0, 1) == 1
  {
    hide And, Or, Xor;
    OneAnd();
    OneOr();
    OneXor();
  }

  lemma OneAnd()
    ensures And(1, 1) == 1
  {
    assert And(0, 0) == 0;
  }

  lemma OneXor()
    ensures Xor(1, 0) == 1 && Xor(0, 1) == 1
  {
  }

  lemma BrokenFromImmediate(i: Instr) returns (s: State)
    requires FromImmediate(i.m) && !KeepsZero(i)
    ensures Valid(s) && s.reg[0] == 0 && ExecuteSimple(i, s).1.reg[0] != 0
  {
    hide AddOverflows, AndInt, OrInt;
    var v: int32 :=
      if i.m.ANDI? then -1
      else if i.m.SLTI? || i.m.SLTIU? then -0x8000_0000
      else if i.im == 0 then 1 else 0;
    s := State(Registers(i.rs, if i.rs == 0 then 0 else v, i.rs, if i.rs == 0 then 0 else v), []);
    ImmediateOperators(i.im);
  }

  lemma ImmediateOperators(im: int16)
    ensures im != 0 ==> ToInt32(AndInt(-1, im)) != 0 && ToInt32(OrInt(0, im)) != 0
    ensures ToInt32(OrInt(1, 0)) == 1
    ensures im != 0 ==> ToInt32(im * 0x1_0000) != 0
  {
    hide And, Or;
    var w := ToWord(im);
    Pow2Values();
    AllOnes(w);
    OrZero(w);
    OneOr();
  }

  lemma AllOnes(w: word)
    ensures And(0xffff_ffff, w) == w
  {
    hide And;
    Pow2Values();
    AndLowBits(w, 32);
    AndCommutes(0xffff_ffff, w);
  }

  lemma {:induction false} AndCommutes(a: nat, b: nat)
    ensures And(a, b) == And(b, a)
    decreases a
  {
    if a > 0 && b > 0 {
      AndCommutes(a / 2, b / 2);
    }
  }

  lemma OneOr()
    ensures Or(1, 0) == 1 && Or(0, 1) == 1 && Or(1, 1) == 1
  {
    assert Or(0, 0) == 0;
  }

  lemma BrokenFromMemory(i: Instr) returns (s: State)
    requires FromMemory(i.m) && !KeepsZero(i)
    ensures Valid(s) && s.reg[0] == 0 && ExecuteSimple(i, s).1.reg[0] != 0
  {
    hide LoadWord, LoadByte, Misaligned, ValidImage;
    var v: int32 := if i.rs == 0 then 0 else 0x3000 - i.im;
    var a := ToWord(i.im + v);
    var reg := Registers(i.rs, v, i.rs, v);
    assert a < 0x1_0000_0000 - SLACK;
    s := State(reg, Ones(a));
    assert Address(i, s) == a;
  }

  lemma BrokenFromOne(i: Instr) returns (s: State)
    requires FromOne(i.m) && !KeepsZero(i)
    ensures Valid(s) && s.reg[0] == 0 && ExecuteSimple(i, s).1.reg[0] != 0
  {
    hide GetBits, Pow2;
    var x: nat := if i.m.MFHI? then HI else if i.m.MFLO? then LO else i.rt;
    s := State(Registers(x, 1, x, 1), []);
    OneBit(i.sa);
  }

  lemma OneBit(k: nat)
    requires k <= 31
    ensures GetBits(1, 0, 7) == 1 && GetBits(1, 0, k) == 1 && ToInt32(Shl(1, k)) != 0
  {
    hide GetBits;
    Pow2Values();
    Pow2Monotone(1, 8);
    Pow2Monotone(1, k + 1);
    Pow2Monotone(k, 31);
    assert Shr(1, 0) == 1;
  }

  /* ---------- exactly ---------- */

  // A word without a delay slot keeps register 0 at zero in every state if and only if its fields
  // meet the condition.
  lemma WordsKeepZero(u: word)
    requires !Control(Decoded(u))
    ensures (forall s: State :: Valid(s) && s.reg[0] == 0 ==> Execute(u, s).1.reg[0] == 0) <==> KeepsZero(Decoded(u))
  {
    hide ExecuteSimple, KeepsZero, Decoded, Execute;
    var i := Decoded(u);
    if KeepsZero(i) {
      forall s: State | Valid(s) && s.reg[0] == 0
        ensures Execute(u, s).1.reg[0] == 0
      {
        SimpleCall(u, s);
        Kept(i, s);
      }
    } else {
      var s := Broken(i);
      SimpleCall(u, s);
    }
  }

  lemma Broken(i: Instr) returns (s: State)
    requires !Control(i) && !KeepsZero(i)
    ensures Valid(s) && s.reg[0] == 0 && ExecuteSimple(i, s).1.reg[0] != 0
  {
    hide ExecuteSimple;
    if FromRegisters(i.m) {
      s := BrokenFromRegisters(i);
    } else if FromImmediate(i.m) {
      s := BrokenFromImmediate(i);
    } else if FromMemory(i.m) {
      s := BrokenFromMemory(i);
    } else {
      s := BrokenFromOne(i);
    }
  }
}

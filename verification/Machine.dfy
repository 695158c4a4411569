/** The emulator's registers and its execute_asm and NextInstruction (src/asm.c), updating arrays in
    place. Every method is tied to the state function of module Engine. */
module Machine {
  import opened Words
  import opened Decode
  import opened Memory
  import opened VirtualMem
  import opened Engine
  import Chains

  // registre_new (src/registre.c)
  class Registers {
    const reg: array<int32>

    constructor (nbreg: nat)
      ensures fresh(reg) && reg.Length == nbreg && forall i :: 0 <= i < nbreg ==> reg[i] == 0
    {
      reg := new int32[nbreg](_ => 0);
    }
  }

  ghost function StateOf(r: Registers, memory: VirtualMemory): State
    reads r.reg, memory.seg, memory.Buffers()
  {
    State(r.reg[..], memory.Table())
  }

  ghost predicate Ready(r: Registers, memory: VirtualMemory)
    reads r.reg, memory.seg, memory.Buffers()
  {
    && memory.Separate() && r.reg !in memory.Buffers()
    && Valid(StateOf(r, memory))
  }

  // r->reg[i] = v, converted to int32_t
  method Set(r: Registers, ghost memory: VirtualMemory, i: nat, v: int)
    requires Ready(r, memory) && i < NREG
    modifies r.reg
    ensures Ready(r, memory) && memory.Buffers() == old(memory.Buffers())
    ensures StateOf(r, memory) == Put(old(StateOf(r, memory)), i, v)
  {
    r.reg[i] := ToInt32(v);
    assert memory.Table() == old(memory.Table());
  }

  // execute_asm
  method ExecuteAsm(u: word, r: Registers, memory: VirtualMemory) returns (code: int)
    requires Ready(r, memory)
    modifies r.reg, memory.Buffers()
    ensures Ready(r, memory) && memory.Buffers() == old(memory.Buffers())
    ensures (code, StateOf(r, memory)) == Execute(u, old(StateOf(r, memory)))
    decreases Depth(u, r.reg[PC]), 0
  {
    hide ExecuteSimple, Decoded, NextInstruction, Link, Redirect, Put;
    var i := Decoded(u);
    ghost var s := StateOf(r, memory);
    if Control(i) {
      DepthDecreases(u, Link(i, s));
      var a, b := r.reg[i.rs], r.reg[i.rt];
      WriteLink(i, r, memory);
      NextInstructionAsm(r, memory);
      TakeBranch(i, a, b, r, memory, s);
      return 0;
    } else if i.m.SB? || i.m.SW? {
      code := ExecuteStore(i, r, memory);
    } else if i.m.LB? || i.m.LBU? || i.m.LW? {
      code := ExecuteLoad(i, r, memory);
    } else if i.m.ADD? || i.m.ADDI? || i.m.SUB? || i.m.DIV? || i.m.MULT? || i.m.BREAK? || i.m.SYSCALL?
        || i.m.JALR? || i.m.PROBLEME? {
      code := ExecuteChecked(i, r, memory);
    } else {
      ExecuteWriting(i, r, memory);
      return 0;
    }
  }

  // NextInstruction
  method NextInstructionAsm(r: Registers, memory: VirtualMemory)
    requires Ready(r, memory)
    modifies r.reg, memory.Buffers()
    ensures Ready(r, memory) && memory.Buffers() == old(memory.Buffers())
    ensures StateOf(r, memory) == NextInstruction(old(StateOf(r, memory)))
    decreases Depth(Fetch(Advance(StateOf(r, memory))), Advance(StateOf(r, memory)).reg[PC]), 1
  {
    hide Execute, Put, Depth, LoadWord, LoadByte, ToWord, Decoded, Control;
    ghost var t := Advance(StateOf(r, memory));
    Set(r, memory, PC, r.reg[PC] as int + 4);
    var u := memory.LoadMem(ToWord(r.reg[PC]), Word);
    assert StateOf(r, memory) == t && ToWord(u) == Fetch(t) && r.reg[PC] == t.reg[PC];
    var _ := ExecuteAsm(ToWord(u), r, memory);
  }

  // What a jump writes before its delay slot.
  method WriteLink(i: Instr, r: Registers, ghost memory: VirtualMemory)
    requires Ready(r, memory)
    modifies r.reg
    ensures Ready(r, memory) && memory.Buffers() == old(memory.Buffers())
    ensures StateOf(r, memory) == Link(i, old(StateOf(r, memory)))
  {
    hide Put;
    if i.m == JAL {
      Set(r, memory, RA, r.reg[PC] as int + 8);
    } else if i.m == JARL {
      Set(r, memory, i.rd, r.reg[PC] as int + 8);
    }
  }

  // What a jump or branch writes after its delay slot; a and b were read before it.
  method TakeBranch(i: Instr, a: int32, b: int32, r: Registers, ghost memory: VirtualMemory, ghost s: State)
    requires Ready(r, memory) && Control(i)
    requires Valid(s) && a == s.reg[i.rs] && b == s.reg[i.rt]
    modifies r.reg
    ensures Ready(r, memory) && memory.Buffers() == old(memory.Buffers())
    ensures StateOf(r, memory) == Put(old(StateOf(r, memory)), PC, Redirect(i, s, old(r.reg[PC])))
  {
    hide Put, JumpBits, ToInt32, Execute, NextInstruction;
    var pc := r.reg[PC];
    if i.m.J? || i.m.JAL? {
      Set(r, memory, PC, ToInt32(JumpBits(i.target, pc) as int - 4));
    } else if i.m.JR? || i.m.JARL? {
      Set(r, memory, PC, ToInt32(a as int - 4));
    } else {
      TakeConditional(i, a, b, r, memory);
    }
  }

  method TakeConditional(i: Instr, a: int32, b: int32, r: Registers, ghost memory: VirtualMemory)
    requires Ready(r, memory)
    modifies r.reg
    ensures Ready(r, memory) && memory.Buffers() == old(memory.Buffers())
    ensures StateOf(r, memory) ==
            var s, pc := old(StateOf(r, memory)), old(r.reg[PC]) as int;
            Put(s, PC, if Taken(i.m, a, b) then ToInt32(pc + i.im * 4 - 4) else pc)
  {
    hide Put, ToInt32;
    if Taken(i.m, a, b) {
      var targetOffset := i.im * 4;
      Set(r, memory, PC, ToInt32(r.reg[PC] as int + targetOffset - 4));
    } else {
      PutSame(StateOf(r, memory));
    }
  }

  lemma PutSame(s: State)
    requires Valid(s)
    ensures Put(s, PC, s.reg[PC]) == s
  {
  }

  // Loads.
  method ExecuteLoad(i: Instr, r: Registers, memory: VirtualMemory) returns (code: int)
    requires Ready(r, memory) && (i.m.LB? || i.m.LBU? || i.m.LW?)
    modifies r.reg
    ensures Ready(r, memory) && memory.Buffers() == old(memory.Buffers())
    ensures (code, StateOf(r, memory)) == ExecuteSimple(i, old(StateOf(r, memory)))
  {
    hide Put, LoadWord, LoadByte, ToInt32, ToWord, Misaligned;
    var vAddr := ToWord(i.im + r.reg[i.rs]);
    if i.m.LB? || i.m.LBU? {
      var b := memory.LoadMem(vAddr, Byte);
      Set(r, memory, i.rt, b);
      return 0;
    }
    if Misaligned(vAddr) {
      return 1;
    }
    var w := memory.LoadMem(vAddr, Word);
    Set(r, memory, i.rt, w);
    return 0;
  }

  // Stores.
  method ExecuteStore(i: Instr, r: Registers, memory: VirtualMemory) returns (code: int)
    requires Ready(r, memory) && (i.m.SB? || i.m.SW?)
    modifies memory.Buffers()
    ensures Ready(r, memory) && memory.Buffers() == old(memory.Buffers())
    ensures (code, StateOf(r, memory)) == ExecuteSimple(i, old(StateOf(r, memory)))
  {
    hide StoreWord, StoreByte, GetBits, ToWord, Misaligned;
    var vAddr := ToWord(i.im + r.reg[i.rs]);
    if i.m.SB? {
      LowByte(r.reg[i.rs]);
      code := Store(r, memory, vAddr, GetBits(ToWord(r.reg[i.rs]), 0, 7), Byte);
      return;
    }
    if Misaligned(vAddr) {
      return 1;
    }
    code := Store(r, memory, vAddr, r.reg[i.rt], Word);
  }

  lemma LowByte(x: int32)
    ensures GetBits(ToWord(x), 0, 7) < 0x100
  {
    assert Pow2(7 - 0 + 1) == 0x100;
  }

  method Store(ghost r: Registers, memory: VirtualMemory, vAddr: word, data: int32, width: Width) returns (code: int)
    requires Ready(r, memory) && width != Other
    modifies memory.Buffers()
    ensures Ready(r, memory) && memory.Buffers() == old(memory.Buffers())
    ensures var s := old(StateOf(r, memory));
            var stored := if width == Word then StoreWord(s.mem, vAddr, data) else StoreByte(s.mem, vAddr, data);
            code == stored.0 && StateOf(r, memory) == s.(mem := stored.1)
  {
    hide StoreWord, StoreByte;
    code := memory.StoreMem(vAddr, data, width);
  }

  // Instructions with a return code of their own.
  method ExecuteChecked(i: Instr, r: Registers, ghost memory: VirtualMemory) returns (code: int)
    requires Ready(r, memory) && (i.m.ADD? || i.m.ADDI? || i.m.SUB? || i.m.DIV? || i.m.MULT? || i.m.BREAK?
             || i.m.SYSCALL? || i.m.JALR? || i.m.PROBLEME?)
    modifies r.reg
    ensures Ready(r, memory) && memory.Buffers() == old(memory.Buffers())
    ensures (code, StateOf(r, memory)) == ExecuteSimple(i, old(StateOf(r, memory)))
  {
    hide Put, ToInt32, Extend33, TopBitsDiffer, CDiv, CMod;
    var a: int, b: int := r.reg[i.rs], r.reg[i.rt];
    match i.m
    case ADD =>
      var temp := Extend33(a);
      temp := (temp + Extend33(b)) % TWO_64;
      if TopBitsDiffer(temp) {
        return 1;
      }
      Set(r, memory, i.rd, a + b);
      return 0;
    case ADDI =>
      var temp := Extend33(a);
      temp := (temp + Extend33(i.im)) % TWO_64;
      if TopBitsDiffer(temp) {
        return 1;
      }
      Set(r, memory, i.rt, a + i.im);
      return 0;
    case SUB =>
      var temp := Extend33(a);
      temp := (temp - Extend33(b)) % TWO_64;
      if TopBitsDiffer(temp) {
        return 1;
      }
      Set(r, memory, i.rd, a - b);
      return 0;
    case DIV =>
      if b == 0 {
        return -1;
      }
      Set(r, memory, LO, CDiv(a, b));
      Set(r, memory, HI, CMod(a, b));
      return 0;
    case MULT =>
      var prod := ToInt32(a * b);
      Set(r, memory, LO, prod);
      Set(r, memory, HI, if prod < 0 then -1 else 0);
      return 0;
    case BREAK => return 3;
    case SYSCALL =>
      if r.reg[2] == 10 {
        return 10;
      }
      return if r.reg[2] == 1 || r.reg[2] == 4 then 0 else 1;
    case _ => return 2;
  }

  // Instructions that write one register and return 0.
  method ExecuteWriting(i: Instr, r: Registers, ghost memory: VirtualMemory)
    requires Ready(r, memory) && !Control(i)
    requires !(i.m.SB? || i.m.SW? || i.m.LB? || i.m.LBU? || i.m.LW? || i.m.ADD? || i.m.ADDI? || i.m.SUB?
             || i.m.DIV? || i.m.MULT? || i.m.BREAK? || i.m.SYSCALL? || i.m.JALR? || i.m.PROBLEME?)
    modifies r.reg
    ensures Ready(r, memory) && memory.Buffers() == old(memory.Buffers())
    ensures (0, StateOf(r, memory)) == ExecuteSimple(i, old(StateOf(r, memory)))
  {
    hide Put, ToInt32, ToWord, GetBits, Shl, AndInt, OrInt, XorInt, Pow2;
    var a: int, b: int := r.reg[i.rs], r.reg[i.rt];
    match i.m
    case ADDIU => Set(r, memory, i.rt, a + i.im);
    case ADDU => Set(r, memory, i.rd, a + b);
    case AND => Set(r, memory, i.rd, AndInt(a, b));
    case ANDI => Set(r, memory, i.rt, AndInt(a, i.im));
    case LUI => Set(r, memory, i.rt, i.im * 0x1_0000);
    case MFHI => Set(r, memory, i.rd, r.reg[HI]);
    case MFLO => Set(r, memory, i.rd, r.reg[LO]);
    case OR => Set(r, memory, i.rd, OrInt(a, b));
    case ORI => Set(r, memory, i.rt, OrInt(a, i.im));
    case SEB => Set(r, memory, i.rd, GetBits(ToWord(b), 0, 7));
    case SLL =>
      if !(i.rd == 0 && i.rt == 0 && i.sa == 0) {
        Set(r, memory, i.rd, Shl(GetBits(ToWord(b), 0, i.sa), i.sa));
      }
    case SLT => Set(r, memory, i.rd, Flag(a < b));
    case SLTI => Set(r, memory, i.rt, Flag(a < i.im));
    case SLTIU => Set(r, memory, i.rt, Flag(a < i.im));
    case SLTU => Set(r, memory, i.rd, Flag(a < b));
    case SRA => Set(r, memory, i.rd, GetBits(ToWord(r.reg[i.rd]), i.sa, 31));
    case SRL => Set(r, memory, i.rd, r.reg[i.rd] / Pow2(i.sa));
    case SUBU => Set(r, memory, i.rd, a - b);
    case XOR => Set(r, memory, i.rd, XorInt(a, b));
  }

  // The fetch step of stepinto (src/commande.c), with the exit call of syscall.
  method FetchStep(r: Registers, memory: VirtualMemory) returns (code: int)
    requires Ready(r, memory) && |memory.seg| > 0
    modifies r.reg, memory.Buffers()
    ensures Ready(r, memory) && memory.Buffers() == old(memory.Buffers())
    ensures (code, StateOf(r, memory)) == Chains.Step(old(StateOf(r, memory)))
  {
    hide Execute, Put, LoadWord, ToWord, ToInt32;
    var w := memory.LoadMem(ToWord(r.reg[PC]), Word);
    code := ExecuteAsm(ToWord(w), r, memory);
    if code == 10 {
      assert StateOf(r, memory).mem[0] == memory.seg[0].View();
      Set(r, memory, PC, memory.seg[0].start);
      return 10;
    }
    Set(r, memory, PC, r.reg[PC] as int + 4);
    return 0;
  }

  // stepinto. The address scan it starts with reads past the end of the table, so what that scan
  // returned, an index or -1, is a parameter.
  method StepInto(r: Registers, memory: VirtualMemory, segment: int) returns (code: int)
    requires Ready(r, memory) && |memory.seg| > 0
    modifies r.reg, memory.Buffers()
    ensures Ready(r, memory) && memory.Buffers() == old(memory.Buffers())
    ensures (code, StateOf(r, memory)) == Chains.StepCommand(old(StateOf(r, memory)), segment)
  {
    hide Chains.Step, Put, ToWord;
    assert StateOf(r, memory).mem[0] == memory.seg[0].View();
    if segment == -1 || ToWord(r.reg[PC] as int - memory.seg[0].start) >= memory.seg[0].size {
      Set(r, memory, PC, memory.seg[0].start);
      return Chains.CMD_WRONG_ARG;
    }
    code := FetchStep(r, memory);
  }
}

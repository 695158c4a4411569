/** What one call of execute_asm does, however deep the delay-slot recursion goes, and what
    every run of the fetch step keeps. */
module Chains {
  import opened Words
  import opened Decode
  import opened Memory
  import opened Engine

  /* ---------- one instruction without a delay slot ---------- */

  // The register an instruction may write besides PC, HI and LO.
  function Dest(i: Instr): nat {
    if i.m in {ADDI, ADDIU, ANDI, LB, LBU, LUI, LW, ORI, SLTI, SLTIU} then i.rt else i.rd
  }

  // Two states that agree on every register outside a set.
  ghost predicate AgreeExcept(s: State, s': State, w: set<nat>) {
    |s.reg| == |s'.reg| == NREG && forall i :: 0 <= i < NREG && i !in w ==> s'.reg[i] == s.reg[i]
  }

  lemma SimpleRegisters(i: Instr, s: State)
    requires Valid(s) && !Control(i)
    ensures var s' := ExecuteSimple(i, s).1;
            && AgreeExcept(s, s', if i.m in {DIV, MULT} then {HI, LO} else {Dest(i)})
            && s'.reg[PC] == s.reg[PC]
  {
    hide AddOverflows, SubOverflows, And, Or, Xor, GetBits, ToInt32, LoadWord, LoadByte, StoreWord, StoreByte, CDiv,
         CMod, Shl, Pow2;
  }

  // Some four consecutive bytes of one buffer hold every difference.
  ghost predicate ChangedWithin(m: Image, m': Image, n: nat, i: nat) {
    && SameShape(m, m')
    && forall k, j :: 0 <= k < |m| && 0 <= j < |m[k].content| && !(k == n && i <= j < i + 4) ==>
         m'[k].content[j] == m[k].content[j]
  }

  ghost predicate AtMostFourBytes(m: Image, m': Image) {
    exists n: nat, i: nat :: ChangedWithin(m, m', n, i)
  }

  lemma StoreFootprint(m: Image, a: word, data: int)
    requires ValidImage(m)
    ensures AtMostFourBytes(m, StoreWord(m, a, data).1)
    ensures AtMostFourBytes(m, StoreByte(m, a, data).1)
  {
    hide Locate, ByteOf;
    var p := Locate(m, a);
    if p.At? {
      assert ChangedWithin(m, StoreWord(m, a, data).1, p.n, p.i);
      assert ChangedWithin(m, StoreByte(m, a, data).1, p.n, p.i);
    } else {
      assert ChangedWithin(m, m, 0, 0);
    }
  }

  lemma SimpleMemory(i: Instr, s: State)
    requires Valid(s) && !Control(i)
    ensures AtMostFourBytes(s.mem, ExecuteSimple(i, s).1.mem)
    ensures i.m !in {SB, SW} ==> ExecuteSimple(i, s).1.mem == s.mem
  {
    hide AddOverflows, SubOverflows, And, Or, Xor, GetBits, ToInt32, LoadWord, LoadByte, StoreWord, StoreByte, CDiv,
         CMod, Shl, Pow2, AtMostFourBytes;
    StoreFootprint(s.mem, Address(i, s), s.reg[i.rt]);
    StoreFootprint(s.mem, Address(i, s), GetBits(ToWord(s.reg[i.rs]), 0, 7));
    NoChange(s.mem);
  }

  lemma NoChange(m: Image)
    ensures AtMostFourBytes(m, m)
  {
    assert ChangedWithin(m, m, 0, 0);
  }

  /* ---------- the delay-slot chain ---------- */

  // The instruction that ends the chain started by u, and the state in which it is executed.
  ghost function ChainEnd(u: word, s: State): (r: (Instr, State))
    requires Valid(s)
    ensures Valid(r.1) && !Control(r.0)
    decreases Depth(u, s.reg[PC])
  {
    var i := Decoded(u);
    if !Control(i) then (i, s)
    else
      DepthDecreases(u, Link(i, s));
      var s' := Advance(Link(i, s));
      ChainEnd(Fetch(s'), s')
  }

  // How many words of the chain have a delay slot.
  ghost function ChainLength(u: word, s: State): nat
    requires Valid(s)
    decreases Depth(u, s.reg[PC])
  {
    var i := Decoded(u);
    if !Control(i) then 0
    else
      DepthDecreases(u, Link(i, s));
      var s' := Advance(Link(i, s));
      1 + ChainLength(Fetch(s'), s')
  }

  // However deep the chain, one call executes exactly one word that is not a jump or branch:
  // apart from PC the outcome is that of its last word, run in the state the chain reached.
  lemma {:induction false} OneWordExecuted(u: word, s: State)
    requires Valid(s)
    ensures var (w, e) := ChainEnd(u, s);
            var (done, s') := (ExecuteSimple(w, e).1, Execute(u, s).1);
            s' == done.(reg := done.reg[PC := s'.reg[PC]])
    decreases Depth(u, s.reg[PC])
  {
    hide ExecuteSimple, Decoded, Redirect, Fetch, Link, ToInt32;
    var i := Decoded(u);
    if Control(i) {
      DepthDecreases(u, Link(i, s));
      var s1 := Advance(Link(i, s));
      OneWordExecuted(Fetch(s1), s1);
    }
  }

  lemma NeverJarl(u: word)
    ensures Decoded(u).m != JARL
  {
    hide GetInstr;
    NeverDecoded(u);
  }

  lemma LinkWrites(i: Instr, s: State)
    requires Valid(s) && i.m != JARL
    ensures var s1 := Advance(Link(i, s));
            AgreeExcept(s, s1, {PC, RA}) && s1.mem == s.mem && s1.reg[PC] == ToInt32(s.reg[PC] as int + 4)
  {
  }

  // The chain itself touches no memory, moves PC by four per slot, and writes only link registers.
  lemma {:induction false} ChainEntry(u: word, s: State)
    requires Valid(s)
    ensures var e := ChainEnd(u, s).1;
            e.mem == s.mem && e.reg[PC] == ToInt32(s.reg[PC] as int + 4 * ChainLength(u, s))
    ensures AgreeExcept(s, ChainEnd(u, s).1, {PC, RA})
    decreases Depth(u, s.reg[PC])
  {
    hide Decoded, Fetch, ToInt32, Link, Advance;
    var i := Decoded(u);
    if Control(i) {
      DepthDecreases(u, Link(i, s));
      var s1 := Advance(Link(i, s));
      NeverJarl(u);
      LinkWrites(i, s);
      ChainEntry(Fetch(s1), s1);
      WrapAdd(s.reg[PC] as int + 4, 4 * ChainLength(Fetch(s1), s1));
    } else {
      WrapNothing(s.reg[PC]);
    }
  }

  // A chain cannot run past the top of the address space.
  lemma {:induction false} ChainIsShort(u: word, s: State)
    requires Valid(s)
    ensures 4 * ChainLength(u, s) <= Depth(u, s.reg[PC]) + 3
    decreases Depth(u, s.reg[PC])
  {
    hide Decoded, Fetch;
    var i := Decoded(u);
    if Control(i) {
      DepthDecreases(u, Link(i, s));
      var s1 := Advance(Link(i, s));
      ChainIsShort(Fetch(s1), s1);
    }
  }

  // One call changes at most four bytes of memory, and nothing of the segment table.
  lemma CallFootprint(u: word, s: State)
    requires Valid(s)
    ensures AtMostFourBytes(s.mem, Execute(u, s).1.mem)
    ensures SameShape(s.mem, Execute(u, s).1.mem)
  {
    hide ExecuteSimple, Execute, ChainEnd, ChangedWithin;
    var (w, e) := ChainEnd(u, s);
    OneWordExecuted(u, s);
    ChainEntry(u, s);
    SimpleMemory(w, e);
    FourBytesShape(s.mem, Execute(u, s).1.mem);
  }

  lemma FourBytesShape(m: Image, m': Image)
    requires AtMostFourBytes(m, m')
    ensures SameShape(m, m')
  {
  }

  // HI and LO change only when the chain ends in DIV or MULT; one general register changes
  // besides the link register; PC changes only if there is a chain.
  lemma CallRegisters(u: word, s: State)
    requires Valid(s)
    ensures var (w, s') := (ChainEnd(u, s).0, Execute(u, s).1);
            AgreeExcept(s, s', {PC, RA} + (if w.m in {DIV, MULT} then {HI, LO} else {Dest(w)}))
    ensures !Control(Decoded(u)) ==> Execute(u, s).1.reg[PC] == s.reg[PC]
  {
    hide ExecuteSimple, Execute, ChainEnd, Decoded, Dest;
    var (w, e) := ChainEnd(u, s);
    OneWordExecuted(u, s);
    ChainEntry(u, s);
    SimpleRegisters(w, e);
    if !Control(Decoded(u)) {
      SimpleCall(u, s);
      SimpleRegisters(Decoded(u), s);
    }
  }

  lemma SimpleCall(u: word, s: State)
    requires Valid(s) && !Control(Decoded(u))
    ensures Execute(u, s) == ExecuteSimple(Decoded(u), s)
  {
  }

  /* ---------- the PC after a chain of conditional branches ---------- */

  predicate Conditional(i: Instr) {
    i.m in {BEQ, BGEZ, BGTZ, BLEZ, BLTZ, BNE}
  }

  // The k-th instruction met: u itself, then the words at PC + 4, PC + 8, ...
  function Nth(u: word, s: State, k: nat): Instr
    requires Valid(s)
  {
    if k == 0 then Decoded(u) else Decoded(ToWord(LoadWord(s.mem, ToWord(s.reg[PC] as int + 4 * k))))
  }

  // The contribution of a branch whose condition is read from s.
  function Swing(i: Instr, s: State): int
    requires Valid(s)
  {
    if Taken(i.m, s.reg[i.rs], s.reg[i.rt]) then 4 * i.im - 4 else 0
  }

  function TotalSwing(u: word, s: State, k: nat): int
    requires Valid(s)
  {
    if k == 0 then 0 else TotalSwing(u, s, k - 1) + Swing(Nth(u, s, k - 1), s)
  }

  // k branches and then a word without a slot: every condition is read from the entry registers
  // and every taken branch adds its displacement.
  lemma {:induction false} BranchChainPC(u: word, s: State, k: nat)
    requires Valid(s) && k >= 1
    requires forall j :: 0 <= j < k ==> Conditional(Nth(u, s, j))
    requires !Control(Nth(u, s, k))
    ensures Execute(u, s).1.reg[PC] == ToInt32(s.reg[PC] as int + 4 * k + TotalSwing(u, s, k))
    ensures Execute(u, s).0 == 0
    decreases k
  {
    hide Decoded, ExecuteSimple, Nth, ToInt32, LoadWord, ToWord, Redirect, Swing, TotalSwing;
    FirstIsU(u, s);
    var i := Decoded(u);
    assert Conditional(Nth(u, s, 0));
    FirstOfChain(i, s);
    var s1 := Advance(s);
    var v := Fetch(s1);
    assert Execute(u, s) == (0, Put(Execute(v, s1).1, PC, Redirect(i, s, Execute(v, s1).1.reg[PC])));
    forall j: nat
      ensures Nth(v, s1, j) == Nth(u, s, j + 1)
    {
      NthShift(u, s, j);
    }
    FirstIsU(v, s1);
    if k == 1 {
      assert !Control(Nth(v, s1, 0));
      SimpleCall(v, s1);
      SimpleRegisters(Decoded(v), s1);
      TotalSwingOne(u, s);
    } else {
      forall j | 0 <= j < k - 1
        ensures Conditional(Nth(v, s1, j))
      {
        assert Conditional(Nth(u, s, j + 1));
      }
      BranchChainPC(v, s1, k - 1);
      TotalSwingShift(u, s, k - 1);
      WrapAdd(s.reg[PC] as int + 4, 4 * (k - 1) + TotalSwing(v, s1, k - 1));
    }
    var pc1 := Execute(v, s1).1.reg[PC];
    RedirectSwing(i, s, pc1);
    WrapNothing(Redirect(i, s, pc1));
    var before := s.reg[PC] as int + 4 * k + TotalSwing(u, s, k) - Swing(i, s);
    assert pc1 == ToInt32(before);
    WrapAdd(before, Swing(i, s));
  }

  lemma RedirectSwing(i: Instr, s: State, pc: int32)
    requires Valid(s) && Conditional(i)
    ensures Redirect(i, s, pc) == ToInt32(pc as int + Swing(i, s))
  {
    WrapNothing(pc);
  }

  lemma WrapAdd(x: int, y: int)
    ensures ToInt32(ToInt32(x) as int + y) == ToInt32(x + y)
  {
  }

  lemma WrapNothing(x: int32)
    ensures ToInt32(x) == x
  {
  }

  lemma FirstIsU(u: word, s: State)
    requires Valid(s)
    ensures Nth(u, s, 0) == Decoded(u)
  {
  }

  lemma FirstOfChain(i: Instr, s: State)
    requires Valid(s) && Conditional(i)
    ensures Control(i) && Link(i, s) == s
  {
  }

  lemma NthShift(u: word, s: State, i: nat)
    requires Valid(s)
    ensures Nth(Fetch(Advance(s)), Advance(s), i) == Nth(u, s, i + 1)
  {
    hide LoadWord, Decoded;
    assert ToWord(ToInt32(s.reg[PC] as int + 4) as int + 4 * i) == ToWord(s.reg[PC] as int + 4 * (i + 1));
  }

  lemma TotalSwingOne(u: word, s: State)
    requires Valid(s)
    ensures TotalSwing(u, s, 1) == Swing(Decoded(u), s)
  {
    hide Swing;
  }

  // Advancing PC drops the first branch of the sum and changes no other term.
  lemma {:induction false} TotalSwingShift(u: word, s: State, k: nat)
    requires Valid(s)
    ensures TotalSwing(u, s, k + 1) == Swing(Decoded(u), s) + TotalSwing(Fetch(Advance(s)), Advance(s), k)
  {
    hide Nth, Swing, Fetch, Advance, Decoded;
    if k == 0 {
      TotalSwingOne(u, s);
    } else {
      TotalSwingShift(u, s, k - 1);
      NthShift(u, s, k - 1);
      SwingAdvance(Nth(u, s, k), s);
    }
  }

  lemma SwingAdvance(i: Instr, s: State)
    requires Valid(s)
    ensures Swing(i, Advance(s)) == Swing(i, s)
  {
    hide Taken;
  }

  /* ---------- every run ---------- */

  // The fetch step of the run and step commands: load the word at PC, execute it, then add 4 to PC.
  // An exit system call instead sends PC back to the start of the first segment.
  function Step(s: State): (r: (int, State))
    requires Valid(s) && |s.mem| > 0
    ensures Valid(r.1) && |r.1.mem| == |s.mem|
  {
    CallFootprint(Fetch(s), s);
    var (code, s') := Execute(Fetch(s), s);
    if code == 10 then (10, Put(s', PC, s'.mem[0].start)) else (0, Put(s', PC, s'.reg[PC] as int + 4))
  }

  // The guard of stepinto: the address scan found a segment, and PC lies in the first one.
  predicate InText(s: State, segment: int)
    requires Valid(s) && |s.mem| > 0
  {
    segment != -1 && ToWord(s.reg[PC] as int - s.mem[0].start) < s.mem[0].size
  }

  const CMD_WRONG_ARG := -4

  // The command: outside the first segment it only sends PC back to its start.
  function StepCommand(s: State, segment: int): (r: (int, State))
    requires Valid(s) && |s.mem| > 0
    ensures Valid(r.1)
  {
    if InText(s, segment) then Step(s) else (CMD_WRONG_ARG, Put(s, PC, s.mem[0].start))
  }

  // n steps, stopping early on exit.
  function Run(s: State, n: nat): (s': State)
    requires Valid(s) && |s.mem| > 0
    ensures Valid(s')
    decreases n
  {
    if n == 0 then s
    else
      var (code, s1) := Step(s);
      if code == 10 then s1 else Run(s1, n - 1)
  }

  lemma StepShape(s: State)
    requires Valid(s) && |s.mem| > 0
    ensures SameShape(s.mem, Step(s).1.mem)
  {
    hide Execute;
    CallFootprint(Fetch(s), s);
  }

  // Whatever program runs: 35 registers, and a segment table whose names, addresses, sizes,
  // attributes and buffer lengths never change.
  lemma {:induction false} RunKeepsShape(s: State, n: nat)
    requires Valid(s) && |s.mem| > 0
    ensures Valid(Run(s, n)) && SameShape(s.mem, Run(s, n).mem)
    decreases n
  {
    hide Step;
    if n > 0 {
      StepShape(s);
      var (code, s1) := Step(s);
      if code != 10 {
        RunKeepsShape(s1, n - 1);
        ShapeTransitive(s.mem, s1.mem, Run(s1, n - 1).mem);
      }
    }
  }

  lemma ShapeTransitive(a: Image, b: Image, c: Image)
    requires SameShape(a, b) && SameShape(b, c)
    ensures SameShape(a, c)
  {
  }
}

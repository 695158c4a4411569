/** Properties of single arithmetic instructions and of a straight-line program over runs. */
module Programs {
  import opened Words
  import opened Decode
  import opened Memory
  import opened Engine
  import opened Chains

  /* ---------- trapping and wrapping arithmetic ---------- */

  // The true result of a trapping instruction, and the wrapping instruction beside it.
  function TrueResult(i: Instr, s: State): int
    requires Valid(s) && i.m in {ADD, ADDI, SUB}
  {
    if i.m == ADD then s.reg[i.rs] as int + s.reg[i.rt]
    else if i.m == ADDI then s.reg[i.rs] as int + i.im
    else s.reg[i.rs] as int - s.reg[i.rt]
  }

  function Wrapping(m: Mnemonic): Mnemonic
    requires m in {ADD, ADDI, SUB}
  {
    if m == ADD then ADDU else if m == ADDI then ADDIU else SUBU
  }

  // The bit test is exact: code 1 and an unchanged state when the true result does not fit 32 bits,
  // otherwise code 0, the true result in the destination, and the effect of the wrapping twin.
  lemma OverflowExact(i: Instr, s: State)
    requires Valid(s) && i.m in {ADD, ADDI, SUB}
    ensures ExecuteSimple(i, s).0 == 1 <==> !InInt32(TrueResult(i, s))
    ensures ExecuteSimple(i, s).0 == 1 ==> ExecuteSimple(i, s).1 == s
    ensures ExecuteSimple(i, s).0 != 1 ==>
              && ExecuteSimple(i, s).0 == 0
              && ExecuteSimple(i, s).1.reg[Dest(i)] == TrueResult(i, s)
              && ExecuteSimple(i, s) == ExecuteSimple(i.(m := Wrapping(i.m)), s)
  {
    hide TopBitsDiffer, Extend33, ToInt32, AddOverflows, SubOverflows;
  }

  /* ---------- straight-line code ---------- */

  // No branches, no stores, no system calls.
  predicate RegisterOnly(i: Instr) {
    !Control(i) && i.m !in {SB, SW, SYSCALL}
  }

  ghost predicate Straight(p: seq<Instr>) {
    forall k :: 0 <= k < |p| ==> RegisterOnly(p[k])
  }

  // Executes the instructions of p in order.
  ghost function Fold(p: seq<Instr>, s: State): (s': State)
    requires Valid(s) && Straight(p)
    ensures Valid(s')
  {
    if p == [] then s
    else
      assert RegisterOnly(p[0]);
      Fold(p[1..], ExecuteSimple(p[0], s).1)
  }

  // The program lies in memory from PC on.
  ghost predicate Loaded(p: seq<Instr>, s: State)
    requires Valid(s)
  {
    forall k :: 0 <= k < |p| ==> p[k] == Decoded(ToWord(LoadWord(s.mem, ToWord(s.reg[PC] as int + 4 * k))))
  }

  ghost predicate SameButPC(s: State, t: State) {
    s.mem == t.mem && AgreeExcept(s, t, {PC})
  }

  // Running |p| fetch steps over a program that only touches registers is executing it in order.
  lemma {:induction false} StraightLine(p: seq<Instr>, s: State)
    requires Valid(s) && |s.mem| > 0 && Loaded(p, s) && Straight(p)
    ensures Run(s, |p|).reg[PC] == ToInt32(s.reg[PC] as int + 4 * |p|)
    ensures SameButPC(Run(s, |p|), Fold(p, s))
    decreases |p|
  {
    hide ExecuteSimple, Execute, Decoded, LoadWord, ToInt32, ToWord, Loaded, Fold, Step, Fetch, Straight;
    if p == [] {
      FoldNone(p, s);
      WrapNothing(s.reg[PC]);
    } else {
      var s1 := Step(s).1;
      FirstStep(p, s);
      var rest := p[1..];
      StraightLine(rest, s1);
      FoldCongruent(rest, s1, ExecuteSimple(p[0], s).1);
      FoldSome(p, s);
      WrapAdd(s.reg[PC] as int + 4, 4 * |rest|);
    }
  }

  lemma FoldNone(p: seq<Instr>, s: State)
    requires Valid(s) && p == [] && Straight(p)
    ensures Fold(p, s) == s
  {
  }

  lemma FoldSome(p: seq<Instr>, s: State)
    requires Valid(s) && p != [] && Straight(p)
    ensures RegisterOnly(p[0]) && Straight(p[1..])
    ensures Fold(p, s) == Fold(p[1..], ExecuteSimple(p[0], s).1)
  {
    hide ExecuteSimple, RegisterOnly;
  }

  lemma FirstStep(p: seq<Instr>, s: State)
    requires Valid(s) && |s.mem| > 0 && Loaded(p, s) && p != [] && Straight(p)
    ensures RegisterOnly(p[0]) && Straight(p[1..])
    ensures Step(s).0 == 0 && SameButPC(Step(s).1, ExecuteSimple(p[0], s).1)
    ensures Step(s).1.reg[PC] == ToInt32(s.reg[PC] as int + 4)
    ensures Loaded(p[1..], Step(s).1)
  {
    hide Decoded, LoadWord, ExecuteSimple;
    var u := Fetch(s);
    assert p[0] == Decoded(u) by {
      assert ToWord(s.reg[PC] as int + 4 * 0) == ToWord(s.reg[PC]);
    }
    assert RegisterOnly(p[0]);
    SimpleCall(u, s);
    SimpleRegisters(p[0], s);
    SimpleMemory(p[0], s);
    NoExit(p[0], s);
    var s1 := Step(s).1;
    forall k | 0 <= k < |p[1..]|
      ensures p[1..][k] == Decoded(ToWord(LoadWord(s1.mem, ToWord(s1.reg[PC] as int + 4 * k))))
    {
      assert p[1..][k] == p[k + 1];
      NextAddress(s.reg[PC], k);
    }
  }

  lemma NextAddress(pc: int32, k: int)
    ensures ToWord(ToInt32(pc as int + 4) as int + 4 * k) == ToWord(pc as int + 4 * (k + 1))
  {
  }

  lemma NoExit(i: Instr, s: State)
    requires Valid(s) && RegisterOnly(i)
    ensures ExecuteSimple(i, s).0 != 10
  {
    hide AddOverflows, SubOverflows, Put, LoadWord, LoadByte;
  }

  // Instructions that only touch registers do not depend on PC.
  lemma {:induction false} FoldCongruent(p: seq<Instr>, s: State, t: State)
    requires Valid(s) && Valid(t) && Straight(p) && SameButPC(s, t)
    ensures SameButPC(Fold(p, s), Fold(p, t))
    decreases |p|
  {
    hide ExecuteSimple, Fold, Straight, SameButPC;
    if p == [] {
      FoldNone(p, s);
      FoldNone(p, t);
    } else {
      FoldSome(p, s);
      FoldSome(p, t);
      SimpleCongruent(p[0], s, t);
      FoldCongruent(p[1..], ExecuteSimple(p[0], s).1, ExecuteSimple(p[0], t).1);
    }
  }

  lemma SimpleCongruent(i: Instr, s: State, t: State)
    requires Valid(s) && Valid(t) && RegisterOnly(i) && SameButPC(s, t)
    ensures SameButPC(ExecuteSimple(i, s).1, ExecuteSimple(i, t).1)
  {
    hide AddOverflows, SubOverflows, ToInt32, LoadWord, LoadByte, CDiv, CMod, Shl, GetBits, Pow2, AndInt, OrInt,
         XorInt, Misaligned, ToWord, Put, SameButPC;
    Reads(s, t);
    forall x: nat, v: int | x < NREG
      ensures SameButPC(Put(s, x, v), Put(t, x, v))
    {
      PutCongruent(s, t, x, v);
    }
    if i.m in {DIV, MULT} {
      forall v: int, w: int
        ensures SameButPC(Put(Put(s, LO, v), HI, w), Put(Put(t, LO, v), HI, w))
      {
        PutCongruent(s, t, LO, v);
        PutCongruent(Put(s, LO, v), Put(t, LO, v), HI, w);
      }
    }
  }

  lemma Reads(s: State, t: State)
    requires SameButPC(s, t)
    ensures s.mem == t.mem && |s.reg| == |t.reg| == NREG
    ensures forall i :: 0 <= i < NREG && i != PC ==> t.reg[i] == s.reg[i]
  {
  }

  lemma PutCongruent(s: State, t: State, x: nat, v: int)
    requires SameButPC(s, t) && x < NREG
    ensures SameButPC(Put(s, x, v), Put(t, x, v))
    ensures |Put(s, x, v).reg| == |Put(t, x, v).reg| == NREG
  {
  }

  /* ---------- dividing and multiplying back ---------- */

  // DIV a,b; MFLO q; MFHI h; MULT q,b; MFLO p; ADDU d,p,h, whatever the fields these do not read hold.
  predicate Rebuilds(prog: seq<Instr>, a: field5, b: field5, q: field5, h: field5, p: field5, d: field5) {
    && |prog| == 6
    && prog[0].m == DIV && prog[0].rs == a && prog[0].rt == b
    && prog[1].m == MFLO && prog[1].rd == q
    && prog[2].m == MFHI && prog[2].rd == h
    && prog[3].m == MULT && prog[3].rs == q && prog[3].rt == b
    && prog[4].m == MFLO && prog[4].rd == p
    && prog[5].m == ADDU && prog[5].rs == p && prog[5].rt == h && prog[5].rd == d
  }

  // No result is overwritten before it is used.
  predicate Distinct(b: field5, q: field5, h: field5, p: field5) {
    b != q && b != h && q != h && p != h
  }

  predicate Divides(x: int32, y: int32) {
    y != 0 && !(x == -0x8000_0000 && y == -1)
  }

  // After the quotient and remainder are taken, the 32-bit product and sum rebuild the dividend;
  // no intermediate value is truncated.
  lemma QuotientTimesDivisor(a: int32, b: int32)
    requires b != 0 && !(a == -0x8000_0000 && b == -1)
    ensures InInt32(CDiv(a, b)) && InInt32(CMod(a, b)) && InInt32(CDiv(a, b) * b)
    ensures CDiv(a, b) * b + CMod(a, b) == a
    ensures AbsInt(CMod(a, b)) < AbsInt(b) && AbsInt(CDiv(a, b) * b) <= AbsInt(a)
  {
    hide CDiv, CMod;
    DivisionMagnitudes(a, b);
    TruncatedDivision(a, b);
    assert CDiv(a, b) * b == b * CDiv(a, b);
    QuotientFits(a, b);
  }

  lemma QuotientFits(a: int32, b: int32)
    requires b != 0 && !(a == -0x8000_0000 && b == -1)
    ensures InInt32(CDiv(a, b))
  {
    if AbsInt(b) != 1 {
      BigDivisor(a, b);
    }
  }

  lemma BigDivisor(a: int32, b: int32)
    requires b != 0 && AbsInt(b) != 1
    ensures AbsInt(CDiv(a, b)) <= 0x4000_0000
  {
    hide CDiv, CMod;
    DivisionMagnitudes(a, b);
    HalfAtMost(AbsInt(a), AbsInt(b));
  }

  lemma HalfAtMost(m: nat, n: nat)
    requires n >= 2
    ensures 2 * (m / n) <= m
  {
    var q := m / n;
    DivNonNegative(m, n);
    MulNonNegative(n - 2, q);
    assert n * q == (n - 2) * q + 2 * q;
    assert m == n * q + m % n;
  }

  // The whole program, run by the fetch loop: $d ends up with the dividend.
  lemma DivideMultiplyRoundTrip(s: State, prog: seq<Instr>, a: field5, b: field5, q: field5, h: field5, p: field5,
      d: field5)
    requires Valid(s) && |s.mem| > 0 && Loaded(prog, s) && Rebuilds(prog, a, b, q, h, p, d)
    requires Distinct(b, q, h, p) && Divides(s.reg[a], s.reg[b])
    ensures Run(s, 6).reg[d] == s.reg[a]
    ensures Run(s, 6).mem == s.mem && Run(s, 6).reg[PC] == ToInt32(s.reg[PC] as int + 24)
  {
    hide Loaded, ToInt32, Run, Fold, CDiv, CMod, Rebuilds;
    RebuildRun(s, prog, a, b, q, h, p, d);
    QuotientTimesDivisor(s.reg[a], s.reg[b]);
    Fits(CDiv(s.reg[a], s.reg[b]) * s.reg[b]);
    Fits(s.reg[a]);
  }

  // The registers must be distinct: already for 7 divided by 2, the program works exactly if they are.
  lemma DistinctRegistersNeeded(s: State, prog: seq<Instr>, a: field5, b: field5, q: field5, h: field5, p: field5,
      d: field5)
    requires Valid(s) && |s.mem| > 0 && Loaded(prog, s) && Rebuilds(prog, a, b, q, h, p, d)
    requires s.reg[a] == 7 && s.reg[b] == 2
    ensures Run(s, 6).reg[d] == 7 <==> Distinct(b, q, h, p)
  {
    hide Loaded, ToInt32, Run, Fold, Rebuilds;
    RebuildRun(s, prog, a, b, q, h, p, d);
    SmallResults();
  }

  lemma SmallResults()
    ensures CDiv(7, 2) == 3 && CMod(7, 2) == 1
    ensures forall x: int32 :: ToInt32(x) == x
  {
  }

  lemma Fits(x: int)
    requires InInt32(x)
    ensures ToInt32(x) == x
  {
  }

  // What the program computes from x and y, for every choice of registers.
  function Rebuilt(x: int32, y: int32, b: field5, q: field5, h: field5, p: field5): int32
    requires y != 0
  {
    var (quotient, rest) := (CDiv(x, y), CMod(x, y));
    var divisor := if b == h then rest else if b == q then quotient else y;
    var product := ToInt32((if q == h then rest else quotient) * divisor);
    ToInt32(product + if p == h then product as int else rest)
  }

  lemma RebuildRun(s: State, prog: seq<Instr>, a: field5, b: field5, q: field5, h: field5, p: field5, d: field5)
    requires Valid(s) && |s.mem| > 0 && Loaded(prog, s) && Rebuilds(prog, a, b, q, h, p, d)
    requires Divides(s.reg[a], s.reg[b])
    ensures Run(s, 6).reg[d] == Rebuilt(s.reg[a], s.reg[b], b, q, h, p)
    ensures Run(s, 6).mem == s.mem && Run(s, 6).reg[PC] == ToInt32(s.reg[PC] as int + 24)
  {
    hide Loaded, ToInt32, Run, Fold, Rebuilt;
    RebuildFold(s, prog, a, b, q, h, p, d);
    StraightLine(prog, s);
  }

  lemma RebuildFold(s: State, prog: seq<Instr>, a: field5, b: field5, q: field5, h: field5, p: field5, d: field5)
    requires Valid(s) && Rebuilds(prog, a, b, q, h, p, d) && Divides(s.reg[a], s.reg[b])
    ensures Straight(prog)
    ensures Fold(prog, s).reg[d] == Rebuilt(s.reg[a], s.reg[b], b, q, h, p) && Fold(prog, s).mem == s.mem
  {
    hide ToInt32, CDiv, CMod, ExecuteSimple, Fold;
    QuotientTimesDivisor(s.reg[a], s.reg[b]);
    DivideStage(prog[..3], s);
    var s3 := Fold(prog[..3], s);
    MultiplyStage(prog[3..], s3);
    FoldSplit(prog[..3], prog[3..], s);
    assert prog[..3] + prog[3..] == prog;
  }

  // DIV, MFLO, MFHI leave the quotient and then the remainder in their registers.
  lemma DivideStage(p: seq<Instr>, s: State)
    requires Valid(s) && |p| == 3 && p[0].m == DIV && p[1].m == MFLO && p[2].m == MFHI
    requires s.reg[p[0].rt] != 0
    requires InInt32(CDiv(s.reg[p[0].rs], s.reg[p[0].rt])) && InInt32(CMod(s.reg[p[0].rs], s.reg[p[0].rt]))
    ensures Straight(p)
    ensures var (e, x, y) := (Fold(p, s), s.reg[p[0].rs], s.reg[p[0].rt]);
            && e.reg[p[2].rd] == CMod(x, y) && (p[1].rd != p[2].rd ==> e.reg[p[1].rd] == CDiv(x, y))
            && AgreeExcept(s, e, {HI, LO, p[1].rd as nat, p[2].rd as nat}) && e.mem == s.mem
  {
    hide ToInt32, CDiv, CMod, ExecuteSimple, Fold;
    var s1 := ExecuteSimple(p[0], s).1;
    var s2 := ExecuteSimple(p[1], s1).1;
    FoldThree(p, s);
    DivideEffect(p[0], s);
    MoveEffect(p[1], s1);
    MoveEffect(p[2], s2);
  }

  // MULT, MFLO, ADDU add the product of two registers to a third, or to itself.
  lemma MultiplyStage(p: seq<Instr>, s: State)
    requires Valid(s) && |p| == 3 && p[0].m == MULT && p[1].m == MFLO && p[2].m == ADDU && p[2].rs == p[1].rd
    ensures Straight(p)
    ensures var (e, product) := (Fold(p, s), ToInt32(s.reg[p[0].rs] as int * s.reg[p[0].rt]));
            && e.reg[p[2].rd] == ToInt32(product + if p[2].rt == p[1].rd then product as int else s.reg[p[2].rt])
            && e.mem == s.mem
  {
    hide ToInt32, ExecuteSimple, Fold;
    var s1 := ExecuteSimple(p[0], s).1;
    var s2 := ExecuteSimple(p[1], s1).1;
    FoldThree(p, s);
    MultiplyEffect(p[0], s);
    MoveEffect(p[1], s1);
    AddEffect(p[2], s2);
  }

  lemma {:induction false} FoldSplit(p: seq<Instr>, q: seq<Instr>, s: State)
    requires Valid(s) && Straight(p) && Straight(q)
    ensures Straight(p + q) && Fold(p + q, s) == Fold(q, Fold(p, s))
    decreases |p|
  {
    hide ExecuteSimple, Fold;
    if p == [] {
      assert p + q == q;
      FoldNone(p, s);
    } else {
      FoldSome(p, s);
      FoldSplit(p[1..], q, ExecuteSimple(p[0], s).1);
      assert (p + q)[1..] == p[1..] + q;
      FoldSome(p + q, s);
    }
  }

  lemma FoldThree(p: seq<Instr>, s: State)
    requires Valid(s) && Straight(p) && |p| == 3
    ensures RegisterOnly(p[0]) && RegisterOnly(p[1]) && RegisterOnly(p[2])
    ensures Fold(p, s) == ExecuteSimple(p[2], ExecuteSimple(p[1], ExecuteSimple(p[0], s).1).1).1
  {
    hide ExecuteSimple, Fold, Control;
    assert RegisterOnly(p[0]) && RegisterOnly(p[1]) && RegisterOnly(p[2]);
    var s1 := ExecuteSimple(p[0], s).1;
    FoldSome(p, s);
    FoldSome(p[1..], s1);
    var s2 := ExecuteSimple(p[1], s1).1;
    FoldSome(p[1..][1..], s2);
    FoldNone(p[1..][1..][1..], ExecuteSimple(p[2], s2).1);
  }

  lemma DivideEffect(i: Instr, s: State)
    requires Valid(s) && i.m == DIV && s.reg[i.rt] != 0
    requires InInt32(CDiv(s.reg[i.rs], s.reg[i.rt])) && InInt32(CMod(s.reg[i.rs], s.reg[i.rt]))
    ensures var s' := ExecuteSimple(i, s).1;
            && s'.reg[LO] == CDiv(s.reg[i.rs], s.reg[i.rt]) && s'.reg[HI] == CMod(s.reg[i.rs], s.reg[i.rt])
            && AgreeExcept(s, s', {HI, LO}) && s'.mem == s.mem
  {
    hide CDiv, CMod, ToInt32;
  }

  lemma MoveEffect(i: Instr, s: State)
    requires Valid(s) && i.m in {MFHI, MFLO}
    ensures var s' := ExecuteSimple(i, s).1;
            s'.reg[i.rd] == s.reg[if i.m == MFHI then HI else LO] && AgreeExcept(s, s', {i.rd as nat})
                && s'.mem == s.mem
  {
    hide ToInt32;
  }

  lemma MultiplyEffect(i: Instr, s: State)
    requires Valid(s) && i.m == MULT
    ensures var s' := ExecuteSimple(i, s).1;
            && s'.reg[LO] == ToInt32(s.reg[i.rs] as int * s.reg[i.rt])
            && AgreeExcept(s, s', {HI, LO}) && s'.mem == s.mem
  {
    hide ToInt32;
    SmallProduct(s.reg[i.rs] as int * s.reg[i.rt]);
  }

  lemma SmallProduct(x: int)
    ensures ToInt32(ToInt32(x)) == ToInt32(x)
  {
  }

  lemma AddEffect(i: Instr, s: State)
    requires Valid(s) && i.m == ADDU
    ensures var s' := ExecuteSimple(i, s).1;
            && s'.reg[i.rd] == ToInt32(s.reg[i.rs] as int + s.reg[i.rt])
            && AgreeExcept(s, s', {i.rd as nat}) && s'.mem == s.mem
  {
    hide ToInt32;
  }

  /* ---------- such programs exist ---------- */

  // DIV $1,$2; MFLO $3; MFHI $4; MULT $3,$2; MFLO $5; ADDU $6,$5,$4
  const REBUILD_WORDS: seq<word> :=
    [0x0022_001a, 0x0000_1812, 0x0000_2010, 0x0062_0018, 0x0000_2812, 0x00a4_3021]

  const REBUILD_BYTES: seq<byte> :=
    [0x00, 0x22, 0x00, 0x1a, 0x00, 0x00, 0x18, 0x12, 0x00, 0x00, 0x20, 0x10,
     0x00, 0x62, 0x00, 0x18, 0x00, 0x00, 0x28, 0x12, 0x00, 0xa4, 0x30, 0x21, 0, 0, 0, 0]

  // The words at 0x3000, with x in $1 and y in $2.
  function RebuildState(x: int32, y: int32): State {
    State(seq(NREG, (i: nat) => if i == PC then 0x3000 else if i == 1 then x else if i == 2 then y else 0),
          [Segment(Some(".text"), REBUILD_BYTES, 0x3000, 24, 0)])
  }

  function RebuildInstructions(): seq<Instr> {
    seq(6, k requires 0 <= k < 6 => Decoded(REBUILD_WORDS[k]))
  }

  // They are a program of the kind above, and running them rebuilds every dividend.
  lemma RebuildInMemory(x: int32, y: int32)
    ensures var (s, prog) := (RebuildState(x, y), RebuildInstructions());
            && Valid(s) && Loaded(prog, s) && Rebuilds(prog, 1, 2, 3, 4, 5, 6)
            && (Divides(x, y) ==> Run(s, 6).reg[6] == x)
  {
    hide Loaded, Rebuilds, Run, Divides, RebuildInstructions;
    var (s, prog) := (RebuildState(x, y), RebuildInstructions());
    RebuildLoaded(x, y);
    RebuildDecodes();
    if Divides(x, y) {
      DivideMultiplyRoundTrip(s, prog, 1, 2, 3, 4, 5, 6);
    }
  }

  lemma RebuildDecodes()
    ensures Rebuilds(RebuildInstructions(), 1, 2, 3, 4, 5, 6)
  {
    hide GetInstr, GetRS, GetRT, GetRD, GetSA, GetIm, GetTarget;
    RebuildMnemonics();
    RebuildRegisters();
  }

  lemma RebuildMnemonics()
    ensures var w := REBUILD_WORDS;
            && GetInstr(w[0]) == DIV && GetInstr(w[1]) == MFLO && GetInstr(w[2]) == MFHI
            && GetInstr(w[3]) == MULT && GetInstr(w[4]) == MFLO && GetInstr(w[5]) == ADDU
  {
    hide Opcode, Funct, GetRT, GetSA;
  }

  lemma RebuildRegisters()
    ensures var w := REBUILD_WORDS;
            && GetRS(w[0]) == 1 && GetRT(w[0]) == 2 && GetRD(w[1]) == 3 && GetRD(w[2]) == 4
            && GetRS(w[3]) == 3 && GetRT(w[3]) == 2 && GetRD(w[4]) == 5
            && GetRS(w[5]) == 5 && GetRT(w[5]) == 4 && GetRD(w[5]) == 6
  {
    hide GetRS, GetRT, GetRD;
  }

  lemma RebuildLoaded(x: int32, y: int32)
    ensures Valid(RebuildState(x, y)) && Loaded(RebuildInstructions(), RebuildState(x, y))
  {
    hide Decoded, LoadWord, ToWord, ToInt32;
    var s := RebuildState(x, y);
    assert ValidSegment(s.mem[0]);
    forall k: nat | k < 6
      ensures ToWord(LoadWord(s.mem, ToWord(s.reg[PC] as int + 4 * k))) == REBUILD_WORDS[k]
    {
      RebuildWord(s.mem, k);
    }
  }

  lemma RebuildWord(m: Image, k: nat)
    requires ValidImage(m) && m == [Segment(Some(".text"), REBUILD_BYTES, 0x3000, 24, 0)] && k < 6
    ensures ToWord(LoadWord(m, ToWord(0x3000 + 4 * k))) == REBUILD_WORDS[k]
  {
    hide Locate, BigEndian, ToInt32, ToWord;
    var a := 0x3000 + 4 * k;
    assert ToWord(a) == a by { SmallWord(a); }
    LocateInside(m, a, 0);
    RebuildBytesAt(k);
    WordOfInt32(REBUILD_WORDS[k]);
  }

  lemma RebuildBytesAt(k: nat)
    requires k < 6
    ensures BigEndian(REBUILD_BYTES[4 * k], REBUILD_BYTES[4 * k + 1], REBUILD_BYTES[4 * k + 2],
            REBUILD_BYTES[4 * k + 3])
            == REBUILD_WORDS[k]
  {
    var c := REBUILD_BYTES;
    if k == 0 {
      assert BigEndian(c[0], c[1], c[2], c[3]) == 0x0022_001a;
    } else if k == 1 {
      assert BigEndian(c[4], c[5], c[6], c[7]) == 0x0000_1812;
    } else if k == 2 {
      assert BigEndian(c[8], c[9], c[10], c[11]) == 0x0000_2010;
    } else if k == 3 {
      assert BigEndian(c[12], c[13], c[14], c[15]) == 0x0062_0018;
    } else if k == 4 {
      assert BigEndian(c[16], c[17], c[18], c[19]) == 0x0000_2812;
    } else {
      assert BigEndian(c[20], c[21], c[22], c[23]) == 0x00a4_3021;
    }
  }

  lemma SmallWord(a: word)
    ensures ToWord(a) == a
  {
  }

  lemma WordOfInt32(w: word)
    ensures ToWord(ToInt32(w)) == w
  {
  }
}

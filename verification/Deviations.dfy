/** Where the executor departs from MIPS32: for each instruction outside the refinement, exactly when
    it still does what "MIPS32 Architecture for Programmers, Volume II" describes. */
module Deviations {
  import opened Words
  import opened Decode
  import opened Memory
  import opened Engine

  lemma PutSame(s: State, d: nat, v: int, w: int)
    requires Valid(s) && d < NREG
    ensures Put(s, d, v) == Put(s, d, w) <==> ToInt32(v) == ToInt32(w)
  {
    assert Put(s, d, v).reg[d] == ToInt32(v) && Put(s, d, w).reg[d] == ToInt32(w);
  }

  lemma WordsConvert(v: word, w: word)
    ensures ToInt32(v) == ToInt32(w) <==> v == w
  {
  }

  /* ---------- immediates: zero extension against sign extension ---------- */

  lemma {:induction false} SplitOperators(a: nat, b: nat, n: nat)
    ensures a / Pow2(n) >= 0 && b / Pow2(n) >= 0
    ensures And(a, b) == And(a / Pow2(n), b / Pow2(n)) * Pow2(n) + And(a % Pow2(n), b % Pow2(n))
    ensures Or(a, b) == Or(a / Pow2(n), b / Pow2(n)) * Pow2(n) + Or(a % Pow2(n), b % Pow2(n))
    decreases n
  {
    hide And, Or, Pow2;
    DivNonNegative(a, Pow2(n));
    DivNonNegative(b, Pow2(n));
    if n == 0 {
      NothingLeft(a, b);
    } else {
      var p := Pow2(n - 1);
      SplitOperators(a / 2, b / 2, n - 1);
      Pow2Step(n);
      DivDiv(a, 2, p);
      DivDiv(b, 2, p);
      HalfOfOperators(a, b);
      HalfRemainder(a, p);
      HalfRemainder(b, p);
      HalfOfOperators(a % (2 * p), b % (2 * p));
      DoubleRight(And(a / 2 / p, b / 2 / p), p);
      DoubleRight(Or(a / 2 / p, b / 2 / p), p);
    }
  }

  lemma NothingLeft(a: nat, b: nat)
    ensures Pow2(0) == 1 && And(a % 1, b % 1) == 0 && Or(a % 1, b % 1) == 0
    ensures a / 1 == a && b / 1 == b
  {
  }

  lemma Pow2Step(n: nat)
    requires n > 0
    ensures Pow2(n) == 2 * Pow2(n - 1)
  {
  }

  lemma HalfRemainder(x: nat, p: int)
    requires p > 0
    ensures x % (2 * p) / 2 == x / 2 % p && x % (2 * p) % 2 == x % 2
  {
    ModDouble(x, p);
  }

  lemma {:induction false} OrLowBits(h: nat, n: nat)
    requires h < Pow2(n)
    ensures Or(h, Pow2(n) - 1) == Pow2(n) - 1
    decreases n
  {
    hide Or, Pow2;
    if n == 0 {
      NothingLeft(h, 0);
      OrNothing(h);
    } else {
      var p := Pow2(n - 1);
      Pow2Step(n);
      OrLowBits(h / 2, n - 1);
      HalfOfOperators(h, 2 * p - 1);
    }
  }

  // A negative immediate sets the upper half to ones, where the manual has zeros.
  lemma SignedHalves(im: int16)
    ensures ToWord(im) / 0x1_0000 == if im < 0 then 0xffff else 0
    ensures ToWord(im) % 0x1_0000 == im % 0x1_0000
  {
  }

  lemma Halves(a: word, im: int16)
    ensures var l := im % 0x1_0000;
            && (And(a, ToWord(im)) == And(a, l) <==> im >= 0 || a < 0x1_0000)
            && (Or(a, ToWord(im)) == Or(a, l) <==> im >= 0 || a >= 0xffff_0000)
  {
    hide And, Or, Pow2, ToWord;
    var l := im % 0x1_0000;
    Pow2Values();
    SignedHalves(im);
    SplitOperators(a, ToWord(im), 16);
    SplitOperators(a, l, 16);
    AndLowBits(a / 0x1_0000, 16);
    AndZero(a / 0x1_0000);
    OrLowBits(a / 0x1_0000, 16);
    Engine.OrZero(a / 0x1_0000);
    OrNothing(a / 0x1_0000);
  }

  lemma OrNothing(h: nat)
    ensures Or(h, 0) == h
  {
  }

  lemma HalvesConvert(a: word, im: int16)
    ensures var l := im % 0x1_0000;
            && (ToInt32(And(a, ToWord(im))) == ToInt32(And(a, l)) <==> im >= 0 || a < 0x1_0000)
            && (ToInt32(Or(a, ToWord(im))) == ToInt32(Or(a, l)) <==> im >= 0 || a >= 0xffff_0000)
  {
    hide And, Or, ToWord, ToInt32;
    var w, l := ToWord(im), im % 0x1_0000;
    Halves(a, im);
    Pow2Values();
    OperatorsFit(a, w, 32);
    OperatorsFit(a, l, 32);
    WordsConvert(And(a, w), And(a, l));
    WordsConvert(Or(a, w), Or(a, l));
  }

  // ANDI zero-extends in the manual and sign-extends here.
  lemma AndiExact(i: Instr, s: State)
    requires Valid(s) && i.m == ANDI
    ensures ExecuteSimple(i, s) == (0, Put(s, i.rt, And(ToWord(s.reg[i.rs]), i.im % 0x1_0000)))
            <==> i.im >= 0 || ToWord(s.reg[i.rs]) < 0x1_0000
  {
    hide And, Put, ToWord, ToInt32;
    var a := ToWord(s.reg[i.rs]);
    HalvesConvert(a, i.im);
    PutSame(s, i.rt, And(a, ToWord(i.im)), And(a, i.im % 0x1_0000));
  }

  // ORI likewise.
  lemma OriExact(i: Instr, s: State)
    requires Valid(s) && i.m == ORI
    ensures ExecuteSimple(i, s) == (0, Put(s, i.rt, Or(ToWord(s.reg[i.rs]), i.im % 0x1_0000)))
            <==> i.im >= 0 || ToWord(s.reg[i.rs]) >= 0xffff_0000
  {
    hide Or, Put, ToWord, ToInt32;
    var a := ToWord(s.reg[i.rs]);
    HalvesConvert(a, i.im);
    PutSame(s, i.rt, Or(a, ToWord(i.im)), Or(a, i.im % 0x1_0000));
  }

  /* ---------- unsigned comparisons made signed ---------- */

  lemma CompareWords(a: int32, b: int32)
    ensures Flag(a < b) == Flag(ToWord(a) < ToWord(b)) <==> (a < 0) == (b < 0)
  {
  }

  lemma SltiuExact(i: Instr, s: State)
    requires Valid(s) && i.m == SLTIU
    ensures ExecuteSimple(i, s) == (0, Put(s, i.rt, Flag(ToWord(s.reg[i.rs]) < ToWord(i.im))))
            <==> (s.reg[i.rs] < 0) == (i.im < 0)
  {
    hide Put, ToWord;
    CompareWords(s.reg[i.rs], i.im);
    PutSame(s, i.rt, Flag(s.reg[i.rs] as int < i.im), Flag(ToWord(s.reg[i.rs]) < ToWord(i.im)));
  }

  lemma SltuExact(i: Instr, s: State)
    requires Valid(s) && i.m == SLTU
    ensures ExecuteSimple(i, s) == (0, Put(s, i.rd, Flag(ToWord(s.reg[i.rs]) < ToWord(s.reg[i.rt]))))
            <==> (s.reg[i.rs] < 0) == (s.reg[i.rt] < 0)
  {
    hide Put, ToWord;
    CompareWords(s.reg[i.rs], s.reg[i.rt]);
    PutSame(s, i.rd, Flag(s.reg[i.rs] < s.reg[i.rt]), Flag(ToWord(s.reg[i.rs]) < ToWord(s.reg[i.rt])));
  }

  /* ---------- bytes that are not sign-extended ---------- */

  function SignExtendByte(b: byte): int {
    if b < 0x80 then b else b - 0x100
  }

  lemma ByteConvert(b: byte)
    ensures ToInt32(b) == ToInt32(SignExtendByte(b)) <==> b < 0x80
  {
  }

  lemma LowByte(x: word)
    ensures GetBits(x, 0, 7) == x % 0x100
  {
    Pow2Values();
    HalfWord(x);
  }

  lemma LbExact(i: Instr, s: State)
    requires Valid(s) && i.m == LB
    ensures ExecuteSimple(i, s) == (0, Put(s, i.rt, SignExtendByte(LoadByte(s.mem, Address(i, s)))))
            <==> LoadByte(s.mem, Address(i, s)) < 0x80
  {
    hide Put, LoadByte, Address, ToInt32;
    var b := LoadByte(s.mem, Address(i, s));
    ByteConvert(b);
    PutSame(s, i.rt, b, SignExtendByte(b));
  }

  lemma SebExact(i: Instr, s: State)
    requires Valid(s) && i.m == SEB
    ensures ExecuteSimple(i, s) == (0, Put(s, i.rd, SignExtendByte(ToWord(s.reg[i.rt]) % 0x100)))
            <==> ToWord(s.reg[i.rt]) % 0x100 < 0x80
  {
    hide Put, ToWord, GetBits, Pow2, ToInt32;
    var b := ToWord(s.reg[i.rt]) % 0x100;
    LowByte(ToWord(s.reg[i.rt]));
    ByteConvert(b);
    PutSame(s, i.rd, b, SignExtendByte(b));
  }

  // SB stores the low byte of rs: right only when that is also rt's, or when nothing is stored.
  lemma SbExact(i: Instr, s: State)
    requires Valid(s) && i.m == SB
    ensures var a := Address(i, s);
            ExecuteSimple(i, s).1.mem == StoreByte(s.mem, a, ToWord(s.reg[i.rt])).1
            <==> !Locate(s.mem, a).At? || ToWord(s.reg[i.rs]) % 0x100 == ToWord(s.reg[i.rt]) % 0x100
  {
    hide ToWord, GetBits, Address, Locate, StoreByte;
    var a, x, y := Address(i, s), ToWord(s.reg[i.rs]), ToWord(s.reg[i.rt]);
    LowByte(x);
    SameByteStored(s.mem, a, GetBits(x, 0, 7), y);
  }

  lemma SameByteStored(m: Image, a: word, x: word, y: word)
    requires ValidImage(m)
    ensures StoreByte(m, a, x).1 == StoreByte(m, a, y).1 <==> !Locate(m, a).At? || x % 0x100 == y % 0x100
  {
    hide Locate;
    StoreByteBytes(m, a, x, a);
    StoreByteBytes(m, a, y, a);
  }

  /* ---------- MULT ---------- */

  lemma HighHalf(p: int)
    requires -0x4000_0000_0000_0000 <= p <= 0x4000_0000_0000_0000
    ensures ToInt32(p / 0x1_0000_0000) == (if ToInt32(p) < 0 then -1 else 0) <==> InInt32(p)
  {
    var q, r := p / 0x1_0000_0000, p % 0x1_0000_0000;
    assert p == 0x1_0000_0000 * q + r;
    assert InInt32(q);
  }

  lemma ProductRange(a: int32, b: int32)
    ensures -0x4000_0000_0000_0000 <= a as int * b as int <= 0x4000_0000_0000_0000
  {
    MagnitudeProduct(AbsInt(a), AbsInt(b));
    SignedProducts(AbsInt(a), AbsInt(b));
  }

  lemma MagnitudeProduct(m: nat, n: nat)
    requires m <= 0x8000_0000 && n <= 0x8000_0000
    ensures 0 <= m * n <= 0x4000_0000_0000_0000
  {
    MulNonNegative(m, n);
    MulNonNegative(0x8000_0000 - m, n);
    assert (0x8000_0000 - m) * n == 0x8000_0000 * n - m * n;
  }

  // LO is always right; HI is the upper half of the product exactly when the product fits 32 bits.
  lemma MultExact(i: Instr, s: State)
    requires Valid(s) && i.m == MULT
    ensures var p := s.reg[i.rs] as int * s.reg[i.rt] as int;
            && ExecuteSimple(i, s).0 == 0
            && ExecuteSimple(i, s).1.reg[LO] == ToInt32(p)
            && (ExecuteSimple(i, s).1.reg[HI] == ToInt32(p / 0x1_0000_0000) <==> InInt32(p))
  {
    hide ToInt32;
    var p := s.reg[i.rs] as int * s.reg[i.rt] as int;
    ProductRange(s.reg[i.rs], s.reg[i.rt]);
    HighHalf(p);
    SmallInts();
  }

  lemma SmallInts()
    ensures ToInt32(-1) == -1 && ToInt32(0) == 0
    ensures forall x: int32 :: ToInt32(x) == x
  {
  }

  /* ---------- shifts ---------- */

  // Keeping the low t bits before shifting left by k in a 32-bit word loses nothing exactly when the
  // bits the shift keeps were all among them.
  lemma ShiftLoses(x: word, k: nat, t: nat)
    requires k <= 31 && t == k + 1
    ensures x % Pow2(t) * Pow2(k) % 0x1_0000_0000 == x * Pow2(k) % 0x1_0000_0000
            <==> x % Pow2(32 - k) < Pow2(t)
  {
    hide Pow2;
    var n := 32 - k;
    WordSize(k, n);
    Pow2Add(k, n);
    KeptBits(x, Pow2(k), Pow2(n));
    KeptBits(x % Pow2(t), Pow2(k), Pow2(n));
    SameMultiples(x % Pow2(t) % Pow2(n), x % Pow2(n), Pow2(k));
    NestedRemainders(x, t, n);
  }

  lemma KeptBits(x: nat, p: int, m: int)
    requires p > 0 && m > 0 && p * m == 0x1_0000_0000
    ensures x * p % 0x1_0000_0000 == x % m * p
  {
    var q, r := x / m, x % m;
    Distribute(m, q, r, p);
    RemainderFits(r, m, p);
    DivUnique(x * p, p * m, q, r * p);
  }

  lemma Distribute(m: int, q: int, r: int, p: int)
    ensures (m * q + r) * p == (p * m) * q + r * p
  {
  }

  lemma RemainderFits(r: nat, m: int, p: int)
    requires r < m && p > 0
    ensures 0 <= r * p < p * m
  {
    MulNonNegative(r, p);
    MulNonNegative(m - 1 - r, p);
    assert (m - 1 - r) * p == p * m - p - r * p;
  }

  lemma SameMultiples(x: int, y: int, p: int)
    requires p > 0
    ensures x * p == y * p <==> x == y
  {
    assert x * p - y * p == (x - y) * p;
    MultipleBounds(p, x - y);
  }

  lemma NestedRemainders(x: nat, t: nat, n: nat)
    ensures x % Pow2(t) % Pow2(n) == x % Pow2(n) <==> x % Pow2(n) < Pow2(t)
  {
    hide Pow2;
    var a, b := Pow2(t), Pow2(n);
    if n <= t {
      Pow2Add(n, t - n);
      Pow2Monotone(n, t);
      RemainderOfRemainder(x, b, Pow2(t - n));
    } else {
      Pow2Add(t, n - t);
      Pow2Monotone(t, n);
      RemainderOfRemainder(x, a, Pow2(n - t));
      SmallRemainder(x % a, b);
      if x % b < a {
        SmallRemainder(x % b, a);
      }
    }
  }

  lemma SmallRemainder(x: nat, d: int)
    requires x < d
    ensures x % d == x
  {
    DivUnique(x, d, 0, x);
  }

  lemma RemainderOfRemainder(x: nat, d: int, e: int)
    requires d > 0 && e > 0
    ensures d * e > 0 && x % (d * e) % d == x % d
  {
    MulNonNegative(d - 1, e);
    assert (d - 1) * e == d * e - e;
    var q, r := x / (d * e), x % (d * e);
    assert x == (d * e) * q + r;
    assert r == d * (r / d) + r % d;
    assert (d * e) * q == d * (e * q);
    assert d * (e * q + r / d) == d * (e * q) + d * (r / d);
    DivUnique(x, d, e * q + r / d, r % d);
  }

  // SLL keeps only sa + 1 bits of rt before shifting.
  lemma SllExact(i: Instr, s: State)
    requires Valid(s) && i.m == SLL && !(i.rd == 0 && i.rt == 0 && i.sa == 0)
    ensures ExecuteSimple(i, s) == (0, Put(s, i.rd, ToWord(s.reg[i.rt]) * Pow2(i.sa)))
            <==> ToWord(s.reg[i.rt]) % Pow2(32 - i.sa) < Pow2(i.sa + 1)
  {
    hide Put, ToWord, GetBits, Pow2, ToInt32;
    var x := ToWord(s.reg[i.rt]);
    HalfWord(x);
    var kept := GetBits(x, 0, i.sa);
    assert kept == x % Pow2(i.sa + 1);
    ShiftLoses(x, i.sa, i.sa + 1);
    Congruent(kept * Pow2(i.sa), x * Pow2(i.sa));
    PutSame(s, i.rd, Shl(kept, i.sa), x * Pow2(i.sa));
  }

  lemma Congruent(v: int, w: int)
    ensures ToInt32(v % 0x1_0000_0000) == ToInt32(w) <==> v % 0x1_0000_0000 == w % 0x1_0000_0000
  {
  }

  lemma QuotientBound(x: nat, p: int, m: int)
    requires p > 0 && x < p * m
    ensures 0 <= x / p < m
  {
    var q := x / p;
    DivNonNegative(x, p);
    ScaledOrder(p, m, q);
  }

  lemma ScaledOrder(p: int, m: int, q: int)
    requires p > 0
    ensures q >= m ==> p * q >= p * m
  {
    if q >= m {
      MulNonNegative(p, q - m);
      assert p * (q - m) == p * q - p * m;
    }
  }

  lemma NegativeQuotient(b: int32, p: int)
    requires b < 0 && p > 0
    ensures -0x8000_0000 <= b as int / p < 0
  {
    var q, r := b as int / p, b as int % p;
    assert b as int == p * q + r;
    SignOfProduct(p, q);
  }

  lemma SignOfProduct(p: int, q: int)
    requires p > 0
    ensures q >= 0 ==> p * q >= 0
    ensures q < 0 ==> p * q + p - 1 <= q
  {
    if q >= 0 {
      MulNonNegative(p, q);
    } else {
      MulNonNegative(p - 1, -q - 1);
      assert (p - 1) * (-q - 1) == -(p * q) - p + q + 1;
    }
  }

  // Shifting a signed value right against shifting a word right.
  lemma ShiftsAgree(b: int32, y: word, k: nat)
    requires k <= 31
    ensures ToInt32(b as int / Pow2(k)) == ToInt32(y as int / Pow2(k)) <==>
            (b >= 0 || k == 0) && ToWord(b) as int / Pow2(k) == y as int / Pow2(k)
  {
    hide Pow2, ToInt32, ToWord;
    if b < 0 && k > 0 {
      Pow2Step(k);
      ShiftedNegative(b, y, Pow2(k - 1));
    } else {
      SameShift(b, k);
      DivNonNegative(ToWord(b), Pow2(k));
      DivNonNegative(y, Pow2(k));
      WordsConvert(ToWord(b) as int / Pow2(k), y as int / Pow2(k));
    }
  }

  lemma SameShift(b: int32, k: nat)
    requires b >= 0 || k == 0
    ensures ToInt32(b as int / Pow2(k)) == ToInt32(ToWord(b) as int / Pow2(k))
  {
    hide Pow2;
    if b < 0 {
      NothingLeft(0, 0);
      DivideByOne(b);
    }
  }

  lemma DivideByOne(b: int32)
    ensures ToInt32(b as int / 1) == ToInt32(ToWord(b) as int / 1)
  {
  }

  lemma ShiftedNegative(b: int32, y: word, h: int)
    requires b < 0 && h > 0
    ensures ToInt32(b as int / (2 * h)) != ToInt32(y as int / (2 * h))
  {
    var p := 2 * h;
    NegativeQuotient(b, p);
    MulNonNegative(h - 1, 0x1_0000_0000);
    assert p * 0x8000_0000 == 0x1_0000_0000 * (h - 1) + 0x1_0000_0000;
    QuotientBound(y, p, 0x8000_0000);
  }

  // The manual's SRL is rd := rt >> sa, logically. Here rd is shifted, and arithmetically.
  lemma SrlExact(i: Instr, s: State)
    requires Valid(s) && i.m == SRL
    ensures ExecuteSimple(i, s) == (0, Put(s, i.rd, ToWord(s.reg[i.rt]) as int / Pow2(i.sa)))
            <==> (s.reg[i.rd] >= 0 || i.sa == 0)
                 && ToWord(s.reg[i.rd]) as int / Pow2(i.sa) == ToWord(s.reg[i.rt]) as int / Pow2(i.sa)
  {
    hide Put, ToWord, Pow2, ToInt32;
    var y := ToWord(s.reg[i.rt]);
    ShiftsAgree(s.reg[i.rd], y, i.sa);
    PutSame(s, i.rd, s.reg[i.rd] as int / Pow2(i.sa), y as int / Pow2(i.sa));
  }

  // The manual's SRA is rd := rt >> sa, arithmetically. Here rd is shifted, and logically.
  lemma SraExact(i: Instr, s: State)
    requires Valid(s) && i.m == SRA
    ensures ExecuteSimple(i, s) == (0, Put(s, i.rd, s.reg[i.rt] as int / Pow2(i.sa)))
            <==> (s.reg[i.rt] >= 0 || i.sa == 0)
                 && ToWord(s.reg[i.rd]) as int / Pow2(i.sa) == ToWord(s.reg[i.rt]) as int / Pow2(i.sa)
  {
    hide Put, ToWord, Pow2, ToInt32, GetBits;
    var x := ToWord(s.reg[i.rd]);
    TopBits(x, i.sa);
    ShiftsAgree(s.reg[i.rt], x, i.sa);
    PutSame(s, i.rd, GetBits(x, i.sa, 31), s.reg[i.rt] as int / Pow2(i.sa));
  }

  lemma TopBits(x: word, k: nat)
    requires k <= 31
    ensures GetBits(x, k, 31) == x as int / Pow2(k)
  {
    hide GetBits, Pow2;
    WordSize(k, 32 - k);
    Pow2Add(k, 32 - k);
    QuotientBound(x, Pow2(k), Pow2(32 - k));
    SmallRemainder(x as int / Pow2(k), Pow2(32 - k));
  }

  /* ---------- what is left in the register all the same ---------- */

  // Sign extension, written out.
  function SignExtended(im: int16): word {
    if im < 0 then 0xffff_0000 + im % 0x1_0000 else im
  }

  lemma SignExtendedIs(im: int16)
    ensures ToWord(im) == SignExtended(im)
  {
  }

  // ANDI and ORI combine the register with the sign-extended immediate.
  lemma ImmediateResults(i: Instr, s: State)
    requires Valid(s) && (i.m.ANDI? || i.m.ORI?)
    ensures var (a, e) := (ToWord(s.reg[i.rs]), SignExtended(i.im));
            ExecuteSimple(i, s) == (0, Put(s, i.rt, if i.m.ANDI? then And(a, e) else Or(a, e)))
  {
    hide And, Or, Put, ToWord;
    SignExtendedIs(i.im);
  }

  // SLTIU, SLTU and the executor's SLT set 1 or 0 by the signed comparison.
  lemma ComparisonResults(i: Instr, s: State)
    requires Valid(s) && (i.m.SLTIU? || i.m.SLTU? || i.m.SLT?)
    ensures var less := s.reg[i.rs] as int < if i.m.SLTIU? then i.im else s.reg[i.rt] as int;
            ExecuteSimple(i, s) == (0, Put(s, if i.m.SLTIU? then i.rt else i.rd, if less then 1 else 0))
  {
    hide Put;
  }

  // LB leaves the byte at the address, SEB the low byte of rt, both as a number from 0 to 255.
  lemma ByteResults(i: Instr, s: State)
    requires Valid(s) && (i.m.LB? || i.m.SEB?)
    ensures i.m.LB? ==>
              ExecuteSimple(i, s) == (0, Put(s, i.rt, LoadByte(s.mem, (s.reg[i.rs] as int + i.im) % 0x1_0000_0000)))
    ensures i.m.SEB? ==> ExecuteSimple(i, s) == (0, Put(s, i.rd, s.reg[i.rt] as int % 0x1_0000_0000 % 0x100))
  {
    hide Put, LoadByte, GetBits;
    LowByte(ToWord(s.reg[i.rt]));
  }

  // SB writes the low byte of rs at the address.
  lemma SbResult(i: Instr, s: State)
    requires Valid(s) && i.m.SB?
    ensures var (a, b) := ((s.reg[i.rs] as int + i.im) % 0x1_0000_0000, s.reg[i.rs] as int % 0x100);
            ExecuteSimple(i, s) == (StoreByte(s.mem, a, b).0, s.(mem := StoreByte(s.mem, a, b).1))
  {
    hide StoreByte, GetBits;
    LowByte(ToWord(s.reg[i.rs]));
    LowByteOfWord(s.reg[i.rs]);
  }

  lemma LowByteOfWord(x: int32)
    ensures ToWord(x) % 0x100 == x as int % 0x100
  {
  }

  // MULT leaves in HI the sign of what it leaves in LO.
  lemma MultResult(i: Instr, s: State)
    requires Valid(s) && i.m.MULT?
    ensures var t := ExecuteSimple(i, s).1;
            (t.reg[HI] == -1 && t.reg[LO] < 0) || (t.reg[HI] == 0 && t.reg[LO] >= 0)
    ensures var t := ExecuteSimple(i, s).1; t == s.(reg := s.reg[HI := t.reg[HI]][LO := t.reg[LO]])
  {
    hide ToInt32;
    SmallInts();
  }

  // SLL shifts the low sa + 1 bits of rt; SRL halves rd sa times, rounding down; SRA does so with the
  // unsigned reading of rd.
  lemma ShiftResults(i: Instr, s: State)
    requires Valid(s) && (i.m.SLL? || i.m.SRL? || i.m.SRA?)
    ensures var p := Pow2(i.sa);
            i.m.SLL? && !(i.rd == 0 && i.rt == 0 && i.sa == 0) ==>
              ExecuteSimple(i, s) == (0, Put(s, i.rd, ToWord(s.reg[i.rt]) % (2 * p) * p))
    ensures i.m.SLL? && i.rd == 0 && i.rt == 0 && i.sa == 0 ==> ExecuteSimple(i, s) == (0, s)
    ensures i.m.SRL? ==> ExecuteSimple(i, s) == (0, Put(s, i.rd, Halved(s.reg[i.rd], i.sa)))
    ensures i.m.SRA? ==> ExecuteSimple(i, s) == (0, Put(s, i.rd, Halved(ToWord(s.reg[i.rd]), i.sa)))
  {
    hide Put, ToWord, GetBits, Pow2, ToInt32, Halved;
    var x := ToWord(s.reg[i.rt]);
    HalfWord(x);
    Pow2Step(i.sa + 1);
    HalvedIs(s.reg[i.rd], i.sa);
    HalvedIs(ToWord(s.reg[i.rd]), i.sa);
    TopBits(ToWord(s.reg[i.rd]), i.sa);
    var v := GetBits(x, 0, i.sa) * Pow2(i.sa);
    Congruent(v, v);
    PutSame(s, i.rd, v % 0x1_0000_0000, v);
  }

  // x halved k times, rounding down.
  function Halved(x: int, k: nat): int {
    if k == 0 then x else Halved(x, k - 1) / 2
  }

  lemma {:induction false} HalvedIs(x: int, k: nat)
    ensures Halved(x, k) == x / Pow2(k)
    decreases k
  {
    if k == 0 {
      assert Pow2(0) == 1;
    } else {
      HalvedIs(x, k - 1);
      Pow2Step(k);
      FloorFloor(x, Pow2(k - 1));
    }
  }

  lemma FloorFloor(x: int, p: int)
    requires p > 0
    ensures x / p / 2 == x / (2 * p)
  {
    var q, r := x / p / 2, x / p % 2;
    var t := x % p;
    assert x / p == 2 * q + r && x == p * (x / p) + t;
    TwoProduct(p, q, r);
    TwoRemainder(p, r);
    DivUnique(x, 2 * p, q, p * r + t);
  }

  lemma TwoProduct(p: int, q: int, r: int)
    ensures p * (2 * q + r) == (2 * p) * q + p * r
  {
  }

  lemma TwoRemainder(p: int, r: int)
    requires p > 0 && (r == 0 || r == 1)
    ensures p * r == if r == 0 then 0 else p
  {
  }

  /* ---------- words decoded as something else ---------- */

  lemma {:induction false} OrAtLeast(a: nat, b: nat)
    ensures Or(a, b) >= a && Or(a, b) >= b
    decreases a
  {
    if a > 0 && b > 0 {
      OrAtLeast(a / 2, b / 2);
    }
  }

  lemma OrAgainstLess(a: int32, b: int32)
    ensures ToInt32(OrInt(a, b)) == ToInt32(Flag(a < b)) <==> a == 0 && (b == 0 || b == 1)
  {
    hide Or;
    var x, y := ToWord(a), ToWord(b);
    OrAtLeast(x, y);
    OrOfBits();
    Pow2Values();
    OperatorsFit(x, y, 32);
    WordsConvert(Or(x, y), Flag(a < b));
  }

  lemma OrOfBits()
    ensures Or(0, 0) == 0 && Or(0, 1) == 1 && Or(1, 0) == 1 && Or(1, 1) == 1
  {
  }

  // The word the manual calls SLT is decoded as OR.
  lemma SltWordExact(u: word, s: State)
    requires Valid(s) && Opcode(u) == 0 && Funct(u) == 0x2a
    ensures Execute(u, s) == (0, Put(s, GetRD(u), Flag(s.reg[GetRS(u)] < s.reg[GetRT(u)])))
            <==> s.reg[GetRS(u)] == 0 && s.reg[GetRT(u)] in {0, 1}
  {
    hide Opcode, Funct, GetRS, GetRT, GetRD, GetSA, GetIm, GetTarget, Put, ToInt32, OrInt;
    var a, b := s.reg[GetRS(u)], s.reg[GetRT(u)];
    OrAgainstLess(a, b);
    PutSame(s, GetRD(u), OrInt(a, b), Flag(a < b));
  }

  // The words the manual calls JALR and SLTU are refused, whatever the state.
  lemma RefusedWords(u: word, s: State)
    requires Valid(s) && Opcode(u) == 0 && Funct(u) in {9, 0x2b}
    ensures Execute(u, s) == (2, s)
  {
    hide Decoded, ExecuteSimple, Put;
    RefusedDecode(u);
    RefusedInstr(Decoded(u), s);
  }

  lemma RefusedDecode(u: word)
    requires Opcode(u) == 0 && Funct(u) in {9, 0x2b}
    ensures Decoded(u).m in {JALR, PROBLEME}
  {
    hide Opcode, Funct, GetRS, GetRT, GetRD, GetSA, GetIm, GetTarget;
  }

  lemma RefusedInstr(i: Instr, s: State)
    requires Valid(s) && i.m in {JALR, PROBLEME}
    ensures !Control(i) && ExecuteSimple(i, s) == (2, s)
  {
  }

  /* ---------- $zero ---------- */

  // Nothing keeps register 0 at zero: ADDIU $0,$0,v leaves v in it.
  lemma ZeroIsWritable(u: word, s: State)
    requires Valid(s) && s.reg[0] == 0 && GetInstr(u) == ADDIU && GetRS(u) == 0 && GetRT(u) == 0
    ensures Execute(u, s).0 == 0 && Execute(u, s).1.reg[0] == GetIm(u)
  {
    hide GetInstr, GetRS, GetRT, GetRD, GetSA, GetIm, GetTarget, ToInt32;
    ImmediateFits(u);
  }

  lemma ImmediateFits(u: word)
    ensures ToInt32(GetIm(u)) == GetIm(u)
  {
    hide GetBits;
  }

  // There is such a word for every v.
  lemma ZeroWriterExists(v: int16)
    ensures var u := 0x2400_0000 + v % 0x1_0000;
            GetInstr(u) == ADDIU && GetRS(u) == 0 && GetRT(u) == 0 && GetIm(u) == v
  {
    hide Opcode, Funct, GetRS, GetRT, GetSA, GetIm;
    HighFields(v % 0x1_0000);
    LowHalf(v);
  }

  lemma HighFields(h: nat)
    requires h < 0x1_0000
    ensures var u := 0x2400_0000 + h; Opcode(u) == 9 && GetRS(u) == 0 && GetRT(u) == 0
  {
    hide *;
    var u := 0x2400_0000 + h;
    DivUnique(u, 0x400_0000, 9, h);
    DivUnique(u, 0x20_0000, 288, h);
    DivUnique(u, 0x1_0000, 0x2400, h);
  }

  lemma LowHalf(v: int16)
    ensures GetIm(0x2400_0000 + v % 0x1_0000) == v
  {
    hide GetIm;
    var h: int := v % 0x1_0000;
    DivUnique(0x2400_0000 + h, 0x1_0000, 0x2400, h);
  }
}

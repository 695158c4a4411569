/** Field extraction and instruction decoding (src/lib.c). */
module Decode {
  import opened Words

  /* ---------- bit fields ---------- */

  // The source's mask: all ones, shifted left by 31 - (stop - start), then right by 31 - stop.
  function Mask(start: nat, stop: nat): nat
    requires start <= stop <= 31
  {
    Shr(Shl(0xffff_ffff, 31 - (stop - start)), 31 - stop)
  }

  // Bits start..stop of u, by mask and shift. The contract is the arithmetic meaning.
  function GetBits(u: word, start: nat, stop: nat): (r: word)
    requires start <= stop <= 31
    ensures r == Shr(u, start) % Pow2(stop - start + 1)
  {
    MaskAndShift(u, start, stop);
    Shr(And(u, Mask(start, stop)), start)
  }

  lemma MaskAndShift(u: word, start: nat, stop: nat)
    requires start <= stop <= 31
    ensures Shr(And(u, Mask(start, stop)), start) == Shr(u, start) % Pow2(stop - start + 1) <= u
  {
    MaskShape(start, stop);
    AndMask(u, start, stop);
    ModAtMost(Shr(u, start), Pow2(stop - start + 1));
    ShrMultiple(Shr(u, start) % Pow2(stop - start + 1), start);
  }

  lemma ShrMultiple(f: nat, k: nat)
    ensures f * Pow2(k) >= 0 && Shr(f * Pow2(k), k) == f
  {
    DivUnique(f * Pow2(k), Pow2(k), f, 0);
  }

  lemma ModAtMost(x: nat, d: int)
    requires d > 0
    ensures x % d <= x
  {
    DivNonNegative(x, d);
    assert x == d * (x / d) + x % d;
  }

  // The two shifts leave exactly the ones at positions start..stop.
  lemma MaskShape(start: nat, stop: nat)
    requires start <= stop <= 31
    ensures Mask(start, stop) == Pow2(stop + 1) - Pow2(start)
  {
    MaskAt(31 - (stop - start), 31 - stop, start, stop + 1);
  }

  lemma MaskAt(n: nat, m: nat, a: nat, b: nat)
    requires m + b == 32 && n == m + a && a < b
    ensures Shr(Shl(0xffff_ffff, n), m) == Pow2(b) - Pow2(a)
  {
    hide *;
    ShlAllOnes(n);
    Pow2Monotone(a, b);
    FactorOnes(m, a, b);
    ShrMultiple(Pow2(b) - Pow2(a), m);
  }

  lemma FactorOnes(m: nat, a: nat, b: nat)
    requires m + b == 32
    ensures (Pow2(b) - Pow2(a)) * Pow2(m) == 0x1_0000_0000 - Pow2(m + a)
  {
    Pow2Add(m, a);
    Pow2Add(m, b);
    WordSize(m, b);
  }

  lemma WordSize(m: nat, n: nat)
    requires m + n == 32
    ensures Pow2(m + n) == 0x1_0000_0000
  {
    Pow2Values();
  }

  lemma ShlAllOnes(n: nat)
    requires n <= 31
    ensures Shl(0xffff_ffff, n) == 0x1_0000_0000 - Pow2(n)
  {
    Pow2Values();
    Pow2Monotone(n, 31);
    DivUnique(0xffff_ffff * Pow2(n), 0x1_0000_0000, Pow2(n) - 1, 0x1_0000_0000 - Pow2(n));
  }

  // Two adjacent fields read as one.
  lemma AdjacentFields(u: word, s: nat, m: nat, t: nat)
    requires s <= m < t <= 31
    ensures GetBits(u, s, t) == GetBits(u, m + 1, t) * Pow2(m - s + 1) + GetBits(u, s, m)
  {
    var low, high := Pow2(m - s + 1), Pow2(t - m);
    var x := Shr(u, s);
    Pow2Add(s, m - s + 1);
    DivDiv(u, Pow2(s), low);
    assert Shr(u, m + 1) == x / low;
    Pow2Add(m - s + 1, t - m);
    SplitMod(x, low, high);
  }

  lemma SplitMod(x: nat, a: int, b: int)
    requires a > 0 && b > 0
    ensures a * b > 0 && x % (a * b) == x / a % b * a + x % a
  {
    var q, r := x / a / b, x / a % b;
    var d := x / a;
    assert x == a * d + x % a;
    assert d == b * q + r;
    assert a * d == a * (b * q) + a * r;
    assert a * (b * q) == (a * b) * q;
    assert 0 <= a * r <= a * (b - 1);
    assert a * (b - 1) == a * b - a;
    DivUnique(x, a * b, q, a * r + x % a);
  }

  function GetRS(u: word): (r: word)
    ensures r == u / 0x20_0000 % 32
  {
    Pow2Values();
    GetBits(u, 21, 25)
  }

  function GetRT(u: word): (r: word)
    ensures r == u / 0x1_0000 % 32
  {
    Pow2Values();
    GetBits(u, 16, 20)
  }

  function GetRD(u: word): (r: word)
    ensures r == u / 0x800 % 32
  {
    Pow2Values();
    GetBits(u, 11, 15)
  }

  // The low half-word, converted to int16_t.
  function GetIm(u: word): (r: int)
    ensures r == ToInt16(u)
  {
    Pow2Values();
    HalfWord(u);
    ToInt16(GetBits(u, 0, 15))
  }

  lemma HalfWord(u: word)
    ensures ToInt16(u % 0x1_0000) == ToInt16(u)
    ensures Shr(u, 0) == u
  {
  }

  function GetSA(u: word): (r: word)
    ensures r == u / 64 % 32
  {
    Pow2Values();
    GetBits(u, 6, 10)
  }

  function GetTarget(u: word): (r: word)
    ensures r == u % 0x400_0000
  {
    Pow2Values();
    HalfWord(u);
    GetBits(u, 0, 25)
  }

  function Opcode(u: word): (r: word)
    ensures r == u / 0x400_0000
  {
    Pow2Values();
    GetBits(u, 26, 31)
  }

  function Funct(u: word): (r: word)
    ensures r == u % 64
  {
    Pow2Values();
    HalfWord(u);
    GetBits(u, 0, 5)
  }

  // The R, I and J layouts each cover the whole word.
  lemma FieldsReassemble(u: word)
    ensures u == ((((Opcode(u) * 32 + GetRS(u)) * 32 + GetRT(u)) * 32 + GetRD(u)) * 32 + GetSA(u)) * 64 + Funct(u)
    ensures u == ((Opcode(u) * 32 + GetRS(u)) * 32 + GetRT(u)) * 0x1_0000 + GetIm(u) % 0x1_0000
    ensures u == Opcode(u) * 0x400_0000 + GetTarget(u)
  {
    hide *;
    Layouts(u);
  }

  lemma Layouts(u: word)
    ensures u / 0x1_0000 == (u / 0x400_0000 * 32 + u / 0x20_0000 % 32) * 32 + u / 0x1_0000 % 32
    ensures u / 64 == (u / 0x1_0000 * 32 + u / 0x800 % 32) * 32 + u / 64 % 32
    ensures ToInt16(u) % 0x1_0000 == u % 0x1_0000
  {
    PeelField(u, 0x20_0000);
    PeelField(u, 0x1_0000);
    PeelField(u, 0x800);
    PeelField(u, 64);
  }

  lemma PeelField(u: nat, d: int)
    requires d > 0
    ensures u / d == u / (32 * d) * 32 + u / d % 32
  {
    DivDiv(u, d, 32);
  }

  /* ---------- mnemonics ---------- */

  // Every string execute_asm and dispAssem compare against, and the decoder's "PROBLEME".
  datatype Mnemonic =
    | ADD | ADDI | ADDIU | ADDU | AND | ANDI | BEQ | BGEZ | BGTZ | BLEZ | BLTZ | BNE | BREAK | DIV
    | J | JAL | JALR | JARL | JR | LB | LBU | LUI | LW | MFHI | MFLO | MULT | OR | ORI | SB | SEB
    | SLL | SLT | SLTI | SLTIU | SLTU | SRA | SRL | SUB | SUBU | SW | SYSCALL | XOR | PROBLEME

  function LibS(n: word): Mnemonic {
    if n == 0x20 then ADD
    else if n == 0x21 then ADDU
    else if n == 0x24 then AND
    else if n == 0xd then BREAK
    else if n == 0x1a then DIV
    else if n == 0x9 then JALR
    else if n == 0x8 then JR
    else if n == 0x10 then MFHI
    else if n == 0x12 then MFLO
    else if n == 0x18 then MULT
    else if n == 0x0 then SLL
    else if n == 0x25 then OR
    else if n == 0x2a then OR        // the architecture's SLT
    else if n == 0x2c then SLTU
    else if n == 0x3 then SRA
    else if n == 0x2 then SRL
    else if n == 0x22 then SUB
    else if n == 0x23 then SUBU
    else if n == 0xc then SYSCALL
    else if n == 0x26 then XOR
    else PROBLEME
  }

  function LibR(n: word): Mnemonic {
    if n == 0x1 then BGEZ else if n == 0x0 then BLTZ else PROBLEME
  }

  function LibS3(n: word): Mnemonic {
    if n == 0x10 then SEB else PROBLEME
  }

  function LibN(n: word): Mnemonic {
    if n == 0x8 then ADDI
    else if n == 0x9 then ADDIU
    else if n == 0xc then ANDI
    else if n == 0x4 then BEQ
    else if n == 0x7 then BGTZ
    else if n == 0x6 then BLEZ
    else if n == 0x5 then BNE
    else if n == 0x2 then J
    else if n == 0x3 then JAL
    else if n == 0x20 then LB
    else if n == 0x24 then LBU
    else if n == 0xf then LUI
    else if n == 0x23 then LW
    else if n == 0xd then ORI
    else if n == 0x28 then SB
    else if n == 0xa then SLTI
    else if n == 0xb then SLTIU
    else if n == 0x2b then SW
    else PROBLEME
  }

  function GetInstr(u: word): Mnemonic {
    var n := Opcode(u);
    if n == 0x0 then LibS(Funct(u))
    else if n == 0x1 then LibR(GetRT(u))
    else if n == 0x1f then LibS3(GetSA(u))
    else LibN(n)
  }

  // Two of the mnemonics the executor and the disassembler test for are never produced, and
  // JALR, which neither tests for, is.
  lemma NeverDecoded(u: word)
    ensures GetInstr(u) != JARL && GetInstr(u) != SLT
    ensures GetInstr(u) == JALR <==> Opcode(u) == 0 && Funct(u) == 9
  {
    hide Opcode, Funct, GetRT, GetSA;
  }

  // A decoded word: the mnemonic and every operand field the executor or the disassembler reads.
  type field5 = x: int | 0 <= x < 32
  type field26 = x: int | 0 <= x < 0x400_0000
  type int16 = x: int | -0x8000 <= x < 0x8000

  datatype Instr = Instr(m: Mnemonic, rs: field5, rt: field5, rd: field5, sa: field5, im: int16, target: field26)

  function Decoded(u: word): Instr {
    Instr(GetInstr(u), GetRS(u), GetRT(u), GetRD(u), GetSA(u), GetIm(u), GetTarget(u))
  }

  function Bare(m: Mnemonic): Instr {
    Instr(m, 0, 0, 0, 0, 0, 0)
  }

  // The all-zero word fetched from an unmapped address is a NOP.
  lemma ZeroIsNop()
    ensures Decoded(0) == Bare(SLL)
  {
    hide GetBits;
  }
}

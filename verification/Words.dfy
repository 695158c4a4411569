/** The C integer types the emulator computes with, and C's operators on them.
    Words are kept as mathematical integers; truncation and sign are explicit. */
module Words {
  type byte = x: int | 0 <= x < 0x100                        // uint8_t
  type word = x: int | 0 <= x < 0x1_0000_0000                // uint32_t
  type int32 = x: int | -0x8000_0000 <= x < 0x8000_0000      // int32_t

  predicate InInt32(x: int) {
    -0x8000_0000 <= x < 0x8000_0000
  }

  // Conversion to uint32_t.
  function ToWord(x: int): word {
    x % 0x1_0000_0000
  }

  // Conversion to int32_t, two's complement.
  function ToInt32(x: int): (r: int32)
    ensures r % 0x1_0000_0000 == x % 0x1_0000_0000
    ensures InInt32(x) ==> r == x
  {
    var w := x % 0x1_0000_0000;
    if w < 0x8000_0000 then w else w - 0x1_0000_0000
  }

  // Conversion to int16_t, then promotion back to int.
  function ToInt16(x: int): (r: int)
    ensures -0x8000 <= r < 0x8000 && (r - x) % 0x1_0000 == 0
  {
    var h := x % 0x1_0000;
    if h < 0x8000 then h else h - 0x1_0000
  }

  // C's division and remainder truncate toward zero.
  function CDiv(a: int, b: int): int
    requires b != 0
  {
    if a >= 0 then a / b else -((-a) / b)
  }

  function CMod(a: int, b: int): int
    requires b != 0
  {
    a - b * CDiv(a, b)
  }

  lemma TruncatedDivision(a: int, b: int)
    requires b != 0
    ensures a == b * CDiv(a, b) + CMod(a, b)
    ensures 0 <= a ==> 0 <= CMod(a, b) < (if b < 0 then -b else b)
    ensures a < 0 ==> 0 <= -CMod(a, b) < (if b < 0 then -b else b)
  {
    if a >= 0 {
      assert a == b * (a / b) + a % b;
    } else {
      assert -a == b * ((-a) / b) + (-a) % b;
      assert b * (-((-a) / b)) == -(b * ((-a) / b));
    }
  }

  lemma NegatedDivisor(x: nat, d: int)
    requires d > 0
    ensures x / -d == -(x / d)
  {
    var q := x / -d;
    assert x == -d * q + x % -d;
    assert -d * q == d * -q;
    DivUnique(x, d, -q, x % -d);
  }

  function AbsInt(x: int): nat {
    if x < 0 then -x else x
  }

  // Magnitudes: the quotient's is that of the magnitudes, the remainder's is the rest.
  lemma DivisionMagnitudes(a: int, b: int)
    requires b != 0
    ensures AbsInt(CDiv(a, b)) == AbsInt(a) / AbsInt(b)
    ensures AbsInt(CMod(a, b)) == AbsInt(a) % AbsInt(b)
    ensures AbsInt(b * CDiv(a, b)) <= AbsInt(a)
  {
    var m, n := AbsInt(a), AbsInt(b);
    DivNonNegative(m, n);
    MulNonNegative(n, m / n);
    assert m == n * (m / n) + m % n;
    if b < 0 {
      NegatedDivisor(m, n);
    }
    SignedProducts(n, m / n);
  }

  lemma SignedProducts(n: int, q: int)
    ensures n * -q == -(n * q) && -n * q == -(n * q) && -n * -q == n * q
  {
  }

  /* ---------- powers of two ---------- */

  function Pow2(n: nat): (p: int)
    ensures p >= 1
  {
    if n == 0 then 1 else 2 * Pow2(n - 1)
  }

  lemma {:induction false} Pow2Add(m: nat, n: nat)
    ensures Pow2(m + n) == Pow2(m) * Pow2(n)
  {
    if m > 0 {
      Pow2Add(m - 1, n);
      calc {
        Pow2(m + n);
        2 * Pow2(m - 1 + n);
        2 * (Pow2(m - 1) * Pow2(n));
        Pow2(m) * Pow2(n);
      }
    }
  }

  lemma Pow2Values()
    ensures Pow2(1) == 2 && Pow2(2) == 4 && Pow2(5) == 0x20 && Pow2(6) == 0x40 && Pow2(8) == 0x100
    ensures Pow2(11) == 0x800 && Pow2(16) == 0x1_0000 && Pow2(21) == 0x20_0000 && Pow2(24) == 0x100_0000
    ensures Pow2(26) == 0x400_0000 && Pow2(28) == 0x1000_0000 && Pow2(31) == 0x8000_0000
    ensures Pow2(32) == 0x1_0000_0000 && Pow2(33) == 0x2_0000_0000
  {
    assert Pow2(4) == 16;
    Pow2Add(4, 4);
    Pow2Add(8, 8);
    Pow2Add(16, 16);
    assert Pow2(3) == 8;
    Pow2Add(8, 3);
    Pow2Add(16, 5);
    Pow2Add(16, 8);
    Pow2Add(24, 2);
    Pow2Add(24, 4);
    Pow2Add(28, 3);
  }

  lemma {:induction false} Pow2Monotone(m: nat, n: nat)
    requires m <= n
    ensures Pow2(m) <= Pow2(n)
  {
    if m < n {
      Pow2Monotone(m, n - 1);
    }
  }

  lemma DivDiv(x: nat, a: int, b: int)
    requires a > 0 && b > 0
    ensures a * b > 0 && x / a / b == x / (a * b)
  {
    var q := x / a / b;
    var r := x / a % b;
    var s := x % a;
    assert x / a == b * q + r;
    assert x == a * (b * q + r) + s;
    assert a * (b * q + r) == (a * b) * q + a * r by {
      assert a * (b * q) == (a * b) * q;
    }
    assert 0 <= a * r + s < a * b by {
      assert a * r <= a * (b - 1);
      assert a * (b - 1) == a * b - a;
    }
    DivUnique(x, a * b, q, a * r + s);
  }

  lemma MulNonNegative(a: nat, b: nat)
    ensures a * b >= 0
  {
  }

  lemma MultipleBounds(d: int, k: int)
    requires d > 0
    ensures k >= 1 ==> d * k >= d && d * k >= k
    ensures k <= -1 ==> d * k <= -d
  {
    if k >= 1 {
      MulNonNegative(d, k - 1);
      MulNonNegative(d - 1, k);
    } else if k <= -1 {
      MulNonNegative(d, -k - 1);
    }
  }

  lemma SmallMultiple(d: int, k: int)
    requires -d < d * k < d
    ensures k == 0
  {
    MultipleBounds(d, k);
  }

  lemma DivUnique(x: int, d: int, q: int, r: int)
    requires d > 0 && 0 <= r < d && x == d * q + r
    ensures x / d == q && x % d == r
  {
    var q1, r1 := x / d, x % d;
    assert x == d * q1 + r1;
    assert d * (q - q1) == r1 - r;
    SmallMultiple(d, q - q1);
  }

  lemma DivNonNegative(x: nat, d: int)
    requires d > 0
    ensures 0 <= x / d <= x
  {
    var q := x / d;
    assert x == d * q + x % d;
    MultipleBounds(d, q);
  }

  // Reduction modulo 2^32 may be applied to either summand.
  lemma WrapSum(x: int, y: int)
    ensures (x % 0x1_0000_0000 + y) % 0x1_0000_0000 == (x + y) % 0x1_0000_0000
    ensures (x + y % 0x1_0000_0000) % 0x1_0000_0000 == (x + y) % 0x1_0000_0000
    ensures (x - y % 0x1_0000_0000) % 0x1_0000_0000 == (x - y) % 0x1_0000_0000
  {
    var q := (x + y) / 0x1_0000_0000;
    DivUnique(x % 0x1_0000_0000 + y, 0x1_0000_0000, q - x / 0x1_0000_0000, (x + y) % 0x1_0000_0000);
    DivUnique(x + y % 0x1_0000_0000, 0x1_0000_0000, q - y / 0x1_0000_0000, (x + y) % 0x1_0000_0000);
    DivUnique(x - y % 0x1_0000_0000, 0x1_0000_0000, (x - y) / 0x1_0000_0000 + y / 0x1_0000_0000,
        (x - y) % 0x1_0000_0000);
  }

  /* ---------- C's bitwise operators on non-negative values ---------- */

  function And(a: nat, b: nat): nat {
    if a == 0 || b == 0 then 0
    else 2 * And(a / 2, b / 2) + (if a % 2 == 1 && b % 2 == 1 then 1 else 0)
  }

  function Or(a: nat, b: nat): nat {
    if a == 0 then b else if b == 0 then a
    else 2 * Or(a / 2, b / 2) + (if a % 2 == 1 || b % 2 == 1 then 1 else 0)
  }

  function Xor(a: nat, b: nat): nat {
    if a == 0 then b else if b == 0 then a
    else 2 * Xor(a / 2, b / 2) + (if a % 2 != b % 2 then 1 else 0)
  }

  function Shl(u: word, n: nat): word {
    u * Pow2(n) % 0x1_0000_0000
  }

  function Shr(u: nat, n: nat): (r: nat)
    ensures r <= u
  {
    DivNonNegative(u, Pow2(n));
    u / Pow2(n)
  }

  // Bit i of u.
  predicate Bit(u: nat, i: nat) {
    Shr(u, i) % 2 == 1
  }

  lemma BitShift(u: nat, i: nat)
    requires i > 0
    ensures Bit(u, i) == Bit(u / 2, i - 1)
  {
    DivDiv(u, 2, Pow2(i - 1));
  }

  lemma HalfOfOperators(a: nat, b: nat)
    ensures And(a, b) / 2 == And(a / 2, b / 2) && (And(a, b) % 2 == 1 <==> a % 2 == 1 && b % 2 == 1)
    ensures Or(a, b) / 2 == Or(a / 2, b / 2) && (Or(a, b) % 2 == 1 <==> a % 2 == 1 || b % 2 == 1)
    ensures Xor(a, b) / 2 == Xor(a / 2, b / 2) && (Xor(a, b) % 2 == 1 <==> a % 2 != b % 2)
  {
  }

  // What the three operators mean: bit by bit.
  lemma {:induction false} BitsOfOperators(a: nat, b: nat, i: nat)
    ensures Bit(And(a, b), i) == (Bit(a, i) && Bit(b, i))
    ensures Bit(Or(a, b), i) == (Bit(a, i) || Bit(b, i))
    ensures Bit(Xor(a, b), i) == (Bit(a, i) != Bit(b, i))
    decreases i
  {
    HalfOfOperators(a, b);
    if i == 0 {
      BitZero(a);
      BitZero(b);
      BitZero(And(a, b));
      BitZero(Or(a, b));
      BitZero(Xor(a, b));
    } else {
      BitShift(a, i);
      BitShift(b, i);
      BitShift(And(a, b), i);
      BitShift(Or(a, b), i);
      BitShift(Xor(a, b), i);
      BitsOfOperators(a / 2, b / 2, i - 1);
    }
  }

  lemma BitZero(u: nat)
    ensures Bit(u, 0) == (u % 2 == 1)
  {
    assert Shr(u, 0) == u;
  }

  lemma ZeroHasNoBits(i: nat)
    ensures !Bit(0, i)
  {
    DivUnique(0, Pow2(i), 0, 0);
  }

  lemma {:induction false} OperatorsFit(a: nat, b: nat, n: nat)
    requires a < Pow2(n) && b < Pow2(n)
    ensures And(a, b) < Pow2(n) && Or(a, b) < Pow2(n) && Xor(a, b) < Pow2(n)
    decreases n
  {
    if n > 0 {
      OperatorsFit(a / 2, b / 2, n - 1);
    }
  }

  // A value below 2^n is determined by its bits 0..n-1.
  lemma {:induction false} BitsDetermine(a: nat, b: nat, n: nat)
    requires a < Pow2(n) && b < Pow2(n)
    requires forall i: nat :: i < n ==> Bit(a, i) == Bit(b, i)
    ensures a == b
    decreases n
  {
    if n > 0 {
      assert Bit(a, 0) == Bit(b, 0);
      forall i: nat | i < n - 1
        ensures Bit(a / 2, i) == Bit(b / 2, i)
      {
        BitShift(a, i + 1);
        BitShift(b, i + 1);
        assert Bit(a, i + 1) == Bit(b, i + 1);
      }
      BitsDetermine(a / 2, b / 2, n - 1);
      assert a % 2 == b % 2;
    }
  }

  // Disjoint fields: or-ing a low field into a multiple of 2^n adds it.
  lemma {:induction false} OrDisjoint(high: nat, low: nat, n: nat)
    requires low < Pow2(n)
    ensures high * Pow2(n) >= 0 && Or(high * Pow2(n), low) == high * Pow2(n) + low
    decreases n
  {
    if n > 0 && high > 0 && low > 0 {
      var h := high * Pow2(n - 1);
      assert high * Pow2(n) == 2 * h;
      assert h > 0;
      OrDisjoint(high, low / 2, n - 1);
    }
  }

  // Masking with bits s..t.
  lemma {:induction false} AndMask(u: nat, s: nat, t: nat)
    requires s <= t
    ensures Pow2(s) < Pow2(t + 1)
    ensures And(u, Pow2(t + 1) - Pow2(s)) == Shr(u, s) % Pow2(t - s + 1) * Pow2(s)
    decreases t
  {
    hide And, Shr, Pow2;
    Pow2Monotone(s, t);
    assert Pow2(t + 1) == 2 * Pow2(t) by { DoublePower(t); }
    if s > 0 {
      AndMask(u / 2, s - 1, t - 1);
      AndMaskStep(u, s, t);
    } else {
      DoublePower(0);
      AndLowBits(u, t + 1);
    }
  }

  lemma DoublePower(n: nat)
    ensures Pow2(n + 1) == 2 * Pow2(n) && Pow2(0) == 1
  {
  }

  lemma AndMaskStep(u: nat, s: nat, t: nat)
    requires 0 < s <= t && Pow2(s - 1) < Pow2(t)
    requires And(u / 2, Pow2(t) - Pow2(s - 1)) == Shr(u / 2, s - 1) % Pow2(t - s + 1) * Pow2(s - 1)
    ensures Pow2(s) < Pow2(t + 1)
    ensures And(u, Pow2(t + 1) - Pow2(s)) == Shr(u, s) % Pow2(t - s + 1) * Pow2(s)
  {
    hide And;
    DivDiv(u, 2, Pow2(s - 1));
    DoubleRight(Shr(u, s) % Pow2(t - s + 1), Pow2(s - 1));
    AndEven(u, Pow2(t) - Pow2(s - 1));
  }

  lemma DoubleRight(f: int, p: int)
    ensures f * (2 * p) == 2 * (f * p)
  {
  }

  lemma AndEven(u: nat, m: nat)
    ensures And(u, 2 * m) == 2 * And(u / 2, m)
  {
    assert 2 * m / 2 == m && 2 * m % 2 == 0;
    if u == 0 || m == 0 {
    } else {
      assert And(u, 2 * m) == 2 * And(u / 2, m) + 0;
    }
  }

  lemma AndOdd(u: nat, m: nat)
    ensures And(u, 2 * m + 1) == 2 * And(u / 2, m) + u % 2
  {
    assert (2 * m + 1) / 2 == m && (2 * m + 1) % 2 == 1;
    if u == 0 {
    } else {
      assert And(u, 2 * m + 1) == 2 * And(u / 2, m) + u % 2;
    }
  }

  lemma {:induction false} AndLowBits(u: nat, n: nat)
    ensures And(u, Pow2(n) - 1) == u % Pow2(n)
    ensures Shr(u, 0) == u
    decreases n
  {
    hide And;
    if n == 0 {
      AndZero(u);
    } else {
      AndLowBits(u / 2, n - 1);
      ModDouble(u, Pow2(n - 1));
      AndOdd(u, Pow2(n - 1) - 1);
    }
  }

  lemma AndZero(u: nat)
    ensures And(u, 0) == 0
  {
  }

  lemma ModDouble(u: nat, p: int)
    requires p > 0
    ensures u % (2 * p) == 2 * (u / 2 % p) + u % 2
  {
    var q, r := u / 2 / p, u / 2 % p;
    assert u / 2 == p * q + r;
    assert u == 2 * (p * q + r) + u % 2;
    assert 2 * (p * q) == (2 * p) * q;
    DivUnique(u, 2 * p, q, 2 * r + u % 2);
  }
}

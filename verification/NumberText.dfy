/** itoa and is_hexa (src/emulMips.c.BAK). */
module NumberText {
  import opened Words
  import M = Memory
  import opened Numerals
  import opened Shell

  const BUFFER_SIZE := 32

  // What itoa writes when k places are left in its buffer.
  function ItoaText(val: nat, base: nat, k: nat): string
    requires IsBase(base)
    decreases k
  {
    DivShrinks(val, base);
    if val == 0 || k == 0 then "" else ItoaText(val / base, base, k - 1) + [Digit(val % base)]
  }

  function Power(b: nat, k: nat): (p: nat)
    requires b > 0
    ensures p > 0
  {
    if k == 0 then 1
    else
      MulPositive(Power(b, k - 1), b);
      Power(b, k - 1) * b
  }

  lemma MulPositive(x: int, y: int)
    requires x > 0 && y > 0
    ensures x * y > 0
  {
  }

  // itoa: buf is the static buffer every call shares; the text is the C string at the result.
  method Itoa(buf: array<char>, val: nat, base: nat) returns (start: nat)
    requires IsBase(base) && buf.Length == BUFFER_SIZE && buf[31] == '\0'
    modifies buf
    ensures start <= 31 && buf[31] == '\0'
    ensures CText(buf[..], start) == ItoaText(val, base, 30)
  {
    hide ItoaText, Digit, CText;
    var i, v := 30, val;
    ghost var text := "";
    while v != 0 && i != 0
      invariant 0 <= i <= 30 && v >= 0 && buf[31] == '\0'
      invariant |text| == 30 - i && forall k :: i < k < 31 ==> buf[k] == text[k - i - 1] && buf[k] != '\0'
      invariant ItoaText(v, base, i) + text == ItoaText(val, base, 30)
    {
      ItoaStep(v, base, i);
      DivShrinks(v, base);
      buf[i] := "0123456789abcdef"[v % base];
      SameDigit(v % base);
      text := [Digit(v % base)] + text;
      i, v := i - 1, v / base;
    }
    ItoaEnds(v, base, i);
    start := i + 1;
    CTextCut(buf[..], start, 31);
    assert buf[..][31 := '\0'] == buf[..];
    assert buf[..][start..31] == text;
  }

  lemma SameDigit(d: nat)
    requires d < 16
    ensures Digit(d) == "0123456789abcdef"[d] && Digit(d) != '\0'
  {
  }

  lemma ItoaStep(v: nat, base: nat, k: nat)
    requires IsBase(base) && v > 0 && k > 0
    ensures 0 <= v % base < 16 && v / base >= 0
    ensures ItoaText(v, base, k) == ItoaText(v / base, base, k - 1) + [Digit(v % base)]
  {
    DivShrinks(v, base);
  }

  lemma ItoaEnds(v: nat, base: nat, k: nat)
    requires IsBase(base) && (v == 0 || k == 0)
    ensures ItoaText(v, base, k) == ""
  {
  }

  // Reading the text back gives val modulo base^k, so val itself when it fits in k digits.
  lemma {:induction false} ItoaReads(val: nat, base: nat, k: nat)
    requires IsBase(base)
    ensures Value(ItoaText(val, base, k), base) == val % Power(base, k)
    ensures val < Power(base, k) ==> ItoaText(val, base, k) == Digits(val, base)
    ensures AllDigits(ItoaText(val, base, k)) && (val > 0 && k > 0 ==> ItoaText(val, base, k) != "")
    decreases k
  {
    hide ItoaText, Digits, Value, AllDigits, Digit, Power;
    if val == 0 || k == 0 {
      ItoaEnds(val, base, k);
      NoDigits(base);
      PowerZero(val, base, k);
    } else {
      DivShrinks(val, base);
      ItoaStep(val, base, k);
      DigitsStep(val, base);
      ItoaReads(val / base, base, k - 1);
      AppendDigit(ItoaText(val / base, base, k - 1), val % base, base);
      PowerStep(base, k);
      SplitModulo(val, base, Power(base, k - 1));
    }
  }

  lemma PowerZero(val: nat, base: nat, k: nat)
    requires base > 0 && (val == 0 || k == 0)
    ensures val % Power(base, k) == 0 && (val < Power(base, k) ==> val == 0)
  {
    if k == 0 {
      assert Power(base, k) == 1;
    } else {
      ModZero(Power(base, k));
    }
  }

  lemma ModZero(p: nat)
    requires p > 0
    ensures 0 % p == 0
  {
  }

  lemma PowerStep(base: nat, k: nat)
    requires base > 0 && k > 0
    ensures Power(base, k) == Power(base, k - 1) * base
  {
  }

  // Dividing by b and then taking the remainder by p, against the remainder by p * b at once.
  lemma SplitModulo(val: nat, b: nat, p: nat)
    requires b >= 2 && p > 0 && p * b > 0 && val / b >= 0
    ensures val % (p * b) == (val / b) % p * b + val % b
    ensures val < p * b ==> val / b < p
  {
    var q, d := val / b, val % b;
    var hi, lo := q / p, q % p;
    DivNonNegative(q, p);
    assert val == q * b + d && q == p * hi + lo;
    Regroup3(p, hi, lo, b, d);
    Bounded(lo, p, b, d);
    DivUnique(val, p * b, hi, lo * b + d);
    if q >= p {
      MulMonotone(p, q, b);
    }
  }

  lemma Regroup3(p: int, hi: int, lo: int, b: int, d: int)
    ensures (p * hi + lo) * b + d == (p * b) * hi + (lo * b + d)
  {
  }

  lemma Bounded(lo: int, p: int, b: int, d: int)
    requires 0 <= lo < p && 0 <= d < b
    ensures 0 <= lo * b + d < p * b
  {
    MulMonotone(lo + 1, p, b);
    MulNonNegative(lo, b);
    assert (lo + 1) * b == lo * b + b;
  }

  lemma MulMonotone(x: int, y: int, b: int)
    requires x <= y && b >= 0
    ensures x * b <= y * b
  {
  }

  /* ---------- is_hexa ---------- */

  // isxdigit
  predicate IsXDigit(c: char) {
    '0' <= c <= '9' || 'a' <= c <= 'f' || 'A' <= c <= 'F'
  }

  // The hexadecimal digits in either case.
  lemma XDigits(c: char)
    ensures IsXDigit(c) <==> c in "0123456789abcdefABCDEF"
  {
    var all := "0123456789abcdefABCDEF";
    assert |all| == 22;
    assert forall k :: 0 <= k < 10 ==> all[k] as int == '0' as int + k;
    assert forall k :: 10 <= k < 16 ==> all[k] as int == 'a' as int + k - 10;
    assert forall k :: 16 <= k < 22 ==> all[k] as int == 'A' as int + k - 16;
    if '0' <= c <= '9' {
      assert all[c as int - '0' as int] == c;
    } else if 'a' <= c <= 'f' {
      assert all[c as int - 'a' as int + 10] == c;
    } else if 'A' <= c <= 'F' {
      assert all[c as int - 'A' as int + 16] == c;
    }
  }

  predicate Hexa(c: string) {
    |c| > 2 && c[..2] == "0x" && forall k :: 2 <= k < |c| ==> IsXDigit(c[k])
  }

  // is_hexa; None is the null pointer.
  method IsHexa(chaine: M.Option<string>) returns (r: bool)
    ensures r <==> chaine.Some? && Hexa(chaine.value)
  {
    if chaine.None? || |chaine.value| <= 2 || chaine.value[0] != '0' || chaine.value[1] != 'x' {
      return false;
    }
    var c := chaine.value;
    assert c[..2] == "0x";
    var j := 2;
    while j < |c|
      invariant 2 <= j <= |c| && forall k :: 2 <= k < j ==> IsXDigit(c[k])
    {
      if !IsXDigit(c[j]) {
        return false;
      }
      j := j + 1;
    }
    return true;
  }

  // What itoa prints in base 16 is accepted behind "0x", except for zero, which it prints as nothing.
  lemma ItoaIsHexa(val: nat)
    ensures Hexa("0x" + ItoaText(val, 16, 30)) <==> val > 0
  {
    hide ItoaText;
    var t := ItoaText(val, 16, 30);
    var c := "0x" + t;
    ItoaReads(val, 16, 30);
    assert c[..2] == "0x";
    if val > 0 {
      forall k | 2 <= k < |c| ensures IsXDigit(c[k]) {
        assert c[k] == t[k - 2] && IsDigit(t[k - 2]);
      }
    } else {
      ItoaEnds(val, 16, 30);
    }
  }
}

/** Positional numerals, as printf and itoa write them. */
module Numerals {
  import opened Words

  predicate IsBase(b: int) {
    2 <= b <= 16
  }

  // "0123456789abcdef"[d]
  function Digit(d: nat): (c: char)
    requires d < 16
    ensures '0' <= c <= '9' || 'a' <= c <= 'f'
  {
    if d < 10 then '0' + d as char else 'a' + (d - 10) as char
  }

  function DigitValue(c: char): nat {
    if '0' <= c <= '9' then c as nat - '0' as nat
    else if 'a' <= c <= 'f' then c as nat - 'a' as nat + 10
    else 0
  }

  lemma DivShrinks(n: nat, base: nat)
    requires base >= 2
    ensures 0 <= n / base && (n > 0 ==> n / base < n)
    ensures 0 <= n % base < base && n == n / base * base + n % base
  {
    DivNonNegative(n, base);
    MulNonNegative(base - 2, n / base);
    assert base * (n / base) == (base - 2) * (n / base) + 2 * (n / base);
    assert n == base * (n / base) + n % base;
  }

  // The digits of n, most significant first; none for zero.
  function Digits(n: nat, base: nat): string
    requires IsBase(base)
  {
    DivShrinks(n, base);
    if n == 0 then "" else Digits(n / base, base) + [Digit(n % base)]
  }

  function Value(s: string, base: nat): int
  {
    if s == "" then 0 else Value(s[..|s| - 1], base) * base + DigitValue(s[|s| - 1])
  }

  lemma {:induction false} ValueOfDigits(n: nat, base: nat)
    requires IsBase(base)
    ensures Value(Digits(n, base), base) == n
    ensures n > 0 ==> Digits(n, base) != ""
    ensures AllDigits(Digits(n, base))
  {
    hide Value, Digits, AllDigits, Digit;
    if n == 0 {
      NoDigits(base);
    } else {
      DivShrinks(n, base);
      ValueOfDigits(n / base, base);
      DigitsStep(n, base);
      AppendDigit(Digits(n / base, base), n % base, base);
    }
  }

  lemma NoDigits(base: nat)
    requires IsBase(base)
    ensures Digits(0, base) == "" && Value("", base) == 0 && AllDigits("")
  {
  }

  lemma DigitsStep(n: nat, base: nat)
    requires IsBase(base) && n > 0
    ensures 0 <= n % base < 16 && n / base >= 0
    ensures Digits(n, base) == Digits(n / base, base) + [Digit(n % base)]
  {
    DivShrinks(n, base);
  }

  lemma AppendDigit(s: string, d: nat, base: nat)
    requires d < 16
    ensures Value(s + [Digit(d)], base) == Value(s, base) * base + d
    ensures AllDigits(s) ==> AllDigits(s + [Digit(d)])
  {
    assert (s + [Digit(d)])[..|s|] == s;
    assert DigitValue(Digit(d)) == d;
  }

  predicate IsDigit(c: char) {
    '0' <= c <= '9' || 'a' <= c <= 'f'
  }

  // printf's %u and %x.
  function Unsigned(n: nat, base: nat): string
    requires IsBase(base)
  {
    if n == 0 then "0" else Digits(n, base)
  }

  // printf's %d.
  function Signed(n: int): string {
    if n < 0 then "-" + Unsigned(-n, 10) else Unsigned(n, 10)
  }

  predicate AllDigits(s: string) {
    forall k :: 0 <= k < |s| ==> IsDigit(s[k])
  }

  lemma UnsignedReads(n: nat, base: nat)
    requires IsBase(base)
    ensures Value(Unsigned(n, base), base) == n && Unsigned(n, base) != "" && AllDigits(Unsigned(n, base))
  {
    ValueOfDigits(n, base);
    if n == 0 {
      assert "0"[..0] == "";
    }
  }

  // Different numbers print differently.
  lemma SignedInjective(m: int, n: int)
    requires Signed(m) == Signed(n)
    ensures m == n
  {
    UnsignedReads(AbsInt(m), 10);
    UnsignedReads(AbsInt(n), 10);
    var s, t := Signed(m), Signed(n);
    assert m < 0 <==> s[0] == '-';
    assert n < 0 <==> t[0] == '-';
    if m < 0 {
      assert s[1..] == Unsigned(-m, 10) && t[1..] == Unsigned(-n, 10);
    }
  }
}

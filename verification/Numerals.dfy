/** Decimal and hexadecimal numerals as `%d` and `%x` print them for nonnegative numbers. */
module Numerals {

  function DigitChar(d: nat): (c: char)
    requires d < 16
    ensures c != ':' && c != '.' && c != '\0' && c != ']'
  {
    if d < 10 then (48 + d) as char else (87 + d) as char
  }

  function DigitValue(c: char): int {
    if '0' <= c <= '9' then c as int - 48
    else if 'a' <= c <= 'f' then c as int - 87
    else -1
  }

  /** The shortest numeral of `n` in `base`, with lower-case digits. */
  function Numeral(n: nat, base: nat): (s: string)
    requires base == 10 || base == 16
    ensures s != ""
    decreases n
  {
    if n < base then [DigitChar(n)] else Numeral(n / base, base) + [DigitChar(n % base)]
  }

  predicate AllDigits(s: string, base: int) {
    forall k | 0 <= k < |s| :: 0 <= DigitValue(s[k]) < base
  }

  function Value(s: string, base: int): int {
    if s == "" then 0 else Value(s[..|s| - 1], base) * base + DigitValue(s[|s| - 1])
  }

  lemma DigitRoundTrip(d: nat)
    requires d < 16
    ensures DigitValue(DigitChar(d)) == d
  {
  }

  /** The digits in order, and nothing else is one. */
  lemma DigitsInOrder(d: nat, c: char)
    requires d < 16
    ensures DigitChar(d) == "0123456789abcdef"[d]
    ensures DigitValue(c) == d <==> c == "0123456789abcdef"[d]
  {
  }

  function Power(base: int, n: nat): int {
    if n == 0 then 1 else base * Power(base, n - 1)
  }

  /** The value is positional: the first digit weighs most. */
  lemma {:induction false} ValueIsPositional(s: string, base: int)
    requires s != ""
    ensures Value(s, base) == DigitValue(s[0]) * Power(base, |s| - 1) + Value(s[1..], base)
  {
    var front, last := s[..|s| - 1], DigitValue(s[|s| - 1]);
    if |s| > 1 {
      ValueIsPositional(front, base);
      assert front[1..] == s[1..][..|s| - 2] && front[0] == s[0];
      assert Value(s[1..], base) == Value(front[1..], base) * base + last;
      Distribute(DigitValue(s[0]), Power(base, |s| - 2), Value(front[1..], base), base);
    }
  }

  lemma Distribute(d: int, p: int, v: int, base: int)
    ensures (d * p + v) * base == d * (base * p) + v * base
  {
    assert d * (base * p) == d * p * base;
  }

  lemma DivMod(n: int, base: int)
    requires base == 10 || base == 16
    ensures n == n / base * base + n % base && 0 <= n % base < base
    ensures n >= base ==> 0 < n / base < n
  {
    if base == 10 {
    } else {
    }
  }

  /** The numeral of `n` reads back as `n`, consists of digits and has no leading zero. */
  lemma {:induction false} NumeralRoundTrip(n: nat, base: nat)
    requires base == 10 || base == 16
    ensures var s := Numeral(n, base);
      AllDigits(s, base) && Value(s, base) == n && (|s| > 1 ==> s[0] != '0')
    decreases n
  {
    DivMod(n, base);
    if n < base {
      DigitRoundTrip(n);
      assert [DigitChar(n)][..0] == "";
    } else {
      var q, d := n / base, n % base;
      var front := Numeral(q, base);
      NumeralRoundTrip(q, base);
      DigitRoundTrip(d);
      NumeralStart(q, base);
      ValueSnoc(front, DigitChar(d), base);
    }
  }

  lemma ValueSnoc(s: string, c: char, base: int)
    ensures Value(s + [c], base) == Value(s, base) * base + DigitValue(c)
  {
    assert (s + [c])[..|s|] == s;
  }

  /** Only the number zero has a numeral that starts with zero. */
  lemma {:induction false} NumeralStart(n: nat, base: nat)
    requires (base == 10 || base == 16) && n > 0
    ensures Numeral(n, base)[0] != '0'
    decreases n
  {
    DivMod(n, base);
    if n >= base {
      NumeralStart(n / base, base);
    }
  }

  lemma LengthStep(n: nat, base: nat, k: nat)
    requires base == 10 || base == 16
    ensures |Numeral(n / base, base)| <= k ==> |Numeral(n, base)| <= k + 1
    ensures n < base ==> |Numeral(n, base)| == 1
  {
    DivMod(n, base);
  }

  lemma HexLength(n: nat)
    requires n < 0x10000
    ensures |Numeral(n, 16)| <= 4
  {
    LengthStep(n / 16 / 16 / 16, 16, 0);
    LengthStep(n / 16 / 16, 16, 1);
    LengthStep(n / 16, 16, 2);
    LengthStep(n, 16, 3);
  }

  lemma DecimalLength(n: nat)
    requires n < 100000
    ensures |Numeral(n, 10)| <= 5
  {
    LengthStep(n / 10 / 10 / 10 / 10, 10, 0);
    LengthStep(n / 10 / 10 / 10, 10, 1);
    LengthStep(n / 10 / 10, 10, 2);
    LengthStep(n / 10, 10, 3);
    LengthStep(n, 10, 4);
  }
}

/** Numbers as text: what printf() writes and strtol() and strtoul() read. */
module Decimals {
  function Digit(n: nat): (c: char)
    requires n < 36
    ensures DigitValue(c) == n
  {
    if n < 10 then ('0' as int + n) as char else ('a' as int + n - 10) as char
  }

  lemma Quotient(n: nat, base: nat)
    requires 2 <= base
    ensures n == base * (n / base) + n % base && n % base < base
    ensures n >= base ==> 0 < n / base < n
  {
  }

  /** A number in a base, with small letters. */
  function Numeral(n: nat, base: nat): (s: string)
    requires 2 <= base <= 36
    ensures s != "" && forall c | c in s :: DigitValue(c) < base
  {
    Quotient(n, base);
    if n < base then [Digit(n)] else Numeral(n / base, base) + [Digit(n % base)]
  }

  function Decimal(n: nat): (s: string)
    ensures s != "" && forall c | c in s :: '0' <= c <= '9'
  {
    Numeral(n, 10)
  }

  /** The value of a character as a digit; 36 for one that is none. */
  function DigitValue(c: char): nat {
    if '0' <= c <= '9' then c as int - '0' as int
    else if 'a' <= c <= 'z' then c as int - 'a' as int + 10
    else if 'A' <= c <= 'Z' then c as int - 'A' as int + 10
    else 36
  }

  /** The number that the leading digits make; `n` is that of the digits before. */
  function Number(s: string, base: nat, n: nat): nat {
    if s != "" && DigitValue(s[0]) < base then Number(s[1..], base, base * n + DigitValue(s[0])) else n
  }

  lemma FirstDigit(s: string, t: string, base: nat, n: nat) returns (m: nat)
    requires s != "" && DigitValue(s[0]) < base
    ensures Number(s + t, base, n) == Number(s[1..] + t, base, m) && Number(s, base, n) == Number(s[1..], base, m)
  {
    m := base * n + DigitValue(s[0]);
    assert (s + t)[1..] == s[1..] + t;
  }

  lemma {:induction false} NumberJoins(s: string, t: string, base: nat, n: nat)
    requires forall c | c in s :: DigitValue(c) < base
    ensures Number(s + t, base, n) == Number(t, base, Number(s, base, n))
  {
    if s == "" {
      assert s + t == t;
    } else {
      var m := FirstDigit(s, t, base, n);
      NumberJoins(s[1..], t, base, m);
    }
  }

  lemma {:induction false} NumberOfNumeral(n: nat, base: nat)
    requires 2 <= base <= 36
    ensures Number(Numeral(n, base), base, 0) == n
  {
    if n >= base {
      Quotient(n, base);
      NumberOfNumeral(n / base, base);
      NumberJoins(Numeral(n / base, base), [Digit(n % base)], base, 0);
      OneDigit(n % base, base, n / base);
    } else {
      OneDigit(n, base, 0);
    }
  }

  lemma OneDigit(d: nat, base: nat, n: nat)
    requires d < base <= 36
    ensures Number([Digit(d)], base, n) == base * n + d
  {
    assert [Digit(d)][1..] == "";
  }

  /** A number above nine is not written with a leading zero. */
  lemma {:induction false} NoLeadingZero(n: nat)
    ensures Decimal(n)[0] == '0' <==> n == 0
  {
    if n >= 10 { NoLeadingZero(n / 10); }
  }

  function Power10(n: nat): (r: nat) ensures r >= 1 { if n == 0 then 1 else 10 * Power10(n - 1) }

  lemma {:induction false} DecimalIsShort(n: nat, limit: nat, digits: nat)
    requires digits > 0 && limit == Power10(digits) && n < limit
    ensures |Decimal(n)| <= digits
  {
    if n >= 10 {
      assert digits > 1 by { assert Power10(1) == 10 && Power10(0) == 1; }
      DecimalIsShort(n / 10, limit / 10, digits - 1);
    }
  }

  lemma {:induction false} DecimalIsLong(n: nat, digits: nat)
    requires n >= Power10(digits)
    ensures |Decimal(n)| > digits
  {
    if digits > 0 {
      assert Power10(digits) == 10 * Power10(digits - 1);
      DecimalIsLong(n / 10, digits - 1);
    }
  }

  /** A number is less than one with one more digit. */
  lemma {:induction false} NumberBound(s: string, n: nat)
    requires forall c | c in s :: '0' <= c <= '9'
    ensures Number(s, 10, n) < (n + 1) * Power10(|s|)
  {
    if s != "" {
      var d := DigitValue(s[0]);
      assert s[0] in s && forall c | c in s[1..] :: c in s;
      NumberBound(s[1..], 10 * n + d);
      Widen(n, d, Power10(|s| - 1));
    }
  }

  lemma Widen(n: nat, d: nat, p: nat)
    requires d < 10
    ensures (10 * n + d + 1) * p <= (n + 1) * (10 * p)
  {
    assert (n + 1) * (10 * p) == (10 * n + 10) * p;
    assert (10 * n + d + 1) * p <= (10 * n + 10) * p;
  }
}

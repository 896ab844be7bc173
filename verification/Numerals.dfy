/** Numbers in strings, as JavaScript appends them (lib/ring/index.js:73-74, lib/membership/index.js:138-140). */
module Numerals {

  /** The decimal digits of a number. */
  function Decimal(n: nat): string {
    if n < 10 then [(n as char + '0')] else Decimal(n / 10) + [(n % 10) as char + '0']
  }

  /** An integer, with its sign. */
  function Number(i: int): string {
    if i < 0 then "-" + Decimal(-i) else Decimal(i)
  }

  // ---- what a numeral is ----

  predicate IsDigit(c: char) {
    '0' <= c <= '9'
  }

  ghost predicate AllDigits(s: string) {
    forall i :: 0 <= i < |s| ==> IsDigit(s[i])
  }

  /** The value of a string of digits, read from the left. */
  function Value(s: string): int {
    if s == "" then 0 else 10 * Value(s[..|s| - 1]) + (s[|s| - 1] as int - '0' as int)
  }

  /** `s` is the usual way to write `n`: digits only, without a leading zero, of value `n`. */
  ghost predicate Numeral(s: string, n: int) {
    s != "" && AllDigits(s) && (|s| > 1 ==> s[0] != '0') && Value(s) == n
  }

  /** A usual way to write an integer: a numeral, after a minus sign if it is negative. */
  ghost predicate SignedNumeral(s: string, i: int) {
    if i < 0 then s != "" && s[0] == '-' && Numeral(s[1..], -i) else Numeral(s, i)
  }

  lemma {:induction false} DecimalIsNumeral(n: nat)
    ensures Numeral(Decimal(n), n) && (n > 0 ==> Decimal(n)[0] != '0')
  {
    if n < 10 {
      assert Decimal(n)[..0] == "";
    } else {
      DecimalIsNumeral(n / 10);
      var s := Decimal(n);
      assert s[..|s| - 1] == Decimal(n / 10);
    }
  }

  lemma NumberIsNumeral(i: int)
    ensures SignedNumeral(Number(i), i)
  {
    DecimalIsNumeral(if i < 0 then -i else i);
    if i < 0 {
      assert Number(i)[1..] == Decimal(-i);
    }
  }

  lemma {:induction false} ValueBounds(s: string)
    requires AllDigits(s)
    ensures Value(s) >= 0 && (s != "" && s[0] != '0' ==> Value(s) > 0)
  {
    if s == "" {
    } else {
      ValueBounds(s[..|s| - 1]);
    }
  }

  /** There is only one. */
  lemma {:induction false} NumeralUnique(s: string, t: string, n: int)
    requires Numeral(s, n) && Numeral(t, n)
    ensures s == t
    decreases |s|
  {
    var a, b := s[..|s| - 1], t[..|t| - 1];
    ValueBounds(a);
    ValueBounds(b);
    assert s == a + [s[|s| - 1]] && t == b + [t[|t| - 1]];
    assert Value(a) == Value(b) && s[|s| - 1] == t[|t| - 1];
    if a != "" && b != "" {
      NumeralUnique(a, b, Value(a));
    }
  }

  /** So different numbers are written differently. */
  lemma DecimalInjective(m: nat, n: nat)
    ensures Decimal(m) == Decimal(n) ==> m == n
  {
    DecimalIsNumeral(m);
    DecimalIsNumeral(n);
  }
}

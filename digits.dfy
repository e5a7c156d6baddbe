/** Strings of ASCII decimal digits and the natural numbers they denote. */
module Digits {

  predicate IsDigit(c: char) {
    '0' <= c <= '9'
  }

  predicate AllDigits(s: string) {
    forall i :: 0 <= i < |s| ==> IsDigit(s[i])
  }

  /** A digit string without superfluous leading zeros. */
  predicate Canonical(s: string) {
    |s| >= 1 && AllDigits(s) && (|s| > 1 ==> s[0] != '0')
  }

  /** `to_int(c)`, that is `c - '0'`, on a digit character. */
  function Digit(c: char): (d: nat)
    requires IsDigit(c)
    ensures d < 10
  {
    c as int - '0' as int
  }

  function DigitChar(d: nat): (c: char)
    requires d < 10
    ensures IsDigit(c) && Digit(c) == d
  {
    (d + '0' as int) as char
  }

  function Pow10(n: nat): (p: nat)
    ensures p >= 1
  {
    if n == 0 then 1 else 10 * Pow10(n - 1)
  }

  /** The string of `n` zero characters. */
  function Zeros(n: nat): (z: string)
    ensures |z| == n && AllDigits(z)
    ensures forall i :: 0 <= i < n ==> z[i] == '0'
  {
    if n == 0 then "" else "0" + Zeros(n - 1)
  }

  /** The natural number a digit string denotes, most significant digit first. */
  function Nat(s: string): nat
    requires AllDigits(s)
  {
    if s == [] then 0 else Digit(s[0]) * Pow10(|s| - 1) + Nat(s[1..])
  }

  /** `std::to_string` on a non-negative integer. */
  function NatToString(n: nat): (s: string)
    ensures |s| >= 1 && AllDigits(s)
  {
    if n < 10 then [DigitChar(n)] else NatToString(n / 10) + [DigitChar(n % 10)]
  }

  /** `std::to_string` on an integer: a '-' in front of a negative one. */
  function IntToString(n: int): string {
    if n < 0 then "-" + NatToString(-n) else NatToString(n)
  }

  /** `std::to_string` writes no superfluous leading zero. */
  lemma {:induction false} NatToStringCanonical(n: nat)
    ensures Canonical(NatToString(n))
  {
    if n >= 10 {
      NatToStringCanonical(n / 10);
    }
  }

  lemma {:induction false} Pow10Add(m: nat, n: nat)
    ensures Pow10(m + n) == Pow10(m) * Pow10(n)
  {
    if m > 0 {
      Pow10Add(m - 1, n);
    }
  }

  lemma {:induction false} Pow10Monotonic(m: nat, n: nat)
    requires m <= n
    ensures Pow10(m) <= Pow10(n)
  {
    if m < n {
      Pow10Monotonic(m, n - 1);
    }
  }

  /** A digit string of length n denotes a number below 10^n. */
  lemma {:induction false} NatBound(s: string)
    requires AllDigits(s)
    ensures Nat(s) < Pow10(|s|)
  {
    if s != [] {
      NatBound(s[1..]);
      var p := Pow10(|s| - 1);
      MulAtMost(Digit(s[0]), 9, p);
    }
  }

  /** A digit string of length n whose first digit is not '0' denotes at least 10^(n-1). */
  lemma NatLowerBound(s: string)
    requires AllDigits(s) && |s| >= 1 && s[0] != '0'
    ensures Nat(s) >= Pow10(|s| - 1)
  {
    var p := Pow10(|s| - 1);
    assert Digit(s[0]) >= 1;
    assert Digit(s[0]) * p >= p;
  }

  /** Leading zeros do not change the number a digit string denotes. */
  lemma {:induction false} NatZerosPrefix(n: nat, s: string)
    requires AllDigits(s)
    ensures AllDigits(Zeros(n) + s) && Nat(Zeros(n) + s) == Nat(s)
  {
    if n > 0 {
      NatZerosPrefix(n - 1, s);
      var z := Zeros(n) + s;
      assert z[1..] == Zeros(n - 1) + s;
      assert z[0] == '0' && Digit(z[0]) == 0;
      assert Nat(z) == 0 * Pow10(|z| - 1) + Nat(z[1..]);
    } else {
      assert Zeros(n) + s == s;
    }
  }

  /** Reading the concatenation of two digit strings. */
  lemma {:induction false} NatAppend(s: string, t: string)
    requires AllDigits(s) && AllDigits(t)
    ensures AllDigits(s + t) && Nat(s + t) == Nat(s) * Pow10(|t|) + Nat(t)
  {
    if s != [] {
      var st := s + t;
      NatAppend(s[1..], t);
      assert st[1..] == s[1..] + t;
      assert st[0] == s[0];
      Pow10Add(|s| - 1, |t|);
      assert AllDigits(st);
      var d, p, q, m := Digit(s[0]), Pow10(|s| - 1), Pow10(|t|), Nat(s[1..]);
      assert Nat(st) == d * Pow10(|st| - 1) + Nat(st[1..]);
      assert Pow10(|st| - 1) == p * q;
      Regroup(d, p, q, m);
    } else {
      assert s + t == t;
    }
  }

  lemma {:induction false} MulMonotonic(k: int, p: int)
    requires k >= 1 && p >= 0
    ensures k * p >= p
  {
    if k > 1 {
      MulMonotonic(k - 1, p);
      assert k * p == (k - 1) * p + p;
    }
  }

  lemma MulAtMost(k: int, m: int, p: int)
    requires k <= m && p >= 0
    ensures k * p <= m * p
  {
    assert m * p - k * p == (m - k) * p;
  }

  lemma MulAwayFromZero(k: int, p: int)
    requires p >= 0
    ensures k == 0 || k * p >= p || k * p <= -p
  {
    if k >= 1 {
      MulMonotonic(k, p);
    } else if k <= -1 {
      MulMonotonic(-k, p);
      assert k * p == -((-k) * p);
    }
  }

  /** The remainder of r + c * p by p is r when r is below p. */
  lemma ModOfDecomposition(x: int, r: int, c: int, p: int)
    requires p > 0 && 0 <= r < p && x == r + c * p
    ensures x % p == r
  {
    var q, s := x / p, x % p;
    assert x == q * p + s;
    assert (c - q) * p == s - r;
    MulAwayFromZero(c - q, p);
  }

  lemma Regroup(d: int, p: int, q: int, m: int)
    ensures d * (p * q) + m * q == (d * p + m) * q
  {
  }

  /** Prepending one digit. */
  lemma NatCons(c: char, t: string)
    requires IsDigit(c) && AllDigits(t)
    ensures AllDigits([c] + t) && Nat([c] + t) == Digit(c) * Pow10(|t|) + Nat(t)
  {
    assert ([c] + t)[1..] == t;
  }

  /** `std::to_string` renders a natural number in decimal. */
  lemma {:induction false} NatToStringDenotes(n: nat)
    ensures Nat(NatToString(n)) == n
  {
    if n >= 10 {
      NatToStringDenotes(n / 10);
      var c := DigitChar(n % 10);
      NatAppend(NatToString(n / 10), [c]);
      assert Nat([c]) == n % 10;
    }
  }
}

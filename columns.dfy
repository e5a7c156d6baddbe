/**
 * The digit-column loops of `operator+`, `operator-` and `operator*` in
 * oop/bigint.c++, on magnitudes (digit strings without a sign). Each loop
 * runs from the least significant column to the most significant one and
 * prepends what it emits; each is specified by a function of the columns
 * still to process, and the loop methods are proved to compute exactly
 * that function.
 */
module Columns {
  import opened Digits

  /** `std::string(n - |g|, '0') + g`: right-align `g` under a string of length `n`. */
  function Pad(g: string, n: nat): (r: string)
    requires |g| <= n && AllDigits(g)
    ensures |r| == n && AllDigits(r) && Nat(r) == Nat(g)
    ensures r[n - |g|..] == g
  {
    NatZerosPrefix(n - |g|, g);
    Zeros(n - |g|) + g
  }

  /** The C++ remainder `x % 10`, which truncates toward zero. */
  function TruncRem10(x: int): (r: int)
    ensures x >= 0 ==> 0 <= r < 10
    ensures x < 0 ==> -10 < r <= 0
  {
    if x >= 0 then x % 10 else -((-x) % 10)
  }

  // ----- Addition with carry -----

  /** (result, decimal_overflow) after the carry loop has processed every
      column of `f` and `g`, two strings of one length. */
  function AddColumns(f: string, g: string): (st: (string, nat))
    requires |f| == |g| && AllDigits(f) && AllDigits(g)
    ensures AllDigits(st.0) && |st.0| >= |f| && st.1 <= 1
    ensures f == [] <==> st.0 == []
  {
    if f == [] then ("", 0)
    else
      var rest := AddColumns(f[1..], g[1..]);
      var sum := Digit(f[0]) + Digit(g[0]);
      (NatToString(sum % 10 + rest.1) + rest.0, sum / 10)
  }

  /** No column has digit sum 9 while a carry is pending; in such a column the
      code emits "10" and the carry is lost. */
  predicate NoLostCarry(f: string, g: string)
    requires |f| == |g| && AllDigits(f) && AllDigits(g)
  {
    f == [] ||
    (NoLostCarry(f[1..], g[1..]) &&
     (Digit(f[0]) + Digit(g[0]) != 9 || AddColumns(f[1..], g[1..]).1 == 0))
  }

  /** The text the positive + positive branch hands to the constructor. */
  function AddMagnitudes(f: string, g: string): (r: string)
    requires |g| <= |f| && AllDigits(f) && AllDigits(g)
    ensures AllDigits(r) && |r| >= |f|
    ensures r == [] <==> f == []
  {
    var columns := AddColumns(f, Pad(g, |f|));
    if columns.1 != 0 then NatToString(columns.1) + columns.0 else columns.0
  }

  /** The arithmetic of one column of the carry loop: the column digit `k`
      written in front of the lower columns, with the outgoing carry `q`. */
  lemma AddStep(df: nat, dg: nat, c: nat, p: nat, r: int, f: int, g: int, total: int, q: int, nf: int, ng: int)
    requires (df + dg) % 10 + c <= 9 && q == (df + dg) / 10
    requires r + c * p == f + g
    requires total == ((df + dg) % 10 + c) * p + r
    requires nf == df * p + f && ng == dg * p + g
    ensures total + q * (10 * p) == nf + ng
  {
    var sum := df + dg;
    var m := sum % 10;
    assert sum == m + 10 * q;
    assert (m + c) * p == m * p + c * p;
    assert q * (10 * p) == (10 * q) * p;
    assert (m + 10 * q) * p == m * p + (10 * q) * p;
    assert sum * p == df * p + dg * p;
  }

  /** Where no carry is lost, the carry loop computes the column sum exactly. */
  lemma {:induction false} AddColumnsSound(f: string, g: string)
    requires |f| == |g| && AllDigits(f) && AllDigits(g) && NoLostCarry(f, g)
    ensures |AddColumns(f, g).0| == |f|
    ensures Nat(AddColumns(f, g).0) + AddColumns(f, g).1 * Pow10(|f|) == Nat(f) + Nat(g)
  {
    if f != [] {
      var f', g' := f[1..], g[1..];
      AddColumnsSound(f', g');
      var (r, c) := AddColumns(f', g');
      var df, dg := Digit(f[0]), Digit(g[0]);
      var k := (df + dg) % 10 + c;
      var p := Pow10(|f'|);
      var (s, q) := AddColumns(f, g);
      assert s == [DigitChar(k)] + r && q == (df + dg) / 10 by {
        assert k <= 9;
      }
      assert Nat(s) == k * p + Nat(r) by {
        NatCons(DigitChar(k), r);
      }
      assert Nat(f) == df * p + Nat(f');
      assert Nat(g) == dg * p + Nat(g');
      assert Pow10(|f|) == 10 * p;
      AddStep(df, dg, c, p, Nat(r), Nat(f'), Nat(g'), Nat(s), q, Nat(f), Nat(g));
    }
  }

  /** Where no carry is lost, positive + positive yields the digits of the sum. */
  lemma AddMagnitudesSound(f: string, g: string)
    requires |g| <= |f| && AllDigits(f) && AllDigits(g) && NoLostCarry(f, Pad(g, |f|))
    ensures Nat(AddMagnitudes(f, g)) == Nat(f) + Nat(g)
  {
    var padded := Pad(g, |f|);
    var (s, c) := AddColumns(f, padded);
    var p := Pow10(|f|);
    assert Nat(s) + c * p == Nat(f) + Nat(g) && |s| == |f| by {
      AddColumnsSound(f, padded);
    }
    assert Nat(AddMagnitudes(f, g)) == if c == 0 then Nat(s) else p + Nat(s) by {
      if c != 0 {
        assert AddMagnitudes(f, g) == ['1'] + s by {
          assert NatToString(1) == "1";
        }
        NatCons('1', s);
      }
    }
    CarryOut(Nat(s), c, p, Nat(f) + Nat(g), Nat(AddMagnitudes(f, g)));
  }

  /** A final carry of one is worth one unit of the next power of ten. */
  lemma CarryOut(low: int, c: nat, p: int, total: int, printed: int)
    requires c <= 1 && low + c * p == total
    requires printed == if c == 0 then low else p + low
    ensures printed == total
  {
    assert c * p == if c == 0 then 0 else p;
  }



  /** Evaluates `Nat` on a literal through its printed form. */
  lemma NatOfLiteral(s: string, n: nat)
    requires s == NatToString(n)
    ensures Nat(s) == n
  {
    NatToStringDenotes(n);
  }

  /** 5 + 3: a single column without carry. */
  lemma AddFiveThree()
    ensures AddMagnitudes("5", "3") == "8"
  {
    assert Pad("3", 1) == "3";
    assert NatToString(8) == "8";
  }

  // The three columns of 199 + 001, from the right.
  lemma AddColumnsOnes()
    ensures AddColumns("9", "1").0 == "0" && AddColumns("9", "1").1 == 1
  {
  }

  lemma AddColumnsTens()
    ensures AddColumns("99", "01").0 == "100" && AddColumns("99", "01").1 == 0
  {
    AddColumnsOnes();
    assert "99"[1..] == "9" && "01"[1..] == "1";
    assert NatToString(10) == "10";
  }

  /** A column with digit sum 9 and a pending carry emits "10": 199 + 1 gives 1100. */
  lemma AddLosesCarry()
    ensures AddMagnitudes("199", "1") == "1100"
    ensures Nat("199") + Nat("1") == 200
  {
    AddColumnsTens();
    NatOfLiteral("199", 199);
    NatOfLiteral("1", 1);
    assert Pad("1", 3) == "001";
    assert "199"[1..] == "99" && "001"[1..] == "01";
    assert NatToString(1) == "1";
  }

  /** One unfolding of the carry loop: the top column in front of the
      columns below it, which gave `r` and the carry `c`. */
  lemma AddColumnsFront(f: string, g: string, r: string, c: nat, sum: nat)
    requires |f| == |g| > 0 && AllDigits(f) && AllDigits(g)
    requires AddColumns(f[1..], g[1..]) == (r, c) && sum == Digit(f[0]) + Digit(g[0])
    ensures AddColumns(f, g) == (NatToString(sum % 10 + c) + r, sum / 10)
  {
  }

  /** The carry loop, as the positive + positive branch runs it. */
  method AddDigits(first: string, addend: string) returns (result: string)
    requires |addend| <= |first| && AllDigits(first) && AllDigits(addend)
    ensures result == AddMagnitudes(first, addend)
  {
    var second := Zeros(|first| - |addend|) + addend;
    assert second == Pad(addend, |first|);
    result := "";
    var decimalOverflow := 0;
    var i := |first|;
    while i > 0
      invariant 0 <= i <= |first|
      invariant (result, decimalOverflow) == AddColumns(first[i..], second[i..])
    {
      i := i - 1;
      assert first[i..][1..] == first[i + 1..] && second[i..][1..] == second[i + 1..];
      var sum := Digit(first[i]) + Digit(second[i]);
      AddColumnsFront(first[i..], second[i..], result, decimalOverflow, sum);
      result := NatToString(sum % 10 + decimalOverflow) + result;
      decimalOverflow := sum / 10;
    }
    assert first[0..] == first && second[0..] == second;
    if decimalOverflow != 0 {
      result := NatToString(decimalOverflow) + result;
    }
  }

  // ----- Subtraction with borrow -----

  /** The text a subtraction column emits for the difference `d`: the
   * truncating remainder, plus ten when the column borrowed. */
  function SubCell(d: int): (k: nat)
    ensures d >= 0 ==> k == d % 10
    ensures -10 < d < 0 ==> k == d + 10
    ensures d == -10 ==> k == 10
  {
    TruncRem10(d) + (if d >= 0 then 0 else 10)
  }

  /** (result, decimal_underflow) after the borrow loop has processed every
      column of `f` and `g`, two strings of one length. */
  function SubColumns(f: string, g: string): (st: (string, nat))
    requires |f| == |g| && AllDigits(f) && AllDigits(g)
    ensures AllDigits(st.0) && |st.0| >= |f| && st.1 <= 1
    ensures f == [] <==> st.0 == []
  {
    if f == [] then ("", 0)
    else
      var rest := SubColumns(f[1..], g[1..]);
      var difference := Digit(f[0]) - Digit(g[0]) - rest.1;
      (NatToString(SubCell(difference)) + rest.0, if difference < 0 then 1 else 0)
  }

  /** No column has difference -10; in such a column the code emits "10". */
  predicate NoWideBorrow(f: string, g: string)
    requires |f| == |g| && AllDigits(f) && AllDigits(g)
  {
    f == [] ||
    (NoWideBorrow(f[1..], g[1..]) &&
     Digit(f[0]) - Digit(g[0]) - SubColumns(f[1..], g[1..]).1 != -10)
  }

  /** The text the positive - positive branch hands to the constructor; the
      borrow out of the top column is dropped. */
  function SubtractMagnitudes(f: string, g: string): (r: string)
    requires |g| <= |f| && AllDigits(f) && AllDigits(g)
    ensures AllDigits(r) && |r| >= |f|
    ensures r == [] <==> f == []
  {
    SubColumns(f, Pad(g, |f|)).0
  }

  /** The arithmetic of one column of the borrow loop: the column digit `k`
      written in front of the lower columns, with the outgoing borrow `bb`. */
  lemma SubStep(df: int, dg: int, b: nat, bb: nat, k: nat, p: nat, r: int, f: int, g: int, total: int, q: int, nf: int, ng: int)
    requires k == df - dg - b + 10 * bb
    requires r == f - g + b * p
    requires total == k * p + r && q == bb
    requires nf == df * p + f && ng == dg * p + g
    ensures total == nf - ng + q * (10 * p)
  {
    assert k * p == (df - dg - b + 10 * bb) * p;
    assert (df - dg - b + 10 * bb) * p == df * p - dg * p - b * p + (10 * bb) * p;
    assert bb * (10 * p) == (10 * bb) * p;
  }

  /** Where no column borrows ten, the borrow loop computes the difference
      modulo 10^n, and the final borrow records whether it wrapped. */
  lemma {:induction false} SubColumnsSound(f: string, g: string)
    requires |f| == |g| && AllDigits(f) && AllDigits(g) && NoWideBorrow(f, g)
    ensures |SubColumns(f, g).0| == |f|
    ensures Nat(SubColumns(f, g).0) == Nat(f) - Nat(g) + SubColumns(f, g).1 * Pow10(|f|)
  {
    if f != [] {
      var f', g' := f[1..], g[1..];
      SubColumnsSound(f', g');
      var (r, b) := SubColumns(f', g');
      var df, dg := Digit(f[0]), Digit(g[0]);
      var difference := df - dg - b;
      var k := SubCell(difference);
      var bb := if difference < 0 then 1 else 0;
      var p := Pow10(|f'|);
      var (s, q) := SubColumns(f, g);
      assert s == [DigitChar(k)] + r && q == bb && k == difference + 10 * bb by {
        assert k <= 9;
        assert NatToString(k) == [DigitChar(k)];
      }
      assert Nat(s) == k * p + Nat(r) by {
        NatCons(DigitChar(k), r);
      }
      assert Nat(f) == df * p + Nat(f');
      assert Nat(g) == dg * p + Nat(g');
      assert Pow10(|f|) == 10 * p;
      SubStep(df, dg, b, bb, k, p, Nat(r), Nat(f'), Nat(g'), Nat(s), q, Nat(f), Nat(g));
    }
  }

  /** Where no column borrows ten and the minuend is not smaller, positive -
      positive yields the digits of the difference. */
  lemma SubtractMagnitudesSound(f: string, g: string)
    requires |g| <= |f| && AllDigits(f) && AllDigits(g)
    requires NoWideBorrow(f, Pad(g, |f|)) && Nat(f) >= Nat(g)
    ensures Nat(SubtractMagnitudes(f, g)) == Nat(f) - Nat(g)
  {
    var padded := Pad(g, |f|);
    var (r, b) := SubColumns(f, padded);
    var p := Pow10(|f|);
    assert Nat(r) == Nat(f) - Nat(g) + b * p && |r| == |f| by {
      SubColumnsSound(f, padded);
    }
    assert Nat(r) < p by {
      NatBound(r);
    }
    NoFinalBorrow(Nat(r), b, p, Nat(f) - Nat(g));
  }

  /** A result below the column weight leaves no borrow pending. */
  lemma NoFinalBorrow(low: int, b: nat, p: int, difference: int)
    requires b <= 1 && difference >= 0 && low == difference + b * p && low < p
    ensures low == difference
  {
    assert b * p == if b == 0 then 0 else p;
  }


  /** One unfolding of the borrow loop, for evaluating it on literals. */
  lemma SubColumnsStep(f: string, g: string, r: string, b: nat, difference: int)
    requires |f| == |g| > 0 && AllDigits(f) && AllDigits(g)
    requires SubColumns(f[1..], g[1..]) == (r, b) && difference == Digit(f[0]) - Digit(g[0]) - b
    ensures SubColumns(f, g) == (NatToString(SubCell(difference)) + r, if difference < 0 then 1 else 0)
  {
  }

  // The three columns of 100 - 099, from the right.
  lemma SubColumnsOnes()
    ensures SubColumns("0", "9").0 == "1" && SubColumns("0", "9").1 == 1
  {
    assert Digit('0') - Digit('9') - 0 == -9 && SubCell(-9) == 1 && NatToString(1) == "1";
    SubColumnsStep("0", "9", "", 0, -9);
  }

  lemma SubColumnsTens()
    ensures SubColumns("00", "99").0 == "101" && SubColumns("00", "99").1 == 1
  {
    SubColumnsOnes();
    var f, g := "00", "99";
    assert f[1..] == "0" && g[1..] == "9";
    assert Digit(f[0]) - Digit(g[0]) - 1 == -10 && SubCell(-10) == 10 && NatToString(10) == "10";
    SubColumnsStep(f, g, "1", 1, -10);
  }

  lemma SubColumnsHundreds()
    ensures SubColumns("100", "099").0 == "0101"
  {
    SubColumnsTens();
    var f, g := "100", "099";
    assert f[1..] == "00" && g[1..] == "99";
    assert Digit(f[0]) - Digit(g[0]) - 1 == 0 && SubCell(0) == 0 && NatToString(0) == "0";
    SubColumnsStep(f, g, "101", 1, 0);
  }

  /** A column with difference -10 emits "10": 100 - 99 gives 0101. */
  lemma SubtractionEmitsTen()
    ensures SubtractMagnitudes("100", "99") == "0101"
    ensures Nat("100") - Nat("99") == 1
  {
    SubColumnsHundreds();
    assert Pad("99", 3) == "099";
    NatOfLiteral("100", 100);
    NatOfLiteral("99", 99);
  }

  /** The borrow loop, as the positive - positive branch runs it. */
  method SubtractDigits(first: string, subtrahend: string) returns (result: string)
    requires |subtrahend| <= |first| && AllDigits(first) && AllDigits(subtrahend)
    ensures result == SubtractMagnitudes(first, subtrahend)
  {
    var second := Zeros(|first| - |subtrahend|) + subtrahend;
    assert second == Pad(subtrahend, |first|);
    result := "";
    var decimalUnderflow := 0;
    var i := |first|;
    while i > 0
      invariant 0 <= i <= |first|
      invariant (result, decimalUnderflow) == SubColumns(first[i..], second[i..])
    {
      i := i - 1;
      assert first[i..][1..] == first[i + 1..] && second[i..][1..] == second[i + 1..];
      var difference := Digit(first[i]) - Digit(second[i]) - decimalUnderflow;
      result := NatToString(SubCell(difference)) + result;
      if difference < 0 {
        decimalUnderflow := 1;
      } else {
        decimalUnderflow := 0;
      }
    }
    assert first[0..] == first && second[0..] == second;
  }

  // ----- One row of schoolbook multiplication -----

  /** (single_multiplication_element, decimal_overflow) after the inner loop
      has multiplied every digit of `f` by the digit `m`. */
  function RowColumns(f: string, m: nat): (st: (string, nat))
    requires AllDigits(f) && m < 10
    ensures AllDigits(st.0) && |st.0| == |f| && st.1 < 10
  {
    if f == [] then ("", 0)
    else
      var rest := RowColumns(f[1..], m);
      var multiplication := Digit(f[0]) * m + rest.1 % 10;
      assert multiplication <= 90 by {
        assert Digit(f[0]) * m <= 9 * m <= 81;
      }
      (NatToString(multiplication % 10) + rest.0, multiplication / 10)
  }

  /** The row `f` times `m`; the carry out of the top column is dropped. */
  function Row(f: string, m: nat): (r: string)
    requires AllDigits(f) && m < 10
    ensures AllDigits(r) && |r| == |f|
  {
    RowColumns(f, m).0
  }

  lemma RowStep(d: nat, m: nat, c: nat, p: nat, r: int, f: int)
    requires r + c * p == f * m
    ensures ((d * m + c) % 10) * p + r + ((d * m + c) / 10) * (10 * p) == (d * p + f) * m
  {
    var x := d * m + c;
    assert x == x % 10 + 10 * (x / 10);
    assert (x % 10) * p + (x / 10) * (10 * p) == x * p;
    assert x * p == (d * m) * p + c * p;
    assert (d * m) * p == (d * p) * m;
    assert (d * p + f) * m == (d * p) * m + f * m;
  }

  lemma {:induction false} RowColumnsSound(f: string, m: nat)
    requires AllDigits(f) && m < 10
    ensures Nat(RowColumns(f, m).0) + RowColumns(f, m).1 * Pow10(|f|) == Nat(f) * m
  {
    if f != [] {
      RowColumnsSound(f[1..], m);
      var (r, c) := RowColumns(f[1..], m);
      var multiplication := Digit(f[0]) * m + c % 10;
      assert c % 10 == c;
      var k := multiplication % 10;
      assert NatToString(k) == [DigitChar(k)];
      NatCons(DigitChar(k), r);
      var p := Pow10(|f| - 1);
      RowStep(Digit(f[0]), m, c, p, Nat(r), Nat(f[1..]));
      assert Nat(f) == Digit(f[0]) * p + Nat(f[1..]);
      assert Pow10(|f|) == 10 * p;
    }
  }

  /** A row keeps only the low |f| digits of the product: the final carry of
      each row is discarded. */
  lemma RowDropsCarry(f: string, m: nat)
    requires AllDigits(f) && m < 10
    ensures Nat(Row(f, m)) == (Nat(f) * m) % Pow10(|f|)
  {
    RowColumnsSound(f, m);
    NatBound(Row(f, m));
    ModOfDecomposition(Nat(f) * m, Nat(Row(f, m)), RowColumns(f, m).1, Pow10(|f|));
  }

  /** The inner loop of `operator*`: one digit of the multiplier times every
      digit of `first`, from the right. */
  method RowDigits(first: string, multiplier: nat) returns (element: string)
    requires AllDigits(first) && multiplier < 10
    ensures element == Row(first, multiplier)
  {
    var decimalOverflow := 0;
    element := "";
    var i := |first|;
    while i > 0
      invariant 0 <= i <= |first|
      invariant (element, decimalOverflow) == RowColumns(first[i..], multiplier)
    {
      i := i - 1;
      assert first[i..][1..] == first[i + 1..];
      var multiplication := Digit(first[i]) * multiplier + decimalOverflow % 10;
      element := NatToString(multiplication % 10) + element;
      decimalOverflow := multiplication / 10;
    }
    assert first[0..] == first;
  }

  /** 5 times 5 emits the row "5": the carry 2 is discarded. */
  lemma RowLosesCarry()
    ensures Row("5", 5) == "5"
  {
  }

  // ----- Rows and sums with a factor or a summand that changes nothing -----

  /** A row times 1 is the row itself, with no carry. */
  lemma {:induction false} RowColumnsByOne(f: string)
    requires AllDigits(f)
    ensures RowColumns(f, 1) == (f, 0)
  {
    if f != [] {
      RowColumnsByOne(f[1..]);
      assert NatToString(Digit(f[0])) == [f[0]];
      assert [f[0]] + f[1..] == f;
    }
  }

  /** The one-digit row "1" times `Digit(c)` is `c`. */
  lemma RowOfOne(c: char)
    requires IsDigit(c)
    ensures Row("1", Digit(c)) == [c]
  {
    var d := Digit(c);
    assert "1"[1..] == "" && RowColumns("", d) == ("", 0);
    assert Digit('1') * d + 0 % 10 == d && d % 10 == d;
    assert NatToString(d) == [c];
    assert RowColumns("1", d) == ([c] + "", d / 10);
  }

  /** Zeros added column by column to `g` give `g`, with no carry. */
  lemma {:induction false} AddColumnsOverZeros(g: string)
    requires AllDigits(g)
    ensures AddColumns(Zeros(|g|), g) == (g, 0)
  {
    if g != [] {
      AddColumnsOverZeros(g[1..]);
      var z := Zeros(|g|);
      assert z[1..] == Zeros(|g| - 1);
      assert NatToString(Digit(g[0])) == [g[0]];
      assert [g[0]] + g[1..] == g;
    }
  }

  /** A digit `c` over a '0', above columns `z` + `x` that give `x` with
      no carry: the digit is put in front of `x`. */
  lemma AddColumnsZeroTop(c: char, z: string, x: string)
    requires IsDigit(c) && |z| == |x| && AllDigits(z) && AllDigits(x)
    requires AddColumns(z, x) == (x, 0)
    ensures AddColumns([c] + z, "0" + x) == ([c] + x, 0)
  {
    var f, g := [c] + z, "0" + x;
    assert f[1..] == z && g[1..] == x;
    var sum := Digit(c);
    assert sum == Digit(f[0]) + Digit(g[0]);
    AddColumnsFront(f, g, x, 0, sum);
    SingleDigit(sum);
    DigitString(c);
  }

  /** `std::to_string` of a digit's value is that digit. */
  lemma DigitString(c: char)
    requires IsDigit(c)
    ensures NatToString(Digit(c)) == [c]
  {
  }

  /** The positive + positive branch on a digit followed by zeros and a
      shorter operand that fills those zeros: the digit is put in front. */
  lemma AddMagnitudesOverZeros(c: char, x: string)
    requires IsDigit(c) && AllDigits(x)
    ensures AddMagnitudes([c] + Zeros(|x|), x) == [c] + x
  {
    PadByOne(x);
    AddColumnsOverZeros(x);
    AddColumnsZeroTop(c, Zeros(|x|), x);
  }

  /** Padding by one column puts a single '0' in front. */
  lemma PadByOne(g: string)
    requires AllDigits(g)
    ensures Pad(g, |g| + 1) == "0" + g
  {
    assert Zeros(1) == "0";
  }

  lemma SingleDigit(d: nat)
    requires d < 10
    ensures d % 10 == d && d / 10 == 0
  {
  }
}

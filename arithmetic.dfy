/**
 * `operator+`, `operator-` and `operator*` of oop/bigint.c++: the dispatch on
 * the operands' signs, the column loops of columns.dfy applied to the
 * magnitudes, and the text each branch hands back to the constructor.
 *
 * `+` and `-` call each other on fresh values. They terminate because every
 * call either removes a negative operand (by `make_positive` on a copy),
 * performs the pending swap of the positive + positive / positive - positive
 * branches (after which the operands are no longer in ascending order), or
 * goes from `-` to `+` with the same operands (the zero case of `-`).
 */
module Arithmetic {
  import opened Outcomes
  import opened Digits
  import opened Columns
  import opened BigInts

  /** How many of the two operands are negative. */
  function NegativeCount(a: BigInt, w: BigInt): nat {
    (if a.sign then 0 else 1) + (if w.sign then 0 else 1)
  }

  /** 1 when both operands are positive and the first is the smaller, so
      that the positive + positive (or positive - positive) branch swaps them. */
  function SwapPending(a: BigInt, w: BigInt): nat {
    if a.sign && w.sign && Less(a, w) then 1 else 0
  }

  /** Unary `operator-` applied to the result of an operation. */
  function NegateResult(r: Result<BigInt>): (n: Result<BigInt>)
    ensures n.Ok? <==> r.Ok?
    ensures n.Ok? ==> n.value == Negate(r.value)
    ensures n.Err? ==> n.error == r.error
  {
    match r
    case Ok(x) => Ok(Negate(x))
    case Err(e) => Err(e)
  }

  /** A string of ASCII digits, handed to the constructor, keeps its digits
      and is positive, unless it is empty. */
  lemma ParseOfDigits(s: string)
    requires AllDigits(s)
    ensures Parse(s) == if s == [] then Err(EmptyNumber) else Ok(BigInt(true, s))
  {
    if s != [] {
      ParseOfToString(BigInt(true, s));
    }
  }

  /** `operator+`. The only failure is the constructor's rejection of an
      empty column result, which happens exactly when both operands were
      parsed from a lone sign. */
  function Plus(a: BigInt, w: BigInt): (r: Result<BigInt>)
    requires a.Valid() && w.Valid()
    ensures r.Ok? ==> r.value.Valid()
    ensures r.Err? <==> a.digits == [] && w.digits == []
    ensures r.Err? ==> r.error == EmptyNumber
    ensures r.Ok? && a.sign && w.sign ==> r.value.sign
    decreases NegativeCount(a, w), SwapPending(a, w), 0
  {
    if w == Zero then Ok(a)
    else if a == Zero then Ok(w)
    else if a.sign && w.sign then
      if Less(a, w) then
        GreaterAsymmetric(w, a);
        Plus(w, a)
      else
        ParseOfAddition(a.digits, w.digits);
        Parse(AddMagnitudes(a.digits, w.digits))
    else if a.sign && !w.sign then
      Minus(a, Abs(w))
    else if !a.sign && w.sign then
      Minus(w, Abs(a))
    else
      // Both operands are negative: the fourth and last sign case, so the
      // `logic_error` after it cannot be reached.
      NegateResult(Plus(Abs(a), Abs(w)))
  }

  /** `operator-`. Its zero case returns `*this + what`, so `0 - x` is `x`;
      a negative minus a positive returns `what + |*this|` without negation. */
  function Minus(a: BigInt, w: BigInt): (r: Result<BigInt>)
    requires a.Valid() && w.Valid()
    ensures r.Ok? ==> r.value.Valid()
    ensures r.Err? <==> a.digits == [] && w.digits == []
    ensures r.Err? ==> r.error == EmptyNumber
    decreases NegativeCount(a, w), SwapPending(a, w), 1
  {
    if a == Zero || w == Zero then Plus(a, w)
    else if a.sign && w.sign then
      if Less(a, w) then
        GreaterAsymmetric(w, a);
        NegateResult(Minus(w, a))
      else
        ParseOfSubtraction(a.digits, w.digits);
        Parse(SubtractMagnitudes(a.digits, w.digits))
    else if a.sign && !w.sign then
      Plus(a, Abs(w))
    else if !a.sign && w.sign then
      Plus(w, Abs(a))
    else
      // Both operands are negative; the `logic_error` after this case
      // cannot be reached.
      NegateResult(Minus(Abs(a), Abs(w)))
  }

  /** In the positive + positive and positive - positive branches the
      operands are no longer ascending, so `count_digits() - with.count_digits()`,
      the number of padding zeros, is never negative. */
  lemma PaddingNonNegative(a: BigInt, w: BigInt)
    requires a.sign && w.sign && !Less(a, w)
    ensures |w.digits| <= |a.digits|
  {
  }

  /** What the constructor makes of the text of positive + positive. */
  lemma ParseOfAddition(f: string, g: string)
    requires |g| <= |f| && AllDigits(f) && AllDigits(g)
    ensures f == [] ==> Parse(AddMagnitudes(f, g)) == Err(EmptyNumber)
    ensures f != [] ==> Parse(AddMagnitudes(f, g)) == Ok(BigInt(true, AddMagnitudes(f, g)))
  {
    ParseOfDigits(AddMagnitudes(f, g));
  }

  /** What the constructor makes of the text of positive - positive. */
  lemma ParseOfSubtraction(f: string, g: string)
    requires |g| <= |f| && AllDigits(f) && AllDigits(g)
    ensures f == [] ==> Parse(SubtractMagnitudes(f, g)) == Err(EmptyNumber)
    ensures f != [] ==> Parse(SubtractMagnitudes(f, g)) == Ok(BigInt(true, SubtractMagnitudes(f, g)))
  {
    ParseOfDigits(SubtractMagnitudes(f, g));
  }

  /** `x + 0 == x` and `0 + x == x`. */
  lemma PlusZero(x: BigInt)
    requires x.Valid()
    ensures Plus(x, Zero) == Ok(x)
    ensures Plus(Zero, x) == Ok(x)
  {
  }

  // ----- When the column loops are exact -----

  /** No column of `f` + `g` (with `g` padded to the length of `f`) has digit
      sum 9 while a carry is pending. */
  predicate CarryFree(f: string, g: string)
    requires AllDigits(f) && AllDigits(g)
  {
    |g| <= |f| && NoLostCarry(f, Pad(g, |f|))
  }

  /** No column of `f` - `g` (with `g` padded to the length of `f`) has
      difference -10. */
  predicate BorrowFree(f: string, g: string)
    requires AllDigits(f) && AllDigits(g)
  {
    |g| <= |f| && NoWideBorrow(f, Pad(g, |f|))
  }

  /** The carry loop is exact on the magnitudes `f` and `g`, taken in the
      order (larger first) in which the positive + positive branch adds them. */
  predicate SumExact(f: string, g: string)
    requires AllDigits(f) && AllDigits(g)
  {
    if Less(BigInt(true, f), BigInt(true, g)) then CarryFree(g, f) else CarryFree(f, g)
  }

  /** The borrow loop is exact on the magnitudes `f` and `g`, taken in the
      order (larger first) in which the positive - positive branch subtracts
      them. */
  predicate DifferenceExact(f: string, g: string)
    requires AllDigits(f) && AllDigits(g)
  {
    if Less(BigInt(true, f), BigInt(true, g)) then BorrowFree(g, f) else BorrowFree(f, g)
  }

  /** Value of positive + positive, whichever operand is larger. */
  lemma PositiveSum(a: BigInt, w: BigInt)
    requires a.Valid() && w.Valid() && a.sign && w.sign && (a.digits != [] || w.digits != [])
    requires SumExact(a.digits, w.digits)
    ensures Plus(a, w).Ok? && Value(Plus(a, w).value) == Value(a) + Value(w)
  {
    assert a == BigInt(true, a.digits) && w == BigInt(true, w.digits);
    if w == Zero || a == Zero {
    } else if Less(a, w) {
      GreaterAsymmetric(w, a);
      assert Plus(a, w) == Plus(w, a);
      ParseOfAddition(w.digits, a.digits);
      AddMagnitudesSound(w.digits, a.digits);
    } else {
      ParseOfAddition(a.digits, w.digits);
      AddMagnitudesSound(a.digits, w.digits);
    }
  }

  /** Value of positive - positive when the minuend is not zero. */
  lemma PositiveDifference(a: BigInt, w: BigInt)
    requires a.sign && w.sign && Canonical(a.digits) && Canonical(w.digits) && a != Zero
    requires DifferenceExact(a.digits, w.digits)
    ensures Minus(a, w).Ok? && Value(Minus(a, w).value) == Value(a) - Value(w)
  {
    assert a == BigInt(true, a.digits) && w == BigInt(true, w.digits);
    GreaterIsNumeric(a, w);
    GreaterIsNumeric(w, a);
    if w == Zero {
    } else if Less(a, w) {
      GreaterAsymmetric(w, a);
      assert Minus(a, w) == NegateResult(Minus(w, a));
      assert Minus(w, a) == Parse(SubtractMagnitudes(w.digits, a.digits));
      ParseOfSubtraction(w.digits, a.digits);
      SubtractMagnitudesSound(w.digits, a.digits);
    } else {
      ParseOfSubtraction(a.digits, w.digits);
      SubtractMagnitudesSound(a.digits, w.digits);
    }
  }

  /** The column condition `+` depends on: the carry loop when the signs
      agree (the magnitudes are added), the borrow loop on canonical
      magnitudes when they differ (the magnitudes are subtracted). */
  predicate PlusExact(a: BigInt, w: BigInt)
    requires a.Valid() && w.Valid()
  {
    if a.sign == w.sign then (a.digits != [] || w.digits != []) && SumExact(a.digits, w.digits)
    else Canonical(a.digits) && Canonical(w.digits) && DifferenceExact(a.digits, w.digits)
  }

  /** The column condition `-` depends on: the borrow loop on canonical
      magnitudes when the signs agree, the carry loop when they differ. */
  predicate MinusExact(a: BigInt, w: BigInt)
    requires a.Valid() && w.Valid()
  {
    if a.sign == w.sign then Canonical(a.digits) && Canonical(w.digits) && DifferenceExact(a.digits, w.digits)
    else (a.digits != [] || w.digits != []) && SumExact(a.digits, w.digits)
  }

  /** `+` denotes the sum whenever the one column loop its sign case
      reaches is exact. */
  lemma PlusDenotesSum(a: BigInt, w: BigInt)
    requires a.Valid() && w.Valid() && PlusExact(a, w)
    ensures Plus(a, w).Ok? && Value(Plus(a, w).value) == Value(a) + Value(w)
  {
    var a', w' := Abs(a), Abs(w);
    if w == Zero || a == Zero {
    } else if a.sign && w.sign {
      PositiveSum(a, w);
    } else if a.sign {
      PositiveDifference(a, w');
    } else if w.sign {
      ExactSymmetric(a.digits, w.digits);
      PositiveDifference(w, a');
    } else {
      PositiveSum(a', w');
      NegateProperties(Plus(a', w').value);
    }
  }

  /** `-` denotes the difference whenever the one column loop its sign case
      reaches is exact, unless the minuend is zero (`0 - x` is `x`) or a
      negative minus a positive (which adds the magnitudes). */
  lemma MinusDenotesDifference(a: BigInt, w: BigInt)
    requires a.Valid() && w.Valid() && MinusExact(a, w)
    requires a.digits != "0" && (a.sign || !w.sign)
    ensures Minus(a, w).Ok? && Value(Minus(a, w).value) == Value(a) - Value(w)
  {
    var a', w' := Abs(a), Abs(w);
    if w == Zero {
    } else if a.sign && w.sign {
      PositiveDifference(a, w);
    } else if a.sign {
      PositiveSum(a, w');
    } else {
      PositiveDifference(a', w');
      NegateProperties(Minus(a', w').value);
    }
  }

  /** Exactness does not depend on the order in which the operands come. */
  lemma ExactSymmetric(f: string, g: string)
    requires AllDigits(f) && AllDigits(g)
    ensures SumExact(f, g) <==> SumExact(g, f)
    ensures DifferenceExact(f, g) <==> DifferenceExact(g, f)
  {
    var x, y := BigInt(true, f), BigInt(true, g);
    Trichotomy(x, y);
  }

  /** 91 + -9 (and 91 - 9) reach the borrow loop, which is exact on 91 - 09,
      while the carry loop would lose the carry of 1 + 9 in the tens column. */
  lemma NinetyOneMinusNineExact()
    ensures DifferenceExact("91", "9") && !SumExact("91", "9")
  {
    var f, g := "91", Pad("9", 2);
    assert g == "09";
    assert !Less(BigInt(true, f), BigInt(true, "9"));
    assert f[1..] == "1" && g[1..] == "9";
    assert NoWideBorrow(f[1..], g[1..]);
    assert Digit(f[0]) - Digit(g[0]) - SubColumns(f[1..], g[1..]).1 != -10;
    assert AddColumns(f[1..], g[1..]).1 == 1;
    assert Digit(f[0]) + Digit(g[0]) == 9;
  }

  /** -199 + 1 and 199 - 1 reach the borrow loop, which is exact on
      199 - 001, while the carry loop of 199 + 1 loses a carry. */
  lemma OneNinetyNineMinusOneExact()
    ensures DifferenceExact("199", "1") && !SumExact("199", "1")
  {
    var f, g := "199", Pad("1", 3);
    assert g == "001";
    assert !Less(BigInt(true, f), BigInt(true, "1"));
    assert f[1..] == "99" && g[1..] == "01";
    assert f[2..] == "9" && g[2..] == "1";
    assert SubColumns(f[2..], g[2..]).1 == 0;
    assert NoWideBorrow(f[2..], g[2..]);
    assert SubColumns(f[1..], g[1..]).1 == 0;
    assert NoWideBorrow(f[1..], g[1..]);
    assert NoWideBorrow(f, g);
    AddColumnsOnes();
    assert !NoLostCarry(f[1..], g[1..]);
  }

  // ----- The quirks of the code as written -----

  /** 199 + 1 is 1100: the carry is added after `% 10`. */
  lemma PlusLosesCarry()
    ensures Plus(BigInt(true, "199"), BigInt(true, "1")) == Ok(BigInt(true, "1100"))
    ensures Nat("199") + Nat("1") == 200
  {
    AddLosesCarry();
    ParseOfDigits("1100");
  }

  /** 100 - 99 is 0101: a column with difference -10 emits "10". */
  lemma MinusEmitsTen()
    ensures Minus(BigInt(true, "100"), BigInt(true, "99")) == Ok(BigInt(true, "0101"))
    ensures Nat("100") - Nat("99") == 1
  {
    SubtractionEmitsTen();
    ParseOfDigits("0101");
  }

  /** 0 - 5 is 5. */
  lemma ZeroMinusIsIdentity()
    ensures Minus(Zero, BigInt(true, "5")) == Ok(BigInt(true, "5"))
  {
  }

  /** -3 - 5 is 8. */
  lemma NegativeMinusPositiveAdds()
    ensures Minus(BigInt(false, "3"), BigInt(true, "5")) == Ok(BigInt(true, "8"))
  {
    FivePlusThree();
    assert Minus(BigInt(false, "3"), BigInt(true, "5")) == Plus(BigInt(true, "5"), BigInt(true, "3"));
  }

  lemma FivePlusThree()
    ensures Plus(BigInt(true, "5"), BigInt(true, "3")) == Ok(BigInt(true, "8"))
  {
    AddFiveThree();
    ParseOfDigits("8");
  }

  // ----- Multiplication -----

  /** The partial product for digit `i` of `second`: the row, then one '0'
      per column to the right of `i`. */
  function Element(first: string, second: string, i: nat): (e: string)
    requires AllDigits(first) && AllDigits(second) && i < |second|
    ensures AllDigits(e) && |e| == |first| + |second| - 1 - i
    ensures Nat(e) == Nat(Row(first, Digit(second[i]))) * Pow10(|second| - 1 - i)
  {
    var row, shift := Row(first, Digit(second[i])), |second| - 1 - i;
    NatAppend(row, Zeros(shift));
    NatZerosPrefix(shift, "");
    assert Zeros(shift) + "" == Zeros(shift);
    row + Zeros(shift)
  }

  /** One pass of the outer loop of `operator*`: `result += bigint(element)`
      for the partial product of digit `i` of `second`. */
  function AddRow(acc: Result<BigInt>, first: string, second: string, i: nat): (r: Result<BigInt>)
    requires AllDigits(first) && AllDigits(second) && i < |second|
    requires acc.Ok? ==> acc.value.Valid() && acc.value.sign
    requires acc.Err? ==> acc.error == EmptyNumber
    ensures r.Ok? ==> r.value.Valid() && r.value.sign
    ensures r.Err? <==> acc.Err? || Element(first, second, i) == []
    ensures r.Err? ==> r.error == EmptyNumber
  {
    match acc
    case Err(e) => Err(e)
    case Ok(result) =>
      var element := Element(first, second, i);
      match Parse(element)
      case Err(e) => Err(e)
      case Ok(term) =>
        ParseOfDigits(element);
        Plus(result, term)
  }

  /** `result` once the outer loop of `operator*` has processed the digits
      of `second` from its last one down to index `j`. */
  function Accumulated(first: string, second: string, j: nat): (r: Result<BigInt>)
    requires AllDigits(first) && AllDigits(second) && j <= |second|
    ensures r.Ok? ==> r.value.Valid() && r.value.sign
    ensures r.Err? <==> first == [] && j < |second|
    ensures r.Err? ==> r.error == EmptyNumber
    decreases |second| - j
  {
    if j == |second| then Ok(Zero)
    else AddRow(Accumulated(first, second, j + 1), first, second, j)
  }

  /** `operator*`: zero if either operand is zero; otherwise the larger
      operand (by `>`) is `first`, and the accumulated partial products get
      the sign `this->sign == by.sign`. */
  function Times(a: BigInt, w: BigInt): (r: Result<BigInt>)
    requires a.Valid() && w.Valid()
    ensures r.Ok? ==> r.value.Valid()
    ensures r.Err? ==> r.error == EmptyNumber
    ensures r.Err? <==>
      a != Zero && w != Zero &&
      (if Greater(w, a) then w.digits == [] && a.digits != [] else a.digits == [] && w.digits != [])
    decreases if Greater(w, a) then 1 else 0
  {
    if w == Zero || a == Zero then Ok(Zero)
    else if Greater(w, a) then
      GreaterAsymmetric(w, a);
      Times(w, a)
    else
      match Accumulated(a.digits, w.digits, 0)
      case Err(e) => Err(e)
      case Ok(result) => Ok(BigInt(a.sign == w.sign, result.digits))
  }

  /** `x * 0` and `0 * x` are the positive "0". */
  lemma TimesZero(x: BigInt)
    requires x.Valid()
    ensures Times(x, Zero) == Ok(Zero) && Times(Zero, x) == Ok(Zero)
  {
  }

  /** A product of non-zero operands is positive exactly when their signs
      agree, and multiplication is commutative in the sign it gives. */
  lemma {:induction false} TimesSign(a: BigInt, w: BigInt)
    requires a.Valid() && w.Valid() && a != Zero && w != Zero && Times(a, w).Ok?
    ensures Times(a, w).value.sign <==> a.sign == w.sign
    decreases if Greater(w, a) then 1 else 0
  {
    if Greater(w, a) {
      GreaterAsymmetric(w, a);
      TimesSign(w, a);
    }
  }

  /** `x * 1 == x` for every operand with digits. When `x` is negative,
      1 is the larger operand by `>`, so the row loop runs over "1" and the
      outer loop over the digits of `x`; otherwise the single row is `x`. */
  lemma TimesOne(a: BigInt)
    requires a.Valid() && a.digits != []
    ensures Times(a, One) == Ok(a)
  {
    if a == Zero {
    } else if Greater(One, a) {
      GreaterAsymmetric(One, a);
      AccumulatedByOne(a.digits, 0);
      assert a.digits[0..] == a.digits;
      assert Times(a, One) == Times(One, a);
    } else {
      RowColumnsByOne(a.digits);
      assert Digit(One.digits[0]) == 1;
      AccumulateOne(a.digits, One.digits);
    }
  }

  /** With "1" as `first`, the outer loop rebuilds `second` from its digit
      `j` on: each partial product is one digit followed by zeros, and
      adding it puts that digit in front of the digits so far. */
  lemma {:induction false} AccumulatedByOne(s: string, j: nat)
    requires AllDigits(s) && j < |s|
    ensures Accumulated("1", s, j) == Ok(BigInt(true, s[j..]))
    decreases |s| - j
  {
    var element := Element("1", s, j);
    RowOfOne(s[j]);
    assert element == [s[j]] + Zeros(|s| - 1 - j);
    var rest := s[j + 1..];
    assert s[j..] == [s[j]] + rest by {
      Unfold(s, j);
    }
    if j == |s| - 1 {
      AddRowStep(Zero, "1", s, j);
      PlusZero(BigInt(true, element));
    } else {
      AccumulatedByOne(s, j + 1);
      AddRowStep(BigInt(true, rest), "1", s, j);
      PlusPrependsDigit(s[j], rest);
    }
  }

  /** The suffix of `s` from `j` is `s[j]` followed by the suffix from `j + 1`. */
  lemma Unfold(s: string, j: nat)
    requires j < |s|
    ensures s[j..] == [s[j]] + s[j + 1..]
  {
  }

  /** Adding a digit followed by zeros to a shorter positive value puts the
      digit in front of it. */
  lemma PlusPrependsDigit(c: char, rest: string)
    requires IsDigit(c) && AllDigits(rest) && rest != []
    ensures Plus(BigInt(true, rest), BigInt(true, [c] + Zeros(|rest|))) == Ok(BigInt(true, [c] + rest))
  {
    var x, term := BigInt(true, rest), BigInt(true, [c] + Zeros(|rest|));
    if x == Zero {
      assert Zeros(1) == "0";
    } else {
      assert Greater(term, x);
      GreaterAsymmetric(term, x);
      AddMagnitudesOverZeros(c, rest);
      ParseOfAddition(term.digits, rest);
    }
  }

  /** `a + w == w + a`: the positive + positive branch orders the operands
      itself, and the other sign cases are symmetric. */
  lemma {:induction false} PlusCommutes(a: BigInt, w: BigInt)
    requires a.Valid() && w.Valid()
    ensures Plus(a, w) == Plus(w, a)
    decreases NegativeCount(a, w)
  {
    if w == Zero || a == Zero {
    } else if a.sign && w.sign {
      Trichotomy(a, w);
    } else if !a.sign && !w.sign {
      PlusCommutes(Abs(a), Abs(w));
    }
  }

  /** `a * w == w * a`: `operator*` takes the larger operand by `>` as
      `first` whichever way round they come. */
  lemma TimesCommutes(a: BigInt, w: BigInt)
    requires a.Valid() && w.Valid()
    ensures Times(a, w) == Times(w, a)
  {
    Trichotomy(a, w);
  }

  /** The outer loop of `operator*`. */
  method MultiplyDigits(first: string, second: string) returns (r: Result<BigInt>)
    requires AllDigits(first) && AllDigits(second)
    ensures r == Accumulated(first, second, 0)
  {
    var result := Zero;
    var j := |second|;
    while j > 0
      invariant 0 <= j <= |second|
      invariant Accumulated(first, second, j) == Ok(result)
    {
      j := j - 1;
      var next := AddPartialProduct(result, first, second, j);
      if next.Err? {
        assert next == Err(EmptyNumber) == Accumulated(first, second, 0);
        return next;
      }
      result := next.value;
    }
    r := Ok(result);
  }

  /** The body of the outer loop of `operator*`: the inner loop builds the
      row for digit `j` of `second`, zeros are appended, and the text goes
      through the constructor and `+=`. */
  method AddPartialProduct(result: BigInt, first: string, second: string, j: nat)
    returns (next: Result<BigInt>)
    requires AllDigits(first) && AllDigits(second) && j < |second|
    requires Accumulated(first, second, j + 1) == Ok(result)
    ensures next == Accumulated(first, second, j)
  {
    var element := RowDigits(first, Digit(second[j]));
    element := element + Zeros(|second| - 1 - j);
    assert element == Element(first, second, j);
    var term := Construct(element);
    if term.Err? {
      return term;
    }
    assert term.value == BigInt(true, element) by {
      ParseOfDigits(element);
    }
    next := Plus(result, term.value);
  }

  /** With a one-digit multiplier that is not the larger operand, `*`
      denotes the product exactly when the row has no carry out of its top
      column. */
  lemma TimesOneDigit(a: BigInt, w: BigInt)
    requires Canonical(a.digits) && Canonical(w.digits) && |w.digits| == 1
    requires a != Zero && w != Zero && !Greater(w, a)
    ensures Times(a, w).Ok?
    ensures Value(Times(a, w).value) == Value(a) * Value(w) <==>
      Nat(a.digits) * Nat(w.digits) < Pow10(|a.digits|)
  {
    TimesByRow(a, w);
    RowProduct(a, w);
  }

  /** With a one-digit multiplier that is not the larger operand, the
      product is the single row with the sign of the sign rule. */
  lemma TimesByRow(a: BigInt, w: BigInt)
    requires a.Valid() && w.Valid() && a.digits != [] && |w.digits| == 1
    requires a != Zero && w != Zero && !Greater(w, a)
    ensures Times(a, w) == Ok(BigInt(a.sign == w.sign, Row(a.digits, Digit(w.digits[0]))))
  {
    AccumulateOne(a.digits, w.digits);
  }

  /** The signed row is the signed product exactly when the row has no
      carry out of its top column. */
  lemma RowProduct(a: BigInt, w: BigInt)
    requires Canonical(a.digits) && Canonical(w.digits) && |w.digits| == 1
    ensures var r := BigInt(a.sign == w.sign, Row(a.digits, Digit(w.digits[0])));
      Value(r) == Value(a) * Value(w) <==> Nat(a.digits) * Nat(w.digits) < Pow10(|a.digits|)
  {
    var row := Row(a.digits, Digit(w.digits[0]));
    SignedProduct(a.sign, w.sign, Nat(a.digits), Nat(w.digits));
    RowMagnitude(a.digits, w.digits);
    SignedEqual(a.sign == w.sign, Nat(row), Nat(a.digits) * Nat(w.digits));
  }

  /** The unsigned row is the product exactly when no carry leaves its top column. */
  lemma RowMagnitude(f: string, g: string)
    requires AllDigits(f) && AllDigits(g) && |g| == 1
    ensures Nat(Row(f, Digit(g[0]))) == Nat(f) * Nat(g) <==> Nat(f) * Nat(g) < Pow10(|f|)
  {
    var d := Digit(g[0]);
    assert Nat(g) == d by {
      assert g[1..] == [];
    }
    var n := Nat(f) * d;
    assert Nat(f) * Nat(g) == n;
    assert n >= 0 by {
      MulAtMost(0, Nat(f), d);
    }
    RowDropsCarry(f, d);
    ModIsIdentityIffBelow(n, Pow10(|f|));
  }



  /** Equal signs: the signed values agree exactly when the magnitudes do. */
  lemma SignedEqual(positive: bool, m: nat, n: nat)
    ensures Signed(positive, m) == Signed(positive, n) <==> m == n
  {
  }


  /** A magnitude with a sign attached. */
  function Signed(positive: bool, m: nat): (v: int)
    ensures positive ==> v == m
    ensures !positive ==> v == -(m as int)
  {
    if positive then m else -(m as int)
  }

  /** One pass of the outer loop with a one-digit `second`: the row itself,
      since adding it to "0" gives it back. */
  lemma AccumulateOne(first: string, second: string)
    requires AllDigits(first) && AllDigits(second) && first != [] && |second| == 1
    ensures Accumulated(first, second, 0) == Ok(BigInt(true, Row(first, Digit(second[0]))))
  {
    var element := Element(first, second, 0);
    assert element == Row(first, Digit(second[0]));
    ParseOfDigits(element);
  }

  /** One pass of the outer loop of `operator*` from a successful `result`. */
  lemma AddRowStep(result: BigInt, first: string, second: string, i: nat)
    requires AllDigits(first) && AllDigits(second) && i < |second|
    requires result.Valid() && result.sign && Element(first, second, i) != []
    ensures Plus(result, BigInt(true, Element(first, second, i))).Ok?
    ensures AddRow(Ok(result), first, second, i) == Plus(result, BigInt(true, Element(first, second, i)))
  {
    ParseOfDigits(Element(first, second, i));
  }


  /** `x % m == x` for non-negative `x` exactly when `x < m`. */
  lemma ModIsIdentityIffBelow(x: nat, m: nat)
    requires m > 0
    ensures x % m == x <==> x < m
  {
    if x < m {
      ModOfDecomposition(x, x, 0, m);
    }
  }

  /** The sign rule for products of signed magnitudes. */
  lemma SignedProduct(sa: bool, sw: bool, x: nat, y: nat)
    ensures Signed(sa, x) * Signed(sw, y) == Signed(sa == sw, x * y)
  {
  }

  /** 5 * 5 is 5: the carry 2 out of the row is discarded. */
  lemma TimesLosesCarry()
    ensures Times(BigInt(true, "5"), BigInt(true, "5")) == Ok(BigInt(true, "5"))
    ensures Nat("5") * Nat("5") == 25
  {
    RowLosesCarry();
    assert Element("5", "5", 0) == "5";
    ParseOfDigits("5");
  }
}

/**
 * The `bigint` object of oop/bigint.c++ as the C++ code uses it: a sign and
 * a digit string that the mutators, the compound assignments and the
 * increment and decrement operators overwrite in place. An exception
 * thrown by the constructor on the way leaves the object as it was; here
 * it becomes a `Fail` outcome or an `Err` result.
 */
module MutableBigInts {
  import opened Outcomes
  import opened Digits
  import opened Columns
  import opened BigInts
  import opened Arithmetic

  class MutableBigInt {
    var sign: bool
    var numericString: string

    /** What the constructor establishes: the digit string holds only ASCII digits. */
    predicate Valid()
      reads this
    {
      AllDigits(numericString)
    }

    /** The object's current value, as `clone()` returns it. */
    function Snapshot(): BigInt
      reads this
    {
      BigInt(sign, numericString)
    }

    /** `bigint()`, which delegates to `bigint("0")`. */
    constructor ()
      ensures Valid() && Snapshot() == Zero
    {
      sign := true;
      numericString := "0";
    }

    /** The copy constructor, also behind `clone()` and the `bigint(string)`
        constructor once its validation has succeeded. */
    constructor Copy(x: BigInt)
      requires x.Valid()
      ensures Valid() && Snapshot() == x
    {
      sign := x.sign;
      numericString := x.digits;
    }

    /** `operator=`: both fields are copied. */
    method Assign(x: BigInt)
      requires x.Valid()
      modifies this
      ensures Valid() && Snapshot() == x
    {
      sign := x.sign;
      numericString := x.digits;
    }

    /** `set_value`: the text goes through the constructor, whose exception
        escapes before either field is written. */
    method SetValue(s: string) returns (o: Outcome)
      modifies this
      ensures Parse(s).Ok? ==> o == Pass && Valid() && Snapshot() == Parse(s).value
      ensures Parse(s).Err? ==> o == Fail(Parse(s).error) && Snapshot() == old(Snapshot())
    {
      var parsed := Construct(s);
      if parsed.Err? {
        return Fail(parsed.error);
      }
      numericString := parsed.value.digits;
      sign := parsed.value.sign;
      o := Pass;
    }

    /** `set_sign(bool)`. */
    method SetSign(newSign: bool)
      modifies this
      ensures sign == newSign && numericString == old(numericString)
    {
      sign := newSign;
    }

    /** `set_sign(char)`: '+' or '-', any other character is refused and the
        sign is left alone. */
    method SetSignChar(c: char) returns (o: Outcome)
      modifies this
      ensures IsUnaryOperator(c) ==> o == Pass && sign == (c == '+')
      ensures !IsUnaryOperator(c) ==> o == Fail(IllegalSign(c)) && sign == old(sign)
      ensures numericString == old(numericString)
    {
      if IsUnaryOperator(c) {
        sign := c == '+';
        o := Pass;
      } else {
        o := Fail(IllegalSign(c));
      }
    }

    /** `make_negative`: turns this object negative and returns a copy. */
    method MakeNegative() returns (copy: BigInt)
      modifies this
      ensures Snapshot() == BigInt(false, old(numericString)) && copy == Snapshot()
    {
      var o := SetSignChar('-');
      copy := Snapshot();
    }

    /** `make_positive`: turns this object positive and returns a copy. */
    method MakePositive() returns (copy: BigInt)
      modifies this
      ensures Snapshot() == Abs(old(Snapshot())) && copy == Snapshot()
    {
      var o := SetSignChar('+');
      copy := Snapshot();
    }

    /** `operator+=`: `*this = *this + what`. The sum is computed first, so
        when it throws the object keeps its value. */
    method AddAssign(what: BigInt) returns (o: Outcome)
      requires Valid() && what.Valid()
      modifies this
      ensures Valid()
      ensures Plus(old(Snapshot()), what).Ok? ==> o == Pass && Snapshot() == Plus(old(Snapshot()), what).value
      ensures Plus(old(Snapshot()), what).Err? ==>
        o == Fail(EmptyNumber) && Snapshot() == old(Snapshot())
    {
      var r := Plus(Snapshot(), what);
      if r.Err? {
        return Fail(r.error);
      }
      Assign(r.value);
      o := Pass;
    }

    /** `operator-=`: `*this = *this - what`. */
    method SubAssign(what: BigInt) returns (o: Outcome)
      requires Valid() && what.Valid()
      modifies this
      ensures Valid()
      ensures Minus(old(Snapshot()), what).Ok? ==> o == Pass && Snapshot() == Minus(old(Snapshot()), what).value
      ensures Minus(old(Snapshot()), what).Err? ==>
        o == Fail(EmptyNumber) && Snapshot() == old(Snapshot())
    {
      var r := Minus(Snapshot(), what);
      if r.Err? {
        return Fail(r.error);
      }
      Assign(r.value);
      o := Pass;
    }

    /** `operator*=`: `*this = *this * by`, with `by` named `factor`. */
    method MulAssign(factor: BigInt) returns (o: Outcome)
      requires Valid() && factor.Valid()
      modifies this
      ensures Valid()
      ensures Times(old(Snapshot()), factor).Ok? ==> o == Pass && Snapshot() == Times(old(Snapshot()), factor).value
      ensures Times(old(Snapshot()), factor).Err? ==>
        o == Fail(EmptyNumber) && Snapshot() == old(Snapshot())
    {
      var r := Times(Snapshot(), factor);
      if r.Err? {
        return Fail(r.error);
      }
      Assign(r.value);
      o := Pass;
    }

    /** Prefix `++`: `*this += 1`, then the object itself. The sum cannot
        throw, since `1` has digits. */
    method PreIncrement() returns (r: BigInt)
      requires Valid()
      modifies this
      ensures Valid() && Plus(old(Snapshot()), One).Ok?
      ensures Snapshot() == Plus(old(Snapshot()), One).value && r == Snapshot()
    {
      StepNeverFails(Snapshot());
      var o := AddAssign(One);
      r := Snapshot();
    }

    /** Postfix `++`: `*this += 1`, then the value from before. */
    method PostIncrement() returns (r: BigInt)
      requires Valid()
      modifies this
      ensures Valid() && Plus(old(Snapshot()), One).Ok?
      ensures Snapshot() == Plus(old(Snapshot()), One).value && r == old(Snapshot())
    {
      StepNeverFails(Snapshot());
      r := Snapshot();
      var o := AddAssign(One);
    }

    /** Prefix `--`: `*this -= 1`, then the object itself. */
    method PreDecrement() returns (r: BigInt)
      requires Valid()
      modifies this
      ensures Valid() && Minus(old(Snapshot()), One).Ok?
      ensures Snapshot() == Minus(old(Snapshot()), One).value && r == Snapshot()
    {
      StepNeverFails(Snapshot());
      var o := SubAssign(One);
      r := Snapshot();
    }

    /** Postfix `--`: `*this -= 1`, then the value from before. */
    method PostDecrement() returns (r: BigInt)
      requires Valid()
      modifies this
      ensures Valid() && Minus(old(Snapshot()), One).Ok?
      ensures Snapshot() == Minus(old(Snapshot()), One).value && r == old(Snapshot())
    {
      StepNeverFails(Snapshot());
      r := Snapshot();
      var o := SubAssign(One);
    }
  }

  // ----- What `++` and `--` compute -----

  /** `1` has digits, so `++` and `--` never fail. */
  lemma StepNeverFails(x: BigInt)
    requires x.Valid()
    ensures Plus(x, One).Ok? && Minus(x, One).Ok?
  {
  }

  /** `++` adds one whenever the column loop it reaches is exact: the carry
      loop on a positive value, the borrow loop on a negative one without
      leading zeros. */
  lemma IncrementIsSuccessor(x: BigInt)
    requires x.Valid()
    requires if x.sign then SumExact(x.digits, "1") else Canonical(x.digits) && DifferenceExact(x.digits, "1")
    ensures Plus(x, One).Ok? && Value(Plus(x, One).value) == Value(x) + 1
  {
    PlusDenotesSum(x, One);
  }

  /** `--` subtracts one from a positive value other than zero, without
      leading zeros, whenever its borrow loop is exact. */
  lemma DecrementIsPredecessor(x: BigInt)
    requires Canonical(x.digits) && DifferenceExact(x.digits, "1")
    requires x.sign && x.digits != "0"
    ensures Minus(x, One).Ok? && Value(Minus(x, One).value) == Value(x) - 1
  {
    MinusDenotesDifference(x, One);
  }

  /** `--` on zero gives one, and on a negative value it adds one to the
      magnitude and drops the sign: -3 becomes 4. */
  lemma DecrementQuirks()
    ensures Minus(Zero, One) == Ok(One)
    ensures Minus(BigInt(false, "3"), One) == Ok(BigInt(true, "4"))
  {
    var three := BigInt(true, "3");
    assert AddMagnitudes("3", "1") == "4" by {
      assert Pad("1", 1) == "1";
      assert NatToString(4) == "4";
    }
    assert Plus(three, One) == Ok(BigInt(true, "4")) by {
      ParseOfDigits("4");
    }
    assert Minus(BigInt(false, "3"), One) == Plus(One, three);
    assert Less(One, three);
  }


  /** `++` on 199 gives 1100. */
  lemma IncrementLosesCarry()
    ensures Plus(BigInt(true, "199"), One) == Ok(BigInt(true, "1100"))
  {
    PlusLosesCarry();
  }
}

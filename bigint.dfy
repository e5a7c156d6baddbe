/**
 * The sign-magnitude decimal integer of oop/bigint.c++ as a value: a sign
 * (true for '+') and the digit string exactly as it was parsed, leading
 * zeros included. Construction, rendering, the unary sign operations and
 * the comparison operators.
 */
module BigInts {
  import opened Outcomes
  import opened Digits

  datatype BigInt = BigInt(sign: bool, digits: string) {
    /** What the constructor guarantees of every bigint object. */
    predicate Valid() {
      AllDigits(digits)
    }
  }

  /** `bigint()` and `bigint(0)`. */
  const Zero := BigInt(true, "0")
  /** `bigint(1)`, the operand of `++` and `--`. */
  const One := BigInt(true, "1")

  /** The number a bigint denotes: its digits read in decimal, then signed. */
  ghost function Value(x: BigInt): int
    requires x.Valid()
  {
    if x.sign then Nat(x.digits) else -(Nat(x.digits) as int)
  }

  predicate IsUnaryOperator(c: char) {
    c == '+' || c == '-'
  }

  /** May character `i` of `s` stand in a big-integer literal? */
  predicate Allowed(s: string, i: nat)
    requires i < |s|
  {
    IsDigit(s[i]) || (i == 0 && IsUnaryOperator(s[i]))
  }

  /** The index at which the validation scan starting at `i` stops. */
  function FirstIllegal(s: string, i: nat): (k: nat)
    requires i <= |s|
    ensures i <= k <= |s|
    ensures forall j :: i <= j < k ==> Allowed(s, j)
    ensures k < |s| ==> !Allowed(s, k)
    decreases |s| - i
  {
    if i == |s| then i
    else if !Allowed(s, i) then i
    else FirstIllegal(s, i + 1)
  }

  /** `bigint(const std::string&)`: validate, then split off the sign. */
  function Parse(s: string): (r: Result<BigInt>)
    ensures r.Ok? <==> s != [] && forall i :: 0 <= i < |s| ==> Allowed(s, i)
    ensures s == [] ==> r == Err(EmptyNumber)
    ensures r.Err? && s != [] ==>
      exists i :: 0 <= i < |s| && !Allowed(s, i) && r.error == IllegalCharacter(s[i]) &&
        forall j :: 0 <= j < i ==> Allowed(s, j)
    ensures r.Ok? ==> r.value.Valid() && (r.value.sign <==> s[0] != '-')
    ensures r.Ok? ==> s == (if IsUnaryOperator(s[0]) then [s[0]] else []) + r.value.digits
  {
    if s == [] then Err(EmptyNumber)
    else
      var k := FirstIllegal(s, 0);
      if k < |s| then Err(IllegalCharacter(s[k]))
      else
        AcceptedDigits(s);
        Ok(BigInt(s[0] != '-' || s == "0", if IsUnaryOperator(s[0]) then s[1..] else s))
  }

  /** An accepted literal has digits after its optional sign. */
  lemma AcceptedDigits(s: string)
    requires s != [] && forall i :: 0 <= i < |s| ==> Allowed(s, i)
    ensures AllDigits(s[1..])
    ensures !IsUnaryOperator(s[0]) ==> AllDigits(s)
  {
    forall j | 0 <= j < |s| - 1 ensures IsDigit(s[1..][j]) {
      assert Allowed(s, j + 1);
    }
    forall j | 0 <= j < |s| && !IsUnaryOperator(s[0]) ensures IsDigit(s[j]) {
      assert Allowed(s, j);
    }
  }

  /** The constructor's validation loop, character by character. */
  method Construct(s: string) returns (r: Result<BigInt>)
    ensures r == Parse(s)
  {
    if |s| == 0 {
      return Err(EmptyNumber);
    }
    var index := 0;
    while index < |s|
      invariant 0 <= index <= |s|
      invariant forall j :: 0 <= j < index ==> Allowed(s, j)
      invariant FirstIllegal(s, index) == FirstIllegal(s, 0)
    {
      var character := s[index];
      if !(IsDigit(character) || (index == 0 && IsUnaryOperator(character))) {
        return Err(IllegalCharacter(character));
      }
      index := index + 1;
    }
    var sign := s[0] != '-' || s == "0";
    var digits := if IsUnaryOperator(s[0]) then s[1..] else s;
    r := Ok(BigInt(sign, digits));
  }

  /** `bigint(int)`: the constructor applied to `std::to_string`. */
  function FromInt(n: int): (r: Result<BigInt>)
    requires -0x8000_0000 <= n < 0x8000_0000
    ensures r.Ok? && Canonical(r.value.digits) && Value(r.value) == n
  {
    NatToStringDenotes(if n < 0 then -n else n);
    NatToStringCanonical(if n < 0 then -n else n);
    var s := IntToString(n);
    assert n < 0 ==> s[1..] == NatToString(-n);
    Parse(s)
  }

  /** `to_string()`: a '-' when negative, then the digits verbatim. */
  function ToString(x: BigInt): (s: string)
    ensures |s| == |x.digits| + (if x.sign then 0 else 1)
    ensures s[|s| - |x.digits|..] == x.digits
    ensures !x.sign <==> |s| > |x.digits| && s[0] == '-'
  {
    if x.sign then x.digits else "-" + x.digits
  }

  /** Rendering undoes parsing, except for an explicit '+'. */
  lemma ToStringOfParse(s: string)
    requires Parse(s).Ok? && s[0] != '+'
    ensures ToString(Parse(s).value) == s
  {
  }

  /** Parsing undoes rendering, except for a positive value with no digits,
      which renders as the empty string. */
  lemma ParseOfToString(x: BigInt)
    requires x.Valid()
    ensures Parse(ToString(x)) == Ok(x) <==> x.digits != [] || !x.sign
  {
    var s := ToString(x);
    if x.digits != [] || !x.sign {
      assert s != [];
      if x.sign {
        assert s == x.digits;
        assert forall i :: 0 <= i < |s| ==> Allowed(s, i);
      } else {
        assert s == "-" + x.digits;
        forall i | 0 <= i < |s| ensures Allowed(s, i) {
          if i > 0 {
            assert s[i] == x.digits[i - 1];
          }
        }
        assert s[1..] == x.digits;
      }
    }
  }

  /** `operator==`: the same sign and the same digit string. */
  function Equal(a: BigInt, b: BigInt): (r: bool)
    ensures r <==> a == b
  {
    a.digits == b.digits && a.sign == b.sign
  }

  /** `operator!=`. */
  function NotEqual(a: BigInt, b: BigInt): (r: bool)
    ensures r <==> a.sign != b.sign || a.digits != b.digits
  {
    !Equal(a, b)
  }

  /** The scan of `operator>` over two digit strings of one length. */
  function DigitsGreater(x: string, y: string): bool
    requires |x| == |y|
  {
    if x == [] then false
    else if x[0] != y[0] then x[0] > y[0]
    else DigitsGreater(x[1..], y[1..])
  }

  /** `operator>`: by sign, then by digit count, then digit by digit. */
  function Greater(a: BigInt, b: BigInt): bool {
    if a == b then false
    else if a.sign != b.sign then a.sign
    else if |a.digits| != |b.digits| then |a.digits| > |b.digits|
    else DigitsGreater(a.digits, b.digits)
  }

  lemma {:induction false} DigitsGreaterAsymmetric(x: string, y: string)
    requires |x| == |y|
    ensures DigitsGreater(x, y) ==> !DigitsGreater(y, x)
  {
    if x != [] && x[0] == y[0] {
      DigitsGreaterAsymmetric(x[1..], y[1..]);
    }
  }

  lemma {:induction false} DigitsGreaterTotal(x: string, y: string)
    requires |x| == |y| && x != y
    ensures DigitsGreater(x, y) || DigitsGreater(y, x)
  {
    if x[0] == y[0] {
      assert x == [x[0]] + x[1..] && y == [y[0]] + y[1..];
      DigitsGreaterTotal(x[1..], y[1..]);
    }
  }

  lemma {:induction false} DigitsGreaterTransitive(x: string, y: string, z: string)
    requires |x| == |y| == |z|
    requires DigitsGreater(x, y) && DigitsGreater(y, z)
    ensures DigitsGreater(x, z)
  {
    if x[0] == y[0] && y[0] == z[0] {
      DigitsGreaterTransitive(x[1..], y[1..], z[1..]);
    }
  }

  /** `>` never holds both ways. */
  lemma GreaterAsymmetric(a: BigInt, b: BigInt)
    ensures Greater(a, b) ==> !Greater(b, a)
  {
    if |a.digits| == |b.digits| {
      DigitsGreaterAsymmetric(a.digits, b.digits);
    }
  }

  /** `>` is transitive. */
  lemma GreaterTransitive(a: BigInt, b: BigInt, c: BigInt)
    requires Greater(a, b) && Greater(b, c)
    ensures Greater(a, c)
  {
    GreaterAsymmetric(a, b);
    if a.sign == b.sign == c.sign && |a.digits| == |b.digits| == |c.digits| {
      DigitsGreaterTransitive(a.digits, b.digits, c.digits);
      DigitsGreaterAsymmetric(a.digits, c.digits);
    }
  }

  /** Exactly one of `a < b`, `a == b`, `a > b`. */
  lemma Trichotomy(a: BigInt, b: BigInt)
    ensures Greater(a, b) || a == b || Greater(b, a)
    ensures !(Greater(a, b) && Greater(b, a))
    ensures a == b ==> !Greater(a, b)
  {
    GreaterAsymmetric(a, b);
    if a != b && a.sign == b.sign && |a.digits| == |b.digits| {
      DigitsGreaterTotal(a.digits, b.digits);
    }
  }

  /** `operator<`: neither greater nor equal, that is, the converse of `>`. */
  function Less(a: BigInt, b: BigInt): (r: bool)
    ensures r <==> Greater(b, a)
  {
    Trichotomy(a, b);
    !Greater(a, b) && NotEqual(a, b)
  }

  /** `operator>=`. */
  function GreaterOrEqual(a: BigInt, b: BigInt): (r: bool)
    ensures r <==> Greater(a, b) || a == b
  {
    Trichotomy(a, b);
    !Less(a, b)
  }

  /** `operator<=`. */
  function LessOrEqual(a: BigInt, b: BigInt): (r: bool)
    ensures r <==> Greater(b, a) || a == b
  {
    Trichotomy(a, b);
    !Greater(a, b)
  }

  /** On digit strings of one length the scan agrees with the numbers denoted. */
  lemma {:induction false} DigitsGreaterIsNumeric(x: string, y: string)
    requires |x| == |y| && AllDigits(x) && AllDigits(y)
    ensures DigitsGreater(x, y) <==> Nat(x) > Nat(y)
  {
    if x != [] {
      var p := Pow10(|x| - 1);
      NatBound(x[1..]);
      NatBound(y[1..]);
      if x[0] == y[0] {
        DigitsGreaterIsNumeric(x[1..], y[1..]);
      } else if x[0] > y[0] {
        LeadingDigitDecides(Digit(x[0]), Digit(y[0]), p, Nat(x[1..]), Nat(y[1..]));
      } else {
        LeadingDigitDecides(Digit(y[0]), Digit(x[0]), p, Nat(y[1..]), Nat(x[1..]));
      }
    }
  }

  lemma LeadingDigitDecides(dx: nat, dy: nat, p: nat, mx: nat, my: nat)
    requires dx > dy && mx < p && my < p
    ensures dx * p + mx > dy * p + my
  {
    var k := dx - dy;
    assert dx * p == dy * p + k * p;
    MulMonotonic(k, p);
  }

  /** For non-negative values written without leading zeros, `>` is the
      numeric order. */
  lemma GreaterIsNumeric(a: BigInt, b: BigInt)
    requires a.sign && b.sign && Canonical(a.digits) && Canonical(b.digits)
    ensures Greater(a, b) <==> Value(a) > Value(b)
  {
    var x, y := a.digits, b.digits;
    NatBound(x);
    NatBound(y);
    if |x| > |y| {
      NatLowerBound(x);
      Pow10Monotonic(|y|, |x| - 1);
    } else if |x| < |y| {
      NatLowerBound(y);
      Pow10Monotonic(|x|, |y| - 1);
    } else {
      DigitsGreaterIsNumeric(x, y);
    }
  }

  /** `>` does not invert for negatives: -999 > -1. */
  lemma NegativeOrderNotInverted()
    ensures Greater(BigInt(false, "999"), BigInt(false, "1"))
    ensures Value(BigInt(false, "999")) < Value(BigInt(false, "1"))
  {
  }

  /** Leading zeros break the digit-count shortcut: "007" > "9". */
  lemma LeadingZerosBreakOrder()
    ensures Greater(BigInt(true, "007"), BigInt(true, "9"))
    ensures Value(BigInt(true, "007")) < Value(BigInt(true, "9"))
  {
  }

  /** `==` is structural: equal numbers with different digits or a signed
      zero compare unequal. */
  lemma EqualityIsStructural()
    ensures !Equal(BigInt(true, "007"), BigInt(true, "7"))
    ensures Value(BigInt(true, "007")) == Value(BigInt(true, "7"))
    ensures !Equal(BigInt(false, "0"), Zero) && Value(BigInt(false, "0")) == Value(Zero)
  {
  }

  /** `operator-()`: a copy with the sign flipped and the digits kept. */
  function Negate(a: BigInt): (r: BigInt)
    ensures r.digits == a.digits && r.sign != a.sign
  {
    if a.sign then BigInt(false, a.digits) else BigInt(true, a.digits)
  }

  /** Negation is an involution and negates the value, but it turns "0" into
      "-0", which is not `==` to zero. */
  lemma NegateProperties(a: BigInt)
    requires a.Valid()
    ensures Negate(Negate(a)) == a
    ensures Value(Negate(a)) == -Value(a)
    ensures Negate(Zero) == BigInt(false, "0") != Zero
  {
  }

  /** `clone().make_positive()`: the magnitude as a non-negative bigint. */
  function Abs(a: BigInt): (r: BigInt)
    ensures r.sign && r.digits == a.digits
  {
    BigInt(true, a.digits)
  }

  /** Corner cases of parsing: "-0" is negative zero, a lone sign has no
      digits, and the validation rejects surrounding whitespace. */
  lemma ParseCornerCases()
    ensures Parse("-0") == Ok(BigInt(false, "0"))
    ensures Parse("+") == Ok(BigInt(true, "")) && Parse("-") == Ok(BigInt(false, ""))
    ensures Parse(" 12") == Err(IllegalCharacter(' '))
    ensures Parse("12\n") == Err(IllegalCharacter('\n'))
    ensures Parse("-a") == Err(IllegalCharacter('a'))
    ensures Parse("1-") == Err(IllegalCharacter('-'))
  {
  }
}

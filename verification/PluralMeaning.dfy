/**
  What the operators and the numbers of a plural formula mean in C, said
  without the functors of the compiler: `unsigned long` has 64 bits.
 */
module PluralMeaning {
  import opened PluralForm

  // ---------------------------------------------------------------------------
  // Operators
  // ---------------------------------------------------------------------------

  /** A truth value is 1 or 0. */
  predicate Truth(r: Num, b: bool) {
    if b then r == 1 else r == 0
  }

  /** `r` is `x` but for a multiple of two to the 64th. */
  ghost predicate Wraps(r: Num, x: int) {
    exists q: int :: x == q * 0x1_0000_0000_0000_0000 + r
  }

  /** `a` divided by `b` is `q`, and `r` is left. */
  predicate Divides(a: nat, b: nat, q: nat, r: nat) {
    a == q * b + r && r < b
  }

  /** `r` is the value of the operator for `a` and `b`; dividing by zero gives zero. */
  ghost predicate Means(op: Op, a: Num, b: Num, r: Num) {
    match op
    case Mul => Wraps(r, a * b)
    case Div => if b == 0 then r == 0 else exists rest: nat :: Divides(a, b, r, rest)
    case Mod => if b == 0 then r == 0 else exists q: nat :: Divides(a, b, q, r)
    case Add => Wraps(r, a + b)
    case Sub => Wraps(r, a - b)
    case Le => Truth(r, a <= b)
    case Ge => Truth(r, b <= a)
    case Lt => Truth(r, a < b)
    case Gt => Truth(r, b < a)
    case Eq => Truth(r, a == b)
    case Ne => Truth(r, a != b)
    case And => Truth(r, a != 0 && b != 0)
    case Or => Truth(r, a != 0 || b != 0)
  }

  lemma WrapsOnce(r: Num, s: Num, x: int)
    requires Wraps(r, x) && Wraps(s, x)
    ensures r == s
  {
    var p: int :| x == p * 0x1_0000_0000_0000_0000 + r;
    var q: int :| x == q * 0x1_0000_0000_0000_0000 + s;
  }

  lemma DividesOnce(a: nat, b: nat, p: nat, r: nat, q: nat, s: nat)
    requires Divides(a, b, p, r) && Divides(a, b, q, s)
    ensures p == q && r == s
  {
    if p < q {
      Multiples(p, q, b);
    } else if q < p {
      Multiples(q, p, b);
    }
  }

  lemma {:induction false} Multiples(p: nat, q: nat, b: nat)
    requires p < q
    ensures q * b >= p * b + b
    decreases q
  {
    assert q * b == (q - 1) * b + b;
    if p < q - 1 {
      Multiples(p, q - 1, b);
    }
  }

  /** There is only one value. */
  lemma MeansOnce(op: Op, a: Num, b: Num, r: Num, s: Num)
    requires Means(op, a, b, r) && Means(op, a, b, s)
    ensures r == s
  {
    match op
    case Mul => WrapsOnce(r, s, a * b);
    case Add => WrapsOnce(r, s, a + b);
    case Sub => WrapsOnce(r, s, a - b);
    case Div =>
      if b != 0 {
        var x: nat :| Divides(a, b, r, x);
        var y: nat :| Divides(a, b, s, y);
        DividesOnce(a, b, r, x, s, y);
      }
    case Mod =>
      if b != 0 {
        var p: nat :| Divides(a, b, p, r);
        var q: nat :| Divides(a, b, q, s);
        DividesOnce(a, b, p, r, q, s);
      }
    case _ =>
  }

  lemma WrapsModulus(x: int)
    ensures Wraps(x % MODULUS, x)
  {
    assert x == (x / MODULUS) * 0x1_0000_0000_0000_0000 + x % MODULUS;
  }

  lemma DividesRest(a: nat, b: nat)
    requires b > 0
    ensures Divides(a, b, a / b, a % b)
  {
  }

  lemma DivisionMeans(a: Num, b: Num)
    ensures Means(Div, a, b, Apply(Div, a, b)) && Means(Mod, a, b, Apply(Mod, a, b))
  {
    if b != 0 {
      DividesRest(a, b);
    }
  }

  lemma ProductMeans(a: Num, b: Num)
    ensures Means(Mul, a, b, Apply(Mul, a, b))
  {
    WrapsModulus(a * b);
  }

  lemma SumMeans(a: Num, b: Num)
    ensures Means(Add, a, b, Apply(Add, a, b)) && Means(Sub, a, b, Apply(Sub, a, b))
  {
    WrapsModulus(a + b);
    WrapsModulus(a - b);
  }

  /** The functor of every operator computes its meaning. */
  lemma ApplyMeans(op: Op, a: Num, b: Num)
    ensures Means(op, a, b, Apply(op, a, b))
  {
    match op
    case Mul => ProductMeans(a, b);
    case Add => SumMeans(a, b);
    case Sub => SumMeans(a, b);
    case Div => DivisionMeans(a, b);
    case Mod => DivisionMeans(a, b);
    case Le =>
    case Ge =>
    case Lt =>
    case Gt =>
    case Eq =>
    case Ne =>
    case And =>
    case Or =>
  }

  ghost function Value(op: Op, a: Num, b: Num): (r: Num)
    ensures Means(op, a, b, r)
  {
    ApplyMeans(op, a, b);
    var r: Num :| Means(op, a, b, r);
    r
  }

  lemma ApplyIsValue(op: Op, a: Num, b: Num)
    ensures Apply(op, a, b) == Value(op, a, b)
  {
    ApplyMeans(op, a, b);
    MeansOnce(op, a, b, Apply(op, a, b), Value(op, a, b));
  }

  // ---------------------------------------------------------------------------
  // Numbers
  // ---------------------------------------------------------------------------

  function Pow10(k: nat): nat {
    if k == 0 then 1 else 10 * Pow10(k - 1)
  }

  predicate AllDigits(s: string) {
    forall i :: 0 <= i < |s| ==> '0' <= s[i] <= '9'
  }

  /** Every digit counts as many times as its place says. */
  function PlaceValue(digits: string): nat
    requires AllDigits(digits)
  {
    if digits == "" then 0
    else (digits[0] as int - '0' as int) * Pow10(|digits| - 1) + PlaceValue(digits[1..])
  }

  lemma {:induction false} PlaceValueSnoc(digits: string, last: char)
    requires AllDigits(digits) && '0' <= last <= '9'
    ensures AllDigits(digits + [last])
    ensures PlaceValue(digits + [last]) == 10 * PlaceValue(digits) + (last as int - '0' as int)
  {
    var all := digits + [last];
    if digits == "" {
      assert all == [last] && all[1..] == "";
    } else {
      PlaceValueSnoc(digits[1..], last);
      assert all[1..] == digits[1..] + [last];
      TenTimes(digits[0] as int - '0' as int, Pow10(|digits| - 1));
    }
  }

  lemma TenTimes(d: nat, p: nat)
    ensures d * (10 * p) == 10 * (d * p)
  {
  }

  lemma {:induction false} DecimalIsPlaceValue(digits: string)
    requires AllDigits(digits)
    ensures Decimal(digits) == PlaceValue(digits)
  {
    if digits != "" {
      var n := |digits| - 1;
      DecimalIsPlaceValue(digits[..n]);
      PlaceValueSnoc(digits[..n], digits[n]);
      assert digits == digits[..n] + [digits[n]];
    }
  }

  /** The value of a number; one too large for the type is the largest. */
  function NumberValue(digits: string): Num
    requires AllDigits(digits)
  {
    var v := PlaceValue(digits);
    if v > 18446744073709551615 then 18446744073709551615 else v
  }

  lemma SaturateIsValue(digits: string)
    requires AllDigits(digits)
    ensures Saturate(Decimal(digits)) == NumberValue(digits)
  {
    DecimalIsPlaceValue(digits);
  }

  lemma {:induction false} DigitsEndAt(number: string, n: nat)
    requires n <= |number| && AllDigits(number[..n]) && (n < |number| ==> !('0' <= number[n] <= '9'))
    ensures DigitCount(number) == n
  {
    assert forall i :: 0 <= i < n ==> number[..n][i] == number[i];
  }

  lemma SignIsNoSpace(c: char)
    requires c == '+' || c == '-' || '0' <= c <= '9'
    ensures !IsSpace(c)
  {
  }

  lemma ReadsNumber(s: string, number: string, signed: bool, n: nat, value: Num)
    requires s != [] && !IsSpace(s[0]) && signed == (s[0] == '-' || s[0] == '+')
    requires number == (if signed then s[1..] else s) && DigitCount(number) == n > 0
    requires var v := Decimal(number[..n]); value == if s[0] == '-' && 0 < v < MODULUS then MODULUS - v else Saturate(v)
    ensures Strtoul(s) == (value, (if signed then 1 else 0) + n)
  {
  }

  predicate IsSign(sign: string) {
    sign == [] || sign == ['+'] || sign == ['-']
  }

  lemma BehindSign(sign: string, number: string, s: string)
    requires IsSign(sign) && s == sign + number
    requires number != [] && '0' <= number[0] <= '9'
    ensures s != [] && !IsSpace(s[0]) && (s[0] == '-' <==> sign == ['-'])
    ensures sign != [] <==> s[0] == '-' || s[0] == '+'
    ensures number == if sign != [] then s[1..] else s
  {
    if sign == [] {
      assert s == number;
    } else {
      assert s[0] == sign[0] && s[1..] == number;
    }
    SignIsNoSpace(s[0]);
  }

  lemma DigitsInFront(digits: string, rest: string, number: string)
    requires digits != [] && AllDigits(digits) && (rest != [] ==> !('0' <= rest[0] <= '9')) && number == digits + rest
    ensures |digits| <= |number| && number[..|digits|] == digits && '0' <= number[0] <= '9'
    ensures DigitCount(number) == |digits|
  {
    assert number[..|digits|] == digits && number[0] == digits[0];
    assert rest != [] ==> number[|digits|] == rest[0];
    DigitsEndAt(number, |digits|);
  }

  function SignedValue(sign: string, digits: string): Num
    requires AllDigits(digits)
  {
    var v := PlaceValue(digits);
    if sign == ['-'] && 0 < v <= 18446744073709551615 then 18446744073709551616 - v else NumberValue(digits)
  }

  lemma SignedValueIs(sign: string, digits: string, v: nat, value: Num)
    requires AllDigits(digits) && v == Decimal(digits) && value == SignedValue(sign, digits)
    ensures value == if sign == ['-'] && 0 < v < MODULUS then MODULUS - v else Saturate(v)
  {
    DecimalIsPlaceValue(digits);
    SaturateIsValue(digits);
  }

  /**
    The conversion of the C library takes a sign: a minus wraps the number
    around, unless it is too large, and then, sign or no sign, it is the largest.
   */
  lemma SignedNumeral(sign: string, digits: string, rest: string, s: string, value: Num)
    requires IsSign(sign) && s == sign + (digits + rest)
    requires digits != [] && AllDigits(digits) && (rest != [] ==> !('0' <= rest[0] <= '9'))
    requires value == SignedValue(sign, digits)
    ensures Strtoul(s) == (value, |sign| + |digits|)
  {
    var number := digits + rest;
    DigitsInFront(digits, rest, number);
    BehindSign(sign, number, s);
    SignedValueIs(sign, digits, Decimal(digits), value);
    ReadsNumber(s, number, sign != [], |digits|, value);
  }

  /** Without a digit there is no number, and nothing is read. */
  lemma NoNumeral(sign: string, rest: string)
    requires IsSign(sign)
    requires rest != [] ==> !('0' <= rest[0] <= '9')
    requires sign == [] && rest != [] ==> !IsSpace(rest[0]) && rest[0] != '+' && rest[0] != '-'
    ensures Strtoul(sign + rest) == (0, 0)
  {
    var s := sign + rest;
    assert s[|sign|..] == rest;
    if sign != [] {
      assert s[0] == sign[0];
      SignIsNoSpace(s[0]);
    } else {
      assert s == rest;
    }
    DigitsEndAt(rest, 0);
  }
}

/**
 * Rational: a numerator and a denominator, both BigIntegers.  The
 * two-argument constructor moves the sign onto the numerator, makes the
 * denominator non-negative and then runs shift(), which divides both by
 * their greatest common divisor found by Euclid's algorithm on remainders.
 * Every arithmetic operator builds its result through that constructor.
 */
module Rationals {
  import opened Limbs
  import opened Decimal
  import opened BigInt
  import opened BigIntText
  import opened BigIntArith

  datatype Rational = Rational(numerator: BigInteger, denominator: BigInteger)

  /** The magnitude of a BigInteger, as a natural number. */
  function Magnitude(b: BigInteger): nat
  {
    Nat(b.digits)
  }

  /** Both parts well-formed, not necessarily trimmed: Rational(const
      BigInteger&) keeps a numerator parsed from text with leading zeros
      as it is, and every operator accepts it. */
  predicate Parts(q: Rational)
  {
    WellFormed(q.numerator) && WellFormed(q.denominator)
  }

  /** Both parts trimmed: what the constructor and the operators produce. */
  predicate Trim(q: Rational)
  {
    Canonical(q.numerator) && Canonical(q.denominator)
  }

  /** A rational whose parts mean what they say: a positive denominator, and
      a numerator whose sign flag is set exactly when it is negative.  The
      constructor leaves this for a non-zero denominator. */
  predicate Proper(q: Rational)
  {
    Parts(q) && !q.denominator.negative && Value(q.denominator) > 0
    && (q.numerator.negative <==> Value(q.numerator) < 0)
  }

  // ---------------------------------------------------------------------
  // Euclid's algorithm

  /** Euclid's algorithm by remainders, the way Rational::shift runs it:
      replace the larger of the two by its remainder modulo the smaller
      until one of them is zero; the other is the answer. */
  function Gcd(x: nat, y: nat): nat
    decreases x + y
  {
    if x == 0 then y
    else if y == 0 then x
    else if x > y then Gcd(x % y, y)
    else Gcd(x, y % x)
  }

  /** d divides x. */
  predicate Divides(d: int, x: int)
  {
    d > 0 && x % d == 0
  }

  lemma ModMultiple(g: int, t: int)
    requires g > 0
    ensures (g * t) % g == 0
  {
    DivUnique(g * t, g, t, 0);
  }

  /** A multiple of g plus a multiple of g is a multiple of g. */
  lemma ModCombine(y: int, q: int, m: int, g: int)
    requires g > 0 && y % g == 0 && m % g == 0
    ensures (y * q + m) % g == 0
  {
    var a, b := y / g, m / g;
    assert y == g * a;
    assert m == g * b;
    assert y * q + m == g * (a * q + b);
    ModMultiple(g, a * q + b);
  }

  /** The remainder of x modulo y, written as a combination of x and y. */
  lemma RemainderForm(x: int, y: int)
    requires y > 0
    ensures x % y == y * (-(x / y)) + x
  {
  }

  /** Euclid's answer is zero only for two zeros, and divides both. */
  lemma {:induction false} GcdDivides(x: nat, y: nat)
    ensures Gcd(x, y) == 0 <==> x == 0 && y == 0
    ensures Gcd(x, y) > 0 ==> Divides(Gcd(x, y), x) && Divides(Gcd(x, y), y)
    decreases x + y
  {
    var g := Gcd(x, y);
    if x == 0 {
      if g > 0 {
        assert y % g == 0 by { ModMultiple(g, 1); }
      }
    } else if y == 0 {
      if g > 0 {
        assert x % g == 0 by { ModMultiple(g, 1); }
      }
    } else if x > y {
      GcdDivides(x % y, y);
      RemainderForm(x, y);
      ModCombine(y, x / y, x % y, g);
      assert x == y * (x / y) + x % y;
    } else {
      GcdDivides(x, y % x);
      RemainderForm(y, x);
      ModCombine(x, y / x, y % x, g);
      assert y == x * (y / x) + y % x;
    }
  }

  /** Every common divisor of x and y divides Euclid's answer. */
  lemma {:induction false} GcdGreatest(x: nat, y: nat, d: int)
    requires Divides(d, x) && Divides(d, y)
    ensures Gcd(x, y) % d == 0
    decreases x + y
  {
    if x != 0 && y != 0 {
      if x > y {
        RemainderForm(x, y);
        ModCombine(y, -(x / y), x, d);
        GcdGreatest(x % y, y, d);
      } else {
        RemainderForm(y, x);
        ModCombine(x, -(y / x), y, d);
        GcdGreatest(x, y % x, d);
      }
    }
  }

  /** A positive multiple of d is at least d. */
  lemma DividesBound(d: int, x: int)
    requires Divides(d, x) && x > 0
    ensures d <= x
  {
    var k := x / d;
    assert x == d * k;
    assert k >= 1;
    MulMono(1, k, d);
  }

  /** x is d times its quotient by d when d divides it. */
  lemma DivExact(d: int, x: int)
    requires Divides(d, x)
    ensures x == d * (x / d)
  {
  }

  /** A number g * (h * k) is a multiple of g * h. */
  lemma FactorOut(x: int, g: int, h: int, k: int)
    requires g > 0 && h > 0 && x == g * (h * k)
    ensures Divides(g * h, x)
  {
    assert x == (g * h) * k;
    ModMultiple(g * h, k);
  }

  /** The only h with g * h dividing g is 1. */
  lemma UnitFactor(g: int, h: int)
    requires g > 0 && h > 0 && Divides(g * h, g)
    ensures h == 1
  {
    DividesBound(g * h, g);
  }

  /** A positive multiple of a positive number has a positive quotient. */
  lemma QuotientPositive(y: int, g: int, b: int)
    requires g > 0 && y > 0 && y == g * b
    ensures b > 0
  {
    if b <= 0 {
      MulMono(b, 0, g);
    }
  }

  /** Dividing by Euclid's answer leaves two numbers whose answer is 1. */
  lemma GcdReduced(x: nat, y: nat, g: nat, a: nat, b: nat)
    requires x > 0 || y > 0
    requires g == Gcd(x, y) && x == g * a && y == g * b
    ensures Gcd(a, b) == 1
  {
    GcdDivides(x, y);
    if y == 0 {
      assert g == x;
      assert a == 1 && b == 0 by {
        MulCancel(a, 1, g);
        MulCancel(b, 0, g);
      }
      return;
    }
    QuotientPositive(y, g, b);
    GcdDivides(a, b);
    var h := Gcd(a, b);
    DivExact(h, a);
    DivExact(h, b);
    FactorOut(x, g, h, a / h);
    FactorOut(y, g, h, b / h);
    GcdGreatest(x, y, g * h);
    UnitFactor(g, h);
  }

  /** Scaling both operands scales the remainder. */
  lemma ModScale(x: nat, y: nat, k: nat)
    requires y > 0 && k > 0
    ensures (x * k) % (y * k) == (x % y) * k
  {
    var q, m := x / y, x % y;
    assert x * k == (y * k) * q + m * k;
    MulMono(m + 1, y, k);
    DivUnique(x * k, y * k, q, m * k);
  }

  /** Scaling both operands scales Euclid's answer. */
  lemma {:induction false} GcdScale(x: nat, y: nat, k: nat)
    requires k > 0
    ensures Gcd(x * k, y * k) == Gcd(x, y) * k
    decreases x + y
  {
    if x != 0 && y != 0 {
      var X: nat, Y: nat := x * k, y * k;
      ScaleOrder(x, y, k);
      if x > y {
        ModScale(x, y, k);
        assert Gcd(X, Y) == Gcd(X % Y, Y);
        GcdScale(x % y, y, k);
      } else {
        ModScale(y, x, k);
        assert Gcd(X, Y) == Gcd(X, Y % X);
        GcdScale(x, y % x, k);
      }
    }
  }

  /** Scaling by a positive k keeps non-zero operands non-zero and keeps
      their order. */
  lemma ScaleOrder(x: nat, y: nat, k: nat)
    requires x > 0 && y > 0 && k > 0
    ensures x * k > 0 && y * k > 0 && (x * k > y * k <==> x > y)
  {
    MulMono(1, x, k);
    MulMono(1, y, k);
    if x > y {
      MulMono(y + 1, x, k);
    } else {
      MulMono(x, y, k);
    }
  }

  /** Dividing exactly, toward zero, and multiplying back gives x again. */
  lemma ExactDiv(x: int, g: int)
    requires g > 0 && (if x < 0 then -x else x) % g == 0
    ensures TruncDiv(x, g) * g == x
  {
    var ax: int := if x < 0 then -x else x;
    assert ax == g * (ax / g);
  }

  lemma MulCancel(a: int, b: int, g: int)
    requires g != 0 && a * g == b * g
    ensures a == b
  {
    var m: nat := if g > 0 then g else -g;
    assert a * m == b * m by {
      if g < 0 {
        assert a * m == -(a * g) && b * m == -(b * g);
      }
    }
    MulStrict(a, b, m);
    MulStrict(b, a, m);
  }

  /** A larger factor gives a larger product with a positive one. */
  lemma MulStrict(a: int, b: int, m: nat)
    ensures a < b && m > 0 ==> a * m < b * m
  {
    if a < b && m > 0 {
      MulMono(a + 1, b, m);
    }
  }

  /** A trimmed, non-negative BigInteger of value 1 is BigInteger(1). */
  lemma CanonicalOne(b: BigInteger)
    requires Canonical(b) && !b.negative && Nat(b.digits) == 1
    ensures b == One
  {
    if |b.digits| > 1 {
      NatLowerBound(b.digits);
    } else {
      NatLast(b.digits);
    }
  }

  /** What operator/ gives when the divisor g is positive and divides a:
      the exact quotient, with the sign of a, and "-0" turned into 0. */
  lemma ExactQuotient(a: BigInteger, g: BigInteger, r: BigInteger)
    requires Canonical(a) && Canonical(g) && !g.negative && Nat(g.digits) > 0
    requires Nat(a.digits) % Nat(g.digits) == 0
    requires Canonical(r)
    requires !ToBool(a) || MagLess(a.digits, g.digits) ==> r == Zero
    requires r.negative <==> ToBool(a) && !MagLess(a.digits, g.digits) && a.negative
    requires !MagLess(a.digits, g.digits) ==> Nat(r.digits) == Nat(a.digits) / Nat(g.digits)
    requires Value(r) == TruncDiv(Value(a), Value(g))
    ensures Value(r) * Nat(g.digits) == Value(a)
    ensures Nat(r.digits) == Nat(a.digits) / Nat(g.digits)
    ensures r.negative <==> Value(a) < 0
  {
    var G := Nat(g.digits);
    MagLessValue(a.digits, g.digits);
    CanonicalZero(a);
    NatSingle(0);
    if Nat(a.digits) > 0 {
      DividesBound(G, Nat(a.digits));
    }
    ExactDiv(Value(a), G);
  }

  // ---------------------------------------------------------------------
  // Construction

  /** The loop of Rational::shift on two non-negative magnitudes: while
      both are non-zero, the larger becomes its remainder modulo the
      smaller; x + y is then the greatest common divisor. */
  method CommonDivisor(x0: BigInteger, y0: BigInteger) returns (g: BigInteger)
    requires Canonical(x0) && Canonical(y0) && !x0.negative && !y0.negative
    ensures Canonical(g) && !g.negative
    ensures Nat(g.digits) == Gcd(Nat(x0.digits), Nat(y0.digits))
  {
    var x, y := x0, y0;
    NatSingle(0);
    var xLive := BigInt.NotEqual(x, Zero);
    var yLive := BigInt.NotEqual(y, Zero);
    while xLive && yLive
      invariant Canonical(x) && Canonical(y) && !x.negative && !y.negative
      invariant Gcd(Nat(x.digits), Nat(y.digits)) == Gcd(Nat(x0.digits), Nat(y0.digits))
      invariant xLive <==> Nat(x.digits) != 0
      invariant yLive <==> Nat(y.digits) != 0
      decreases Nat(x.digits) + Nat(y.digits)
    {
      var bigger := BigInt.Greater(x, y);
      if bigger {
        x := BigIntArith.Mod(x, y);
      } else {
        y := BigIntArith.Mod(y, x);
      }
      xLive := BigInt.NotEqual(x, Zero);
      yLive := BigInt.NotEqual(y, Zero);
    }
    g := BigIntArith.Add(x, y);
  }

  /** Rational::shift: the magnitudes of both parts, their greatest common
      divisor by CommonDivisor, then both parts divided by it.  Both parts
      keep their sign; two zeros stay zero. */
  method Shift(q: Rational) returns (r: Rational)
    requires Trim(q)
    ensures Trim(r)
    ensures var g := Gcd(Magnitude(q.numerator), Magnitude(q.denominator));
            g > 0 ==> Value(r.numerator) * g == Value(q.numerator)
                      && Value(r.denominator) * g == Value(q.denominator)
                      && Gcd(Magnitude(r.numerator), Magnitude(r.denominator)) == 1
    ensures Gcd(Magnitude(q.numerator), Magnitude(q.denominator)) == 0 ==> r == Rational(Zero, Zero)
    ensures r.numerator.negative <==> Value(q.numerator) < 0
    ensures r.denominator.negative <==> Value(q.denominator) < 0
  {
    ghost var g0 := Gcd(Magnitude(q.numerator), Magnitude(q.denominator));
    var numNonNeg := BigInt.GreaterEq(q.numerator, Zero);
    var x := if numNonNeg then q.numerator else BigInt.Negate(q.numerator);
    var denNonNeg := BigInt.GreaterEq(q.denominator, Zero);
    var y := if denNonNeg then q.denominator else BigInt.Negate(q.denominator);
    var g := CommonDivisor(x, y);
    var num := BigIntArith.Div(q.numerator, g);
    var den := BigIntArith.Div(q.denominator, g);
    r := Rational(num, den);
    GcdDivides(Magnitude(q.numerator), Magnitude(q.denominator));
    if g0 > 0 {
      ExactQuotient(q.numerator, g, num);
      ExactQuotient(q.denominator, g, den);
      DivExact(g0, Magnitude(q.numerator));
      DivExact(g0, Magnitude(q.denominator));
      GcdReduced(Magnitude(q.numerator), Magnitude(q.denominator), g0,
                 Magnitude(num), Magnitude(den));
    } else {
      NatSingle(0);
    }
  }

  /** The sign of an integer, as -1, 0 or 1. */
  function Sign(x: int): int
  {
    if x > 0 then 1 else if x < 0 then -1 else 0
  }

  /** Dividing n1/d1, which is N/D or (-N)/(-D), by a common g keeps the
      ratio N/D. */
  lemma CrossRatio(a: int, b: int, n1: int, d1: int, g: int, N: int, D: int)
    requires g > 0 && a * g == n1 && b * g == d1
    requires (n1 == N && d1 == D) || (n1 == -N && d1 == -D)
    ensures a * D == N * b
  {
    assert (a * D) * g == n1 * D by { MulAssoc(D, a, g); }
    assert (N * b) * g == N * d1 by { MulAssoc(N, b, g); }
    assert n1 * D == N * d1;
    MulCancel(a * D, N * b, g);
  }

  /** Dividing n1 by its own magnitude leaves its sign. */
  lemma UnitQuotient(a: int, n1: int, g: int)
    requires g > 0 && a * g == n1 && g == (if n1 < 0 then -n1 else n1)
    ensures a == Sign(n1)
  {
    if n1 > 0 {
      MulCancel(a, 1, g);
    } else {
      MulCancel(a, -1, g);
    }
  }

  /** A quotient by a positive g has the sign of the dividend. */
  lemma SignOfQuotient(a: int, n: int, g: int)
    requires g > 0 && a * g == n
    ensures Sign(a) == Sign(n)
  {
    if a > 0 {
      MulMono(1, a, g);
    } else if a < 0 {
      MulMono(a, -1, g);
    }
  }

  /** Rational(num, denom): the numerator's sign is flipped when the
      denominator is negative (by operator<, so also for a "-0"
      denominator), the denominator replaced by its magnitude, then
      shift().  For a non-zero denominator the result is the same ratio in
      lowest terms with a positive denominator, and zero is 0/1; a zero
      denominator leaves the sign of num (flipped for "-0") over 0. */
  method Make(num: BigInteger, denom: BigInteger) returns (r: Rational)
    requires Canonical(num) && Canonical(denom)
    ensures Trim(r) && !r.denominator.negative
    ensures r.numerator.negative <==> Value(r.numerator) < 0
    ensures Value(r.numerator) * Value(denom) == Value(num) * Value(r.denominator)
    ensures Value(denom) != 0 ==> Proper(r)
    ensures Value(denom) != 0 ==> Gcd(Magnitude(r.numerator), Magnitude(r.denominator)) == 1
    ensures Value(num) == 0 && Value(denom) != 0 ==> r == Rational(Zero, One)
    ensures Value(denom) == 0 ==>
              Value(r.denominator) == 0
              && Value(r.numerator) == if denom.negative then -Sign(Value(num)) else Sign(Value(num))
  {
    var numPos := BigInt.Greater(num, Zero);
    var denNeg := BigInt.Less(denom, Zero);
    var numNeg := BigInt.Less(num, Zero);
    var n: BigInteger;
    if numPos && denNeg {
      n := BigInt.Negate(num);
    } else if numNeg && denNeg {
      n := BigInt.Negate(num);
    } else {
      n := num;
    }
    var denNonNeg := BigInt.GreaterEq(denom, Zero);
    var d := if denNonNeg then denom else BigInt.Negate(denom);
    NatSingle(0);
    assert Value(n) == if denNeg then -Value(num) else Value(num);
    assert !d.negative && Value(d) == if denNeg then -Value(denom) else Value(denom);
    r := Shift(Rational(n, d));
    ghost var g := Gcd(Magnitude(n), Magnitude(d));
    ghost var a, b := Value(r.numerator), Value(r.denominator);
    GcdDivides(Magnitude(n), Magnitude(d));
    if g > 0 {
      CrossRatio(a, b, Value(n), Value(d), g, Value(num), Value(denom));
      SignOfQuotient(a, Value(n), g);
      SignOfQuotient(b, Value(d), g);
      if Value(denom) == 0 {
        MulCancel(b, 0, g);
        UnitQuotient(a, Value(n), g);
      } else if Value(num) == 0 {
        MulCancel(b, 1, g);
        CanonicalZero(r.numerator);
        CanonicalOne(r.denominator);
      }
    }
  }

  /** Rational(int64_t): the number over BigInteger(1); Rational() is 0/1. */
  method FromInt(number: int) returns (r: Rational)
    requires INT64_MIN < number <= INT64_MAX
    ensures Trim(r) && Proper(r) && Reduced(r) && Num(r) == number && r.denominator == One
  {
    var n := BigInt.FromInt(number);
    NatSingle(1);
    r := Rational(n, One);
  }

  /** Rational(const BigInteger&): the value over BigInteger(1). */
  function FromBigInteger(bi: BigInteger): (r: Rational)
    ensures Num(r) == Value(bi) && Den(r) == 1
    ensures Trim(r) <==> Canonical(bi)
    ensures WellFormed(bi) && (bi.negative <==> Value(bi) < 0) ==> Proper(r) && Reduced(r)
  {
    NatSingle(1);
    Rational(bi, One)
  }

  function Num(q: Rational): int
  {
    Value(q.numerator)
  }

  function Den(q: Rational): int
  {
    Value(q.denominator)
  }

  /** In lowest terms: the magnitudes have greatest common divisor 1. */
  predicate Reduced(q: Rational)
  {
    Gcd(Magnitude(q.numerator), Magnitude(q.denominator)) == 1
  }

  /** Unary minus: a copy whose numerator has its sign flag inverted,
      without going through the constructor, so the negation of 0/1 is a
      "-0" numerator. */
  function Negate(q: Rational): (r: Rational)
    ensures Num(r) == -Num(q) && r.denominator == q.denominator
    ensures r.numerator.negative != q.numerator.negative
    ensures Proper(q) && Num(q) != 0 ==> Proper(r)
    ensures Reduced(r) == Reduced(q)
  {
    Rational(BigInt.Negate(q.numerator), q.denominator)
  }

  /** A product of two positive integers is positive. */
  lemma PositiveProduct(a: int, b: int)
    requires a > 0 && b > 0
    ensures a * b > 0
  {
    MulMono(1, a, b);
  }

  /** operator+: Rational(a.n * b.d + b.n * a.d, a.d * b.d). */
  method Add(a: Rational, b: Rational) returns (r: Rational)
    requires Parts(a) && Parts(b)
    ensures Trim(r) && !r.denominator.negative
    ensures Num(r) * (Den(a) * Den(b)) == (Num(a) * Den(b) + Num(b) * Den(a)) * Den(r)
    ensures Proper(a) && Proper(b) ==> Proper(r) && Reduced(r)
  {
    var x := BigIntArith.Mul(a.numerator, b.denominator);
    var y := BigIntArith.Mul(b.numerator, a.denominator);
    var n := BigIntArith.Add(x, y);
    var d := BigIntArith.Mul(a.denominator, b.denominator);
    if Proper(a) && Proper(b) {
      PositiveProduct(Den(a), Den(b));
    }
    r := Make(n, d);
  }

  /** operator-: Rational(a.n * b.d - b.n * a.d, a.d * b.d). */
  method Sub(a: Rational, b: Rational) returns (r: Rational)
    requires Parts(a) && Parts(b)
    ensures Trim(r) && !r.denominator.negative
    ensures Num(r) * (Den(a) * Den(b)) == (Num(a) * Den(b) - Num(b) * Den(a)) * Den(r)
    ensures Proper(a) && Proper(b) ==> Proper(r) && Reduced(r)
  {
    var x := BigIntArith.Mul(a.numerator, b.denominator);
    var y := BigIntArith.Mul(b.numerator, a.denominator);
    var n := BigIntArith.Sub(x, y);
    var d := BigIntArith.Mul(a.denominator, b.denominator);
    if Proper(a) && Proper(b) {
      PositiveProduct(Den(a), Den(b));
    }
    r := Make(n, d);
  }

  /** operator*: Rational(a.n * b.n, a.d * b.d). */
  method Mul(a: Rational, b: Rational) returns (r: Rational)
    requires Parts(a) && Parts(b)
    ensures Trim(r) && !r.denominator.negative
    ensures Num(r) * (Den(a) * Den(b)) == (Num(a) * Num(b)) * Den(r)
    ensures Proper(a) && Proper(b) ==> Proper(r) && Reduced(r)
  {
    var n := BigIntArith.Mul(a.numerator, b.numerator);
    var d := BigIntArith.Mul(a.denominator, b.denominator);
    if Proper(a) && Proper(b) {
      PositiveProduct(Den(a), Den(b));
    }
    r := Make(n, d);
  }

  /** operator/: Rational(a.n * b.d, a.d * b.n).  Dividing by zero gives a
      zero denominator, with the sign of a.n * b.d over it. */
  method Div(a: Rational, b: Rational) returns (r: Rational)
    requires Parts(a) && Parts(b)
    ensures Trim(r) && !r.denominator.negative
    ensures r.numerator.negative <==> Num(r) < 0
    ensures Num(r) * (Den(a) * Num(b)) == (Num(a) * Den(b)) * Den(r)
    ensures Proper(a) && Proper(b) && Num(b) != 0 ==> Proper(r) && Reduced(r)
    ensures Num(b) == 0 ==> Den(r) == 0
    ensures Num(b) == 0 ==>
              Num(r) == if ToBool(a.denominator) && ToBool(b.numerator)
                           && a.denominator.negative != b.numerator.negative
                        then -Sign(Num(a) * Den(b)) else Sign(Num(a) * Den(b))
  {
    var n := BigIntArith.Mul(a.numerator, b.denominator);
    var d := BigIntArith.Mul(a.denominator, b.numerator);
    if Proper(a) && Proper(b) && Num(b) != 0 {
      assert Den(a) * Num(b) != 0 by {
        if Num(b) > 0 {
          PositiveProduct(Den(a), Num(b));
        } else {
          PositiveProduct(Den(a), -Num(b));
        }
      }
    }
    r := Make(n, d);
  }

  // ---------------------------------------------------------------------
  // Comparisons

  /** A value whose sign flag is clear, over a positive denominator: what
      both operands of the last step of operator< are. */
  predicate NonNegative(q: Rational)
  {
    Proper(q) && !q.numerator.negative
  }

  /** a/b and N/D are the same ratio with positive denominators, so they
      are ordered against 1 alike. */
  lemma RatioOrder(a: int, b: int, N: int, D: int)
    requires a * D == N * b && D > 0 && b > 0
    ensures a < b <==> N < D
  {
    if a < b {
      MulMono(a + 1, b, D);
      if N >= D {
        MulMono(D, N, b);
      }
    } else {
      MulMono(b, a, D);
    }
  }

  /** The sign of a product of a value and a positive number. */
  lemma ProductSign(x: int, p: int)
    requires p > 0
    ensures x < 0 ==> x * p < 0
    ensures x >= 0 ==> x * p >= 0
  {
    if x < 0 {
      MulMono(x, -1, p);
    } else {
      MulMono(0, x, p);
    }
  }

  /** operator<: a negative flag against a clear one decides by the flags;
      two negatives compare as -rhs < -lhs; two non-negatives by whether the
      quotient lhs / rhs has numerator < denominator.  On proper operands
      this is the order of the rationals. */
  method Less(lhs: Rational, rhs: Rational) returns (r: bool)
    requires Parts(lhs) && Parts(rhs)
    ensures lhs.numerator.negative && !rhs.numerator.negative ==> r
    ensures !lhs.numerator.negative && rhs.numerator.negative ==> !r
    ensures Proper(lhs) && Proper(rhs) ==> (r <==> Num(lhs) * Den(rhs) < Num(rhs) * Den(lhs))
    decreases if lhs.numerator.negative && rhs.numerator.negative then 1 else 0
  {
    if lhs.numerator.negative && !rhs.numerator.negative {
      if Proper(lhs) && Proper(rhs) {
        ProductSign(Num(lhs), Den(rhs));
        ProductSign(Num(rhs), Den(lhs));
      }
      return true;
    }
    if !lhs.numerator.negative && rhs.numerator.negative {
      if Proper(lhs) && Proper(rhs) {
        ProductSign(Num(lhs), Den(rhs));
        ProductSign(Num(rhs), Den(lhs));
      }
      return false;
    }
    if rhs.numerator.negative {
      r := Less(Negate(rhs), Negate(lhs));
      if Proper(lhs) && Proper(rhs) {
        MulNeg(Num(rhs), Den(lhs));
        MulNeg(Num(lhs), Den(rhs));
      }
      return;
    }
    var quotient := Div(lhs, rhs);
    r := BigInt.Less(quotient.numerator, quotient.denominator);
    if Proper(lhs) && Proper(rhs) {
      QuotientOrder(lhs, rhs, quotient);
    }
  }

  /** Why the last step of operator< is right: for non-negative lhs and rhs
      the quotient lhs / rhs is below 1 exactly when lhs < rhs, and a zero
      rhs gives a quotient over 0 that is not below it. */
  lemma QuotientOrder(lhs: Rational, rhs: Rational, q: Rational)
    requires NonNegative(lhs) && NonNegative(rhs) && Trim(q)
    requires q.numerator.negative <==> Num(q) < 0
    requires Num(q) * (Den(lhs) * Num(rhs)) == (Num(lhs) * Den(rhs)) * Den(q)
    requires Num(rhs) != 0 ==> Proper(q)
    requires Num(rhs) == 0 ==> Den(q) == 0 && Num(q) == Sign(Num(lhs) * Den(rhs))
    ensures LessSpec(q.numerator, q.denominator) <==> Num(lhs) * Den(rhs) < Num(rhs) * Den(lhs)
  {
    LessSpecValue(q.numerator, q.denominator);
    ProductSign(Num(lhs), Den(rhs));
    if Num(rhs) != 0 {
      PositiveProduct(Den(lhs), Num(rhs));
      RatioOrder(Num(q), Den(q), Num(lhs) * Den(rhs), Den(lhs) * Num(rhs));
    }
  }

  /** operator>: rhs < lhs. */
  method Greater(lhs: Rational, rhs: Rational) returns (r: bool)
    requires Parts(lhs) && Parts(rhs)
    ensures rhs.numerator.negative && !lhs.numerator.negative ==> r
    ensures !rhs.numerator.negative && lhs.numerator.negative ==> !r
    ensures Proper(lhs) && Proper(rhs) ==> (r <==> Num(rhs) * Den(lhs) < Num(lhs) * Den(rhs))
  {
    r := Less(rhs, lhs);
  }

  /** operator<=: !(lhs > rhs). */
  method LessEq(lhs: Rational, rhs: Rational) returns (r: bool)
    requires Parts(lhs) && Parts(rhs)
    ensures Proper(lhs) && Proper(rhs) ==> (r <==> Num(lhs) * Den(rhs) <= Num(rhs) * Den(lhs))
  {
    var gt := Greater(lhs, rhs);
    r := !gt;
  }

  /** operator>=: !(lhs < rhs). */
  method GreaterEq(lhs: Rational, rhs: Rational) returns (r: bool)
    requires Parts(lhs) && Parts(rhs)
    ensures Proper(lhs) && Proper(rhs) ==> (r <==> Num(rhs) * Den(lhs) <= Num(lhs) * Den(rhs))
  {
    var lt := Less(lhs, rhs);
    r := !lt;
  }

  /** operator==: neither lhs > rhs nor lhs < rhs.  Operands whose sign
      flags differ are never equal, so a "-0" numerator is not equal to 0. */
  method Equal(lhs: Rational, rhs: Rational) returns (r: bool)
    requires Parts(lhs) && Parts(rhs)
    ensures lhs.numerator.negative != rhs.numerator.negative ==> !r
    ensures Proper(lhs) && Proper(rhs) ==> (r <==> Num(lhs) * Den(rhs) == Num(rhs) * Den(lhs))
  {
    var gt := Greater(lhs, rhs);
    var lt := Less(lhs, rhs);
    r := !gt && !lt;
  }

  /** operator!=: !(lhs == rhs). */
  method NotEqual(lhs: Rational, rhs: Rational) returns (r: bool)
    requires Parts(lhs) && Parts(rhs)
    ensures lhs.numerator.negative != rhs.numerator.negative ==> r
    ensures Proper(lhs) && Proper(rhs) ==> (r <==> Num(lhs) * Den(rhs) != Num(rhs) * Den(lhs))
  {
    var eq := Equal(lhs, rhs);
    r := !eq;
  }

  // ---------------------------------------------------------------------
  // Text

  /** toString never prints a '/' for a BigInteger. */
  lemma RenderHasNoSlash(b: BigInteger)
    requires |b.digits| >= 1
    ensures '/' !in Render(b)
  {
    var text := RenderLimbs(b.digits);
    assert Render(b) == (if b.negative && b.digits != [0] then "-" else "") + text;
    assert forall i :: 0 <= i < |text| ==> text[i] != '/';
  }

  /** Rational::toString: the numerator alone over a denominator equal to
      BigInteger(1), otherwise numerator "/" denominator. */
  method ToString(q: Rational) returns (s: string)
    requires Parts(q)
    ensures s == if q.denominator == One then Render(q.numerator)
                 else Render(q.numerator) + "/" + Render(q.denominator)
    ensures '/' in s <==> q.denominator != One
    ensures q.denominator == One ==> WellFormedText(s) && Value(Parse(s)) == Num(q)
  {
    RenderHasNoSlash(q.numerator);
    RenderHasNoSlash(q.denominator);
    RenderValue(q.numerator);
    var isOne := BigInt.Equal(q.denominator, One);
    var num := BigIntText.ToString(q.numerator);
    if isOne {
      s := num;
    } else {
      var den := BigIntText.ToString(q.denominator);
      s := num + "/" + den;
      assert s[|num|] == '/';
    }
  }

  /** A trimmed positive denominator with its sign flag clear, as every
      constructor leaves it; the numerator may be any well-formed value,
      trimmed or not. */
  predicate PositiveDen(q: Rational)
  {
    WellFormed(q.numerator) && Canonical(q.denominator)
    && !q.denominator.negative && Den(q) > 0
  }

  /** What operator/(BigInteger, BigInteger) demands of the denominator it
      divides by: a truthy denominator denotes a non-zero value. */
  predicate Divisible(q: Rational)
  {
    Parts(q) && (ToBool(q.denominator) ==> Magnitude(q.denominator) > 0)
  }

  /** What asDecimal(p) prints for p > 0: a "-" when the numerator's flag
      is set, an integer part without redundant leading zeros, ".", and
      exactly p fraction digits; the digits of both parts together read as
      value. */
  predicate DecimalText(s: string, negative: bool, p: nat, value: nat)
  {
    var k := if negative then 1 else 0;
    |s| > k + p + 1
    && (negative ==> s[0] == '-')
    && s[|s| - p - 1] == '.'
    && DecimalDigits(s[k..|s| - p - 1], s[|s| - p..], value)
  }

  /** An integer part without redundant leading zeros and a fraction, whose
      digits together read as value. */
  predicate DecimalDigits(whole: string, fraction: string, value: nat)
  {
    AllDigits(whole) && NoLeadingZero(whole) && AllDigits(fraction)
    && AllDigits(whole + fraction) && DecVal(whole + fraction) == value
  }

  /** Laying out sign, integer part, "." and fraction gives DecimalText. */
  lemma DecimalLayout(s: string, sign: string, whole: string, fraction: string, negative: bool,
                      value: nat)
    requires s == sign + whole + "." + fraction
    requires sign == if negative then "-" else ""
    requires DecimalDigits(whole, fraction, value)
    ensures DecimalText(s, negative, |fraction|, value)
  {
    var k, p := |sign|, |fraction|;
    var dot := |s| - p - 1;
    assert dot == k + |whole|;
    assert s[dot] == '.';
    assert s[k..dot] == whole;
    assert s[dot + 1..] == fraction;
  }

  /** At most p printed digits, padded with zeros to exactly p: the integer
      part is "0" and the fraction is the padded digits. */
  lemma ShortLayout(decimal: string, p: nat, sign: string, s: string, negative: bool, value: nat)
    requires AllDigits(decimal) && DecVal(decimal) == value && |decimal| == p
    requires s == sign + "0" + decimal[..0] + "." + decimal[0..]
    requires sign == if negative then "-" else ""
    ensures DecimalText(s, negative, p, value)
  {
    LeadingZeros(1, decimal);
    assert "0" == seq(1, _ => '0');
    assert s == sign + "0" + "." + decimal;
    DecimalLayout(s, sign, "0", decimal, negative, value);
  }

  /** More than p printed digits: the integer part is all but the last p. */
  lemma LongLayout(decimal: string, p: nat, sign: string, s: string, negative: bool, value: nat)
    requires AllDigits(decimal) && NoLeadingZero(decimal) && DecVal(decimal) == value
    requires |decimal| > p > 0
    requires s == sign + decimal[..|decimal| - p] + "." + decimal[|decimal| - p..]
    requires sign == if negative then "-" else ""
    ensures DecimalText(s, negative, p, value)
  {
    var whole, fraction := decimal[..|decimal| - p], decimal[|decimal| - p..];
    assert whole + fraction == decimal;
    assert whole[0] == decimal[0];
    DecimalLayout(s, sign, whole, fraction, negative, value);
  }

  /** The digits asDecimal pads: |numerator| * 10^p / denominator, printed.
      A helper holding the first four lines of the p > 0 branch. */
  method ScaledQuotient(q: Rational, precision: nat) returns (decimal: string)
    requires Divisible(q) && 0 < precision <= INT64_MAX
    ensures PositiveDen(q) ==>
              AllDigits(decimal) && NoLeadingZero(decimal)
              && DecVal(decimal) == Magnitude(q.numerator) * Pow10(precision) / Den(q)
  {
    var power := FromString(DecPow(precision));
    assert Canonical(power) && !power.negative && Value(power) == Pow10(precision);
    var numerator := BigIntArith.Mul(BigInt.Abs(q.numerator), power);
    assert !numerator.negative;
    var quotient := BigIntArith.Div(numerator, q.denominator);
    decimal := BigIntText.ToString(quotient);
    if PositiveDen(q) {
      ghost var m, t := Magnitude(q.numerator), Pow10(precision);
      assert Value(numerator) == m * t;
      assert !quotient.negative && Value(quotient) == (m * t) / Den(q);
      RenderLimbsValue(quotient.digits);
      assert decimal == RenderLimbs(quotient.digits);
      assert DecVal(decimal) == Nat(quotient.digits);
    }
  }

  /** asDecimal: for p > 0, the sign, then |numerator| * 10^p / denominator
      printed, left-padded with zeros to p digits, with a "0" in front when
      exactly p digits, and "." before the last p; for p = 0 the printed
      quotient numerator / denominator. */
  method AsDecimal(q: Rational, precision: nat) returns (result: string)
    requires Divisible(q) && precision <= INT64_MAX
    ensures PositiveDen(q) && precision > 0 ==>
              DecimalText(result, q.numerator.negative, precision,
                          Magnitude(q.numerator) * Pow10(precision) / Den(q))
    ensures PositiveDen(q) && precision == 0 ==>
              WellFormedText(result) && Value(Parse(result)) == TruncDiv(Num(q), Den(q))
              && NoLeadingZero(Body(result)) && (result[0] == '-' <==> TruncDiv(Num(q), Den(q)) < 0)
  {
    if precision > 0 {
      result := "";
      if q.numerator.negative {
        result := result + "-";
      }
      ghost var sign := result;
      var decimal := ScaledQuotient(q, precision);
      ghost var value := if Den(q) > 0 then Magnitude(q.numerator) * Pow10(precision) / Den(q) else 0;
      if |decimal| < precision {
        if PositiveDen(q) {
          LeadingZeros(precision - |decimal|, decimal);
        }
        decimal := seq(precision - |decimal|, _ => '0') + decimal;
      }
      ghost var short := |decimal| == precision;
      if |decimal| == precision {
        result := result + "0";
      }
      result := result + decimal[..|decimal| - precision] + "." + decimal[|decimal| - precision..];
      if PositiveDen(q) {
        if short {
          ShortLayout(decimal, precision, sign, result, q.numerator.negative, value);
        } else {
          LongLayout(decimal, precision, sign, result, q.numerator.negative, value);
        }
      }
    } else {
      var quotient := BigIntArith.Div(q.numerator, q.denominator);
      result := BigIntText.ToString(quotient);
      RenderValue(quotient);
      RenderLimbsValue(quotient.digits);
      if PositiveDen(q) {
        if quotient.negative && quotient.digits != [0] {
          DecValPositive(RenderLimbs(quotient.digits));
        }
      }
    }
  }

  // ---------------------------------------------------------------------
  // Lowest terms are unique

  /** Two reduced fractions with positive denominators and equal
      cross-products have the same numerator and denominator. */
  lemma ReducedUnique(a: nat, b: nat, c: nat, d: nat)
    requires b > 0 && d > 0 && Gcd(a, b) == 1 && Gcd(c, d) == 1
    requires a * d == c * b
    ensures a == c && b == d
  {
    GcdScale(a, b, d);
    GcdScale(c, d, b);
    assert b * d == d * b;
    MulCancel(a, c, b);
  }

  /** Trimmed, with the same value and sign flag: the same BigInteger. */
  lemma CanonicalUnique(x: BigInteger, y: BigInteger)
    requires Canonical(x) && Canonical(y) && Value(x) == Value(y) && x.negative == y.negative
    ensures x == y
  {
    MagLessValue(x.digits, y.digits);
  }

  /** What the constructor produces is a canonical form: two proper rationals
      in lowest terms that denote the same number are the same pair of
      BigIntegers. */
  lemma LowestTermsUnique(p: Rational, q: Rational)
    requires Trim(p) && Trim(q) && Proper(p) && Proper(q) && Reduced(p) && Reduced(q)
    requires Num(p) * Den(q) == Num(q) * Den(p)
    ensures p == q
  {
    ProductSign(Num(p), Den(q));
    ProductSign(Num(q), Den(p));
    var a, c := Magnitude(p.numerator), Magnitude(q.numerator);
    assert a * Den(q) == c * Den(p) by {
      if Num(p) < 0 {
        MulNeg(Num(p), Den(q));
        MulNeg(Num(q), Den(p));
      }
    }
    ReducedUnique(a, Den(p), c, Den(q));
    CanonicalUnique(p.numerator, q.numerator);
    CanonicalUnique(p.denominator, q.denominator);
  }
}

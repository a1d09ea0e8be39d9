/**
 * The BigInteger value: its limbs, its sign flag, the integer it denotes,
 * construction from a machine integer, the three limb-maintenance member
 * functions (trimLeft, pushOverflow, shiftLeft) and the comparisons.
 *
 * A BigInteger is a value: operators take copies and return new values, so
 * the member functions that mutate `digits_` in place are modelled as
 * methods from the old value to the new one.  The cached `size_` field is
 * not modelled; `len()` is the length of `digits`.
 */
module BigInt {
  import opened Limbs

  const INT64_MIN: int := -0x8000_0000_0000_0000
  const INT64_MAX: int := 0x7fff_ffff_ffff_ffff

  datatype BigInteger = BigInteger(digits: seq<nat>, negative: bool)

  /** Every value the library builds from well-formed input: at least one
      limb, and every limb a base-10^9 digit. */
  predicate WellFormed(b: BigInteger)
  {
    |b.digits| >= 1 && AllLimbs(b.digits)
  }

  /** Well-formed and trimmed: no most-significant zero limb.  The sign flag
      of zero may still be set ("-0"). */
  predicate Canonical(b: BigInteger)
  {
    Trimmed(b.digits)
  }

  /** The integer a BigInteger denotes; "-0" denotes 0. */
  function Value(b: BigInteger): int
  {
    var m: int := Nat(b.digits);
    if b.negative then -m else m
  }

  /** BigInteger(0) and BigInteger(1). */
  const Zero := BigInteger([0], false)
  const One := BigInteger([1], false)

  /** True when the value is the canonical zero, or a "-0". */
  predicate IsZeroValue(b: BigInteger)
  {
    b.digits == [0]
  }

  /** Truncating division, as C++ `/` rounds: toward zero. */
  function TruncDiv(x: int, y: int): (q: int)
    requires y != 0
    ensures (x >= 0) == (y > 0) ==> q >= 0
    ensures (x >= 0) != (y > 0) ==> q <= 0
  {
    var ax: int := if x < 0 then -x else x;
    var ay: int := if y < 0 then -y else y;
    DivNonNeg(ax, ay);
    var m: int := ax / ay;
    if (x < 0) != (y < 0) then -m else m
  }

  lemma DivNonNeg(a: int, b: int)
    requires a >= 0 && b > 0
    ensures a / b >= 0
  {
  }

  /** The remainder of truncating division (C++ `%`): the sign of the
      dividend and a magnitude below that of the divisor. */
  function TruncMod(x: int, y: int): (r: int)
    requires y != 0
    ensures -(if y < 0 then -y else y) < r < (if y < 0 then -y else y)
    ensures x >= 0 ==> r >= 0
    ensures x <= 0 ==> r <= 0
  {
    var ax: int := if x < 0 then -x else x;
    var ay: int := if y < 0 then -y else y;
    if x < 0 then -(ax % ay) else ax % ay
  }

  /** Quotient and remainder put the dividend back together:
      x == y * (x / y) + x % y. */
  lemma TruncDivMod(x: int, y: int)
    requires y != 0
    ensures x == y * TruncDiv(x, y) + TruncMod(x, y)
  {
    var ax: int := if x < 0 then -x else x;
    var ay: int := if y < 0 then -y else y;
    var m, r := ax / ay, ax % ay;
    assert ax == ay * m + r;
    var q := TruncDiv(x, y);
    MulNeg(ay, m);
    if x < 0 {
      assert y * q == -(ay * m) by {
        if y < 0 { assert q == m && y == -ay; } else { assert q == -m && y == ay; }
      }
    } else {
      assert y * q == ay * m by {
        if y < 0 { assert q == -m && y == -ay; } else { assert q == m && y == ay; }
      }
    }
  }

  lemma MulNeg(a: int, b: int)
    ensures (-a) * b == -(a * b) && a * (-b) == -(a * b) && (-a) * (-b) == a * b
  {
  }

  /** operator bool: false only for the single zero limb. */
  function ToBool(b: BigInteger): (r: bool)
    ensures Canonical(b) ==> (r <==> Value(b) != 0)
    ensures |b.digits| >= 1 ==> (r <==> !IsZeroValue(b))
  {
    CanonicalZero(b);
    |b.digits| > 1 || (|b.digits| == 1 && b.digits[0] != 0)
  }

  /** A canonical value denotes zero exactly when its limbs are [0]. */
  lemma CanonicalZero(b: BigInteger)
    ensures Canonical(b) ==> (Value(b) == 0 <==> IsZeroValue(b))
  {
    if Canonical(b) {
      TrimmedZero(b.digits);
    }
  }

  /** Unary minus: the limbs with the sign flag flipped. */
  function Negate(b: BigInteger): (r: BigInteger)
    ensures Value(r) == -Value(b)
    ensures r.negative != b.negative && Canonical(r) == Canonical(b)
  {
    BigInteger(b.digits, !b.negative)
  }

  /** abs(): the magnitude with the sign flag cleared. */
  function Abs(b: BigInteger): (r: BigInteger)
    ensures Value(r) == if Value(b) < 0 then -Value(b) else Value(b)
    ensures !r.negative && Canonical(r) == Canonical(b)
  {
    BigInteger(b.digits, false)
  }

  /** The copy constructor BigInteger(other, negative). */
  function WithSign(other: BigInteger, negative: bool): (r: BigInteger)
    ensures Value(r) == if negative then -Value(Abs(other)) else Value(Abs(other))
    ensures Canonical(r) == Canonical(other)
  {
    BigInteger(other.digits, negative)
  }

  /** The constructor BigInteger(number, len): len copies of number, sign
      clear.  The library only calls it with number 0, as a zeroed buffer. */
  function Filled(number: nat, len: nat): (r: BigInteger)
    ensures |r.digits| == len && !r.negative
    ensures number == 0 ==> Value(r) == 0
  {
    NatOfZeros(len);
    assert number == 0 ==> seq(len, _ => number) == Zeros(len);
    BigInteger(seq(len, _ => number), false)
  }

  /** BigInteger(int64_t): the magnitude split into limbs, least significant
      first; zero gives the single limb 0. */
  method FromInt(number: int) returns (r: BigInteger)
    requires INT64_MIN < number <= INT64_MAX
    ensures Canonical(r) && Value(r) == number
    ensures r.negative <==> number < 0
  {
    var negative := number < 0;
    var n: nat := if negative then -number else number;
    var digits: seq<nat> := [];
    while n != 0
      invariant AllLimbs(digits)
      invariant Nat(digits) + Pow(|digits|) * n == if negative then -number else number
      invariant n == 0 && |digits| > 0 ==> digits[|digits| - 1] != 0
    {
      var limb := n % BASE;
      SplitLowLimb(digits, n);
      digits := digits + [limb];
      n := n / BASE;
    }
    assert Nat(digits) == if negative then -number else number;
    if |digits| == 0 {
      digits := digits + [0];
      assert digits == [0];
      NatSingle(0);
    }
    r := BigInteger(digits, negative);
  }

  /** Taking the lowest base-10^9 digit of n as the next limb. */
  lemma SplitLowLimb(digits: seq<nat>, n: nat)
    ensures Nat(digits + [n % BASE]) + Pow(|digits| + 1) * (n / BASE)
            == Nat(digits) + Pow(|digits|) * n
  {
    var P, Q := Pow(|digits|), Pow(|digits| + 1);
    var lo, hi := n % BASE, n / BASE;
    NatSnoc(digits, lo);
    var low, high := Nat(digits), Nat(digits + [lo]);
    assert Q == BASE * P;
    assert n == lo + BASE * hi;
    PlaceValue(P, Q, lo, hi, n);
  }

  /** A number written as lo + BASE * hi, placed at weight P. */
  lemma PlaceValue(P: int, Q: int, lo: int, hi: int, n: int)
    requires Q == BASE * P && n == lo + BASE * hi
    ensures lo * P + Q * hi == P * n
  {
    MulAssoc(hi, BASE, P);
    MulLeft(P, lo, BASE * hi);
  }

  /** trimLeft: drop most-significant zero limbs, keeping at least one. */
  method TrimLeft(b: BigInteger) returns (r: BigInteger)
    ensures r.negative == b.negative
    ensures |r.digits| <= |b.digits| && r.digits == b.digits[..|r.digits|]
    ensures |b.digits| >= 1 ==> |r.digits| >= 1
    ensures |r.digits| <= 1 || r.digits[|r.digits| - 1] != 0
    ensures forall i :: |r.digits| <= i < |b.digits| ==> b.digits[i] == 0
    ensures Value(r) == Value(b)
    ensures WellFormed(b) ==> Canonical(r)
  {
    var size := |b.digits|;
    while size > 1 && b.digits[size - 1] == 0
      invariant 0 <= size <= |b.digits|
      invariant |b.digits| >= 1 ==> size >= 1
      invariant forall i :: size <= i < |b.digits| ==> b.digits[i] == 0
    {
      size := size - 1;
    }
    var kept := b.digits[..size];
    assert b.digits == kept + Zeros(|b.digits| - size);
    NatZeros(kept, |b.digits| - size);
    r := BigInteger(kept, b.negative);
  }

  /** pushOverflow: carry every limb's excess over BASE into the next limb;
      an excess in the top limb appends a limb 1.  The value never changes;
      after an addition of two digit sequences every limb is a digit again. */
  method PushOverflow(b: BigInteger) returns (r: BigInteger)
    requires |b.digits| >= 1
    ensures r.negative == b.negative
    ensures Nat(r.digits) == Nat(b.digits)
    ensures |b.digits| <= |r.digits| <= |b.digits| + 1
    ensures forall i :: 0 <= i < |b.digits| - 1 ==> r.digits[i] < BASE
    ensures (forall i :: 0 <= i < |b.digits| ==> b.digits[i] <= 2 * BASE - 2) ==>
              AllLimbs(r.digits) && (|r.digits| == |b.digits| + 1 ==> r.digits[|b.digits|] == 1)
  {
    var ds: seq<nat> := b.digits;
    var size := |ds|;
    ghost var bounded := forall i :: 0 <= i < size ==> b.digits[i] <= 2 * BASE - 2;
    var i := 0;
    while i < size - 1
      invariant 0 <= i <= size - 1 && |ds| == size
      invariant Nat(ds) == Nat(b.digits)
      invariant forall j :: 0 <= j < i ==> ds[j] < BASE
      invariant forall j :: i < j < size ==> ds[j] == b.digits[j]
      invariant bounded ==> ds[i] <= 2 * BASE - 1
    {
      ghost var entry := ds[i];
      ghost var above := ds[i + 1];
      while ds[i] >= BASE
        invariant |ds| == size
        invariant Nat(ds) == Nat(b.digits)
        invariant forall j :: 0 <= j < i ==> ds[j] < BASE
        invariant forall j :: i + 1 < j < size ==> ds[j] == b.digits[j]
        invariant entry < 2 * BASE ==>
                    (ds[i] == entry && ds[i + 1] == above) || (ds[i] + BASE == entry && ds[i + 1] == above + 1)
        decreases ds[i]
      {
        CarryStep(ds, i);
        ds := ds[i := ds[i] - BASE][i + 1 := ds[i + 1] + 1];
      }
      i := i + 1;
    }
    if ds[size - 1] >= BASE {
      var top := ds[size - 1];
      TopCarry(ds);
      ghost var carried := ds[size - 1 := top - BASE] + [1];
      ds := ds + [1];
      ds := ds[size - 1 := top - BASE];
      assert ds == carried;
    }
    r := BigInteger(ds, b.negative);
  }

  /** Moving BASE out of the top limb into a new limb 1 keeps the value. */
  lemma TopCarry(ds: seq<nat>)
    requires |ds| >= 1 && ds[|ds| - 1] >= BASE
    ensures var n := |ds|;
            var c := ds[n - 1 := ds[n - 1] - BASE] + [1];
            && Nat(c) == Nat(ds) && |c| == n + 1 && c[n - 1] == ds[n - 1] - BASE && c[n] == 1
            && forall j :: 0 <= j < n - 1 ==> c[j] == ds[j]
  {
    var n, top := |ds|, ds[|ds| - 1];
    NatUpdate(ds, n - 1, top - BASE);
    NatSnoc(ds[n - 1 := top - BASE], 1);
    var P := Pow(n - 1);
    assert Pow(n) == BASE * P;
    MulLeft(P, top - BASE, BASE);
  }

  /** Moving BASE out of limb i as one unit of limb i+1 keeps the value. */
  lemma CarryStep(ds: seq<nat>, i: nat)
    requires i + 1 < |ds| && ds[i] >= BASE
    ensures Nat(ds[i := ds[i] - BASE][i + 1 := ds[i + 1] + 1]) == Nat(ds)
  {
    var x, y := ds[i], ds[i + 1];
    var t := ds[i := x - BASE];
    var P, Q := Pow(i), Pow(i + 1);
    NatUpdate(ds, i, x - BASE);
    assert t[i + 1] == y;
    NatUpdate(t, i + 1, y + 1);
    assert Q == BASE * P;
    CarryArith(Nat(ds), Nat(t), Nat(t[i + 1 := y + 1]), x, y, P);
  }

  lemma CarryArith(n0: int, n1: int, n2: int, x: int, y: int, P: int)
    requires n1 + x * P == n0 + (x - BASE) * P
    requires n2 + y * (BASE * P) == n1 + (y + 1) * (BASE * P)
    ensures n2 == n0
  {
    MulLeft(P, x, -(BASE as int));
    MulLeft(BASE * P, y, 1);
  }

  /** shiftLeft: with more than one limb and a non-zero top limb the limbs
      move up one place; otherwise they move up one place inside the same
      length, losing the top limb.  The lowest limb stays where it was. */
  method ShiftLeft(b: BigInteger) returns (r: BigInteger)
    ensures r.negative == b.negative
    ensures |b.digits| == 0 ==> r.digits == []
    ensures |b.digits| > 1 && b.digits[|b.digits| - 1] != 0 ==>
              r.digits == [b.digits[0]] + b.digits
    ensures |b.digits| >= 1 && !(|b.digits| > 1 && b.digits[|b.digits| - 1] != 0) ==>
              r.digits == [b.digits[0]] + b.digits[..|b.digits| - 1]
    ensures |b.digits| > 1 || b.digits == [0] ==>
              r.digits[0] == b.digits[0] && Nat(r.digits[1..]) == Nat(b.digits)
  {
    var ds := b.digits;
    var size := |ds|;
    if |ds| > 1 && ds[size - 1] != 0 {
      ds := ds + [ds[size - 1]];
      size := size + 1;
    }
    ghost var grown := ds;
    var i := |ds|;
    while i > 1
      invariant 0 <= i <= |ds| && (|ds| == 0 || 1 <= i)
      invariant |ds| == |grown|
      invariant forall j :: 0 <= j < i ==> ds[j] == grown[j]
      invariant forall j :: i <= j < |ds| ==> ds[j] == grown[j - 1]
    {
      ds := ds[i - 1 := ds[i - 2]];
      i := i - 1;
    }
    r := BigInteger(ds, b.negative);
    if |b.digits| >= 1 {
      var d := b.digits;
      if |d| > 1 && d[|d| - 1] != 0 {
        assert grown == d + [d[|d| - 1]];
        assert forall j :: 1 <= j < |ds| ==> ds[j] == d[j - 1];
        assert ds == [d[0]] + d;
      } else {
        assert grown == d;
        assert forall j :: 1 <= j < |ds| ==> ds[j] == d[j - 1];
        assert ds == [d[0]] + d[..|d| - 1];
        if |d| > 1 || d == [0] {
          assert ds[1..] == d[..|d| - 1];
          assert d == d[..|d| - 1] + Zeros(1);
          NatZeros(d[..|d| - 1], 1);
        }
      }
    }
  }

  /** The order operator< decides, stated on the limbs: the sign flags first,
      then the magnitude order (reversed for two negative values, where
      equal magnitudes count as less). */
  predicate LessSpec(a: BigInteger, b: BigInteger)
  {
    if a.negative != b.negative then a.negative
    else if a.negative then !MagLess(a.digits, b.digits)
    else MagLess(a.digits, b.digits)
  }

  /** On canonical values LessSpec is the order of the integers, except that
      a negative value (including "-0") is less than anything equal to it. */
  lemma LessSpecValue(a: BigInteger, b: BigInteger)
    requires Canonical(a) && Canonical(b)
    ensures LessSpec(a, b) <==> Value(a) < Value(b) || (a.negative && Value(a) == Value(b))
  {
    MagLessValue(a.digits, b.digits);
  }

  /** operator<. */
  method Less(lhs: BigInteger, rhs: BigInteger) returns (r: bool)
    ensures r == LessSpec(lhs, rhs)
    ensures Canonical(lhs) && Canonical(rhs) ==>
              (r <==> Value(lhs) < Value(rhs) || (lhs.negative && Value(lhs) == Value(rhs)))
  {
    if Canonical(lhs) && Canonical(rhs) {
      LessSpecValue(lhs, rhs);
    }
    if lhs.negative && !rhs.negative {
      return true;
    }
    if !lhs.negative && rhs.negative {
      return false;
    }
    if |lhs.digits| < |rhs.digits| {
      return !lhs.negative;
    }
    if |lhs.digits| > |rhs.digits| {
      return lhs.negative;
    }
    var n := |lhs.digits|;
    var i := n;
    while i > 0
      invariant 0 <= i <= n
      invariant LexLess(lhs.digits, rhs.digits, n) == LexLess(lhs.digits, rhs.digits, i)
      invariant !LexLess(rhs.digits, lhs.digits, i) ==> !LexLess(rhs.digits, lhs.digits, n)
    {
      if lhs.digits[i - 1] < rhs.digits[i - 1] {
        return !lhs.negative;
      }
      if lhs.digits[i - 1] > rhs.digits[i - 1] {
        LexLessAsymmetric(lhs.digits, rhs.digits, n);
        return lhs.negative;
      }
      i := i - 1;
    }
    return if !lhs.negative then false else true;
  }

  /** operator>: rhs < lhs. */
  method Greater(lhs: BigInteger, rhs: BigInteger) returns (r: bool)
    ensures r == LessSpec(rhs, lhs)
    ensures Canonical(lhs) && Canonical(rhs) ==>
              (r <==> Value(lhs) > Value(rhs) || (rhs.negative && Value(lhs) == Value(rhs)))
  {
    r := Less(rhs, lhs);
  }

  /** operator<=: !(lhs > rhs); a negative value is not <= itself. */
  method LessEq(lhs: BigInteger, rhs: BigInteger) returns (r: bool)
    ensures r == !LessSpec(rhs, lhs)
    ensures Canonical(lhs) && Canonical(rhs) ==>
              (r <==> Value(lhs) < Value(rhs) || (!rhs.negative && Value(lhs) == Value(rhs)))
  {
    var gt := Greater(lhs, rhs);
    r := !gt;
  }

  /** operator>=: !(lhs < rhs). */
  method GreaterEq(lhs: BigInteger, rhs: BigInteger) returns (r: bool)
    ensures r == !LessSpec(lhs, rhs)
    ensures Canonical(lhs) && Canonical(rhs) ==>
              (r <==> Value(lhs) > Value(rhs) || (!lhs.negative && Value(lhs) == Value(rhs)))
  {
    var lt := Less(lhs, rhs);
    r := !lt;
  }

  /** operator==: same limbs, then the same sign flag. */
  method Equal(lhs: BigInteger, rhs: BigInteger) returns (r: bool)
    ensures r <==> lhs == rhs
    ensures Canonical(lhs) && Canonical(rhs) ==>
              (r <==> Value(lhs) == Value(rhs) && lhs.negative == rhs.negative)
  {
    if Canonical(lhs) && Canonical(rhs) {
      MagLessValue(lhs.digits, rhs.digits);
    }
    if |lhs.digits| != |rhs.digits| {
      return false;
    }
    var i := |lhs.digits|;
    while i > 0
      invariant 0 <= i <= |lhs.digits|
      invariant forall j :: i <= j < |lhs.digits| ==> lhs.digits[j] == rhs.digits[j]
    {
      if lhs.digits[i - 1] != rhs.digits[i - 1] {
        return false;
      }
      i := i - 1;
    }
    assert lhs.digits == rhs.digits;
    return lhs.negative == rhs.negative;
  }

  /** operator!=. */
  method NotEqual(lhs: BigInteger, rhs: BigInteger) returns (r: bool)
    ensures r <==> lhs != rhs
    ensures Canonical(lhs) && Canonical(rhs) ==>
              (r <==> Value(lhs) != Value(rhs) || lhs.negative != rhs.negative)
  {
    var eq := Equal(lhs, rhs);
    r := !eq;
  }
}

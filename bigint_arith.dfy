/**
 * BigInteger arithmetic: operator+ and operator- (sign cases, then a
 * limb-wise sum with pushOverflow or a borrow loop), the products by a
 * machine integer and by a BigInteger, division by a machine integer, long
 * division, operator% and the increments.
 *
 * Every operator takes its left operand by value and returns a new value,
 * so each is a method from the operands to the result.  The limb-level
 * tail of operator+ and operator- (after the sign cases have been reduced
 * to two non-negative operands) is a method of its own.
 */
module BigIntArith {
  import opened Limbs
  import opened BigInt

  /** Adding x to limb i adds x * BASE^i to the value. */
  lemma AddAt(ds: seq<nat>, i: nat, x: nat)
    requires i < |ds|
    ensures Nat(ds[i := ds[i] + x]) == Nat(ds) + x * Pow(i)
  {
    NatUpdate(ds, i, ds[i] + x);
    ShiftArith(Nat(ds), Nat(ds[i := ds[i] + x]), ds[i], x, Pow(i));
  }

  lemma ShiftArith(n0: int, n1: int, a: int, x: int, P: int)
    requires n1 + a * P == n0 + (a + x) * P
    ensures n1 == n0 + x * P
  {
  }

  /** The limb-wise sum at the end of operator+, for two non-negative
      operands: lhs is widened to the length of rhs, rhs is added limb by
      limb, then pushOverflow and trimLeft. */
  method AddDigits(lhs: BigInteger, rhs: BigInteger) returns (r: BigInteger)
    requires WellFormed(lhs) && WellFormed(rhs)
    ensures Canonical(r) && r.negative == lhs.negative
    ensures Nat(r.digits) == Nat(lhs.digits) + Nat(rhs.digits)
  {
    var ds := lhs.digits;
    if |ds| < |rhs.digits| {
      NatZeros(ds, |rhs.digits| - |ds|);
      ds := ds + Zeros(|rhs.digits| - |ds|);
    }
    ghost var widened := ds;
    var sz := |rhs.digits|;
    var i := 0;
    while i < sz
      invariant 0 <= i <= sz <= |ds| && |ds| == |widened|
      invariant Nat(widened) == Nat(lhs.digits) && AllLimbs(widened)
      invariant Nat(ds) == Nat(widened) + NatPrefix(rhs.digits, i)
      invariant forall j :: 0 <= j < i ==> ds[j] <= 2 * BASE - 2
      invariant forall j :: i <= j < |ds| ==> ds[j] == widened[j]
    {
      AddAt(ds, i, rhs.digits[i]);
      ds := ds[i := ds[i] + rhs.digits[i]];
      i := i + 1;
    }
    var summed := PushOverflow(BigInteger(ds, lhs.negative));
    r := TrimLeft(summed);
  }

  /** One step of the borrow loop of operator-: subtract the borrow and
      the subtrahend limb ri from limb i, borrowing BASE from limb i+1 when
      the limb is too small. */
  lemma BorrowStep(ds: seq<nat>, i: nat, carry: nat, ri: nat, target: int)
    requires i < |ds| && carry <= 1 && ds[i] < BASE && ri < BASE
    requires Nat(ds) - (if carry == 0 then 0 else Pow(i)) == target
    ensures var y := carry + ri;
            var nd := if ds[i] < y then ds[i] + BASE - y else ds[i] - y;
            var nc := if ds[i] < y then 1 else 0;
            && 0 <= nd < BASE
            && Nat(ds[i := nd]) - (if nc == 0 then 0 else Pow(i + 1)) == target - ri * Pow(i)
  {
    var y := carry + ri;
    var P := Pow(i);
    assert Pow(i + 1) == BASE * P;
    if ds[i] < y {
      NatUpdate(ds, i, ds[i] + BASE - y);
      BorrowArith(Nat(ds), Nat(ds[i := ds[i] + BASE - y]), ds[i], carry, ri, P, 1);
    } else {
      NatUpdate(ds, i, ds[i] - y);
      BorrowArith(Nat(ds), Nat(ds[i := ds[i] - y]), ds[i], carry, ri, P, 0);
    }
  }

  lemma BorrowArith(n0: int, n1: int, x: int, carry: int, ri: int, P: int, nc: int)
    requires n1 + x * P == n0 + (x + nc * BASE - carry - ri) * P
    ensures n1 - nc * (BASE * P) == n0 - carry * P - ri * P
  {
    MulAssoc(nc, BASE, P);
    assert (x + nc * BASE - carry - ri) * P == x * P + (nc * BASE) * P - carry * P - ri * P;
  }

  /** The borrow loops at the end of operator-, for two non-negative
      operands with lhs not less than rhs: subtract rhs limb by limb, then
      carry a remaining borrow upward, then trimLeft.  A borrow still left
      over at the top is dropped; that only happens when rhs is the larger
      value, which operator- has ruled out for trimmed operands. */
  method SubDigits(lhs: BigInteger, rhs: BigInteger) returns (r: BigInteger)
    requires WellFormed(lhs) && WellFormed(rhs) && !MagLess(lhs.digits, rhs.digits)
    ensures Canonical(r) && r.negative == lhs.negative
    ensures Nat(lhs.digits) >= Nat(rhs.digits) ==> Nat(r.digits) == Nat(lhs.digits) - Nat(rhs.digits)
  {
    var ds: seq<nat> := lhs.digits;
    var carry: nat := 0;
    var sz := |rhs.digits|;
    var i := 0;
    while i < sz
      invariant 0 <= i <= sz <= |ds| && AllLimbs(ds) && carry <= 1
      invariant Nat(ds) - (if carry == 0 then 0 else Pow(i)) == Nat(lhs.digits) - NatPrefix(rhs.digits, i)
    {
      var ri := rhs.digits[i];
      BorrowStep(ds, i, carry, ri, Nat(lhs.digits) - NatPrefix(rhs.digits, i));
      var d: int := ds[i];
      var newCarry := 0;
      if d < carry + ri {
        d := d + BASE;
        newCarry := 1;
      }
      d := d - (carry + ri);
      ds := ds[i := d];
      carry := newCarry;
      i := i + 1;
    }
    if carry != 0 {
      if |ds| > sz {
        while carry != 0 && i < |ds|
          invariant sz <= i <= |ds| && AllLimbs(ds) && carry <= 1
          invariant Nat(ds) - (if carry == 0 then 0 else Pow(i)) == Nat(lhs.digits) - Nat(rhs.digits)
        {
          BorrowStep(ds, i, carry, 0, Nat(lhs.digits) - Nat(rhs.digits));
          var d: int := ds[i];
          var newCarry := 0;
          if d < carry {
            d := d + BASE;
            newCarry := 1;
          }
          d := d - carry;
          ds := ds[i := d];
          carry := newCarry;
          i := i + 1;
        }
      }
      NatBound(ds);
      carry := 0;
    }
    r := TrimLeft(BigInteger(ds, lhs.negative));
  }

  /** How many sign cases operator+ and operator- still pass through before
      they reach the limbs; each call they make goes to a smaller rank. */
  function AddRank(lhs: BigInteger, rhs: BigInteger): nat
  {
    if lhs.negative && rhs.negative then 1
    else if lhs.negative || rhs.negative then 2
    else 0
  }

  function SubRank(lhs: BigInteger, rhs: BigInteger): nat
  {
    if rhs.negative then 3
    else if lhs.negative || MagLess(lhs.digits, rhs.digits) then 1
    else 0
  }

  /** operator+: two negatives add as -(|lhs| + |rhs|); mixed signs become a
      subtraction of magnitudes; two non-negatives add limb-wise.  On
      trimmed operands the result is the sum, negative exactly when the sum
      is, and "-0" only from two negative zeros. */
  method Add(lhs: BigInteger, rhs: BigInteger) returns (r: BigInteger)
    requires WellFormed(lhs) && WellFormed(rhs)
    ensures Canonical(r)
    ensures Canonical(lhs) && Canonical(rhs) ==> Value(r) == Value(lhs) + Value(rhs)
    ensures Canonical(lhs) && Canonical(rhs) ==>
              (r.negative <==> Value(r) < 0 || (Value(r) == 0 && lhs.negative && rhs.negative))
    decreases AddRank(lhs, rhs)
  {
    if lhs.negative {
      if rhs.negative {
        var sum := Add(Negate(lhs), Negate(rhs));
        r := Negate(sum);
      } else {
        r := Sub(rhs, Negate(lhs));
      }
    } else if rhs.negative {
      r := Sub(lhs, Negate(rhs));
    } else {
      r := AddDigits(lhs, rhs);
    }
  }

  /** operator-: a negative rhs turns into an addition; a negative lhs into
      -(|lhs| + rhs); a smaller lhs into -(rhs - lhs); otherwise the borrow
      loops.  On trimmed operands the result is the difference, negative
      exactly when the difference is, and "-0" only from -0 - 0. */
  method Sub(lhs: BigInteger, rhs: BigInteger) returns (r: BigInteger)
    requires WellFormed(lhs) && WellFormed(rhs)
    ensures Canonical(r)
    ensures Canonical(lhs) && Canonical(rhs) ==> Value(r) == Value(lhs) - Value(rhs)
    ensures Canonical(lhs) && Canonical(rhs) ==>
              (r.negative <==> Value(r) < 0 || (Value(r) == 0 && lhs.negative && !rhs.negative))
    decreases SubRank(lhs, rhs)
  {
    if rhs.negative {
      r := Add(lhs, Negate(rhs));
    } else if lhs.negative {
      var sum := Add(Negate(lhs), rhs);
      r := Negate(sum);
    } else {
      var less := Less(lhs, rhs);
      if less {
        MagLessAsymmetric(lhs.digits, rhs.digits);
        var diff := Sub(rhs, lhs);
        r := Negate(diff);
      } else {
        if Canonical(lhs) && Canonical(rhs) {
          MagLessValue(lhs.digits, rhs.digits);
        }
        r := SubDigits(lhs, rhs);
      }
    }
  }

  /** operator*(BigInteger, int64_t) computes limb * factor + carry in an
      unsigned 64-bit limb; the factor must keep that below 2^64. */
  const UINT64_LIMIT: int := 0x1_0000_0000_0000_0000

  function AbsInt(x: int): nat
  {
    if x < 0 then -x else x
  }

  /** One step of the product by a machine integer n: limb i of a times n
      plus the carry, split into a digit and the next carry. */
  lemma ScalarStep(ds: seq<nat>, a: seq<nat>, i: nat, n: nat, rest: nat)
    requires i < |ds| && i < |a| && ds[i] == 0 && a[i] < BASE
    requires rest <= n && (n <= BASE ==> rest < BASE)
    requires Nat(ds) + rest * Pow(i) == NatPrefix(a, i) * n
    ensures var cur := a[i] * n + rest;
            && 0 <= cur && cur / BASE <= n && (n <= BASE ==> cur / BASE < BASE)
            && Nat(ds[i := cur - (cur / BASE) * BASE]) + (cur / BASE) * Pow(i + 1)
               == NatPrefix(a, i + 1) * n
  {
    var cur := a[i] * n + rest;
    ScalarBound(a[i], n, rest);
    var P := Pow(i);
    var lo, hi := cur % BASE, cur / BASE;
    NatUpdate(ds, i, lo);
    PlaceValue(P, Pow(i + 1), lo, hi, cur);
    ScalarArith(NatPrefix(a, i), NatPrefix(a, i + 1), a[i], n, rest, P, cur);
    assert hi * Pow(i + 1) == Pow(i + 1) * hi;
  }

  /** A limb times n plus a carry of at most n carries at most n, and less
      than BASE when n is at most BASE. */
  lemma ScalarBound(ai: nat, n: nat, rest: nat)
    requires ai < BASE && rest <= n && (n <= BASE ==> rest < BASE)
    ensures var cur := ai * n + rest;
            && 0 <= cur && cur / BASE <= n && (n <= BASE ==> cur / BASE < BASE)
  {
    var cur := ai * n + rest;
    MulMono(ai, BASE - 1, n);
    assert cur < BASE * (n + 1);
    DivBelow(cur, n + 1);
    if n <= BASE {
      MulMono(n, BASE, BASE - 1);
      DivBelow(cur, BASE);
    }
  }

  lemma DivBelow(x: nat, k: nat)
    requires x < BASE * k
    ensures x / BASE < k
  {
  }

  lemma ScalarArith(low: int, high: int, ai: int, n: int, rest: int, P: int, cur: int)
    requires high == low + ai * P && cur == ai * n + rest
    ensures P * cur == high * n - low * n + rest * P
  {
  }

  /** The limbs of |a| * |number|, with the xor of the signs, denote
      a * number. */
  lemma ScaledValue(a: BigInteger, number: int, ds: seq<nat>)
    requires Nat(ds) == Nat(a.digits) * AbsInt(number)
    ensures Value(BigInteger(ds, a.negative != (number < 0))) == Value(a) * number
  {
    MulNeg(Nat(a.digits), AbsInt(number));
  }

  /** The loop of operator*(BigInteger, int64_t) over the limbs of |a|:
      a zeroed buffer of the same length receives each limb times n plus
      the carry, reduced to a digit; the last carry is returned. */
  method ScaleLimbs(a: seq<nat>, n: nat) returns (ds: seq<nat>, rest: nat)
    requires AllLimbs(a) && BASE * n < UINT64_LIMIT
    ensures |ds| == |a| && AllLimbs(ds) && rest <= n && (n <= BASE ==> rest < BASE)
    ensures Nat(ds) + rest * Pow(|a|) == Nat(a) * n
  {
    rest := 0;
    ds := Filled(0, |a|).digits;
    var i := 0;
    while i < |a|
      invariant 0 <= i <= |a| == |ds|
      invariant rest <= n && (n <= BASE ==> rest < BASE)
      invariant forall j :: 0 <= j < i ==> ds[j] < BASE
      invariant forall j :: i <= j < |ds| ==> ds[j] == 0
      invariant Nat(ds) + rest * Pow(i) == NatPrefix(a, i) * n
    {
      ScalarStep(ds, a, i, n, rest);
      var cur := a[i] * n + rest;
      rest := cur / BASE;
      ds := ds[i := cur - rest * BASE];
      i := i + 1;
    }
  }

  /** operator*(BigInteger, int64_t): zero when either factor is zero;
      otherwise the sign is the xor of the signs, each limb times |n| plus
      the carry is split into a digit and the next carry, and a final carry
      becomes one more limb, followed by trimLeft.  That last limb is only a
      base-10^9 digit when |n| <= BASE; see MulScalarCarried. */
  method MulScalar(a: BigInteger, number: int) returns (r: BigInteger)
    requires WellFormed(a)
    requires BASE * AbsInt(number) < UINT64_LIMIT
    ensures Value(r) == Value(a) * number
    ensures !ToBool(a) || number == 0 ==> r == Zero
    ensures ToBool(a) && number != 0 ==> r.negative == (a.negative != (number < 0))
    ensures 1 <= |r.digits| <= |a.digits| + 1 && (|r.digits| == 1 || r.digits[|r.digits| - 1] != 0)
    ensures forall i :: 0 <= i < |r.digits| - 1 ==> r.digits[i] < BASE
    ensures AbsInt(number) <= BASE ==> Canonical(r)
  {
    if !ToBool(a) || number == 0 {
      NatSingle(0);
      return Zero;
    }
    var negative := a.negative != (number < 0);
    var n := AbsInt(number);
    var ds: seq<nat>, rest: nat := ScaleLimbs(a.digits, n);
    if rest != 0 {
      NatSnoc(ds, rest);
      ds := ds + [rest];
    }
    ScaledValue(a, number, ds);
    r := TrimLeft(BigInteger(ds, negative));
  }

  /** The top limb operator*(BigInteger, int64_t) leaves can exceed a digit:
      999999999 * 18446744073 comes out as two limbs, and two limbs that are
      both digits cannot denote that product. */
  lemma ScalarOverflowWitness(r: BigInteger)
    requires WellFormed(r) && |r.digits| <= 2
    ensures Value(r) != 999_999_999 * 18_446_744_073
  {
    NatBound(r.digits);
    PowMonotone(|r.digits|, 2);
    assert Pow(2) == BASE * BASE;
  }

  /** Such a result compares below 10^18, although it denotes more. */
  lemma ScalarOverflowOrder(r: BigInteger)
    requires |r.digits| == 2 && !r.negative && Value(r) == 999_999_999 * 18_446_744_073
    ensures LessSpec(r, BigInteger([0, 0, 1], false))
    ensures Value(r) > Value(BigInteger([0, 0, 1], false))
  {
    assert Nat([0, 0, 1]) == BASE * BASE by {
      NatLast([0, 0, 1]);
      assert [0, 0, 1][..2] == [0, 0];
      NatLast([0, 0]);
      assert [0, 0][..1] == [0];
      NatSingle(0);
    }
  }

  /** operator*(BigInteger, int64_t) with the final carry split into as
      many limbs as it needs, so that every limb is a digit for any factor
      the 64-bit arithmetic admits. */
  method MulScalarCarried(a: BigInteger, number: int) returns (r: BigInteger)
    requires WellFormed(a)
    requires BASE * AbsInt(number) < UINT64_LIMIT
    ensures Canonical(r) && Value(r) == Value(a) * number
    ensures !ToBool(a) || number == 0 ==> r == Zero
    ensures ToBool(a) && number != 0 ==> r.negative == (a.negative != (number < 0))
  {
    if !ToBool(a) || number == 0 {
      NatSingle(0);
      return Zero;
    }
    var negative := a.negative != (number < 0);
    var n := AbsInt(number);
    var ds: seq<nat>, rest: nat := ScaleLimbs(a.digits, n);
    while rest != 0
      invariant AllLimbs(ds) && |ds| >= 1
      invariant Nat(ds) + Pow(|ds|) * rest == Nat(a.digits) * n
    {
      SplitLowLimb(ds, rest);
      ds := ds + [rest % BASE];
      rest := rest / BASE;
    }
    ScaledValue(a, number, ds);
    r := TrimLeft(BigInteger(ds, negative));
  }

  /** One step of the inner loop of operator*(BigInteger, BigInteger): limb
      i+j of the product receives lhs[i] * rhs[j] plus the carry and is
      reduced to a digit, the excess becoming the next carry. */
  lemma ProductStep(ds: seq<nat>, l: seq<nat>, r: seq<nat>, i: nat, j: nat, rest: nat, done: int)
    requires i < |l| && j < |r| && i + j < |ds| && AllLimbs(l) && AllLimbs(r)
    requires ds[i + j] < BASE && rest < BASE
    requires Nat(ds) + rest * Pow(i + j) == done + l[i] * NatPrefix(r, j) * Pow(i)
    ensures var cur := ds[i + j] + l[i] * r[j] + rest;
            && 0 <= cur && cur / BASE < BASE
            && Nat(ds[i + j := cur - (cur / BASE) * BASE]) + (cur / BASE) * Pow(i + (j + 1))
               == done + l[i] * NatPrefix(r, j + 1) * Pow(i)
  {
    var k := i + j;
    var cur := ds[k] + l[i] * r[j] + rest;
    ProductBound(ds[k], l[i], r[j], rest);
    var P := Pow(k);
    var lo, hi := cur % BASE, cur / BASE;
    NatUpdate(ds, k, lo);
    PlaceValue(P, Pow(k + 1), lo, hi, cur);
    PowAdd(i, j);
    ProductArith(ds[k], l[i], r[j], rest, NatPrefix(r, j), NatPrefix(r, j + 1),
                 Pow(i), Pow(j), P, cur);
    assert hi * Pow(k + 1) == Pow(k + 1) * hi;
  }

  /** Three digits and a product of two digits stay below BASE^2. */
  lemma ProductBound(d: nat, li: nat, rj: nat, rest: nat)
    requires d < BASE && li < BASE && rj < BASE && rest < BASE
    ensures var cur := d + li * rj + rest;
            0 <= cur && cur / BASE < BASE
  {
    MulMono(li, BASE - 1, rj);
    DivBelow(d + li * rj + rest, BASE);
  }

  lemma ProductArith(d: int, li: int, rj: int, rest: int, A: int, A2: int,
                     PI: int, PJ: int, P: int, cur: int)
    requires P == PI * PJ && A2 == A + rj * PJ && cur == d + li * rj + rest
    ensures P * cur == d * P + li * A2 * PI - li * A * PI + rest * P
  {
    assert li * A2 * PI == li * A * PI + (li * rj) * (PI * PJ);
  }

  /** The end of a row: the carry left after the inner loop goes into limb
      i + |r|, which is still zero, and the product so far covers lhs[i]. */
  lemma ProductRow(ds: seq<nat>, l: seq<nat>, r: seq<nat>, i: nat, rest: nat, done: int)
    requires i < |l| && i + |r| < |ds| && ds[i + |r|] == 0 && done == NatPrefix(l, i) * Nat(r)
    requires Nat(ds) + rest * Pow(i + |r|) == done + l[i] * NatPrefix(r, |r|) * Pow(i)
    ensures Nat(ds[i + |r| := ds[i + |r|] + rest]) == NatPrefix(l, i + 1) * Nat(r)
    ensures rest == 0 ==> Nat(ds) == NatPrefix(l, i + 1) * Nat(r)
  {
    AddAt(ds, i + |r|, rest);
    RowArith(NatPrefix(l, i), NatPrefix(l, i + 1), l[i], Nat(r), Pow(i));
    if rest == 0 {
      assert ds[i + |r| := ds[i + |r|] + rest] == ds;
    }
  }

  lemma RowArith(low: int, high: int, li: int, R: int, PI: int)
    requires high == low + li * PI
    ensures high * R == low * R + li * R * PI
  {
  }

  /** The limbs of |lhs| * |rhs|, with the xor of the signs, denote
      lhs * rhs. */
  lemma ProductValue(lhs: BigInteger, rhs: BigInteger, ds: seq<nat>)
    requires Nat(ds) == Nat(lhs.digits) * Nat(rhs.digits)
    ensures Value(BigInteger(ds, lhs.negative != rhs.negative)) == Value(lhs) * Value(rhs)
  {
    MulNeg(Nat(lhs.digits), Nat(rhs.digits));
  }

  /** One row of the schoolbook product: lhs[i] times every limb of rhs is
      added into the buffer from limb i up, with a carry, and the last carry
      goes into limb i + |rhs|, which is still zero. */
  method AddRow(ds: seq<nat>, l: seq<nat>, r: seq<nat>, i: nat) returns (row: seq<nat>)
    requires i < |l| && i + |r| < |ds| && AllLimbs(ds) && AllLimbs(l) && AllLimbs(r)
    requires forall k :: i + |r| <= k < |ds| ==> ds[k] == 0
    requires Nat(ds) == NatPrefix(l, i) * Nat(r)
    ensures |row| == |ds| && AllLimbs(row)
    ensures forall k :: i + 1 + |r| <= k < |row| ==> row[k] == 0
    ensures Nat(row) == NatPrefix(l, i + 1) * Nat(r)
  {
    ghost var done := Nat(ds);
    row := ds;
    var rest: nat := 0;
    var j := 0;
    assert l[i] * NatPrefix(r, 0) * Pow(i) == 0;
    while j < |r|
      invariant 0 <= j <= |r| && |row| == |ds| && AllLimbs(row)
      invariant forall k :: i + |r| <= k < |row| ==> row[k] == 0
      invariant rest < BASE
      invariant Nat(row) + rest * Pow(i + j) == done + l[i] * NatPrefix(r, j) * Pow(i)
    {
      ProductStep(row, l, r, i, j, rest, done);
      var cur := row[i + j] + l[i] * r[j] + rest;
      rest := cur / BASE;
      row := row[i + j := cur - rest * BASE];
      j := j + 1;
    }
    ProductRow(row, l, r, i, rest, done);
    if rest != 0 {
      row := row[i + |r| := row[i + |r|] + rest];
    }
  }

  /** operator*(BigInteger, BigInteger): zero when either factor is zero;
      otherwise schoolbook multiplication into a zeroed buffer of
      |lhs| + |rhs| + 1 limbs, row by row with a carry, then trimLeft, and
      the sign is the xor of the signs. */
  method Mul(lhs: BigInteger, rhs: BigInteger) returns (r: BigInteger)
    requires WellFormed(lhs) && WellFormed(rhs)
    ensures Canonical(r) && Value(r) == Value(lhs) * Value(rhs)
    ensures !ToBool(lhs) || !ToBool(rhs) ==> r == Zero
    ensures r.negative <==> ToBool(lhs) && ToBool(rhs) && lhs.negative != rhs.negative
    ensures Canonical(lhs) && Canonical(rhs) ==> (r.negative <==> Value(r) < 0)
  {
    if !ToBool(lhs) || !ToBool(rhs) {
      NatSingle(0);
      return Zero;
    }
    var sz1, sz2 := |lhs.digits|, |rhs.digits|;
    var ds: seq<nat> := Filled(0, sz1 + sz2 + 1).digits;
    var i := 0;
    while i < sz1
      invariant 0 <= i <= sz1 && |ds| == sz1 + sz2 + 1 && AllLimbs(ds)
      invariant forall k :: i + sz2 <= k < |ds| ==> ds[k] == 0
      invariant Nat(ds) == NatPrefix(lhs.digits, i) * Nat(rhs.digits)
    {
      ds := AddRow(ds, lhs.digits, rhs.digits, i);
      i := i + 1;
    }
    ProductValue(lhs, rhs, ds);
    r := TrimLeft(BigInteger(ds, false));
    r := BigInteger(r.digits, lhs.negative != rhs.negative);
    if Canonical(lhs) && Canonical(rhs) {
      CanonicalZero(lhs);
      CanonicalZero(rhs);
    }
  }

  /** operator/(BigInteger, int64_t) keeps its remainder in an `int`; a
      positive divisor up to 2^31 keeps every remainder representable. */
  const INT_REMAINDER_LIMIT: int := 0x8000_0000

  /** One step of operator/(BigInteger, int64_t), from the top limb down:
      the remainder so far times BASE plus limb i-1 is divided by n, giving
      quotient limb i-1 and the next remainder. */
  lemma QuotientStep(a: seq<nat>, q: seq<nat>, i: nat, n: nat, rest: nat, qd: nat, rd: nat)
    requires 0 < i <= |a| <= |q|
    requires Nat(a[i..]) == n * Nat(q[i..]) + rest
    requires rest * BASE + a[i - 1] == n * qd + rd
    ensures Nat(a[i - 1..]) == n * Nat(q[i - 1 := qd][i - 1..]) + rd
  {
    var q2 := q[i - 1 := qd];
    NatSuffix(a, i - 1);
    assert q2[i..] == q[i..];
    NatSuffix(q2, i - 1);
    QuotientArith(a[i - 1], Nat(a[i..]), Nat(q[i..]), rest, n, rest * BASE + a[i - 1], qd, rd);
  }

  /** A remainder below n, times BASE, plus a digit, divided by n, gives a
      digit. */
  lemma QuotientBound(rest: nat, ai: nat, n: nat)
    requires 0 < n && rest < n && ai < BASE
    ensures var cur := rest * BASE + ai;
            0 <= cur / n < BASE && 0 <= cur % n < n
  {
    var cur := rest * BASE + ai;
    MulMono(rest, n - 1, BASE);
    assert cur < n * BASE;
    var qd := cur / n;
    assert cur == n * qd + cur % n;
    if qd >= BASE {
      MulMono(BASE, qd, n);
    }
  }

  lemma QuotientArith(ai: int, A: int, Q: int, rest: int, n: int, cur: int, qd: int, rd: int)
    requires A == n * Q + rest && cur == rest * BASE + ai && cur == n * qd + rd
    ensures ai + BASE * A == n * (qd + BASE * Q) + rd
  {
    assert BASE * (n * Q) == n * (BASE * Q);
  }

  /** Division with remainder determines the quotient. */
  lemma DivUnique(x: int, n: int, q: int, r: int)
    requires 0 < n && 0 <= r < n && x == n * q + r
    ensures q == x / n
  {
    var q', r' := x / n, x % n;
    if q < q' {
      MulMono(q + 1, q', n);
    } else if q' < q {
      MulMono(q' + 1, q, n);
    }
  }

  /** operator/(BigInteger, int64_t): long division by a machine integer,
      from the most significant limb down, with the sign of a, then
      trimLeft.  The quotient rounds toward zero. */
  method DivScalar(a: BigInteger, n: int) returns (r: BigInteger)
    requires WellFormed(a) && 0 < n <= INT_REMAINDER_LIMIT
    ensures Canonical(r) && r.negative == a.negative
    ensures Value(r) == TruncDiv(Value(a), n)
  {
    var rest: nat := 0;
    var ds: seq<nat> := Filled(0, |a.digits|).digits;
    var i := |a.digits|;
    while i > 0
      invariant 0 <= i <= |a.digits| == |ds| && AllLimbs(ds) && rest < n
      invariant Nat(a.digits[i..]) == n * Nat(ds[i..]) + rest
    {
      var cur := rest * BASE + a.digits[i - 1];
      QuotientBound(rest, a.digits[i - 1], n);
      QuotientStep(a.digits, ds, i, n, rest, cur / n, cur % n);
      ds := ds[i - 1 := cur / n];
      rest := cur % n;
      i := i - 1;
    }
    assert a.digits[0..] == a.digits && ds[0..] == ds;
    DivUnique(Nat(a.digits), n, Nat(ds), rest);
    r := TrimLeft(BigInteger(ds, a.negative != (n < 0)));
  }

  /** The start of each round of long division: push_back(0), shiftLeft
      and trimLeft move the running remainder up one limb, and the next
      limb of the dividend is written into limb 0. */
  method BringDown(cur: BigInteger, limb: nat) returns (next: BigInteger)
    requires Canonical(cur) && !cur.negative && limb < BASE
    ensures Canonical(next) && !next.negative
    ensures Nat(next.digits) == limb + BASE * Nat(cur.digits)
  {
    NatZeros(cur.digits, 1);
    var pushed := BigInteger(cur.digits + [0], cur.negative);
    var shifted := ShiftLeft(pushed);
    ghost var s := shifted.digits;
    assert s == [cur.digits[0]] + cur.digits;
    assert s[1..] == cur.digits && s[0..] == s;
    NatSuffix(s, 0);
    assert WellFormed(shifted);
    var trimmed := TrimLeft(shifted);
    ghost var t := trimmed.digits;
    assert Nat(t) == Nat(s) && t[0] == s[0];
    next := BigInteger(trimmed.digits[0 := limb], trimmed.negative);
    NatSetLow(t, limb);
  }

  /** Replacing the lowest limb. */
  lemma NatSetLow(s: seq<nat>, x: nat)
    requires |s| > 0
    ensures Nat(s[0 := x]) == Nat(s) - s[0] + x
  {
    NatUpdate(s, 0, x);
    assert Pow(0) == 1;
  }

  /** What the binary search of long division establishes about its
      answer x: the largest multiple of the divisor d not above c. */
  lemma SearchResult(c: int, d: int, x: int)
    requires 0 < d && 0 <= c < d * BASE && 0 <= x <= BASE
    requires d * x <= c && (x < BASE ==> c < d * (x + 1))
    ensures x < BASE && x == c / d && c - d * x == c % d
  {
    DivUnique(c, d, x, c - d * x);
  }

  /** The binary search for one quotient limb: the largest x in [0, BASE]
      with |b| * x <= the running remainder. */
  method QuotientDigit(divisor: BigInteger, current: BigInteger) returns (x: nat)
    requires WellFormed(divisor) && !divisor.negative && Nat(divisor.digits) > 0
    requires Canonical(current) && !current.negative
    requires Nat(current.digits) < Nat(divisor.digits) * BASE
    ensures x < BASE && x == Nat(current.digits) / Nat(divisor.digits)
    ensures 0 <= Nat(current.digits) - Nat(divisor.digits) * x < Nat(divisor.digits)
  {
    ghost var d, c := Nat(divisor.digits), Nat(current.digits);
    x := 0;
    var l, r := 0, BASE as int;
    while l <= r
      invariant 0 <= l <= r + 1 <= BASE + 1
      invariant x == if l == 0 then 0 else l - 1
      invariant l > 0 ==> d * (l - 1) <= c
      invariant r < BASE ==> c < d * (r + 1)
      decreases r - l + 1
    {
      var m := (l + r) / 2;
      var product := MulScalar(divisor, m);
      var fits := LessEq(product, current);
      if fits {
        x := m;
        l := m + 1;
      } else {
        r := m - 1;
      }
    }
    SearchResult(c, d, x);
  }

  /** Below the divisor, times BASE, plus a digit, stays below the divisor
      times BASE. */
  lemma DigitRoom(rest: nat, limb: nat, d: nat)
    requires rest < d && limb < BASE
    ensures limb + BASE * rest < d * BASE
  {
    MulMono(rest + 1, d, BASE);
  }

  /** A dividend smaller in magnitude than the divisor truncates to 0. */
  lemma DivSmall(x: int, y: int)
    requires y != 0 && (if x < 0 then -x else x) < (if y < 0 then -y else y)
    ensures TruncDiv(x, y) == 0
  {
  }

  /** The magnitude of the quotient, with the xor of the signs, is the
      truncating quotient of the values. */
  lemma QuotientValue(a: BigInteger, b: BigInteger, ds: seq<nat>)
    requires Nat(b.digits) > 0
    requires Nat(ds) == Nat(a.digits) / Nat(b.digits)
    ensures Value(BigInteger(ds, a.negative != b.negative)) == TruncDiv(Value(a), Value(b))
  {
  }

  /** operator/(BigInteger, BigInteger): zero when either operand is zero
      or |b| > |a|; otherwise long division from the top limb down, each
      quotient limb found by binary search, the running remainder reduced by
      |b| times that limb; the sign is the xor of the signs, then trimLeft.
      On trimmed operands the quotient rounds toward zero. */
  method Div(a: BigInteger, b: BigInteger) returns (r: BigInteger)
    requires WellFormed(a) && WellFormed(b)
    requires ToBool(b) ==> Nat(b.digits) > 0
    ensures Canonical(r)
    ensures !ToBool(a) || !ToBool(b) || MagLess(a.digits, b.digits) ==> r == Zero
    ensures r.negative <==> ToBool(a) && ToBool(b) && !MagLess(a.digits, b.digits)
                             && a.negative != b.negative
    ensures ToBool(b) && !MagLess(a.digits, b.digits) ==>
              Nat(r.digits) == Nat(a.digits) / Nat(b.digits)
    ensures Canonical(b) && ToBool(b) ==> Value(r) == TruncDiv(Value(a), Value(b))
  {
    if !ToBool(a) || !ToBool(b) {
      NatSingle(0);
      return Zero;
    }
    var bigger := Greater(Abs(b), Abs(a));
    if bigger {
      NatSingle(0);
      if Canonical(b) {
        MagLessBelow(a.digits, b.digits);
        DivSmall(Value(a), Value(b));
      }
      return Zero;
    }
    var absB := Abs(b);
    var fraction := LongDivision(a, absB);
    if Canonical(b) {
      QuotientValue(a, b, fraction);
    }
    r := TrimLeft(BigInteger(fraction, a.negative != b.negative));
  }

  /** The loop of operator/: from the top limb of a down, bring the next
      limb into the running remainder, find the quotient limb by binary
      search and subtract |b| times it.  The limbs found, one more than a
      has, denote |a| / |b|. */
  method LongDivision(a: BigInteger, absB: BigInteger) returns (fraction: seq<nat>)
    requires WellFormed(a) && WellFormed(absB) && !absB.negative && Nat(absB.digits) > 0
    ensures |fraction| == |a.digits| + 1 && AllLimbs(fraction)
    ensures Nat(fraction) == Nat(a.digits) / Nat(absB.digits)
  {
    ghost var d := Nat(absB.digits);
    fraction := Filled(0, |a.digits| + 1).digits;
    var current := Zero;
    NatSingle(0);
    var i := |a.digits|;
    assert fraction[i..] == [0];
    while i > 0
      invariant 0 <= i <= |a.digits| && |fraction| == |a.digits| + 1
      invariant AllLimbs(fraction) && fraction[|a.digits|] == 0
      invariant Canonical(current) && !current.negative && Nat(current.digits) < d
      invariant Nat(a.digits[i..]) == d * Nat(fraction[i..]) + Nat(current.digits)
    {
      var next := BringDown(current, a.digits[i - 1]);
      DigitRoom(Nat(current.digits), a.digits[i - 1], d);
      var x := QuotientDigit(absB, next);
      QuotientStep(a.digits, fraction, i, d, Nat(current.digits), x, Nat(next.digits) - d * x);
      fraction := fraction[i - 1 := x];
      var taken := MulScalar(absB, x);
      current := Sub(next, taken);
      i := i - 1;
    }
    assert a.digits[0..] == a.digits && fraction[0..] == fraction;
    DivUnique(Nat(a.digits), d, Nat(fraction), Nat(current.digits));
  }

  /** operator%: a itself when a < b (by operator<, so -7 % 3 is -7); zero
      when a == 0 or b == 0 as operator== sees it; otherwise a - b * (a / b).
      On trimmed operands the last case is the remainder of truncating
      division, and a "-0" divisor leaves the value of a. */
  method Mod(a: BigInteger, b: BigInteger) returns (r: BigInteger)
    requires WellFormed(a) && WellFormed(b)
    requires ToBool(b) ==> Nat(b.digits) > 0
    ensures LessSpec(a, b) ==> r == a
    ensures !LessSpec(a, b) && (a == Zero || b == Zero) ==> r == Zero
    ensures !LessSpec(a, b) ==> Canonical(r)
    ensures Canonical(a) && Canonical(b) && ToBool(b) && !LessSpec(a, b) ==>
              Value(r) == TruncMod(Value(a), Value(b))
    ensures Canonical(a) && Canonical(b) && !ToBool(b) && b.negative && !LessSpec(a, b) && a != Zero ==>
              Value(r) == Value(a)
    ensures Canonical(a) && Canonical(b) && !a.negative && !b.negative && ToBool(b) ==>
              Value(r) == Value(a) % Value(b) && !r.negative
  {
    var less := Less(a, b);
    if less {
      if Canonical(a) && Canonical(b) && !a.negative && !b.negative && ToBool(b) {
        LessSpecValue(a, b);
        ModSmall(Value(a), Value(b));
      }
      return WithSign(a, a.negative);
    }
    var aZero := Equal(a, Zero);
    var bZero := Equal(b, Zero);
    if aZero || bZero {
      if Canonical(b) {
        CanonicalZero(b);
      }
      return Zero;
    }
    var quotient := Div(a, b);
    var product := Mul(b, quotient);
    r := Sub(a, product);
    if Canonical(a) && Canonical(b) && ToBool(b) {
      CanonicalZero(b);
      TruncDivMod(Value(a), Value(b));
      ModNonNegative(Value(a), Value(b));
    }
  }

  lemma ModSmall(x: int, y: int)
    requires 0 <= x < y
    ensures x % y == x
  {
  }

  /** For a non-negative dividend and a positive divisor, truncating and
      Euclidean remainders agree. */
  lemma ModNonNegative(x: int, y: int)
    requires y != 0
    ensures x >= 0 && y > 0 ==> TruncMod(x, y) == x % y
  {
  }

  /** Prefix operator++: *this += 1. */
  method PreIncrement(b: BigInteger) returns (r: BigInteger)
    requires WellFormed(b)
    ensures Canonical(r)
    ensures Canonical(b) ==> Value(r) == Value(b) + 1 && (r.negative <==> Value(r) < 0)
  {
    NatSingle(1);
    r := Add(b, One);
  }

  /** Postfix operator++: the value before, and the incremented value. */
  method PostIncrement(b: BigInteger) returns (result: BigInteger, updated: BigInteger)
    requires WellFormed(b)
    ensures result == b && Canonical(updated)
    ensures Canonical(b) ==> Value(updated) == Value(b) + 1
  {
    result := b;
    updated := PreIncrement(b);
  }

  /** Prefix operator--: *this -= BigInteger(1). */
  method PreDecrement(b: BigInteger) returns (r: BigInteger)
    requires WellFormed(b)
    ensures Canonical(r)
    ensures Canonical(b) ==>
              Value(r) == Value(b) - 1 && (r.negative <==> Value(r) < 0 || (Value(r) == 0 && b.negative))
  {
    NatSingle(1);
    r := Sub(b, One);
  }

  /** Postfix operator--: the value before, and the decremented value. */
  method PostDecrement(b: BigInteger) returns (result: BigInteger, updated: BigInteger)
    requires WellFormed(b)
    ensures result == b && Canonical(updated)
    ensures Canonical(b) ==> Value(updated) == Value(b) - 1
  {
    result := b;
    updated := PreDecrement(b);
  }
}

/**
 * Base-10^9 limb sequences, least significant limb first, and the
 * natural number they denote.  This is the magnitude representation
 * of a BigInteger (the `digits_` vector).
 */
module Limbs {

  /** BASE = 10^BASE_LENGTH with BASE_LENGTH = 9. */
  const BASE: nat := 1_000_000_000

  function Pow(k: nat): (r: nat)
    ensures r >= 1
  {
    if k == 0 then 1 else BASE * Pow(k - 1)
  }

  lemma {:induction false} PowAdd(i: nat, j: nat)
    ensures Pow(i + j) == Pow(i) * Pow(j)
  {
    if j > 0 {
      PowAdd(i, j - 1);
      calc {
        Pow(i + j);
        BASE * Pow(i + j - 1);
        BASE * (Pow(i) * Pow(j - 1));
        Pow(i) * (BASE * Pow(j - 1));
      }
    }
  }

  lemma {:induction false} PowMonotone(i: nat, j: nat)
    requires i <= j
    ensures Pow(i) <= Pow(j)
  {
    if i < j {
      PowMonotone(i, j - 1);
    }
  }

  /** The number denoted by a limb sequence (limb i weighs BASE^i). */
  function Nat(s: seq<nat>): nat
  {
    NatPrefix(s, |s|)
  }

  /** The number denoted by the lowest k limbs. */
  function NatPrefix(s: seq<nat>, k: nat): nat
    requires k <= |s|
  {
    if k == 0 then 0 else NatPrefix(s, k - 1) + s[k - 1] * Pow(k - 1)
  }

  /** The lowest k limbs alone denote what they denote inside s. */
  lemma {:induction false} NatPrefixTake(s: seq<nat>, k: nat)
    requires k <= |s|
    ensures Nat(s[..k]) == NatPrefix(s, k)
  {
    NatPrefixAgree(s[..k], s, k);
  }

  lemma {:induction false} NatPrefixAgree(s: seq<nat>, t: seq<nat>, k: nat)
    requires k <= |s| && k <= |t|
    requires forall i :: 0 <= i < k ==> s[i] == t[i]
    ensures NatPrefix(s, k) == NatPrefix(t, k)
  {
    if k > 0 {
      NatPrefixAgree(s, t, k - 1);
    }
  }

  /** The top limb weighs BASE to the number of limbs below it. */
  lemma NatLast(s: seq<nat>)
    requires |s| > 0
    ensures Nat(s) == Nat(s[..|s| - 1]) + s[|s| - 1] * Pow(|s| - 1)
  {
    NatPrefixTake(s, |s| - 1);
  }

  /** Every limb is a base-10^9 digit. */
  predicate AllLimbs(s: seq<nat>)
  {
    forall i :: 0 <= i < |s| ==> s[i] < BASE
  }

  /** Trimmed form: at least one limb, all digits, no most-significant zero
      limb except the single limb of zero. */
  predicate Trimmed(s: seq<nat>)
  {
    |s| >= 1 && AllLimbs(s) && (|s| == 1 || s[|s| - 1] != 0)
  }

  function Zeros(n: nat): (r: seq<nat>)
    ensures |r| == n && forall i :: 0 <= i < n ==> r[i] == 0
  {
    seq(n, _ => 0)
  }

  lemma {:induction false} NatAppend(a: seq<nat>, b: seq<nat>)
    ensures Nat(a + b) == Nat(a) + Pow(|a|) * Nat(b)
  {
    if |b| > 0 {
      var b' := b[..|b| - 1];
      var last := b[|b| - 1];
      var ab := a + b;
      assert ab[..|ab| - 1] == a + b';
      assert ab[|ab| - 1] == last;
      NatLast(ab);
      NatLast(b);
      assert Nat(ab) == Nat(a + b') + last * Pow(|a| + |b'|);
      NatAppend(a, b');
      PowAdd(|a|, |b'|);
      var P, Q := Pow(|a|), Pow(|b'|);
      assert Nat(b) == Nat(b') + last * Q;
      MulLeft(P, Nat(b'), last * Q);
      MulAssoc(last, P, Q);
    } else {
      assert a + b == a;
    }
  }

  lemma MulLeft(p: int, x: int, y: int)
    ensures p * (x + y) == p * x + p * y
  {
  }

  lemma MulAssoc(x: int, p: int, q: int)
    ensures x * (p * q) == p * (x * q)
  {
  }

  lemma MulMono(a: int, b: int, p: nat)
    requires a <= b
    ensures a * p <= b * p
  {
  }

  /** Splitting at k: the low part plus BASE^k times the high part. */
  lemma NatSplit(s: seq<nat>, k: nat)
    requires k <= |s|
    ensures Nat(s) == Nat(s[..k]) + Pow(k) * Nat(s[k..])
  {
    assert s == s[..k] + s[k..];
    NatAppend(s[..k], s[k..]);
  }

  lemma NatSingle(d: nat)
    ensures Nat([d]) == d
  {
    NatLast([d]);
  }

  /** Putting a limb below a sequence multiplies it by BASE and adds the limb. */
  lemma NatCons(d: nat, s: seq<nat>)
    ensures Nat([d] + s) == d + BASE * Nat(s)
  {
    NatAppend([d], s);
    NatLast([d]);
    assert Pow(1) == BASE * Pow(0);
  }

  /** A suffix, one limb at a time from its low end. */
  lemma NatSuffix(s: seq<nat>, k: nat)
    requires k < |s|
    ensures Nat(s[k..]) == s[k] + BASE * Nat(s[k + 1..])
  {
    assert s[k..] == [s[k]] + s[k + 1..];
    NatCons(s[k], s[k + 1..]);
  }

  lemma NatSnoc(s: seq<nat>, d: nat)
    ensures Nat(s + [d]) == Nat(s) + d * Pow(|s|)
  {
    assert (s + [d])[..|s|] == s;
    NatLast(s + [d]);
  }

  /** Most-significant zero limbs do not change the value. */
  lemma {:induction false} NatZeros(s: seq<nat>, n: nat)
    ensures Nat(s + Zeros(n)) == Nat(s)
  {
    if n > 0 {
      assert (s + Zeros(n))[..|s| + n - 1] == s + Zeros(n - 1);
      NatLast(s + Zeros(n));
      NatZeros(s, n - 1);
    } else {
      assert s + Zeros(0) == s;
    }
  }

  lemma {:induction false} NatOfZeros(n: nat)
    ensures Nat(Zeros(n)) == 0
  {
    NatZeros([], n);
    assert [] + Zeros(n) == Zeros(n);
  }

  /** Replacing limb i by x changes the value by (x - s[i]) * BASE^i. */
  lemma NatUpdate(s: seq<nat>, i: nat, x: nat)
    requires i < |s|
    ensures Nat(s[i := x]) + s[i] * Pow(i) == Nat(s) + x * Pow(i)
  {
    var t := s[i := x];
    NatSplit(s, i);
    NatSplit(t, i);
    NatSuffix(s, i);
    NatSuffix(t, i);
    assert t[..i] == s[..i];
    assert t[i + 1..] == s[i + 1..];
    var L, P, H := Nat(s[..i]), Pow(i), Nat(s[i + 1..]);
    MulLeft(P, s[i], BASE * H);
    MulLeft(P, x, BASE * H);
  }

  /** A sequence of digits is below BASE^length. */
  lemma {:induction false} NatBound(s: seq<nat>)
    requires AllLimbs(s)
    ensures Nat(s) < Pow(|s|)
  {
    if |s| > 0 {
      var p := s[..|s| - 1];
      NatBound(p);
      var P := Pow(|p|);
      NatLast(s);
      MulMono(s[|s| - 1], BASE - 1, P);
      assert (BASE - 1) * P + P == BASE * P;
    }
  }

  /** A trimmed sequence of two or more limbs is at least BASE^(length-1). */
  lemma NatLowerBound(s: seq<nat>)
    requires Trimmed(s) && |s| > 1
    ensures Nat(s) >= Pow(|s| - 1)
  {
    NatLast(s);
    MulMono(1, s[|s| - 1], Pow(|s| - 1));
  }

  lemma TrimmedZero(s: seq<nat>)
    requires Trimmed(s)
    ensures Nat(s) == 0 <==> s == [0]
  {
    if |s| > 1 {
      NatLowerBound(s);
    } else {
      NatLast(s);
    }
  }

  /** Limb-wise comparison of the lowest k limbs, most significant first. */
  predicate LexLess(x: seq<nat>, y: seq<nat>, k: nat)
    requires k <= |x| && k <= |y|
  {
    k > 0 && (x[k - 1] < y[k - 1] || (x[k - 1] == y[k - 1] && LexLess(x, y, k - 1)))
  }

  /** The magnitude order used by operator<: the limb count first, then the
      limbs from the most significant one down. */
  predicate MagLess(x: seq<nat>, y: seq<nat>)
  {
    |x| < |y| || (|x| == |y| && LexLess(x, y, |x|))
  }

  lemma {:induction false} LexLessValue(x: seq<nat>, y: seq<nat>, k: nat)
    requires k <= |x| && k <= |y| && AllLimbs(x) && AllLimbs(y)
    ensures LexLess(x, y, k) <==> Nat(x[..k]) < Nat(y[..k])
    ensures Nat(x[..k]) == Nat(y[..k]) <==> x[..k] == y[..k]
  {
    if k > 0 {
      var xs, ys := x[..k - 1], y[..k - 1];
      var a, b := x[k - 1], y[k - 1];
      LexLessValue(x, y, k - 1);
      var p := Pow(k - 1);
      var X, Y := Nat(x[..k]), Nat(y[..k]);
      LastLimb(x, k);
      LastLimb(y, k);
      if a != b {
        assert x[..k] != y[..k] by { assert x[..k][k - 1] != y[..k][k - 1]; }
        if a < b {
          DigitDominates(Nat(xs), Nat(ys), a, b, p);
        } else {
          DigitDominates(Nat(ys), Nat(xs), b, a, p);
        }
      } else {
        assert x[..k] == xs + [a] && y[..k] == ys + [b];
      }
    }
  }

  /** The lowest k limbs are the lowest k-1 and limb k-1 on top. */
  lemma LastLimb(x: seq<nat>, k: nat)
    requires 0 < k <= |x| && AllLimbs(x)
    ensures Nat(x[..k]) == Nat(x[..k - 1]) + x[k - 1] * Pow(k - 1)
    ensures Nat(x[..k - 1]) < Pow(k - 1)
  {
    assert x[..k][..k - 1] == x[..k - 1];
    NatLast(x[..k]);
    NatBound(x[..k - 1]);
  }

  /** A higher digit outweighs anything below it. */
  lemma DigitDominates(lo1: nat, lo2: nat, a: nat, b: nat, p: nat)
    requires lo1 < p && a < b
    ensures lo1 + a * p < lo2 + b * p
  {
    MulMono(a + 1, b, p);
    MulLeft(p, a, 1);
  }

  /** On trimmed sequences the magnitude order is the order of the values. */
  lemma MagLessValue(x: seq<nat>, y: seq<nat>)
    requires Trimmed(x) && Trimmed(y)
    ensures MagLess(x, y) <==> Nat(x) < Nat(y)
    ensures Nat(x) == Nat(y) <==> x == y
  {
    if |x| < |y| {
      NatBound(x);
      NatLowerBound(y);
      PowMonotone(|x|, |y| - 1);
    } else if |y| < |x| {
      NatBound(y);
      NatLowerBound(x);
      PowMonotone(|y|, |x| - 1);
    } else {
      LexLessValue(x, y, |x|);
      assert x[..|x|] == x && y[..|y|] == y;
    }
  }

  /** Below a trimmed sequence in the magnitude order means a smaller value,
      whether or not the smaller one is trimmed. */
  lemma MagLessBelow(x: seq<nat>, y: seq<nat>)
    requires |x| >= 1 && AllLimbs(x) && Trimmed(y) && MagLess(x, y)
    ensures Nat(x) < Nat(y)
  {
    if |x| < |y| {
      NatBound(x);
      NatLowerBound(y);
      PowMonotone(|x|, |y| - 1);
    } else {
      LexLessValue(x, y, |x|);
      assert x[..|x|] == x && y[..|y|] == y;
    }
  }

  /** MagLess is a strict order: never both ways. */
  lemma {:induction false} LexLessAsymmetric(x: seq<nat>, y: seq<nat>, k: nat)
    requires k <= |x| && k <= |y|
    ensures !(LexLess(x, y, k) && LexLess(y, x, k))
  {
    if k > 0 {
      LexLessAsymmetric(x, y, k - 1);
    }
  }

  lemma MagLessAsymmetric(x: seq<nat>, y: seq<nat>)
    ensures !(MagLess(x, y) && MagLess(y, x))
  {
    if |x| == |y| {
      LexLessAsymmetric(x, y, |x|);
    }
  }

  lemma {:induction false} LexLessIrreflexive(x: seq<nat>, k: nat)
    requires k <= |x|
    ensures !LexLess(x, x, k)
  {
    if k > 0 {
      LexLessIrreflexive(x, k - 1);
    }
  }
}

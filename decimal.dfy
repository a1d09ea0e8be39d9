/**
 * Decimal text: digit strings, their values, the rendering of an unsigned
 * number (std::to_string), zero padding to the limb width, numToString and
 * decPow.
 */
module Decimal {

  /** BASE_LENGTH: a limb prints as at most nine decimal digits. */
  const BASE_LENGTH: nat := 9

  predicate IsDigit(c: char)
  {
    '0' <= c <= '9'
  }

  predicate AllDigits(s: string)
  {
    forall i :: 0 <= i < |s| ==> IsDigit(s[i])
  }

  function DigitValue(c: char): (d: nat)
    requires IsDigit(c)
    ensures d < 10
  {
    c as int - '0' as int
  }

  function DigitChar(d: nat): (c: char)
    requires d < 10
    ensures IsDigit(c) && DigitValue(c) == d
  {
    ('0' as int + d) as char
  }

  function Pow10(k: nat): (r: nat)
    ensures r >= 1
  {
    if k == 0 then 1 else 10 * Pow10(k - 1)
  }

  /** The number a digit string denotes, most significant digit first. */
  function DecVal(s: string): nat
    requires AllDigits(s)
  {
    if |s| == 0 then 0 else DecVal(s[..|s| - 1]) * 10 + DigitValue(s[|s| - 1])
  }

  /** No redundant leading zero: "0" itself, or a first digit other than 0. */
  predicate NoLeadingZero(s: string)
  {
    |s| >= 1 && (s[0] != '0' || |s| == 1)
  }

  /** std::to_string of an unsigned number. */
  function ToDec(n: nat): (r: string)
    ensures |r| >= 1 && AllDigits(r)
  {
    if n < 10 then [DigitChar(n)] else ToDec(n / 10) + [DigitChar(n % 10)]
  }

  /** `std::string(width - |s|, '0') + s` when s is shorter than width. */
  function ZeroPad(s: string, width: nat): (r: string)
    ensures |r| == if |s| < width then width else |s|
  {
    if |s| < width then seq(width - |s|, _ => '0') + s else s
  }

  /** numToString: the decimal text of a number as std::to_string prints it,
      padded to nine digits when fixW is set. */
  function NumToString(number: nat, fixW: bool): (r: string)
    ensures AllDigits(r)
    ensures number < Pow10(BASE_LENGTH) && fixW ==> |r| == BASE_LENGTH
    ensures DecVal(r) == number
    ensures !fixW || |r| > BASE_LENGTH ==> NoLeadingZero(r)
  {
    ToDecNoLeadingZero(number);
    assert number < Pow10(BASE_LENGTH) ==> |ToDec(number)| <= BASE_LENGTH by {
      if number < Pow10(BASE_LENGTH) {
        ToDecBound(number, BASE_LENGTH);
      }
    }
    DecValToDec(number);
    var tmp := ToDec(number);
    if |tmp| < BASE_LENGTH && fixW then
      LeadingZeros(BASE_LENGTH - |tmp|, tmp);
      ZeroPad(tmp, BASE_LENGTH)
    else
      tmp
  }

  /** decPow: "1" followed by pow zeros (10^pow), or "0" for a negative pow. */
  function DecPow(pow: int): (r: string)
    ensures AllDigits(r) && NoLeadingZero(r) && r[0] != '-'
    ensures DecVal(r) == if pow < 0 then 0 else Pow10(pow)
  {
    if pow < 0 then "0"
    else
      var t := "1" + seq(pow, _ => '0');
      DecValOneZeros(pow);
      t
  }

  lemma {:induction false} DecValOneZeros(k: nat)
    ensures AllDigits("1" + seq(k, _ => '0'))
    ensures DecVal("1" + seq(k, _ => '0')) == Pow10(k)
  {
    var t := "1" + seq(k, _ => '0');
    if k > 0 {
      assert t[..|t| - 1] == "1" + seq(k - 1, _ => '0');
      DecValOneZeros(k - 1);
    } else {
      assert t[..0] == [];
    }
  }

  /** Reading back what std::to_string printed gives the number. */
  lemma {:induction false} DecValToDec(n: nat)
    ensures DecVal(ToDec(n)) == n
  {
    if n >= 10 {
      var r := ToDec(n);
      assert r[..|r| - 1] == ToDec(n / 10);
      DecValToDec(n / 10);
    }
  }

  /** std::to_string never prints a redundant leading zero. */
  lemma {:induction false} ToDecNoLeadingZero(n: nat)
    ensures NoLeadingZero(ToDec(n))
    ensures n > 0 ==> ToDec(n)[0] != '0'
  {
    if n >= 10 {
      ToDecNoLeadingZero(n / 10);
    }
  }

  /** A number below 10^k prints in at most k digits. */
  lemma {:induction false} ToDecBound(n: nat, k: nat)
    requires k >= 1 && n < Pow10(k)
    ensures |ToDec(n)| <= k
  {
    if n >= 10 {
      ToDecBound(n / 10, k - 1);
    }
  }

  /** A digit string is below 10 to its length. */
  lemma {:induction false} DecValBound(s: string)
    requires AllDigits(s)
    ensures DecVal(s) < Pow10(|s|)
  {
    if |s| > 0 {
      DecValBound(s[..|s| - 1]);
    }
  }

  /** Prepending a digit adds it times 10 to the length of the rest. */
  lemma {:induction false} DecValPrepend(c: char, s: string)
    requires IsDigit(c) && AllDigits(s)
    ensures AllDigits([c] + s)
    ensures DecVal([c] + s) == DigitValue(c) * Pow10(|s|) + DecVal(s)
  {
    var t := [c] + s;
    if |s| > 0 {
      assert t[..|t| - 1] == [c] + s[..|s| - 1];
      DecValPrepend(c, s[..|s| - 1]);
      ShiftDigit(DigitValue(c), Pow10(|s| - 1), DecVal(s[..|s| - 1]), DigitValue(s[|s| - 1]));
    } else {
      assert t[..0] == [];
    }
  }

  /** Concatenation: the high part shifted by the length of the low part. */
  lemma {:induction false} DecValAppend(a: string, b: string)
    requires AllDigits(a) && AllDigits(b)
    ensures AllDigits(a + b)
    ensures DecVal(a + b) == DecVal(a) * Pow10(|b|) + DecVal(b)
  {
    var t := a + b;
    if |b| > 0 {
      assert t[..|t| - 1] == a + b[..|b| - 1];
      DecValAppend(a, b[..|b| - 1]);
      ShiftDigit(DecVal(a), Pow10(|b| - 1), DecVal(b[..|b| - 1]), DigitValue(b[|b| - 1]));
    } else {
      assert t == a;
    }
  }

  /** Appending one digit to a number with a high part h shifted by p. */
  lemma ShiftDigit(h: int, p: int, l: int, d: int)
    ensures (h * p + l) * 10 + d == h * (10 * p) + (l * 10 + d)
  {
  }

  /** Leading zeros do not change the value. */
  lemma LeadingZeros(k: nat, s: string)
    requires AllDigits(s)
    ensures AllDigits(seq(k, _ => '0') + s)
    ensures DecVal(seq(k, _ => '0') + s) == DecVal(s)
  {
    var z: string := seq(k, _ => '0');
    ZerosValue(k);
    DecValAppend(z, s);
  }

  lemma {:induction false} ZerosValue(k: nat)
    ensures AllDigits(seq(k, _ => '0'))
    ensures DecVal(seq(k, _ => '0')) == 0
  {
    var z: string := seq(k, _ => '0');
    if k > 0 {
      assert z[..k - 1] == seq(k - 1, _ => '0');
      ZerosValue(k - 1);
    }
  }

  /** std::to_string of the value of a digit string without redundant
      leading zeros is that string. */
  lemma {:induction false} ToDecDecVal(s: string)
    requires AllDigits(s) && NoLeadingZero(s)
    ensures ToDec(DecVal(s)) == s
  {
    var n := |s|;
    if n > 1 {
      var p := s[..n - 1];
      assert p[0] == s[0];
      ToDecDecVal(p);
      DecValPositive(p);
      assert DecVal(s) / 10 == DecVal(p);
      assert DecVal(s) % 10 == DigitValue(s[n - 1]);
      assert s == p + [s[n - 1]];
    } else {
      assert s == [s[0]];
    }
  }

  lemma DecValPositive(s: string)
    requires AllDigits(s) && |s| >= 1 && s[0] != '0'
    ensures DecVal(s) >= 1
  {
    DecValPrepend(s[0], s[1..]);
    assert s == [s[0]] + s[1..];
  }

  /** Printing the value of any digit string and padding it back to that
      string's width gives the string again (leading zeros included). */
  lemma {:induction false} PadRoundTrip(g: string)
    requires AllDigits(g) && |g| >= 1
    ensures ZeroPad(ToDec(DecVal(g)), |g|) == g
  {
    if NoLeadingZero(g) {
      ToDecDecVal(g);
    } else {
      var rest := g[1..];
      assert g == seq(1, _ => '0') + rest;
      LeadingZeros(1, rest);
      PadRoundTrip(rest);
      var t := ToDec(DecVal(rest));
      assert |t| <= |rest|;
      assert seq(|g| - |t|, _ => '0') == ['0'] + seq(|rest| - |t|, _ => '0');
    }
  }
}

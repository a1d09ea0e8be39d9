/**
 * Decimal text and BigInteger: the string constructor (and parseString,
 * which runs the same loop into a caller's buffer), and toString.
 *
 * Parsing reads the text from its least significant digit and cuts it into
 * groups of nine digits; limb k is the value of the k-th group from the
 * right.  Printing writes the top limb as it is and every lower limb padded
 * to nine digits.
 */
module BigIntText {
  import opened Limbs
  import opened Decimal
  import opened BigInt

  /** Text the string constructor accepts: an optional '-' then at least one
      decimal digit. */
  predicate WellFormedText(s: string)
  {
    if |s| >= 1 && s[0] == '-' then |s| >= 2 && AllDigits(s[1..])
    else |s| >= 1 && AllDigits(s)
  }

  /** The digits of the text, without the sign. */
  function Body(s: string): (r: string)
    requires WellFormedText(s)
    ensures AllDigits(r) && |r| >= 1
  {
    if s[0] == '-' then s[1..] else s
  }

  /** The number of limbs the constructor allocates: ceil(n / 9). */
  function LimbCount(n: nat): nat
  {
    n / BASE_LENGTH + (if n % BASE_LENGTH > 0 then 1 else 0)
  }

  /** Where group k (counted from the right, nine digits each) starts. */
  function GroupStart(n: nat, k: nat): nat
  {
    if n >= BASE_LENGTH * k + BASE_LENGTH then n - BASE_LENGTH * k - BASE_LENGTH else 0
  }

  /** The value of the k-th group of nine digits from the right. */
  function GroupValue(body: string, k: nat): nat
    requires AllDigits(body) && BASE_LENGTH * k < |body|
  {
    DecVal(body[GroupStart(|body|, k)..|body| - BASE_LENGTH * k])
  }

  /** The limbs of a digit string: one per group, least significant first. */
  function ParseLimbs(body: string): (r: seq<nat>)
    requires AllDigits(body)
    ensures |r| == LimbCount(|body|)
  {
    seq(LimbCount(|body|), k requires 0 <= k < LimbCount(|body|) => GroupValue(body, k))
  }

  /** What the string constructor builds from well-formed text. */
  function Parse(s: string): BigInteger
    requires WellFormedText(s)
  {
    BigInteger(ParseLimbs(Body(s)), s[0] == '-')
  }

  lemma LimbCountBound(n: nat, k: nat)
    ensures k < LimbCount(n) <==> BASE_LENGTH * k < n
  {
  }

  lemma Pow10Base()
    ensures Pow10(BASE_LENGTH) == BASE
  {
  }

  lemma {:induction false} Pow10Limbs(k: nat)
    ensures Pow10(BASE_LENGTH * k) == Pow(k)
  {
    if k > 0 {
      Pow10Limbs(k - 1);
      Pow10Add(BASE_LENGTH * (k - 1), BASE_LENGTH);
      Pow10Base();
    }
  }

  lemma {:induction false} Pow10Add(i: nat, j: nat)
    ensures Pow10(i + j) == Pow10(i) * Pow10(j)
  {
    if j > 0 {
      Pow10Add(i, j - 1);
      calc {
        Pow10(i + j);
        10 * Pow10(i + j - 1);
        10 * (Pow10(i) * Pow10(j - 1));
        Pow10(i) * (10 * Pow10(j - 1));
      }
    }
  }

  lemma {:induction false} Pow10Monotone(i: nat, j: nat)
    requires i <= j
    ensures Pow10(i) <= Pow10(j)
  {
    if i < j {
      Pow10Monotone(i, j - 1);
    }
  }

  /** A group of at most nine digits is a limb. */
  lemma GroupIsLimb(g: string)
    requires AllDigits(g) && |g| <= BASE_LENGTH
    ensures DecVal(g) < BASE
  {
    DecValBound(g);
    Pow10Monotone(|g|, BASE_LENGTH);
    Pow10Base();
  }

  /** The low group and the rest: the groups of body are its last nine
      digits followed by the groups of what precedes them. */
  lemma ParseLimbsCons(body: string)
    requires AllDigits(body) && |body| > BASE_LENGTH
    ensures ParseLimbs(body) ==
            [DecVal(body[|body| - BASE_LENGTH..])] + ParseLimbs(body[..|body| - BASE_LENGTH])
  {
    var n := |body|;
    var front := body[..n - BASE_LENGTH];
    var a := ParseLimbs(body);
    var b := [DecVal(body[n - BASE_LENGTH..])] + ParseLimbs(front);
    LimbCountStep(n);
    forall k | 0 <= k < |a|
      ensures a[k] == b[k]
    {
      if k > 0 {
        GroupValueShift(body, k);
        assert b[k] == ParseLimbs(front)[k - 1];
      } else {
        assert body[GroupStart(n, 0)..n] == body[n - BASE_LENGTH..];
      }
    }
  }

  /** Dropping the last nine digits drops one limb. */
  lemma LimbCountStep(n: nat)
    requires n > BASE_LENGTH
    ensures LimbCount(n) == LimbCount(n - BASE_LENGTH) + 1
  {
    assert n / BASE_LENGTH == (n - BASE_LENGTH) / BASE_LENGTH + 1;
    assert n % BASE_LENGTH == (n - BASE_LENGTH) % BASE_LENGTH;
  }

  /** Group k of body is group k - 1 of body without its last nine digits. */
  lemma GroupValueShift(body: string, k: nat)
    requires AllDigits(body) && 0 < k && BASE_LENGTH * k < |body|
    ensures AllDigits(body[..|body| - BASE_LENGTH])
    ensures BASE_LENGTH * (k - 1) < |body| - BASE_LENGTH
    ensures GroupValue(body[..|body| - BASE_LENGTH], k - 1) == GroupValue(body, k)
  {
    var n := |body|;
    var front := body[..n - BASE_LENGTH];
    assert BASE_LENGTH * (k - 1) == BASE_LENGTH * k - BASE_LENGTH;
    var lo, hi := GroupStart(n, k), n - BASE_LENGTH * k;
    assert GroupStart(|front|, k - 1) == lo && |front| - BASE_LENGTH * (k - 1) == hi;
    assert front[lo..hi] == body[lo..hi];
  }

  /** Every parsed limb is a base-10^9 digit. */
  lemma ParseLimbsAreLimbs(body: string)
    requires AllDigits(body)
    ensures AllLimbs(ParseLimbs(body))
  {
    var r := ParseLimbs(body);
    forall k | 0 <= k < |r|
      ensures r[k] < BASE
    {
      GroupIsLimb(body[GroupStart(|body|, k)..|body| - BASE_LENGTH * k]);
    }
  }

  /** Parsing keeps the value: the limbs denote the decimal number. */
  lemma {:induction false} ParseLimbsValue(body: string)
    requires AllDigits(body)
    ensures Nat(ParseLimbs(body)) == DecVal(body)
  {
    var n := |body|;
    if n > BASE_LENGTH {
      var front, low := body[..n - BASE_LENGTH], body[n - BASE_LENGTH..];
      ParseLimbsCons(body);
      NatCons(DecVal(low), ParseLimbs(front));
      ParseLimbsValue(front);
      assert body == front + low;
      DecValAppend(front, low);
      Pow10Base();
    } else if n > 0 {
      assert ParseLimbs(body) == [DecVal(body)] by {
        assert body[GroupStart(n, 0)..n] == body;
      }
      NatSingle(DecVal(body));
    } else {
      assert ParseLimbs(body) == [];
    }
  }

  /** Without redundant leading zeros the parsed limbs are trimmed. */
  lemma ParseLimbsTrimmed(body: string)
    requires AllDigits(body) && NoLeadingZero(body)
    ensures Trimmed(ParseLimbs(body))
  {
    var n := |body|;
    var r := ParseLimbs(body);
    ParseLimbsAreLimbs(body);
    if |r| > 1 {
      var top := |r| - 1;
      var g := body[GroupStart(n, top)..n - BASE_LENGTH * top];
      assert GroupStart(n, top) == 0;
      assert g[0] == body[0];
      DecValPositive(g);
    }
  }

  /** The limbs of a string are the limbs of its leading group on top of the
      limbs of the rest, when the rest is whole groups. */
  lemma ParseLimbsHead(head: string, g: string)
    requires AllDigits(head) && AllDigits(g)
    requires 1 <= |head| <= BASE_LENGTH && |g| % BASE_LENGTH == 0
    ensures AllDigits(head + g)
    ensures ParseLimbs(head + g) == ParseLimbs(g) + [DecVal(head)]
  {
    var body := head + g;
    var n := |body|;
    var a := ParseLimbs(body);
    var b := ParseLimbs(g) + [DecVal(head)];
    var m := |g| / BASE_LENGTH;
    assert |a| == m + 1 == |b|;
    forall k | 0 <= k < |a|
      ensures a[k] == b[k]
    {
      GroupOfConcat(head, g, k);
    }
  }

  lemma GroupOfConcat(head: string, g: string, k: nat)
    requires AllDigits(head) && AllDigits(g)
    requires 1 <= |head| <= BASE_LENGTH && |g| % BASE_LENGTH == 0
    requires k <= |g| / BASE_LENGTH
    ensures AllDigits(head + g) && BASE_LENGTH * k < |head + g|
    ensures k < |g| / BASE_LENGTH ==> GroupValue(head + g, k) == GroupValue(g, k)
    ensures k == |g| / BASE_LENGTH ==> GroupValue(head + g, k) == DecVal(head)
  {
    var body := head + g;
    var n := |body|;
    if k < |g| / BASE_LENGTH {
      assert body[GroupStart(n, k)..n - BASE_LENGTH * k]
          == g[GroupStart(|g|, k)..|g| - BASE_LENGTH * k];
    } else {
      assert body[GroupStart(n, k)..n - BASE_LENGTH * k] == head;
    }
  }

  /** The nine-digit rendering of the lower limbs, most significant first. */
  function Padded(d: seq<nat>): (r: string)
    ensures AllDigits(r)
  {
    if |d| == 0 then "" else Padded(d[1..]) + ZeroPad(ToDec(d[0]), BASE_LENGTH)
  }

  /** The digits toString prints for the limbs. */
  function RenderLimbs(d: seq<nat>): (r: string)
    requires |d| >= 1
    ensures AllDigits(r) && |r| >= 1
  {
    ToDec(d[|d| - 1]) + Padded(d[..|d| - 1])
  }

  /** What toString returns: "-" for a negative value that is not the single
      zero limb, then the digits. */
  function Render(b: BigInteger): string
  {
    (if b.negative && !(|b.digits| == 1 && b.digits[0] == 0) then "-" else "")
    + (if |b.digits| == 0 then "" else RenderLimbs(b.digits))
  }

  /** Padding a limb of nine digits at most gives exactly nine digits that
      read back as the limb. */
  lemma PadLimb(x: nat)
    requires x < BASE
    ensures |ZeroPad(ToDec(x), BASE_LENGTH)| == BASE_LENGTH
    ensures AllDigits(ZeroPad(ToDec(x), BASE_LENGTH))
    ensures DecVal(ZeroPad(ToDec(x), BASE_LENGTH)) == x
  {
    Pow10Base();
    ToDecBound(x, BASE_LENGTH);
    DecValToDec(x);
    var t := ToDec(x);
    if |t| < BASE_LENGTH {
      LeadingZeros(BASE_LENGTH - |t|, t);
    }
  }

  /** The padded lower limbs read back as their value. */
  lemma {:induction false} PaddedValue(d: seq<nat>)
    requires AllLimbs(d)
    ensures |Padded(d)| == BASE_LENGTH * |d|
    ensures DecVal(Padded(d)) == Nat(d)
  {
    if |d| > 0 {
      PaddedValue(d[1..]);
      PadLimb(d[0]);
      var hi, lo := Padded(d[1..]), ZeroPad(ToDec(d[0]), BASE_LENGTH);
      DecValAppend(hi, lo);
      Pow10Base();
      assert d == [d[0]] + d[1..];
      NatCons(d[0], d[1..]);
    }
  }

  /** The printed digits of any limbs, trimmed or not, read back as their
      value: an untrimmed top zero limb prints as a leading "0". */
  lemma RenderLimbsDecVal(d: seq<nat>)
    requires |d| >= 1 && AllLimbs(d)
    ensures DecVal(RenderLimbs(d)) == Nat(d)
  {
    var n := |d|;
    var low := d[..n - 1];
    var top := d[n - 1];
    PaddedValue(low);
    DecValToDec(top);
    DecValAppend(ToDec(top), Padded(low));
    Pow10Limbs(n - 1);
    assert d == low + [top];
    NatSnoc(low, top);
  }

  /** The printed digits of trimmed limbs read back as their value and have
      no redundant leading zero. */
  lemma RenderLimbsValue(d: seq<nat>)
    requires Trimmed(d)
    ensures NoLeadingZero(RenderLimbs(d))
    ensures DecVal(RenderLimbs(d)) == Nat(d)
  {
    RenderLimbsDecVal(d);
    ToDecNoLeadingZero(d[|d| - 1]);
  }

  /** Padding a limb in front of others appends its group at the end. */
  lemma PaddedCons(x: nat, rest: seq<nat>)
    ensures Padded([x] + rest) == Padded(rest) + ZeroPad(ToDec(x), BASE_LENGTH)
  {
    assert ([x] + rest)[1..] == rest;
  }

  /** Whole groups less the last one are whole groups of digits. */
  lemma DropGroup(g: string)
    requires AllDigits(g) && |g| % BASE_LENGTH == 0 && |g| > BASE_LENGTH
    ensures AllDigits(g[..|g| - BASE_LENGTH]) && (|g| - BASE_LENGTH) % BASE_LENGTH == 0
    ensures AllDigits(g[|g| - BASE_LENGTH..])
  {
  }

  /** Padded undoes the parsing of whole groups. */
  lemma {:induction false} PaddedGroups(g: string)
    requires AllDigits(g) && |g| % BASE_LENGTH == 0
    ensures Padded(ParseLimbs(g)) == g
  {
    var n := |g|;
    if n == BASE_LENGTH {
      assert ParseLimbs(g) == [DecVal(g)] by {
        assert g[GroupStart(n, 0)..n] == g;
      }
      PadRoundTrip(g);
      assert Padded([DecVal(g)]) == Padded([]) + ZeroPad(ToDec(DecVal(g)), BASE_LENGTH);
    } else if n > 0 {
      var front, low := g[..n - BASE_LENGTH], g[n - BASE_LENGTH..];
      assert g == front + low;
      DropGroup(g);
      PaddedGroups(front);
      PadRoundTrip(low);
      ParseLimbsCons(g);
      PaddedCons(DecVal(low), ParseLimbs(front));
    } else {
      assert ParseLimbs(g) == [];
    }
  }

  /** Printing what was parsed gives the digits back, when they have no
      redundant leading zero. */
  lemma RenderParseLimbs(body: string)
    requires AllDigits(body) && NoLeadingZero(body)
    ensures RenderLimbs(ParseLimbs(body)) == body
  {
    var n := |body|;
    var h := n - BASE_LENGTH * (LimbCount(n) - 1);
    var head, g := body[..h], body[h..];
    assert body == head + g;
    ParseLimbsHead(head, g);
    var limbs := ParseLimbs(body);
    assert limbs[..|limbs| - 1] == ParseLimbs(g);
    PaddedGroups(g);
    assert head[0] == body[0];
    ToDecDecVal(head);
  }

  /** Round trip one way: toString of the parsed text is the text, for text
      without redundant leading zeros other than "-0". */
  lemma RenderParse(s: string)
    requires WellFormedText(s) && NoLeadingZero(Body(s)) && s != "-0"
    ensures Render(Parse(s)) == s
  {
    var body := Body(s);
    var d := ParseLimbs(body);
    RenderParseLimbs(body);
    ParseLimbsTrimmed(body);
    ParseLimbsValue(body);
    TrimmedZero(d);
    if s[0] == '-' {
      assert s == "-" + body;
      if |body| == 1 {
        assert body == [body[0]];
      }
      assert body[0] != '0';
      DecValPositive(body);
    }
  }

  /** Round trip the other way: parsing what toString printed gives the
      value back, for canonical values other than "-0". */
  lemma ParseRender(b: BigInteger)
    requires Canonical(b) && !(b.negative && b.digits == [0])
    ensures WellFormedText(Render(b))
    ensures Parse(Render(b)) == b
  {
    var d := b.digits;
    var text := RenderLimbs(d);
    RenderLimbsValue(d);
    var s := Render(b);
    if b.negative {
      assert s == "-" + text;
      assert s[1..] == text;
    } else {
      assert s == text;
      assert text[0] != '-';
    }
    var p := ParseLimbs(text);
    ParseLimbsTrimmed(text);
    ParseLimbsValue(text);
    MagLessValue(p, d);
  }

  /** For every well-formed value, trimmed or not and "-0" included,
      parsing what toString printed gives the same integer. */
  lemma RenderValue(b: BigInteger)
    requires WellFormed(b)
    ensures WellFormedText(Render(b))
    ensures Value(Parse(Render(b))) == Value(b)
  {
    var d := b.digits;
    var text := RenderLimbs(d);
    RenderLimbsDecVal(d);
    ParseLimbsValue(text);
    var s := Render(b);
    if b.negative && !(|d| == 1 && d[0] == 0) {
      assert s == "-" + text;
      assert s[1..] == text;
    } else {
      assert s == text;
      assert text[0] != '-';
      if b.negative {
        assert d == [0];
        NatSingle(0);
      }
    }
  }

  /** The string constructor: the limbs of the digits, the sign from a
      leading '-'.  It does not trim, so redundant leading zeros give
      most-significant zero limbs. */
  method FromString(str: string) returns (r: BigInteger)
    requires WellFormedText(str)
    ensures r == Parse(str)
    ensures WellFormed(r) && |r.digits| == LimbCount(|Body(str)|)
    ensures Value(r) == if str[0] == '-' then -(DecVal(Body(str)) as int) else DecVal(Body(str))
    ensures NoLeadingZero(Body(str)) ==> Canonical(r)
  {
    var negative := str[0] == '-';
    var n := |str| - (if negative then 1 else 0);
    var digits := Zeros(LimbCount(n));
    digits := ParseInto(str, digits);
    r := BigInteger(digits, negative);
    var body := Body(str);
    assert digits == ParseLimbs(body);
    ParseLimbsAreLimbs(body);
    ParseLimbsValue(body);
    if NoLeadingZero(body) {
      ParseLimbsTrimmed(body);
    }
  }

  /** parseString: the parsing loop, writing the limbs into dest.  The top
      limb is written only when it is non-zero or when the sign character
      closes a full group; otherwise dest keeps what it held there. */
  method ParseInto(str: string, dest: seq<nat>) returns (res: seq<nat>)
    requires WellFormedText(str) && |dest| >= LimbCount(|Body(str)|)
    ensures |res| == |dest|
    ensures forall k :: 0 <= k < LimbCount(|Body(str)|) - 1 ==> res[k] == GroupValue(Body(str), k)
    ensures var top := LimbCount(|Body(str)|) - 1;
            res[top] == if GroupValue(Body(str), top) != 0 || (str[0] == '-' && |Body(str)| % BASE_LENGTH == 0)
                        then GroupValue(Body(str), top) else dest[top]
    ensures forall k :: LimbCount(|Body(str)|) <= k < |dest| ==> res[k] == dest[k]
  {
    ghost var body := Body(str);
    ghost var n := |body|;
    res := dest;
    var buffer: nat := 0;
    var pos := 0;
    var power: nat := 1;
    var i := 0;
    // i runs over the positions of the reversed text: position i is
    // str[|str| - 1 - i], which is body[n - 1 - i] while i < n.  The open
    // group holds the digits body[lo..hi].
    ghost var lo: nat, hi: nat := n, n;
    assert body[lo..hi] == [];
    while i < |str|
      invariant Reading(str, dest, i, pos, lo, hi, buffer, power, res)
      invariant i > 0 ==> 9 * pos < i
    {
      GroupBoundary(i, pos);
      if i % BASE_LENGTH == 0 && i > 0 {
        CloseGroup(str, dest, i, pos, lo, hi, buffer, power, res);
        res := res[pos := buffer];
        pos := pos + 1;
        hi := lo;
        buffer := 0;
        power := 1;
      }
      ReversedPosition(str, i);
      if str[|str| - 1 - i] != '-' {
        var c := str[|str| - 1 - i];
        ReadDigit(str, dest, i, pos, lo, hi, buffer, power, res);
        buffer := buffer + DigitValue(c) * power;
        power := power * 10;
        lo := lo - 1;
      } else {
        ReadSign(str, dest, i, pos, lo, hi, buffer, power, res);
      }
      i := i + 1;
    }
    ParsedAll(str, dest, pos, lo, hi, buffer, power, res);
    if buffer != 0 {
      res := res[pos := buffer];
    }
  }

  /** The state of the parsing loop before reversed position i: groups below
      pos are stored, the open group body[lo..hi] is in buffer, and power is
      ten to its length. */
  ghost predicate Reading(str: string, dest: seq<nat>, i: nat, pos: nat, lo: nat, hi: nat,
                          buffer: nat, power: nat, res: seq<nat>)
  {
    WellFormedText(str) &&
    var body := Body(str);
    var n := |body|;
    |dest| >= LimbCount(n) &&
    i <= |str| <= n + 1 &&
    (i == 0 ==> pos == 0) &&
    9 * pos <= i <= 9 * pos + 9 &&
    hi == n - 9 * pos &&
    (i <= n ==> lo == n - i) && (i > n ==> lo == 0) &&
    lo <= hi <= n && hi - lo <= 9 &&
    buffer == DecVal(body[lo..hi]) && power == Pow10(hi - lo) &&
    |res| == |dest| &&
    (forall k :: 0 <= k < pos ==> res[k] == GroupValue(body, k)) &&
    (forall k :: pos <= k < |dest| ==> res[k] == dest[k])
  }

  /** Closing a full group at a position that is a multiple of nine. */
  lemma CloseGroup(str: string, dest: seq<nat>, i: nat, pos: nat, lo: nat, hi: nat,
                   buffer: nat, power: nat, res: seq<nat>)
    requires Reading(str, dest, i, pos, lo, hi, buffer, power, res)
    requires i < |str| && i == 9 * pos + 9
    ensures pos < |res| && Reading(str, dest, i, pos + 1, lo, lo, 0, 1, res[pos := buffer])
  {
    var body := Body(str);
    var n := |body|;
    LimbCountFacts(n);
    assert GroupStart(n, pos) == lo;
    assert body[lo..lo] == [];
  }

  /** Passing over the sign, the last position of the reversed text. */
  lemma ReadSign(str: string, dest: seq<nat>, i: nat, pos: nat, lo: nat, hi: nat,
                 buffer: nat, power: nat, res: seq<nat>)
    requires Reading(str, dest, i, pos, lo, hi, buffer, power, res)
    requires i == |Body(str)| < |str| && i < 9 * pos + 9
    ensures Reading(str, dest, i + 1, pos, lo, hi, buffer, power, res)
  {
  }

  /** Reading the digit at reversed position i into the open group. */
  lemma ReadDigit(str: string, dest: seq<nat>, i: nat, pos: nat, lo: nat, hi: nat,
                  buffer: nat, power: nat, res: seq<nat>)
    requires Reading(str, dest, i, pos, lo, hi, buffer, power, res)
    requires i < |Body(str)| && i < 9 * pos + 9
    ensures lo > 0 && str[|str| - 1 - i] == Body(str)[lo - 1]
    ensures Reading(str, dest, i + 1, pos, lo - 1, hi,
                    buffer + DigitValue(str[|str| - 1 - i]) * power, power * 10, res)
  {
    var body := Body(str);
    ReversedPosition(str, i);
    DigitStep(body, lo, hi);
  }

  /** After the last position the open group is the top group; storing it
      when it is non-zero completes the limbs. */
  lemma ParsedAll(str: string, dest: seq<nat>, pos: nat, lo: nat, hi: nat,
                  buffer: nat, power: nat, res: seq<nat>)
    requires Reading(str, dest, |str|, pos, lo, hi, buffer, power, res)
    requires 9 * pos < |str|
    ensures buffer != 0 ==> pos < |res|
    ensures var final := if buffer != 0 then res[pos := buffer] else res;
            && |final| == |dest|
            && (forall k :: 0 <= k < LimbCount(|Body(str)|) - 1 ==> final[k] == GroupValue(Body(str), k))
            && (var top := LimbCount(|Body(str)|) - 1;
                final[top] == if GroupValue(Body(str), top) != 0 || (str[0] == '-' && |Body(str)| % BASE_LENGTH == 0)
                              then GroupValue(Body(str), top) else dest[top])
            && (forall k :: LimbCount(|Body(str)|) <= k < |dest| ==> final[k] == dest[k])
  {
    var body := Body(str);
    var n := |body|;
    LimbCountFacts(n);
    if hi > 0 {
      assert GroupStart(n, pos) == 0;
    } else {
      assert body[lo..hi] == [];
    }
  }

  /** ceil(n / 9) in linear terms. */
  lemma LimbCountFacts(n: nat)
    ensures n > 0 ==> BASE_LENGTH * (LimbCount(n) - 1) < n <= BASE_LENGTH * LimbCount(n)
    ensures n % BASE_LENGTH == 0 <==> n == BASE_LENGTH * LimbCount(n)
  {
  }

  /** Position i of the reversed text is a digit of the body exactly while
      i is below the number of digits; the sign is the last position. */
  lemma ReversedPosition(str: string, i: nat)
    requires WellFormedText(str) && i < |str|
    ensures str[|str| - 1 - i] != '-' <==> i < |Body(str)|
    ensures i < |Body(str)| ==> str[|str| - 1 - i] == Body(str)[|Body(str)| - 1 - i]
  {
  }

  /** Reading one more digit below the current group. */
  lemma DigitStep(body: string, lo: nat, hi: nat)
    requires AllDigits(body) && 0 < lo <= hi <= |body|
    ensures DecVal(body[lo - 1..hi]) == DigitValue(body[lo - 1]) * Pow10(hi - lo) + DecVal(body[lo..hi])
    ensures Pow10(hi - (lo - 1)) == Pow10(hi - lo) * 10
  {
    assert body[lo - 1..hi] == [body[lo - 1]] + body[lo..hi];
    DecValPrepend(body[lo - 1], body[lo..hi]);
  }

  /** Position i of the reversed text closes group pos exactly when it is a
      multiple of nine. */
  lemma GroupBoundary(i: nat, pos: nat)
    requires i > 0 ==> BASE_LENGTH * pos < i <= BASE_LENGTH * pos + BASE_LENGTH
    ensures i > 0 ==> (i % BASE_LENGTH == 0 <==> i == BASE_LENGTH * pos + BASE_LENGTH)
  {
  }

  /** toString. */
  method ToString(b: BigInteger) returns (s: string)
    requires forall i :: 0 <= i < |b.digits| - 1 ==> b.digits[i] < BASE
    ensures s == Render(b)
  {
    var size := |b.digits|;
    s := "";
    if b.negative && !(size == 1 && b.digits[0] == 0) {
      s := s + "-";
    }
    ghost var sign, printed := s, "";
    var i := 0;
    while i < size
      invariant 0 <= i <= size
      invariant s == sign + printed
      invariant i == 0 ==> printed == ""
      invariant i > 0 ==> printed == ToDec(b.digits[size - 1]) + PaddedFrom(b.digits, size - i, size - 1)
    {
      var tmp := ToDec(b.digits[size - i - 1]);
      if i > 0 {
        PaddedLimb(b.digits[size - i - 1]);
        tmp := seq(BASE_LENGTH - |tmp|, _ => '0') + tmp;
        AppendAssoc(ToDec(b.digits[size - 1]), PaddedFrom(b.digits, size - i, size - 1), tmp);
      } else {
        assert printed + tmp == tmp + PaddedFrom(b.digits, size - 1, size - 1);
      }
      AppendAssoc(sign, printed, tmp);
      s, printed := s + tmp, printed + tmp;
      i := i + 1;
    }
    if size > 0 {
      PaddedFromSlice(b.digits, 0, size - 1);
      assert b.digits[0..size - 1] == b.digits[..size - 1];
    } else {
      assert s == sign;
    }
  }

  /** Padded, on the limbs lo up to hi of d. */
  function PaddedFrom(d: seq<nat>, lo: nat, hi: nat): string
    requires lo <= hi <= |d|
    decreases hi - lo
  {
    if lo == hi then "" else PaddedFrom(d, lo + 1, hi) + ZeroPad(ToDec(d[lo]), BASE_LENGTH)
  }

  lemma {:induction false} PaddedFromSlice(d: seq<nat>, lo: nat, hi: nat)
    requires lo <= hi <= |d|
    ensures PaddedFrom(d, lo, hi) == Padded(d[lo..hi])
    decreases hi - lo
  {
    if lo < hi {
      PaddedFromSlice(d, lo + 1, hi);
      assert d[lo..hi][1..] == d[lo + 1..hi];
    }
  }

  /** The padding toString writes is ZeroPad for a limb of at most nine digits. */
  lemma PaddedLimb(x: nat)
    requires x < BASE
    ensures |ToDec(x)| <= BASE_LENGTH
    ensures seq(BASE_LENGTH - |ToDec(x)|, _ => '0') + ToDec(x) == ZeroPad(ToDec(x), BASE_LENGTH)
  {
    Pow10Base();
    ToDecBound(x, BASE_LENGTH);
  }

  lemma AppendAssoc(a: string, b: string, c: string)
    ensures a + b + c == a + (b + c)
  {
  }

  /** The conversion to bool reads "12212" as true and "0" as false. */
  lemma TruthOfText()
    ensures WellFormedText("12212") && ToBool(Parse("12212"))
    ensures WellFormedText("0") && !ToBool(Parse("0"))
  {
    assert Parse("12212").digits == [DecVal("12212")] by {
      assert "12212"[GroupStart(5, 0)..5] == "12212";
    }
    DecValPositive("12212");
    assert Parse("0").digits == [DecVal("0")] by {
      assert "0"[GroupStart(1, 0)..1] == "0";
    }
  }

  /** "-0" parses to a zero with the sign flag set, which is not equal to
      the zero "0" parses to, and prints as "0". */
  lemma NegativeZeroText()
    ensures WellFormedText("-0") && Parse("-0") == BigInteger([0], true)
    ensures Parse("-0") != Parse("0") && Render(Parse("-0")) == "0"
  {
    assert "-0"[1..] == "0";
    assert Parse("-0").digits == [DecVal("0")] by {
      assert "0"[GroupStart(1, 0)..1] == "0";
    }
    assert Parse("0").digits == [DecVal("0")] by {
      assert "0"[GroupStart(1, 0)..1] == "0";
    }
  }
}

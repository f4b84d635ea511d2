/** The integer helpers of src/util.c: digit counting, max/min/add, the
    monetary text of a cent amount with thousands separators and its length
    predictor, and the decimal parse `util_stoi`. `intmax_t` and
    `long long` are 64-bit here. */
module Util {
  import opened Base
  import opened Text

  // ---------------------------------------------------------------------
  // util_digits

  /** The characters `printf("%jd")` would need for `x`: its digits, plus
      one for the sign of a negative number when `negsign` asks for it. */
  method Digits(x: int, negsign: bool) returns (count: int)
    requires IsInt64(x)
    ensures count == |NatToDigits(Abs(x))| + (if negsign && x < 0 then 1 else 0)
  {
    if x == 0 {
      return 1;
    }
    var sign := if negsign && x < 0 then 1 else 0;
    count := 1 + sign;
    var v := CDiv(x, 10);
    AbsCDiv(x, 10);
    DigitsStep(Abs(x));
    while v != 0
      invariant count - sign >= 1
      invariant v != 0 ==> |NatToDigits(Abs(x))| == |NatToDigits(Abs(v))| + count - sign
      invariant v == 0 ==> |NatToDigits(Abs(x))| == count - sign
      decreases Abs(v)
    {
      DigitsStep(Abs(v));
      AbsCDiv(v, 10);
      v := CDiv(v, 10);
      count := count + 1;
    }
  }

  /** C's truncating division shrinks the magnitude as division of the
      magnitude does. */
  lemma AbsCDiv(a: int, b: int)
    requires b > 0
    ensures Abs(CDiv(a, b)) == Abs(a) / b
  {
  }

  /** One division by ten drops exactly one digit. */
  lemma DigitsStep(n: nat)
    requires n >= 1
    ensures n >= 10 ==> |NatToDigits(n)| == |NatToDigits(n / 10)| + 1
    ensures n < 10 ==> |NatToDigits(n)| == 1
  {
  }

  /** With the sign counted, `util_digits` is the length of the text
      `printf("%jd")` writes. */
  lemma DigitsIsTextLength(x: int)
    ensures |IntToString(x)| == |NatToDigits(Abs(x))| + (if x < 0 then 1 else 0)
  {
  }

  // ---------------------------------------------------------------------
  // util_add, util_max, util_min

  /** `util_add`: plain 64-bit addition, defined only when the sum fits. */
  function Add(x: int, y: int): (r: int)
    requires IsInt64(x + y)
    ensures IsInt64(r) && r - y == x
  {
    x + y
  }

  /** `util_max`: the larger argument. */
  function Max(x: int, y: int): (r: int)
    ensures r >= x && r >= y
    ensures r == x || r == y
  {
    if x > y then x else y
  }

  /** `util_min`: the smaller argument. */
  function Min(x: int, y: int): (r: int)
    ensures r <= x && r <= y
    ensures r == x || r == y
  {
    if x < y then x else y
  }

  // ---------------------------------------------------------------------
  // Monetary text

  /** Decimal digits with a ',' before every group of three counted from the
      right: "1234567" becomes "1,234,567". */
  function GroupDigits(ds: string): string
    decreases |ds|
  {
    if |ds| <= 3 then ds else GroupDigits(ds[..|ds| - 3]) + "," + ds[|ds| - 3..]
  }

  /** The text `util_fmtcents` writes for `x` cents: an optional '-', the
      whole units grouped by thousands (at least "0"), '.', and exactly two
      cent digits. */
  function CentsText(x: int): (r: string)
    ensures |r| >= 4
  {
    var mag := Abs(x);
    (if x < 0 then "-" else "") + GroupDigits(NatToDigits(mag / 100)) + "."
      + [DigitChar(mag / 10 % 10), DigitChar(mag % 10)]
  }

  /** A group separator goes in front of a digit exactly when three, six,
      ... digits follow it. */
  lemma {:induction false} GroupPrepend(c: char, s: string)
    ensures GroupDigits([c] + s) == [c] + (if |s| > 0 && |s| % 3 == 0 then "," else "") + GroupDigits(s)
    decreases |s|
  {
    var t := [c] + s;
    if |t| > 3 {
      var s' := s[..|s| - 3];
      assert t[..|t| - 3] == [c] + s';
      assert t[|t| - 3..] == s[|s| - 3..];
      GroupPrepend(c, s');
      if |s| > 3 {
        assert GroupDigits(s) == GroupDigits(s') + "," + s[|s| - 3..];
      }
    }
  }

  /** Grouping adds one separator per full group after the first digit. */
  lemma {:induction false} GroupLength(s: string)
    ensures |GroupDigits(s)| == |s| + (if |s| == 0 then 0 else (|s| - 1) / 3)
    decreases |s|
  {
    if |s| > 3 {
      GroupLength(s[..|s| - 3]);
    }
  }

  /** The characters of `s` in reverse order. */
  function Rev(s: string): (r: string)
    ensures |r| == |s|
    ensures forall i :: 0 <= i < |s| ==> r[i] == s[|s| - 1 - i]
  {
    seq(|s|, i requires 0 <= i < |s| => s[|s| - 1 - i])
  }

  /** Appending to a text puts the character in front of its reversal. */
  lemma RevAppend(a: string, c: char)
    ensures Rev(a + [c]) == [c] + Rev(a)
  {
    var l := Rev(a + [c]);
    var r := [c] + Rev(a);
    assert forall i :: 0 <= i < |l| ==> l[i] == r[i];
  }

  /** The last digit of a number's text is its remainder by ten. */
  lemma LastDigit(n: nat)
    ensures NatToDigits(n) == (if n < 10 then [] else NatToDigits(n / 10)) + [DigitChar(n % 10)]
  {
  }

  /** Moving a prefix across the separator and the cents. */
  lemma Regroup(r: string, d: char, sep: string, g: string, cents: string)
    requires r == [d] + (sep + ((g + ".") + cents))
    ensures r == ((([d] + sep) + g) + ".") + cents
  {
  }

  /** The written length in front of the k-th whole digit (k >= 1 digits
      already written) is 2 more than a multiple of four exactly when k is a
      multiple of three. */
  lemma SeparatorTest(k: int)
    requires k >= 1
    ensures (3 + k + (k - 1) / 3 - 2) % 4 == 0 <==> k % 3 == 0
  {
    var t := (k - 1) / 3;
    var r := (k - 1) % 3;
    assert k == 3 * t + r + 1;
    assert 3 + k + (k - 1) / 3 - 2 == 4 * t + r + 2;
  }

  /** `util_fmtcents`: the digits are produced least significant first (two
      cent digits, '.', then the whole units with a ',' whenever the written
      length so far is 2 more than a multiple of four), the '-' last, and
      the buffer is then reversed in place; the result is the text and its
      length. */
  method FmtCents(x: int) returns (buf: string, n: int)
    requires IsInt64(x) && x != INT64_MIN
    ensures buf == CentsText(x)
    ensures n == |buf|
  {
    var neg := x < 0;
    var mag: nat := if neg then -x else x;
    ghost var whole := NatToDigits(mag / 100);
    var cents := [DigitChar(mag / 10 % 10), DigitChar(mag % 10)];
    var rev := [DigitChar(mag % 10), DigitChar(mag / 10 % 10), '.', DigitChar(mag / 100 % 10)];
    ghost var s := [DigitChar(mag / 100 % 10)];
    FmtStart(mag);
    mag := mag / 1000;
    while mag != 0
      invariant |s| >= 1
      invariant mag > 0 ==> NatToDigits(mag) + s == whole
      invariant mag == 0 ==> s == whole
      invariant Rev(rev) == GroupDigits(s) + "." + cents
      invariant |rev| == 3 + |GroupDigits(s)|
      decreases mag
    {
      var d := DigitChar(mag % 10);
      FmtStep(rev, s, cents, d);
      if (|rev| - 2) % 4 == 0 {
        rev := rev + [','];
      }
      rev := rev + [d];
      DigitsShift(mag, s, whole);
      s := [d] + s;
      mag := mag / 10;
    }
    FmtFinish(rev, x);
    if neg {
      rev := rev + ['-'];
    }
    buf := Rev(rev);
    n := |rev|;
  }

  /** Moving the last digit of the unwritten part to the written part. */
  lemma DigitsShift(m: nat, s: string, whole: string)
    requires m > 0 && NatToDigits(m) + s == whole
    ensures m / 10 > 0 ==> NatToDigits(m / 10) + ([DigitChar(m % 10)] + s) == whole
    ensures m / 10 == 0 ==> [DigitChar(m % 10)] + s == whole
  {
    LastDigit(m);
    if m / 10 > 0 {
      assert NatToDigits(m) == NatToDigits(m / 10) + [DigitChar(m % 10)];
      assert (NatToDigits(m / 10) + [DigitChar(m % 10)]) + s
          == NatToDigits(m / 10) + ([DigitChar(m % 10)] + s);
    }
  }

  /** The first three digits `util_fmtcents` writes: two cent digits, the
      '.', and the last digit of the whole units. */
  lemma FmtStart(m: nat)
    ensures var c0 := DigitChar(m % 10);
            var c1 := DigitChar(m / 10 % 10);
            var c2 := DigitChar(m / 100 % 10);
            && Rev([c0, c1, '.', c2]) == GroupDigits([c2]) + "." + [c1, c0]
            && |[c0, c1, '.', c2]| == 3 + |GroupDigits([c2])|
            && (m / 1000 > 0 ==> NatToDigits(m / 1000) + [c2] == NatToDigits(m / 100))
            && (m / 1000 == 0 ==> [c2] == NatToDigits(m / 100))
  {
    LastDigit(m / 100);
    assert m / 100 / 10 == m / 1000;
  }

  /** The '-' written last ends up first once the buffer is reversed. */
  lemma FmtFinish(rev: string, x: int)
    requires Rev(rev) == GroupDigits(NatToDigits(Abs(x) / 100)) + "."
                         + [DigitChar(Abs(x) / 10 % 10), DigitChar(Abs(x) % 10)]
    ensures Rev(if x < 0 then rev + ['-'] else rev) == CentsText(x)
  {
    if x < 0 {
      RevAppend(rev, '-');
    }
  }

  /** One turn of the `util_fmtcents` loop: writing a separator when the
      length test asks for one and then the next digit keeps the reversed
      buffer equal to the grouped digits written so far. */
  lemma FmtStep(rev: string, s: string, cents: string, d: char)
    requires |s| >= 1
    requires Rev(rev) == GroupDigits(s) + "." + cents
    requires |rev| == 3 + |GroupDigits(s)|
    ensures var next := (if (|rev| - 2) % 4 == 0 then rev + [','] else rev) + [d];
            Rev(next) == GroupDigits([d] + s) + "." + cents
            && |next| == 3 + |GroupDigits([d] + s)|
  {
    GroupLength(s);
    GroupLength([d] + s);
    SeparatorTest(|s|);
    GroupPrepend(d, s);
    var tail := GroupDigits(s) + "." + cents;
    var sep: string := if |s| % 3 == 0 then "," else "";
    var mid := if (|rev| - 2) % 4 == 0 then rev + [','] else rev;
    if (|rev| - 2) % 4 == 0 {
      RevAppend(rev, ',');
    }
    assert Rev(mid) == sep + tail;
    RevAppend(mid, d);
    Regroup(Rev(mid + [d]), d, sep, GroupDigits(s), cents);
  }

  /** `util_fmtcentslen`: the digit count (at least three, for "0.00"), one
      for a '-', one for the '.', and one per thousands separator, counted by
      dividing the whole units by 1000 until nothing is left. */
  method FmtCentsLen(x: int) returns (len: int)
    requires IsInt64(x)
    ensures len == |CentsText(x)|
  {
    var digits := Digits(x, false);
    len := Max(3, digits) + (if x < 0 then 1 else 0) + 1;
    var v := CDiv(x, 100);
    AbsCDiv(x, 100);
    WholeDigits(Abs(x));
    GroupLength(NatToDigits(Abs(x) / 100));
    CommasStep(Abs(v));
    AbsCDiv(v, 1000);
    v := CDiv(v, 1000);
    while v != 0
      invariant len + (if v != 0 then Commas(Abs(v)) + 1 else 0) == |CentsText(x)|
      decreases Abs(v)
    {
      CommasStep(Abs(v));
      AbsCDiv(v, 1000);
      v := CDiv(v, 1000);
      len := len + 1;
    }
  }

  /** The separators the whole part `n` needs. */
  function Commas(n: nat): nat
  {
    (|NatToDigits(n)| - 1) / 3
  }

  /** Dividing by 1000 removes one group and its separator. */
  lemma CommasStep(n: nat)
    ensures n >= 1000 ==> Commas(n) == Commas(n / 1000) + 1
    ensures n < 1000 ==> Commas(n) == 0
  {
    if n >= 1000 {
      DigitsStep(n);
      DigitsStep(n / 10);
      DigitsStep(n / 10 / 10);
      assert n / 10 / 10 / 10 == n / 1000;
    } else {
      DigitCountBounds(n, 3);
    }
  }

  /** The digits of an amount are those of its whole part plus two, and never
      fewer than three are written. */
  lemma WholeDigits(mag: nat)
    ensures (if |NatToDigits(mag)| < 3 then 3 else |NatToDigits(mag)|) == |NatToDigits(mag / 100)| + 2
  {
  }

  /** The largest amounts a 64-bit value can hold take 26 characters:
      "-92,233,720,368,547,758.07". */
  lemma CentsTextBound(x: int)
    requires IsInt64(x)
    ensures |CentsText(x)| <= 26
  {
    var w := NatToDigits(Abs(x) / 100);
    GroupLength(w);
    Pow10Of17();
    DigitCountBounds(Abs(x) / 100, 17);
  }

  /** The length of an amount's text: a sign, the whole digits with their
      separators, and the three characters of ".cc". */
  lemma CentsTextLength(x: int)
    ensures var k := |NatToDigits(Abs(x) / 100)|;
      |CentsText(x)| == (if x < 0 then 1 else 0) + k + (k - 1) / 3 + 3
  {
    GroupLength(NatToDigits(Abs(x) / 100));
  }

  /** Of two amounts of the same sign, the larger in magnitude has the text
      at least as long; a negative amount's text is longer than "0.00". */
  lemma CentsTextMonotone(a: int, b: int)
    requires 0 <= a <= b || b <= a <= 0
    ensures |CentsText(a)| <= |CentsText(b)|
    ensures b < 0 ==> |CentsText(b)| >= 5
  {
    CentsTextLength(a);
    CentsTextLength(b);
    DigitCountMonotone(Abs(a) / 100, Abs(b) / 100);
  }

  lemma Pow10Of17()
    ensures Pow10(17) == 100_000_000_000_000_000
  {
    assert Pow10(4) == 10_000;
    assert Pow10(8) == 100_000_000;
    assert Pow10(12) == 1_000_000_000_000;
    assert Pow10(16) == 10_000_000_000_000_000;
  }

  // ---------------------------------------------------------------------
  // util_stoi

  /** `util_stoi`: `strtoll` in base 10 must consume the whole non-empty
      text without a range error; the value is 0 on failure. */
  function Stoi(s: string): (r: (int, bool))
    ensures r.1 <==> ParseDecimal(s).Some? && IsInt64(ParseDecimal(s).value)
    ensures r.1 ==> r.0 == ParseDecimal(s).value
    ensures !r.1 ==> r.0 == 0
  {
    match ParseDecimal(s)
    case Some(v) => if IsInt64(v) then (v, true) else (0, false)
    case None => (0, false)
  }

  /** The empty text is refused, as the `*s` test requires. */
  lemma StoiEmpty()
    ensures Stoi("") == (0, false)
  {
  }

  /** Any 64-bit number written by `printf` is read back by `util_stoi`. */
  lemma StoiOfIntToString(x: int)
    requires IsInt64(x)
    ensures Stoi(IntToString(x)) == (x, true)
  {
    ParseIntToString(x);
  }
}

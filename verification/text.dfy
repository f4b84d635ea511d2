/** Character and text vocabulary of the C code: ASCII `tolower`, `isspace`
    and `isdigit` in the "C" locale, decimal rendering as `printf("%d")` does
    it, full-consumption decimal parsing as `strtol`/`strtoll` do it,
    splitting on a delimiter and substring search as `strstr` does it.
    A `char` stands for one byte of a C string; C strings hold no NUL. */
module Text {
  import opened Base

  predicate IsDigit(c: char) { '0' <= c <= '9' }

  predicate AllDigits(s: string) { forall i :: 0 <= i < |s| ==> IsDigit(s[i]) }

  /** A C string: the text between a pointer and its terminating NUL. */
  predicate IsCString(s: string) { forall i :: 0 <= i < |s| ==> s[i] != '\0' }

  function DigitValue(c: char): nat
    requires IsDigit(c)
  {
    c as int - '0' as int
  }

  function DigitChar(d: nat): (c: char)
    requires d < 10
    ensures IsDigit(c) && DigitValue(c) == d
  {
    ('0' as int + d) as char
  }

  /** `isspace` in the "C" locale. */
  predicate IsSpace(c: char)
  {
    c == ' ' || c == '\t' || c == '\n' || c == '\r' || c == '\U{0B}' || c == '\U{0C}'
  }

  lemma ConcatCString(a: string, b: string)
    requires IsCString(a) && IsCString(b)
    ensures IsCString(a + b)
  {
    forall i | 0 <= i < |a + b|
      ensures (a + b)[i] != '\0'
    {
      if i >= |a| { assert (a + b)[i] == b[i - |a|]; }
    }
  }

  /** `tolower` in the "C" locale: only 'A'..'Z' change. */
  function Lower(c: char): char
  {
    if 'A' <= c <= 'Z' then (c as int - 'A' as int + 'a' as int) as char else c
  }

  function LowerStr(s: string): (r: string)
    ensures |r| == |s|
    ensures forall i :: 0 <= i < |s| ==> r[i] == Lower(s[i])
  {
    seq(|s|, i requires 0 <= i < |s| => Lower(s[i]))
  }

  /** Lowercasing twice is lowercasing once. */
  lemma LowerIdempotent(s: string)
    ensures LowerStr(LowerStr(s)) == LowerStr(s)
  {
  }

  // ---------------------------------------------------------------------
  // Decimal text

  /** The decimal digits of `n` without leading zeros, as `printf("%d")`
      writes a non-negative number. */
  function NatToDigits(n: nat): (r: string)
    ensures 1 <= |r| && AllDigits(r)
    decreases n
  {
    if n < 10 then [DigitChar(n)] else NatToDigits(n / 10) + [DigitChar(n % 10)]
  }

  /** The number a string of decimal digits denotes. */
  function DigitsToNat(s: string): nat
    requires AllDigits(s)
    decreases |s|
  {
    if s == [] then 0 else 10 * DigitsToNat(s[..|s| - 1]) + DigitValue(s[|s| - 1])
  }

  lemma {:induction false} DigitsToNatOfDigits(n: nat)
    ensures DigitsToNat(NatToDigits(n)) == n
    decreases n
  {
    if n >= 10 {
      var s := NatToDigits(n);
      assert s[..|s| - 1] == NatToDigits(n / 10);
      DigitsToNatOfDigits(n / 10);
    }
  }

  /** A number below 10^k has at most k digits, and one of at least 10^k has
      more than k. */
  function Pow10(k: nat): (r: nat)
    ensures r >= 1
  {
    if k == 0 then 1 else 10 * Pow10(k - 1)
  }

  lemma {:induction false} DigitCountBounds(n: nat, k: nat)
    ensures |NatToDigits(n)| <= k <==> k >= 1 && n < Pow10(k)
    decreases n
  {
    if n >= 10 && k >= 1 {
      DigitCountBounds(n / 10, k - 1);
    }
  }

  /** Digit count grows with the number. */
  lemma DigitCountMonotone(a: nat, b: nat)
    requires a <= b
    ensures |NatToDigits(a)| <= |NatToDigits(b)|
  {
    var k := |NatToDigits(b)|;
    DigitCountBounds(b, k);
    DigitCountBounds(a, k);
  }

  /** `printf("%d")` / `PRId64` of any integer. */
  function IntToString(x: int): (r: string)
    ensures |r| >= 1
  {
    if x < 0 then "-" + NatToDigits(-x) else NatToDigits(x)
  }

  /** `printf("%0*d")` for a non-negative value: digits left-padded with '0'
      up to width `w`, never cut. */
  function ZeroPad(n: nat, w: nat): (r: string)
    ensures AllDigits(r)
    ensures |r| == if |NatToDigits(n)| < w then w else |NatToDigits(n)|
  {
    var digits := NatToDigits(n);
    if |digits| < w then seq(w - |digits|, _ => '0') + digits else digits
  }

  /** Leading zeros do not change the value of a digit string. */
  lemma {:induction false} LeadingZeros(z: nat, s: string)
    requires AllDigits(s)
    ensures AllDigits(seq(z, _ => '0') + s)
    ensures DigitsToNat(seq(z, _ => '0') + s) == DigitsToNat(s)
    decreases |s|
  {
    var t := seq(z, _ => '0') + s;
    if s == [] {
      ZerosValue(z);
      assert t == seq(z, _ => '0');
    } else {
      assert t[..|t| - 1] == seq(z, _ => '0') + s[..|s| - 1];
      LeadingZeros(z, s[..|s| - 1]);
    }
  }

  lemma {:induction false} ZerosValue(z: nat)
    ensures AllDigits(seq(z, _ => '0'))
    ensures DigitsToNat(seq(z, _ => '0')) == 0
  {
    if z > 0 {
      var t := seq(z, _ => '0');
      assert t[..|t| - 1] == seq(z - 1, _ => '0');
      ZerosValue(z - 1);
    }
  }

  lemma ZeroPadValue(n: nat, w: nat)
    ensures DigitsToNat(ZeroPad(n, w)) == n
  {
    var digits := NatToDigits(n);
    DigitsToNatOfDigits(n);
    if |digits| < w {
      LeadingZeros(w - |digits|, digits);
    }
  }

  /** A string of `k` digits denotes a number below 10^k. */
  lemma {:induction false} DigitsBound(s: string)
    requires AllDigits(s)
    ensures DigitsToNat(s) < Pow10(|s|)
    decreases |s|
  {
    if s != [] {
      DigitsBound(s[..|s| - 1]);
    }
  }

  /** Two digit strings of one length with one value are the same string. */
  lemma {:induction false} DigitsInjective(a: string, b: string)
    requires AllDigits(a) && AllDigits(b) && |a| == |b|
    requires DigitsToNat(a) == DigitsToNat(b)
    ensures a == b
    decreases |a|
  {
    if a != [] {
      var n := |a| - 1;
      var pa := DigitsToNat(a[..n]);
      var pb := DigitsToNat(b[..n]);
      assert 10 * pa + DigitValue(a[n]) == 10 * pb + DigitValue(b[n]);
      LastDigit(pa, DigitValue(a[n]), pb, DigitValue(b[n]));
      assert a[n] == b[n];
      DigitsInjective(a[..n], b[..n]);
      assert a == a[..n] + [a[n]] && b == b[..n] + [b[n]];
    }
  }

  /** A number ten times another plus a digit determines both. */
  lemma LastDigit(pa: int, da: int, pb: int, db: int)
    requires 0 <= da <= 9 && 0 <= db <= 9 && 10 * pa + da == 10 * pb + db
    ensures pa == pb && da == db
  {
    assert 10 * (pa - pb) == db - da;
  }

  /** Zero-padding the value of a digit string to its own length gives the
      string back. */
  lemma ZeroPadOfDigits(s: string)
    requires AllDigits(s) && |s| >= 1
    ensures ZeroPad(DigitsToNat(s), |s|) == s
  {
    var n := DigitsToNat(s);
    DigitsBound(s);
    DigitCountBounds(n, |s|);
    ZeroPadValue(n, |s|);
    DigitsInjective(ZeroPad(n, |s|), s);
  }

  /** A number below 10^w zero-padded to width w takes exactly w digits. */
  lemma ZeroPadWidth(n: nat, w: nat)
    requires w >= 1 && n < Pow10(w)
    ensures |ZeroPad(n, w)| == w
  {
    DigitCountBounds(n, w);
  }

  /** `printf("%0*d")` for any integer: a '-' for negatives, then digits
      left-padded with '0' so that sign and digits fill at least `w`. */
  function PrintfZeroPad(x: int, w: nat): (r: string)
    ensures |r| >= w
  {
    if x < 0 then "-" + ZeroPad(-x, if w >= 1 then w - 1 else 0) else ZeroPad(x, w)
  }

  /** What `printf("%0*d")` wrote parses back to the number. */
  lemma ParsePrintfZeroPad(x: int, w: nat)
    ensures ParseDecimal(PrintfZeroPad(x, w)) == Some(x)
  {
    var r := PrintfZeroPad(x, w);
    if x < 0 {
      var body := ZeroPad(-x, if w >= 1 then w - 1 else 0);
      ZeroPadValue(-x, if w >= 1 then w - 1 else 0);
      assert r == "-" + body;
      assert r[0] == '-' && !IsSpace(r[0]);
      assert SkipSpaces(r) == r;
      assert r[1..] == body;
      assert |body| > 0 && AllDigits(body);
      var v: int := DigitsToNat(body);
      assert v == -x;
    } else {
      ZeroPadValue(x, w);
      ParseDigits(r);
    }
  }

  // ---------------------------------------------------------------------
  // Parsing

  function SkipSpaces(s: string): (r: string)
    ensures |r| <= |s| && r == s[|s| - |r|..]
    ensures |r| > 0 ==> !IsSpace(r[0])
    decreases |s|
  {
    if |s| > 0 && IsSpace(s[0]) then SkipSpaces(s[1..]) else s
  }

  /** The value C's `strtol`/`strtoll` (base 10) computes when it consumes ALL
      of `s`: optional white space, an optional sign, then at least one digit.
      `None` when anything is left over or no digit is found; range errors
      are the caller's business. */
  function ParseDecimal(s: string): Option<int>
  {
    var t := SkipSpaces(s);
    if |t| > 0 && (t[0] == '+' || t[0] == '-') then
      var body := t[1..];
      if |body| > 0 && AllDigits(body) then
        var v: int := DigitsToNat(body);
        Some(if t[0] == '-' then -v else v)
      else None
    else if |t| > 0 && AllDigits(t) then Some(DigitsToNat(t))
    else None
  }

  /** Parsing what `printf("%d")` wrote gives the number back. */
  lemma ParseIntToString(x: int)
    ensures ParseDecimal(IntToString(x)) == Some(x)
  {
    var s := IntToString(x);
    if x < 0 {
      var body := NatToDigits(-x);
      DigitsToNatOfDigits(-x);
      assert s == "-" + body;
      assert s[0] == '-' && !IsSpace(s[0]);
      assert SkipSpaces(s) == s;
      assert s[1..] == body;
      assert |body| > 0 && AllDigits(body);
      var v: int := DigitsToNat(body);
      assert v == -x;
    } else {
      DigitsToNatOfDigits(x);
      ParseDigits(s);
    }
  }

  /** A string of digits parses to the number it denotes. */
  lemma ParseDigits(s: string)
    requires |s| > 0 && AllDigits(s)
    ensures ParseDecimal(s) == Some(DigitsToNat(s))
  {
    assert IsDigit(s[0]) && !IsSpace(s[0]);
    assert SkipSpaces(s) == s;
  }

  // ---------------------------------------------------------------------
  // Splitting and searching

  /** How often `c` occurs in `s`. */
  function Count(s: string, c: char): nat
    decreases |s|
  {
    if s == [] then 0 else (if s[0] == c then 1 else 0) + Count(s[1..], c)
  }

  /** The pieces of `s` between occurrences of `delim`, in order; adjacent
      delimiters give empty pieces and there is always at least one piece. */
  function Split(s: string, delim: char): (r: seq<string>)
    ensures |r| >= 1
    ensures forall k :: 0 <= k < |r| ==> delim !in r[k]
    decreases |s|
  {
    if s == [] then [[]]
    else
      var rest := Split(s[1..], delim);
      if s[0] == delim then [[]] + rest
      else [[s[0]] + rest[0]] + rest[1..]
  }

  /** Gluing the pieces back with the delimiter gives the original text. */
  function Join(parts: seq<string>, delim: char): string
    requires |parts| >= 1
    decreases |parts|
  {
    if |parts| == 1 then parts[0] else parts[0] + [delim] + Join(parts[1..], delim)
  }

  lemma {:induction false} SplitJoin(s: string, delim: char)
    ensures Join(Split(s, delim), delim) == s
    decreases |s|
  {
    if s != [] {
      var rest := Split(s[1..], delim);
      SplitJoin(s[1..], delim);
      if s[0] == delim {
        assert ([[]] + rest)[1..] == rest;
      } else {
        var r := [[s[0]] + rest[0]] + rest[1..];
        if |rest| == 1 {
        } else {
          assert r[1..] == rest[1..];
          assert Join(rest, delim) == rest[0] + [delim] + Join(rest[1..], delim);
        }
      }
    }
  }

  /** There is one more piece than there are delimiters. */
  lemma {:induction false} SplitCount(s: string, delim: char)
    ensures |Split(s, delim)| == Count(s, delim) + 1
    decreases |s|
  {
    if s != [] {
      SplitCount(s[1..], delim);
    }
  }

  /** A delimiter-free text followed by the delimiter is the first piece. */
  lemma {:induction false} SplitAfter(a: string, delim: char, b: string)
    requires delim !in a
    ensures Split(a + [delim] + b, delim) == [a] + Split(b, delim)
    decreases |a|
  {
    var t := a + [delim] + b;
    if a == [] {
      assert t[1..] == b;
    } else {
      assert t[1..] == a[1..] + [delim] + b;
      SplitAfter(a[1..], delim, b);
      assert [a[0]] + a[1..] == a;
    }
  }

  /** A text without the delimiter is a single piece. */
  lemma {:induction false} SplitNone(a: string, delim: char)
    requires delim !in a
    ensures Split(a, delim) == [a]
    decreases |a|
  {
    if a != [] {
      SplitNone(a[1..], delim);
      assert [a[0]] + a[1..] == a;
    }
  }

  /** Counting distributes over concatenation. */
  lemma {:induction false} CountAppend(a: string, b: string, c: char)
    ensures Count(a + b, c) == Count(a, c) + Count(b, c)
    decreases |a|
  {
    if a != [] {
      assert (a + b)[1..] == a[1..] + b;
      CountAppend(a[1..], b, c);
    } else {
      assert a + b == b;
    }
  }

  lemma CountNone(a: string, c: char)
    requires c !in a
    ensures Count(a, c) == 0
  {
    SplitNone(a, c);
    SplitCount(a, c);
  }

  /** `strstr(s, p) != NULL`: `p` occurs in `s` at some offset. */
  predicate IsSubstring(p: string, s: string)
  {
    exists i :: 0 <= i <= |s| && p <= s[i..]
  }

  lemma EmptyIsSubstring(s: string)
    ensures IsSubstring([], s)
  {
    assert [] <= s[0..];
  }
}

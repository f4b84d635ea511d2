/** The argument parsers of src/program.c: year, month and date
    specifications, absolute or relative to today ("y", "y+2", "m-1",
    "d-900"), and monetary text read into cents. `dt_today()` is the
    parameter `today`; results come back as `Option`, `None` where the C
    function returns false. */
module Program {
  import opened Base
  import opened Text
  import opened Dates
  import Util

  // ---------------------------------------------------------------------
  // Relative specifications

  /** `xn`: the text is the letter `c` alone, meaning 0, or `c` followed by
      a signed decimal that fits an `int`. */
  function Xn(s: string, c: char): (r: Option<int>)
    ensures r.Some? ==> |s| >= 1 && s[0] == c && IsInt(r.value)
    ensures |s| >= 2 && s[0] == c ==>
      (r.Some? <==> ParseDecimal(s[1..]).Some? && IsInt(ParseDecimal(s[1..]).value))
    ensures |s| >= 2 && r.Some? ==> ParseDecimal(s[1..]) == Some(r.value)
  {
    if |s| == 0 || s[0] != c then None
    else if |s| == 1 then Some(0)
    else
      var (v, ok) := Util.Stoi(s[1..]);
      if ok && IsInt(v) then Some(v) else None
  }

  /** The letter alone means no offset, and the letter followed by any
      `int` written by `printf` means that offset. */
  lemma XnOffsets(c: char, n: int)
    requires IsInt(n)
    ensures Xn([c], c) == Some(0)
    ensures Xn([c] + IntToString(n), c) == Some(n)
  {
    var s := [c] + IntToString(n);
    assert s[1..] == IntToString(n);
    Util.StoiOfIntToString(n);
  }

  /** An offset needs a digit: "d-" and "d+" are refused. */
  lemma XnSignAlone(c: char)
    ensures Xn([c, '-'], c) == None && Xn([c, '+'], c) == None
  {
    assert [c, '-'][1..] == ['-'] && [c, '+'][1..] == ['+'];
    SignAlone('-');
    SignAlone('+');
  }

  /** A sign with no digit after it is not a number. */
  lemma SignAlone(c: char)
    requires c == '-' || c == '+'
    ensures ParseDecimal([c]) == None
  {
    assert !IsSpace([c][0]);
    assert SkipSpaces([c]) == [c];
    assert [c][1..] == [];
  }

  /** Digits do not start a relative specification. */
  lemma XnDigits(s: string, c: char)
    requires |s| >= 1 && AllDigits(s) && !IsDigit(c)
    ensures Xn(s, c) == None
  {
    assert IsDigit(s[0]);
  }

  // ---------------------------------------------------------------------
  // Years and months

  /** `prog_parsey`: "y" with an offset from the current year, not range
      checked; otherwise a plain number that must be a valid year. */
  function ParseY(s: string, today: int): (r: Option<int>)
    ensures r.Some? && (|s| == 0 || s[0] != 'y') ==> IsY(r.value) && ParseDecimal(s) == Some(r.value)
    ensures |s| >= 1 && s[0] == 'y' ==> (r.Some? <==> Xn(s, 'y').Some?)
    ensures s == "y" ==> r == Some(GetY(today))
    ensures Xn(s, 'y').Some? ==> r == Some(GetY(today) + Xn(s, 'y').value)
    ensures (|s| == 0 || s[0] != 'y') ==> (r.Some? <==> ParseDecimal(s).Some? && IsY(ParseDecimal(s).value))
  {
    var r := match Xn(s, 'y')
      case Some(n) => Some(n + GetY(today))
      case None =>
        var (v, ok) := Util.Stoi(s);
        if ok && IsY(v) then Some(v) else None;
    assert (|s| == 0 || s[0] != 'y') ==> (r.Some? <==> ParseDecimal(s).Some? && IsY(ParseDecimal(s).value)) by {}
    r
  }

  /** `prog_parsem`: the same two forms for months; a relative month is not
      range checked either. */
  function ParseM(s: string, today: int): (r: Option<int>)
    ensures r.Some? && (|s| == 0 || s[0] != 'm') ==> IsM(r.value) && ParseDecimal(s) == Some(r.value)
    ensures |s| >= 1 && s[0] == 'm' ==> (r.Some? <==> Xn(s, 'm').Some?)
    ensures s == "m" ==> r == Some(GetM(today))
    ensures Xn(s, 'm').Some? ==> r == Some(GetM(today) + Xn(s, 'm').value)
    ensures (|s| == 0 || s[0] != 'm') ==> (r.Some? <==> ParseDecimal(s).Some? && IsM(ParseDecimal(s).value))
  {
    var r := match Xn(s, 'm')
      case Some(n) => Some(n + GetM(today))
      case None =>
        var (v, ok) := Util.Stoi(s);
        if ok && IsM(v) then Some(v) else None;
    assert (|s| == 0 || s[0] != 'm') ==> (r.Some? <==> ParseDecimal(s).Some? && IsM(ParseDecimal(s).value)) by {}
    r
  }

  /** The `y` form with any `int` offset text, "y+0", "y-0" and "y+1"
      included: the current year moved by the offset's value. */
  lemma ParseYOffset(s: string, today: int)
    requires |s| >= 2 && s[0] == 'y'
    requires ParseDecimal(s[1..]).Some? && IsInt(ParseDecimal(s[1..]).value)
    ensures ParseY(s, today) == Some(GetY(today) + ParseDecimal(s[1..]).value)
  {
    assert Xn(s, 'y') == Some(ParseDecimal(s[1..]).value);
  }

  /** The `m` form with any `int` offset text. */
  lemma ParseMOffset(s: string, today: int)
    requires |s| >= 2 && s[0] == 'm'
    requires ParseDecimal(s[1..]).Some? && IsInt(ParseDecimal(s[1..]).value)
    ensures ParseM(s, today) == Some(GetM(today) + ParseDecimal(s[1..]).value)
  {
    assert Xn(s, 'm') == Some(ParseDecimal(s[1..]).value);
  }

  /** A relative year is the current year moved by the offset, however
      far: "y+9999" is accepted. */
  lemma ParseYRelative(today: int, n: int)
    requires IsInt(n)
    ensures ParseY("y", today) == Some(GetY(today))
    ensures ParseY("y" + IntToString(n), today) == Some(GetY(today) + n)
  {
    XnOffsets('y', n);
  }

  /** A valid year written out reads back as itself. */
  lemma ParseYAbsolute(today: int, y: int)
    requires IsY(y)
    ensures ParseY(IntToString(y), today) == Some(y)
  {
    XnDigits(IntToString(y), 'y');
    Util.StoiOfIntToString(y);
  }

  /** A plain number outside 1..9999 is not a year: "0" and "10000" are
      refused. */
  lemma ParseYRange(today: int, v: int)
    requires IsInt64(v) && !IsY(v)
    ensures ParseY(IntToString(v), today) == None
  {
    var s := IntToString(v);
    Util.StoiOfIntToString(v);
    if v >= 0 {
      XnDigits(s, 'y');
    } else {
      assert s[0] == '-';
    }
  }

  lemma ParseMRelative(today: int, n: int)
    requires IsInt(n)
    ensures ParseM("m", today) == Some(GetM(today))
    ensures ParseM("m" + IntToString(n), today) == Some(GetM(today) + n)
  {
    XnOffsets('m', n);
  }

  lemma ParseMAbsolute(today: int, m: int)
    requires IsM(m)
    ensures ParseM(IntToString(m), today) == Some(m)
  {
    XnDigits(IntToString(m), 'm');
    Util.StoiOfIntToString(m);
  }

  lemma ParseMRange(today: int, v: int)
    requires IsInt64(v) && !IsM(v)
    ensures ParseM(IntToString(v), today) == None
  {
    var s := IntToString(v);
    Util.StoiOfIntToString(v);
    if v >= 0 {
      XnDigits(s, 'm');
    } else {
      assert s[0] == '-';
    }
  }

  // ---------------------------------------------------------------------
  // Dates

  /** `prog_parsedt`: "d" with a day offset from today, or `yyyy-mm-dd`;
      either way the result must be a valid date. */
  function ParseDt(s: string, today: int): (r: Option<int>)
    requires IsDate(today)
    ensures r.Some? ==> IsDate(r.value)
    ensures |s| == 0 || s[0] != 'd' ==> r == IsoDate(s)
    ensures Xn(s, 'd').Some? ==> r == DayOffset(today, Xn(s, 'd').value)
  {
    match Xn(s, 'd')
    case Some(n) => DayOffset(today, n)
    case None => IsoDate(s)
  }

  /** Today moved by `n` days, when that is a valid date. */
  function DayOffset(today: int, n: int): (r: Option<int>)
    requires IsDate(today)
    ensures r.Some? <==> IsDate(ShiftD(today, n))
    ensures r.Some? ==> r.value == ShiftD(today, n)
  {
    var dt := ShiftD(today, n);
    if IsDate(dt) then Some(dt) else None
  }

  /** A `yyyy-mm-dd` text naming a valid date. */
  function IsoDate(s: string): (r: Option<int>)
    ensures r.Some? <==> IsIso(s) && IsDate(FromIso(s))
    ensures r.Some? ==> r.value == FromIso(s)
  {
    if IsIso(s) && IsDate(FromIso(s)) then Some(FromIso(s)) else None
  }

  /** Every valid date written as `yyyy-mm-dd` reads back as itself. */
  lemma ParseDtIso(dt: int, today: int)
    requires IsDate(dt) && IsDate(today)
    ensures ParseDt(ToIso(dt), today) == Some(dt)
  {
    ToIsoThenFromIso(dt);
    var s := ToIso(dt);
    assert IsDigit(s[0..4][0]);
  }

  /** "d" is today, and "d" with an offset is today moved by that many days
      when that lands on a valid date. */
  lemma ParseDtRelative(today: int, n: int)
    requires IsDate(today) && IsInt(n)
    ensures ParseDt("d", today) == Some(today)
    ensures ParseDt("d" + IntToString(n), today)
      == if IsDate(ShiftD(today, n)) then Some(ShiftD(today, n)) else None
  {
    XnOffsets('d', n);
    ShiftByZero(today);
  }

  /** A text starting with 'd' is a relative date or nothing: "dx" and
      "d1.5" are refused. */
  lemma ParseDtLetter(s: string, today: int)
    requires IsDate(today) && |s| >= 1 && s[0] == 'd' && Xn(s, 'd').None?
    ensures ParseDt(s, today) == None
  {
    assert !IsIso(s) by {
      if |s| == ISO_LEN {
        assert !IsDigit(s[0..4][0]);
      }
    }
  }

  /** A date text needs all ten characters: "2000-2-28" and "1-01-01" are
      refused. */
  lemma ParseDtShort(s: string, today: int)
    requires IsDate(today) && |s| != ISO_LEN && |s| >= 1 && IsDigit(s[0])
    ensures ParseDt(s, today) == None
  {
  }

  // ---------------------------------------------------------------------
  // Cents

  /** The size of `scpy`: that of "-92,233,720,368,547,758.08" and its NUL. */
  const SCPY_SIZE: int := 27

  /** The position of the first '.', or the length when there is none. */
  function DotIndex(s: string): (i: int)
    ensures 0 <= i <= |s| && (i < |s| ==> s[i] == '.')
  {
    if s == [] || s[0] == '.' then 0 else 1 + DotIndex(s[1..])
  }

  /** No '.' comes before the one `DotIndex` finds. */
  lemma {:induction false} DotIndexFirst(s: string)
    ensures forall k :: 0 <= k < DotIndex(s) ==> s[k] != '.'
  {
    if s != [] && s[0] != '.' {
      DotIndexFirst(s[1..]);
      forall k | 1 <= k < DotIndex(s)
        ensures s[k] != '.'
      {
        assert s[k] == s[1..][k - 1];
      }
    }
  }

  /** Past a part without '.', the search goes on in what follows. */
  lemma {:induction false} DotAfter(a: string, b: string)
    requires '.' !in a
    ensures DotIndex(a + b) == |a| + DotIndex(b)
  {
    if a == [] {
      assert a + b == b;
    } else {
      assert (a + b)[0] == a[0] && (a + b)[1..] == a[1..] + b;
      assert '.' !in a[1..];
      DotAfter(a[1..], b);
    }
  }

  /** The text with every ',' dropped. */
  function Uncomma(s: string): (r: string)
    ensures |r| <= |s|
  {
    if s == [] then [] else (if s[0] == ',' then [] else [s[0]]) + Uncomma(s[1..])
  }

  /** The cent digit `k` places after the '.', or '0' where the text ends. */
  function Pad(s: string, k: int): char
  {
    var i := DotIndex(s);
    if 0 <= i + k < |s| then s[i + k] else '0'
  }

  /** What `prog_parsecents` hands to `util_stoi`: the text before the first
      '.' without its commas, then two cent digits, padded with '0'. */
  function Copy(s: string): (r: string)
    ensures |r| == |Uncomma(s[..DotIndex(s)])| + 2
  {
    Uncomma(s[..DotIndex(s)]) + [Pad(s, 1), Pad(s, 2)]
  }

  /** The length check and the decimal-places check. */
  predicate Admitted(s: string)
  {
    |s| + 1 <= SCPY_SIZE && |s| - DotIndex(s) <= 3
  }

  /** `prog_parsecents`, with the copy given room for the two padded cent
      digits: the text must fit the length check and have at most two
      characters after its first '.', and what is left once the commas are
      dropped and the cents padded must read as a 64-bit number. */
  function ParseCents(s: string): (r: Option<int>)
    ensures r.Some? ==> Admitted(s) && IsInt64(r.value) && ParseDecimal(Copy(s)) == Some(r.value)
    ensures Admitted(s) && ParseDecimal(Copy(s)).Some? && IsInt64(ParseDecimal(Copy(s)).value) ==> r.Some?
  {
    if |s| + 1 > SCPY_SIZE then None
    else if |s| - DotIndex(s) > 3 then None
    else
      var (n, ok) := Util.Stoi(Copy(s));
      if ok then Some(n) else None
  }

  /** Where `prog_parsecents` writes the NUL that ends its copy. */
  function NulIndex(s: string): int
  {
    |Copy(s)|
  }

  /** What the C function does with its 27-byte `scpy`. */
  datatype Outcome = Parsed(cents: int) | Rejected | Overrun

  /** `prog_parsecents` as written: `scpy` is sized for the input alone, so
      an admitted text with 25 or more characters before its '.' (commas
      aside) has its padded copy and NUL written past the end of `scpy`. */
  function ParseCentsAsWritten(s: string): (r: Outcome)
    ensures r.Overrun? <==> Admitted(s) && NulIndex(s) >= SCPY_SIZE
    ensures !r.Overrun? ==> (r.Parsed? <==> ParseCents(s).Some?)
    ensures r.Parsed? ==> ParseCents(s) == Some(r.cents)
  {
    if |s| + 1 > SCPY_SIZE || |s| - DotIndex(s) > 3 then Rejected
    else if NulIndex(s) >= SCPY_SIZE then Overrun
    else
      var (n, ok) := Util.Stoi(Copy(s));
      if ok then Parsed(n) else Rejected
  }

  /** Twenty-five digits pass both checks, and their copy ends at index 27
      of the 27-byte buffer. */
  lemma ScpyOverrun()
    ensures var s := seq(25, _ => '1');
      Admitted(s) && NulIndex(s) == SCPY_SIZE && ParseCentsAsWritten(s) == Overrun
  {
    var s: string := seq(25, _ => '1');
    DotAbsent(s);
    assert s[..DotIndex(s)] == s;
    UncommaNone(s);
    assert Admitted(s);
  }

  /** With two more bytes the copy always fits: every admitted text's NUL
      lands inside a buffer of `SCPY_SIZE + 2`. */
  lemma CopyFits(s: string)
    requires Admitted(s)
    ensures NulIndex(s) < SCPY_SIZE + 2
  {
    assert |s[..DotIndex(s)]| <= |s|;
  }

  lemma DotAbsent(s: string)
    requires '.' !in s
    ensures DotIndex(s) == |s|
  {
    DotAfter(s, []);
    assert s + [] == s;
  }

  lemma {:induction false} UncommaNone(s: string)
    requires ',' !in s
    ensures Uncomma(s) == s
  {
    if s != [] {
      assert ',' !in s[1..];
      UncommaNone(s[1..]);
    }
  }

  lemma {:induction false} UncommaAppend(a: string, b: string)
    ensures Uncomma(a + b) == Uncomma(a) + Uncomma(b)
  {
    if a == [] {
      assert a + b == b;
    } else {
      assert (a + b)[0] == a[0] && (a + b)[1..] == a[1..] + b;
      UncommaAppend(a[1..], b);
    }
  }

  /** Dropping the commas of grouped digits gives the digits back. */
  lemma {:induction false} UncommaGroup(ds: string)
    requires AllDigits(ds)
    ensures Uncomma(Util.GroupDigits(ds)) == ds
    decreases |ds|
  {
    if |ds| <= 3 {
      UncommaNone(ds);
    } else {
      var a, b := ds[..|ds| - 3], ds[|ds| - 3..];
      SplitAt(ds, |ds| - 3);
      assert AllDigits(a) && AllDigits(b);
      UncommaGroup(a);
      var g := Util.GroupDigits(a);
      assert Util.GroupDigits(ds) == g + "," + b;
      UncommaAppend(g + ",", b);
      UncommaAppend(g, ",");
      assert Uncomma(",") == [];
      UncommaNone(b);
      assert Uncomma(g + "," + b) == a + b;
    }
  }

  lemma SplitAt(s: string, k: int)
    requires 0 <= k <= |s|
    ensures s[..k] + s[k..] == s
  {
  }

  /** Grouped digits hold no '.'. */
  lemma {:induction false} GroupNoDot(ds: string)
    requires AllDigits(ds)
    ensures '.' !in Util.GroupDigits(ds)
    decreases |ds|
  {
    if |ds| > 3 {
      var a, b := ds[..|ds| - 3], ds[|ds| - 3..];
      GroupNoDot(a);
      assert '.' !in b;
    }
  }

  /** A digit put after digits. */
  lemma DigitsPush(s: string, c: char)
    requires AllDigits(s) && IsDigit(c)
    ensures AllDigits(s + [c]) && DigitsToNat(s + [c]) == 10 * DigitsToNat(s) + DigitValue(c)
  {
    assert (s + [c])[..|s|] == s;
  }

  /** An amount is its whole units and its two cent digits. */
  lemma CentsSplit(m: nat)
    ensures m == 100 * (m / 100) + 10 * (m / 10 % 10) + m % 10
  {
    assert m / 100 == m / 10 / 10;
  }

  /** The copy of an amount's text: its sign and digits without the
      separators, then the two cent digits. */
  lemma CopyCents(sign: string, D: string, c1: char, c0: char)
    requires sign == "" || sign == "-"
    requires AllDigits(D)
    ensures var t := sign + Util.GroupDigits(D) + "." + [c1, c0];
      DotIndex(t) == |t| - 3 && Copy(t) == sign + (D + [c1] + [c0])
  {
    var pre := sign + Util.GroupDigits(D);
    var t := pre + "." + [c1, c0];
    assert '.' !in pre by {
      GroupNoDot(D);
    }
    DotBefore(pre, [c1, c0]);
    assert Uncomma(pre) == sign + D by {
      UncommaAppend(sign, Util.GroupDigits(D));
      UncommaNone(sign);
      UncommaGroup(D);
    }
    assert Pad(t, 1) == c1 && Pad(t, 2) == c0 by {
      assert t[|pre| + 1] == c1 && t[|pre| + 2] == c0;
    }
    assert Copy(t) == (sign + D) + [c1, c0];
    assert (sign + D) + [c1, c0] == sign + (D + [c1] + [c0]);
  }

  /** A part without '.', then '.', then the rest: the first '.' is the
      one after the part. */
  lemma DotBefore(pre: string, rest: string)
    requires '.' !in pre
    ensures var t := pre + "." + rest;
      DotIndex(t) == |pre| && t[..|pre|] == pre
  {
    var t := pre + "." + rest;
    assert t == pre + ("." + rest);
    DotAfter(pre, "." + rest);
  }

  /** Every 64-bit amount `util_fmtcents` writes reads back as itself. */
  lemma ParseCentsText(x: int)
    requires IsInt64(x)
    ensures ParseCents(Util.CentsText(x)) == Some(x)
  {
    var mag := Abs(x);
    var D := NatToDigits(mag / 100);
    var sign: string := if x < 0 then "-" else "";
    var c1, c0 := DigitChar(mag / 10 % 10), DigitChar(mag % 10);
    var t := Util.CentsText(x);
    assert t == sign + Util.GroupDigits(D) + "." + [c1, c0];
    Util.CentsTextBound(x);
    CopyCents(sign, D, c1, c0);
    var body := D + [c1] + [c0];
    assert AllDigits(body) && DigitsToNat(body) == mag by {
      DigitsPush(D, c1);
      DigitsPush(D + [c1], c0);
      DigitsToNatOfDigits(mag / 100);
      CentsSplit(mag);
    }
    if x < 0 {
      StoiNegDigits(body);
    } else {
      assert sign + body == body;
      StoiDigits(body);
    }
    ParseCentsOf(t, x);
  }

  /** An admitted text whose copy reads as `v` is `v` cents. */
  lemma ParseCentsOf(s: string, v: int)
    requires Admitted(s) && Util.Stoi(Copy(s)).1 && Util.Stoi(Copy(s)).0 == v
    ensures ParseCents(s) == Some(v)
  {
  }

  /** A string of digits small enough for 64 bits reads as its value. */
  lemma StoiDigits(u: string)
    requires |u| > 0 && AllDigits(u) && DigitsToNat(u) <= INT64_MAX
    ensures Util.Stoi(u).1 && Util.Stoi(u).0 == DigitsToNat(u)
  {
    ParseDigits(u);
  }

  /** A '-' and digits read as the negative value, down to the least
      64-bit number. */
  lemma StoiNegDigits(u: string)
    requires |u| > 0 && AllDigits(u) && DigitsToNat(u) <= -INT64_MIN
    ensures Util.Stoi("-" + u).1 && Util.Stoi("-" + u).0 == -(DigitsToNat(u) as int)
  {
    var t := "-" + u;
    assert t[0] == '-' && !IsSpace(t[0]);
    assert SkipSpaces(t) == t;
    assert t[1..] == u;
  }

  /** The copy of digits alone: the digits and two zero cents. */
  lemma CopyWhole(ds: string)
    requires AllDigits(ds)
    ensures DotIndex(ds) == |ds| && Copy(ds) == ds + ['0'] + ['0']
  {
    assert '.' !in ds && ',' !in ds by {
      forall k | 0 <= k < |ds|
        ensures ds[k] != '.' && ds[k] != ','
      {
        assert IsDigit(ds[k]);
      }
    }
    DotAbsent(ds);
    assert ds[..|ds|] == ds;
    UncommaNone(ds);
  }

  /** The copy of digits, '.' and one digit: all three digits and a zero. */
  lemma CopyOnePlace(ds: string, c: char)
    requires AllDigits(ds) && IsDigit(c)
    ensures var s := ds + "." + [c];
      DotIndex(s) == |ds| && Copy(s) == ds + [c] + ['0']
  {
    var s := ds + "." + [c];
    assert ',' !in ds && '.' !in ds by {
      forall k | 0 <= k < |ds|
        ensures ds[k] != '.' && ds[k] != ','
      {
        assert IsDigit(ds[k]);
      }
    }
    assert s == ds + ("." + [c]);
    DotAfter(ds, "." + [c]);
    assert s[..|ds|] == ds;
    UncommaNone(ds);
    assert s[|ds| + 1] == c;
  }

  /** An admitted text whose copy is digits small enough for 64 bits is
      the value of those digits. */
  lemma ParseCentsDigits(s: string, u: string)
    requires Admitted(s) && Copy(s) == u
    requires |u| > 0 && AllDigits(u) && DigitsToNat(u) <= INT64_MAX
    ensures ParseCents(s) == Some(DigitsToNat(u) as int)
  {
    StoiDigits(u);
    ParseCentsOf(s, DigitsToNat(u));
  }

  /** Whole units without a '.' get two zero cents: "12" is 1200. */
  lemma ParseCentsWhole(ds: string)
    requires 1 <= |ds| <= 25 && AllDigits(ds) && 100 * DigitsToNat(ds) <= INT64_MAX
    ensures ParseCents(ds) == Some(100 * DigitsToNat(ds))
  {
    var u := ds + ['0'] + ['0'];
    assert AllDigits(u) && DigitsToNat(u) == 100 * DigitsToNat(ds) by {
      DigitsPush(ds, '0');
      DigitsPush(ds + ['0'], '0');
      assert DigitValue('0') == 0;
    }
    CopyWhole(ds);
    ParseCentsDigits(ds, u);
  }

  /** One cent digit gets a zero after it: "1.5" is 150. */
  lemma ParseCentsOnePlace(ds: string, c: char)
    requires 1 <= |ds| <= 24 && AllDigits(ds) && IsDigit(c) && 100 * DigitsToNat(ds) + 90 <= INT64_MAX
    ensures ParseCents(ds + "." + [c]) == Some(100 * DigitsToNat(ds) + 10 * DigitValue(c))
  {
    var s := ds + "." + [c];
    var u := ds + [c] + ['0'];
    assert AllDigits(u) && DigitsToNat(u) == 100 * DigitsToNat(ds) + 10 * DigitValue(c) by {
      DigitsPush(ds, c);
      DigitsPush(ds + [c], '0');
      assert DigitValue('0') == 0;
    }
    CopyOnePlace(ds, c);
    ParseCentsDigits(s, u);
  }

  /** The empty text is zero cents, for its copy is "00". */
  lemma ParseCentsEmpty()
    ensures ParseCents("") == Some(0)
  {
    var u := ['0'] + ['0'];
    assert Copy("") == u;
    assert AllDigits(u) && DigitsToNat(u) == 0 by {
      DigitsPush([], '0');
      DigitsPush(['0'], '0');
      assert [] + ['0'] == ['0'];
      assert DigitValue('0') == 0;
    }
    ParseCentsDigits("", u);
  }

  /** Three places after the '.' are refused. */
  lemma ParseCentsPlaces(ds: string, cs: string)
    requires |ds| + 1 + |cs| <= 26 && '.' !in ds && |cs| >= 3
    ensures ParseCents(ds + "." + cs) == None
  {
    assert ds + "." + cs == ds + ("." + cs);
    DotAfter(ds, "." + cs);
  }
}

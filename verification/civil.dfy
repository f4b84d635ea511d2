/** The `Date` struct of src/date.c and its conversions: the civil-to-day
    count `dt_d2o` (days from 0000-03-01 in the proleptic Gregorian calendar),
    the string converters `dt_s2d`, `dt_s2o` and `dt_d2s`, and the inverse of
    the day count, which the packed-date day shift needs (src/date.c only
    carries an empty, commented-out stub for it). */
module Civil {
  import opened Base
  import opened Text

  /** `Date` of src/date.h: `short year; signed char month; signed char day`. */
  datatype CDate = CDate(year: int, month: int, day: int)

  /** The components fit the struct's C field types. */
  predicate FitsStruct(d: CDate)
  {
    -32768 <= d.year <= 32767 && -128 <= d.month <= 127 && -128 <= d.day <= 127
  }

  const DAYS_IN_ERA: int := 400 * 365 + 100 - 3

  // ---------------------------------------------------------------------
  // The Gregorian calendar

  predicate IsLeap(y: int)
  {
    y % 4 == 0 && (y % 100 != 0 || y % 400 == 0)
  }

  function DaysInMonth(y: int, m: int): int
    requires 1 <= m <= 12
  {
    if m == 2 then (if IsLeap(y) then 29 else 28)
    else if m == 4 || m == 6 || m == 9 || m == 11 then 30
    else 31
  }

  /** A real day of the proleptic Gregorian calendar (any year). */
  predicate IsCalendarDate(d: CDate)
  {
    1 <= d.month <= 12 && 1 <= d.day <= DaysInMonth(d.year, d.month)
  }

  /** The calendar day after `d`. */
  function NextDay(d: CDate): (r: CDate)
    requires IsCalendarDate(d)
    ensures IsCalendarDate(r)
  {
    if d.day < DaysInMonth(d.year, d.month) then CDate(d.year, d.month, d.day + 1)
    else if d.month < 12 then CDate(d.year, d.month + 1, 1)
    else CDate(d.year + 1, 1, 1)
  }

  /** Chronological order on calendar dates. */
  predicate Before(a: CDate, b: CDate)
  {
    a.year < b.year
    || (a.year == b.year && a.month < b.month)
    || (a.year == b.year && a.month == b.month && a.day < b.day)
  }

  // ---------------------------------------------------------------------
  // dt_d2o

  /** Days before adjusted year `yoe` of a 400-year era (March-based years). */
  function YearStart(yoe: int): int
  {
    365 * yoe + yoe / 4 - yoe / 100
  }

  /** First day of adjusted month `m` (0 = March ... 11 = February). */
  function MonthStart(m: int): int
  {
    (153 * m + 2) / 5
  }

  /** `dt_d2o`, with C's truncating division written out, so it is defined
      for every struct value, valid date or not. */
  function D2O(dp: CDate): int
  {
    var y := dp.year - (if dp.month < 3 then 1 else 0);
    var m := dp.month + (if dp.month < 3 then 9 else -3);
    var d := dp.day - 1;
    var era := CDiv(if y >= 0 then y else y - 399, 400);
    var yoe := y - era * 400;
    var doy := CDiv(153 * m + 2, 5) + d;
    var doe := yoe * 365 + CDiv(yoe, 4) - CDiv(yoe, 100) + doy;
    DAYS_IN_ERA * era + doe
  }

  /** The year March-based year of `dp` (January and February belong to the
      previous one). */
  function AdjYear(dp: CDate): int
  {
    dp.year - (if dp.month < 3 then 1 else 0)
  }

  /** The era computed with truncating division and the "subtract 399"
      correction is the floor of the adjusted year over 400, so the year of
      the era always lies in 0..399, negative years included. */
  lemma EraIsFloor(y: int)
    ensures CDiv(if y >= 0 then y else y - 399, 400) == y / 400
    ensures 0 <= y - 400 * CDiv(if y >= 0 then y else y - 399, 400) <= 399
  {
  }

  /** For a calendar date the day count is era days + year start + month start
      + day of month, with every part in its natural range. */
  lemma D2OParts(dp: CDate)
    requires IsCalendarDate(dp)
    ensures var y := AdjYear(dp);
            var m := dp.month + (if dp.month < 3 then 9 else -3);
            0 <= m <= 11 &&
            D2O(dp) == DAYS_IN_ERA * (y / 400) + YearStart(y % 400) + MonthStart(m) + dp.day - 1
  {
    var y := AdjYear(dp);
    EraIsFloor(y);
  }

  /** The fixed points of the transform: 0000-03-01 is day 0, its neighbours
      are -1 and 1. */
  lemma D2OExamples()
    ensures D2O(CDate(0, 3, 1)) == 0
    ensures D2O(CDate(0, 2, 29)) == -1
    ensures D2O(CDate(0, 3, 2)) == 1
  {
  }

  /** Length of adjusted year `yoe` of an era: 366 exactly when the February
      that ends it is a leap February. */
  lemma {:induction false} YearLength(era: int, yoe: int)
    requires 0 <= yoe <= 399
    ensures var next := if yoe == 399 then DAYS_IN_ERA else YearStart(yoe + 1);
            next - YearStart(yoe) == if IsLeap(400 * era + yoe + 1) then 366 else 365
  {
    LeapInEra(era, yoe + 1);
    if yoe < 399 {
      YearStartStep(yoe);
    }
  }

  lemma YearStartStep(k: int)
    requires 0 <= k < 399
    ensures YearStart(k + 1) - YearStart(k)
         == 365 + (if (k + 1) % 4 == 0 then 1 else 0) - (if (k + 1) % 100 == 0 then 1 else 0)
  {
  }

  /** Leap years repeat with the 400-year era. */
  lemma LeapInEra(era: int, k: int)
    requires 1 <= k <= 400
    ensures IsLeap(400 * era + k) == ((k % 4 == 0 && k % 100 != 0) || k == 400)
  {
    var Y := 400 * era + k;
    ShiftMod4(100 * era, k);
    ShiftMod100(4 * era, k);
    ShiftMod400(era, k);
  }

  lemma ShiftMod4(t: int, k: int)
    ensures (4 * t + k) % 4 == k % 4
  {
    assert (4 * t + k) / 4 == t + k / 4;
  }

  lemma ShiftMod100(t: int, k: int)
    ensures (100 * t + k) % 100 == k % 100
  {
    assert (100 * t + k) / 100 == t + k / 100;
  }

  lemma ShiftMod400(t: int, k: int)
    ensures (400 * t + k) % 400 == k % 400
  {
    assert (400 * t + k) / 400 == t + k / 400;
  }

  /** `dt_d2o` is a day count: the next calendar day is one more. */
  lemma D2ONext(dp: CDate)
    requires IsCalendarDate(dp)
    ensures D2O(NextDay(dp)) == D2O(dp) + 1
  {
    if dp.day < DaysInMonth(dp.year, dp.month) {
      D2OParts(dp);
      D2OParts(NextDay(dp));
    } else if dp.month == 2 {
      NextOfFebruary(dp);
    } else {
      NextOfMonthEnd(dp);
    }
  }

  lemma NextOfFebruary(dp: CDate)
    requires IsCalendarDate(dp) && dp.month == 2 && dp.day == DaysInMonth(dp.year, 2)
    ensures D2O(NextDay(dp)) == D2O(dp) + 1
  {
    D2OParts(dp);
    D2OParts(CDate(dp.year, 3, 1));
    FebruaryToMarch(dp);
  }

  /** Outside February the adjusted year does not change at a month end. */
  lemma NextOfMonthEnd(dp: CDate)
    requires IsCalendarDate(dp) && dp.month != 2 && dp.day == DaysInMonth(dp.year, dp.month)
    ensures D2O(NextDay(dp)) == D2O(dp) + 1
  {
    var next := NextDay(dp);
    assert AdjYear(next) == AdjYear(dp);
    D2OParts(dp);
    D2OParts(next);
    MonthLength(dp.year, dp.month);
  }

  /** Outside February, the gap between consecutive month starts is the
      month's length. */
  lemma MonthLength(y: int, month: int)
    requires 1 <= month <= 12 && month != 2
    ensures var m := month + (if month < 3 then 9 else -3);
            MonthStart(m + 1) - MonthStart(m) == DaysInMonth(y, month)
  {
  }

  /** The last day of February is followed by the first day of the next
      March-based year. */
  lemma FebruaryToMarch(dp: CDate)
    requires IsCalendarDate(dp) && dp.month == 2 && dp.day == DaysInMonth(dp.year, 2)
    ensures DAYS_IN_ERA * (dp.year / 400) + YearStart(dp.year % 400)
         == DAYS_IN_ERA * ((dp.year - 1) / 400) + YearStart((dp.year - 1) % 400) + MonthStart(11) + dp.day
  {
    var y := dp.year - 1;
    YearLength(y / 400, y % 400);
    assert 400 * (y / 400) + y % 400 + 1 == dp.year;
    if y % 400 == 399 {
      assert (y + 1) / 400 == y / 400 + 1 && (y + 1) % 400 == 0;
    } else {
      assert (y + 1) / 400 == y / 400 && (y + 1) % 400 == y % 400 + 1;
    }
  }

  /** Chronological order is preserved: a later calendar date has a larger
      day count. */
  lemma {:induction false} D2OMonotone(a: CDate, b: CDate)
    requires IsCalendarDate(a) && IsCalendarDate(b)
    requires Before(a, b)
    ensures D2O(a) < D2O(b)
  {
    D2OParts(a);
    D2OParts(b);
    var ya := AdjYear(a);
    var yb := AdjYear(b);
    var ma := a.month + (if a.month < 3 then 9 else -3);
    var mb := b.month + (if b.month < 3 then 9 else -3);
    DayOfYearBound(a);
    if ya == yb {
      if ma == mb {
        assert a.day < b.day;
      } else {
        assert ma < mb;
        MonthStartGap(ma, mb, a);
      }
    } else {
      assert ya < yb;
      YearStartGap(ya, yb);
    }
  }

  /** The day of the adjusted year stays below the length of that year. */
  lemma DayOfYearBound(dp: CDate)
    requires IsCalendarDate(dp)
    ensures var y := AdjYear(dp);
            var m := dp.month + (if dp.month < 3 then 9 else -3);
            var next := if y % 400 == 399 then DAYS_IN_ERA else YearStart(y % 400 + 1);
            YearStart(y % 400) + MonthStart(m) + dp.day - 1 < next
  {
    var y := AdjYear(dp);
    YearLength(y / 400, y % 400);
    assert 400 * (y / 400) + y % 400 + 1 == (if dp.month < 3 then dp.year else dp.year + 1);
  }

  lemma MonthStartGap(ma: int, mb: int, a: CDate)
    requires IsCalendarDate(a)
    requires ma == a.month + (if a.month < 3 then 9 else -3)
    requires 0 <= ma < mb <= 11
    ensures MonthStart(ma) + a.day - 1 < MonthStart(mb)
  {
    assert MonthStart(ma + 1) <= MonthStart(mb);
  }

  lemma YearStartGap(ya: int, yb: int)
    requires ya < yb
    ensures DAYS_IN_ERA * (ya / 400) + (if ya % 400 == 399 then DAYS_IN_ERA else YearStart(ya % 400 + 1))
         <= DAYS_IN_ERA * (yb / 400) + YearStart(yb % 400)
  {
    if ya / 400 == yb / 400 {
      assert ya % 400 < yb % 400;
      assert YearStart(ya % 400 + 1) <= YearStart(yb % 400);
    } else {
      assert ya / 400 < yb / 400;
    }
  }

  // ---------------------------------------------------------------------
  // The inverse transform

  /** The year of the era holding day `doe` of the era: whole centuries,
      then whole four-year cycles, then whole years, each cut short by one
      day where the leap rule skips a leap day. */
  function YearOfEra(doe: int): int
    requires 0 <= doe < DAYS_IN_ERA
  {
    var c := if doe / 36524 < 3 then doe / 36524 else 3;
    var r1 := doe - 36524 * c;
    var q := r1 / 1461;
    var r2 := r1 - 1461 * q;
    var t := if r2 / 365 < 3 then r2 / 365 else 3;
    100 * c + 4 * q + t
  }

  lemma YearOfEraCorrect(doe: int)
    requires 0 <= doe < DAYS_IN_ERA
    ensures 0 <= YearOfEra(doe) <= 399
    ensures YearStart(YearOfEra(doe)) <= doe
    ensures YearOfEra(doe) < 399 ==> doe < YearStart(YearOfEra(doe) + 1)
  {
    var c, q, t, r3 := EraSplit(doe);
    YearOfPieces(c, q, t, r3);
  }

  lemma YearOfPieces(c: int, q: int, t: int, r3: int)
    requires 0 <= c <= 3 && 0 <= q <= 24 && 0 <= t <= 3
    requires 0 <= r3 <= 365 && (t < 3 ==> r3 < 365) && (t == 3 && q == 24 && c < 3 ==> r3 < 365)
    ensures var k := 100 * c + 4 * q + t;
            var doe := 36524 * c + 1461 * q + 365 * t + r3;
            YearStart(k) <= doe && (k < 399 ==> doe < YearStart(k + 1))
  {
    var k := 100 * c + 4 * q + t;
    YearStartOf(c, q, t);
    if k < 399 {
      YearStartStep(k);
      assert (k + 1) % 4 == (if t == 3 then 0 else t + 1);
      assert (k + 1) % 100 == (if t == 3 && q == 24 then 0 else 4 * q + t + 1);
    }
  }

  /** The pieces `YearOfEra` cuts a day of the era into: centuries, four-year
      cycles, years, and the day within the year. */
  lemma EraSplit(doe: int) returns (c: int, q: int, t: int, r3: int)
    requires 0 <= doe < DAYS_IN_ERA
    ensures 0 <= c <= 3 && 0 <= q <= 24 && 0 <= t <= 3
    ensures YearOfEra(doe) == 100 * c + 4 * q + t
    ensures doe == 36524 * c + 1461 * q + 365 * t + r3
    ensures 0 <= r3 <= 365 && (t < 3 ==> r3 < 365) && (t == 3 && q == 24 && c < 3 ==> r3 < 365)
  {
    c := if doe / 36524 < 3 then doe / 36524 else 3;
    var r1 := doe - 36524 * c;
    assert 0 <= r1 <= 36524 && (c < 3 ==> r1 < 36524);
    q := r1 / 1461;
    var r2 := r1 - 1461 * q;
    assert 0 <= q <= 24 && 0 <= r2 < 1461;
    t := if r2 / 365 < 3 then r2 / 365 else 3;
    r3 := r2 - 365 * t;
  }

  /** The start of year `100 c + 4 q + t` of an era, in whole centuries,
      four-year cycles and years. */
  lemma YearStartOf(c: int, q: int, t: int)
    requires 0 <= c <= 3 && 0 <= q <= 24 && 0 <= t <= 3
    ensures YearStart(100 * c + 4 * q + t) == 36524 * c + 1461 * q + 365 * t
  {
    var k := 100 * c + 4 * q + t;
    assert k / 4 == 25 * c + q;
    assert k / 100 == c;
  }

  /** The day number `n` as a calendar date (the inverse of `D2O`). */
  function O2D(n: int): CDate
  {
    var era := n / DAYS_IN_ERA;
    var doe := n % DAYS_IN_ERA;
    var yoe := YearOfEra(doe);
    var doy := doe - YearStart(yoe);
    var mp := (5 * doy + 2) / 153;
    var d := doy - MonthStart(mp) + 1;
    var m := if mp < 10 then mp + 3 else mp - 9;
    CDate(400 * era + yoe + (if m <= 2 then 1 else 0), m, d)
  }

  /** The adjusted month holding day `doy` of an adjusted year. */
  lemma MonthOfDay(doy: int)
    requires 0 <= doy <= 365
    ensures var mp := (5 * doy + 2) / 153;
            0 <= mp <= 11 && MonthStart(mp) <= doy && (mp < 11 ==> doy < MonthStart(mp + 1))
  {
  }

  /** The fields of `O2D(n)` in terms of the era, the year of the era and the
      adjusted month. */
  lemma O2DParts(n: int)
    ensures var era := n / DAYS_IN_ERA;
            var doe := n % DAYS_IN_ERA;
            var yoe := YearOfEra(doe);
            var doy := doe - YearStart(yoe);
            var mp := (5 * doy + 2) / 153;
            var r := O2D(n);
            && 0 <= yoe <= 399
            && 0 <= doy <= 365
            && 0 <= mp <= 11
            && r.month == (if mp < 10 then mp + 3 else mp - 9)
            && r.day == doy - MonthStart(mp) + 1
            && AdjYear(r) == 400 * era + yoe
            && 1 <= r.day
            && (mp < 11 ==> doy < MonthStart(mp + 1))
            && (yoe < 399 ==> doe < YearStart(yoe + 1))
  {
    var doe := n % DAYS_IN_ERA;
    YearOfEraCorrect(doe);
    var yoe := YearOfEra(doe);
    YearLength(n / DAYS_IN_ERA, yoe);
    MonthOfDay(doe - YearStart(yoe));
  }

  /** Every day number names a calendar date, and counting that date's days
      gives the number back. */
  lemma O2DThenD2O(n: int)
    ensures IsCalendarDate(O2D(n))
    ensures D2O(O2D(n)) == n
  {
    O2DIsCalendarDate(n);
    O2DParts(n);
    var era := n / DAYS_IN_ERA;
    var yoe := YearOfEra(n % DAYS_IN_ERA);
    var r := O2D(n);
    var y := AdjYear(r);
    assert y / 400 == era && y % 400 == yoe;
    D2OParts(r);
  }

  lemma O2DIsCalendarDate(n: int)
    ensures IsCalendarDate(O2D(n))
  {
    O2DParts(n);
    var era := n / DAYS_IN_ERA;
    var doe := n % DAYS_IN_ERA;
    var yoe := YearOfEra(doe);
    var doy := doe - YearStart(yoe);
    var mp := (5 * doy + 2) / 153;
    var r := O2D(n);
    if mp == 11 {
      YearLength(era, yoe);
      assert 400 * era + yoe + 1 == r.year;
    } else {
      MonthLength(r.year, r.month);
    }
  }

  /** Counting the days of a calendar date and converting back gives the
      date. */
  lemma D2OThenO2D(dp: CDate)
    requires IsCalendarDate(dp)
    ensures O2D(D2O(dp)) == dp
  {
    var n := D2O(dp);
    O2DThenD2O(n);
    var r := O2D(n);
    if r != dp {
      if Before(r, dp) {
        D2OMonotone(r, dp);
      } else {
        assert Before(dp, r);
        D2OMonotone(dp, r);
      }
    }
  }

  /** Different calendar dates have different day counts. */
  lemma D2OInjective(a: CDate, b: CDate)
    requires IsCalendarDate(a) && IsCalendarDate(b)
    requires D2O(a) == D2O(b)
    ensures a == b
  {
    D2OThenO2D(a);
    D2OThenO2D(b);
  }

  // ---------------------------------------------------------------------
  // Text conversions

  const DSTR_LEN: int := 11

  /** `dt_s2d`: the text must be exactly ten characters (a NUL at offset 10
      and none before it), and the pieces at offsets 0-3, 5-6 and 8-9 must
      each be consumed entirely by `strtol`. The characters at offsets 4 and
      7 are never looked at. */
  function S2D(s: string): (r: Option<CDate>)
    requires IsCString(s)
    ensures r.Some? <==> |s| == 10 && ParseDecimal(s[0..4]).Some?
                         && ParseDecimal(s[5..7]).Some? && ParseDecimal(s[8..10]).Some?
    ensures r.Some? ==> r.value == CDate(ParseDecimal(s[0..4]).value,
                                         ParseDecimal(s[5..7]).value,
                                         ParseDecimal(s[8..10]).value)
  {
    if |s| != 10 then None
    else
      match (ParseDecimal(s[0..4]), ParseDecimal(s[5..7]), ParseDecimal(s[8..10]))
      case (Some(y), Some(m), Some(d)) => Some(CDate(y, m, d))
      case _ => None
  }

  /** The separators of `dt_s2d` are unchecked: any characters at offsets 4
      and 7 give the same result. */
  lemma S2DIgnoresSeparators(s: string, a: char, b: char)
    requires IsCString(s) && |s| == 10 && a != '\0' && b != '\0'
    ensures IsCString(s[4 := a][7 := b])
    ensures S2D(s[4 := a][7 := b]) == S2D(s)
  {
    var t := s[4 := a][7 := b];
    assert t[0..4] == s[0..4] && t[5..7] == s[5..7] && t[8..10] == s[8..10];
  }

  /** A well-formed ISO date parses to its components. */
  lemma S2DExample()
    ensures S2D("2000-02-29") == Some(CDate(2000, 2, 29))
  {
    var s := "2000-02-29";
    Pieces("2000", "02", "29");
    assert s == "2000" + "-" + "02" + "-" + "29";
    assert DigitsToNat("2000") == 2000 by {
      assert "2000"[..3] == "200";
      assert "200"[..2] == "20";
      assert "20"[..1] == "2";
    }
    assert DigitsToNat("02") == 2 by { assert "02"[..1] == "0"; }
    assert DigitsToNat("29") == 29 by { assert "29"[..1] == "2"; }
    ParseDigits("2000");
    ParseDigits("02");
    ParseDigits("29");
  }

  /** `dt_s2o`: the day count of the parsed date with status true, or 0 with
      status false. */
  function S2O(s: string): (r: (int, bool))
    requires IsCString(s)
    ensures r.1 <==> S2D(s).Some?
    ensures r.1 ==> r.0 == D2O(S2D(s).value)
    ensures !r.1 ==> r.0 == 0
  {
    match S2D(s)
    case Some(d) => (D2O(d), true)
    case None => (0, false)
  }

  /** The full text `snprintf("%04hd-%02hhd-%02hhd")` would produce. */
  function D2SFull(dp: CDate): string
  {
    PrintfZeroPad(dp.year, 4) + "-" + PrintfZeroPad(dp.month, 2) + "-" + PrintfZeroPad(dp.day, 2)
  }

  /** `dt_d2s`: `snprintf` into an 11-byte buffer keeps at most ten
      characters; the call reports success iff the full text is exactly ten
      characters long. */
  function D2S(dp: CDate): (r: (bool, string))
    ensures r.0 <==> |D2SFull(dp)| == DSTR_LEN - 1
    ensures |r.1| <= DSTR_LEN - 1 && r.1 <= D2SFull(dp)
  {
    var full := D2SFull(dp);
    (|full| == DSTR_LEN - 1, if |full| <= DSTR_LEN - 1 then full else full[..DSTR_LEN - 1])
  }

  /** Success of `dt_d2s` means every component took its minimum width: a
      year in -999..9999, month and day in -9..99; the text is then the
      zero-padded `yyyy-mm-dd`. */
  lemma D2SSuccess(dp: CDate)
    ensures D2S(dp).0 <==> -999 <= dp.year <= 9999 && -9 <= dp.month <= 99 && -9 <= dp.day <= 99
    ensures D2S(dp).0 ==> D2S(dp).1 == D2SFull(dp)
  {
    PrintfWidth(dp.year, 4);
    PrintfWidth(dp.month, 2);
    PrintfWidth(dp.day, 2);
  }

  lemma PrintfWidth(x: int, w: nat)
    requires w >= 1
    ensures |PrintfZeroPad(x, w)| == w <==> -(Pow10(w - 1) as int) < x < Pow10(w)
  {
    if x < 0 {
      DigitCountBounds(-x, w - 1);
    } else {
      DigitCountBounds(x, w);
    }
  }

  /** The pieces of a `yyyy-mm-dd` shaped text sit at offsets 0, 5 and 8. */
  lemma Pieces(y: string, m: string, d: string)
    requires |y| == 4 && |m| == 2 && |d| == 2
    ensures var s := y + "-" + m + "-" + d;
      |s| == 10 && s[0..4] == y && s[5..7] == m && s[8..10] == d
  {
  }

  /** Whatever `dt_d2s` writes successfully, `dt_s2d` reads back. */
  lemma S2DOfD2S(dp: CDate)
    requires D2S(dp).0
    ensures IsCString(D2S(dp).1)
    ensures S2D(D2S(dp).1) == Some(dp)
  {
    D2SSuccess(dp);
    var y := PrintfZeroPad(dp.year, 4);
    var m := PrintfZeroPad(dp.month, 2);
    var d := PrintfZeroPad(dp.day, 2);
    PrintfWidth(dp.year, 4);
    PrintfWidth(dp.month, 2);
    PrintfWidth(dp.day, 2);
    Pieces(y, m, d);
    ParsePrintfZeroPad(dp.year, 4);
    ParsePrintfZeroPad(dp.month, 2);
    ParsePrintfZeroPad(dp.day, 2);
    PrintfNoNul(dp.year, 4);
    PrintfNoNul(dp.month, 2);
    PrintfNoNul(dp.day, 2);
    ConcatCString(y, "-");
    ConcatCString(y + "-", m);
    ConcatCString(y + "-" + m, "-");
    ConcatCString(y + "-" + m + "-", d);
  }

  lemma PrintfNoNul(x: int, w: nat)
    ensures IsCString(PrintfZeroPad(x, w))
  {
  }
}

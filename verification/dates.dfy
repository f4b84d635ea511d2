/** The packed date of inc/date.h: a date is the `int32_t` `y*10000 + m*100 +
    d`. The header fixes the packing, the validity rules and the shapes of the
    text forms; its implementation file is not part of this model, so every
    definition here follows the header comments and the unit tests of
    test/tdate.c, with the day shift built on the day count of src/date.c. */
module Dates {
  import opened Base
  import opened Text
  import opened Civil

  // ---------------------------------------------------------------------
  // Packing

  /** `dt_dt`: the packed value, with no validation. */
  function Dt(y: int, m: int, d: int): int
  {
    y * 10000 + m * 100 + d
  }

  /** The components as C's truncating `/` and `%` read them. */
  function GetY(dt: int): int { CDiv(dt, 10000) }
  function GetM(dt: int): int { CMod(CDiv(dt, 100), 100) }
  function GetD(dt: int): int { CMod(dt, 100) }

  /** Components in the ranges the packing keeps apart. */
  predicate Packable(y: int, m: int, d: int)
  {
    y >= 0 && 0 <= m <= 99 && 0 <= d <= 99
  }

  /** Packing non-negative components of at most two digits (year: any
      number of digits) and reading them back gives the components. */
  lemma PackThenGet(y: int, m: int, d: int)
    requires Packable(y, m, d)
    ensures GetY(Dt(y, m, d)) == y
    ensures GetM(Dt(y, m, d)) == m
    ensures GetD(Dt(y, m, d)) == d
  {
    var v := Dt(y, m, d);
    assert v == 10000 * y + (100 * m + d) && 0 <= 100 * m + d < 10000;
    assert v / 10000 == y;
    assert v == 100 * (100 * y + m) + d;
    assert v / 100 == 100 * y + m;
    assert (100 * y + m) / 100 == y;
    assert v / 100 - 100 * ((100 * y + m) / 100) == m;
    assert v / 100 * 100 == v - d;
  }

  /** Every non-negative value is the packing of its own components. */
  lemma GetThenPack(dt: int)
    requires dt >= 0
    ensures Packable(GetY(dt), GetM(dt), GetD(dt))
    ensures Dt(GetY(dt), GetM(dt), GetD(dt)) == dt
  {
    var q := dt / 100;
    assert GetY(dt) == q / 100 by {
      assert dt / 10000 == (dt / 100) / 100;
    }
  }

  /** A packed value whose year is negative reads back a year of at most
      zero. */
  lemma NegativeYear(y: int, m: int, d: int)
    requires y < 0 && 0 <= m <= 99 && 0 <= d <= 99
    ensures GetY(Dt(y, m, d)) <= 0
  {
    var v := Dt(y, m, d);
    assert v < 0;
    assert -v == -10000 * y - 100 * m - d;
    assert (-v) / 10000 >= 0;
  }

  // ---------------------------------------------------------------------
  // Validation

  predicate IsY(y: int) { 1 <= y <= 9999 }
  predicate IsM(m: int) { 1 <= m <= 12 }
  predicate IsD(d: int) { 1 <= d <= 31 }

  /** `dt_isdt`: a real day of a year 1..9999 of the Gregorian calendar. */
  predicate IsDate(dt: int)
  {
    IsY(GetY(dt)) && IsM(GetM(dt)) && 1 <= GetD(dt) <= DaysInMonth(GetY(dt), GetM(dt))
  }

  /** The struct form of a packed date. */
  function ToCivil(dt: int): (r: CDate)
    ensures IsDate(dt) ==> IsCalendarDate(r) && IsY(r.year)
  {
    CDate(GetY(dt), GetM(dt), GetD(dt))
  }

  /** The packing of a calendar date is valid exactly when its year is in
      1..9999, and then it reads back as that date. */
  lemma PackCalendarDate(c: CDate)
    requires IsCalendarDate(c)
    ensures IsDate(Dt(c.year, c.month, c.day)) <==> IsY(c.year)
    ensures c.year >= 0 ==> ToCivil(Dt(c.year, c.month, c.day)) == c
  {
    if c.year >= 0 {
      PackThenGet(c.year, c.month, c.day);
    } else {
      NegativeYear(c.year, c.month, c.day);
    }
  }

  /** `dt_isdt` on the packing of in-range components is the Gregorian rule
      on those components. */
  lemma IsDatePacked(y: int, m: int, d: int)
    requires Packable(y, m, d)
    ensures IsDate(Dt(y, m, d)) <==> IsY(y) && IsCalendarDate(CDate(y, m, d))
  {
    PackThenGet(y, m, d);
  }

  /** A valid date is the packing of its own calendar date. */
  lemma ValidIsPacked(dt: int)
    requires IsDate(dt)
    ensures dt >= 0
    ensures Dt(ToCivil(dt).year, ToCivil(dt).month, ToCivil(dt).day) == dt
  {
    GetThenPack(dt);
  }

  /** The cases of test/tdate.c: packing, reading, setting and the leap
      rule. */
  lemma PackingExamples()
    ensures Dt(1, 2, 3) == 10203
    ensures GetD(19991204) == 4
    ensures IsDate(19991231) && !IsDate(19990231)
    ensures IsDate(20000229) && !IsDate(20010229)
  {
    PackThenGet(1999, 12, 4);
    IsDatePacked(1999, 12, 31);
    IsDatePacked(1999, 2, 31);
    IsDatePacked(2000, 2, 29);
    IsDatePacked(2001, 2, 29);
  }

  // ---------------------------------------------------------------------
  // Setters

  /** `dt_sety`: replace the year; the result may be invalid. */
  function SetY(dt: int, y: int): (r: int)
    ensures dt >= 0 && y >= 0 ==> GetY(r) == y && GetM(r) == GetM(dt) && GetD(r) == GetD(dt)
  {
    if dt >= 0 && y >= 0 then
      GetThenPack(dt);
      PackThenGet(y, GetM(dt), GetD(dt));
      Dt(y, GetM(dt), GetD(dt))
    else
      Dt(y, GetM(dt), GetD(dt))
  }

  /** `dt_setm`: replace the month; the result may be invalid. */
  function SetM(dt: int, m: int): (r: int)
    ensures dt >= 0 && 0 <= m <= 99 ==> GetY(r) == GetY(dt) && GetM(r) == m && GetD(r) == GetD(dt)
  {
    if dt >= 0 && 0 <= m <= 99 then
      GetThenPack(dt);
      PackThenGet(GetY(dt), m, GetD(dt));
      Dt(GetY(dt), m, GetD(dt))
    else
      Dt(GetY(dt), m, GetD(dt))
  }

  /** `dt_setd`: replace the day; the result may be invalid. */
  function SetD(dt: int, d: int): (r: int)
    ensures dt >= 0 && 0 <= d <= 99 ==> GetY(r) == GetY(dt) && GetM(r) == GetM(dt) && GetD(r) == d
  {
    if dt >= 0 && 0 <= d <= 99 then
      GetThenPack(dt);
      PackThenGet(GetY(dt), GetM(dt), d);
      Dt(GetY(dt), GetM(dt), d)
    else
      Dt(GetY(dt), GetM(dt), d)
  }

  /** Setting a component a date already has changes nothing. */
  lemma SetOwnComponent(dt: int)
    requires dt >= 0
    ensures SetY(dt, GetY(dt)) == dt && SetM(dt, GetM(dt)) == dt && SetD(dt, GetD(dt)) == dt
  {
    GetThenPack(dt);
  }

  /** Setting the month of 1999-12-31 to February gives the invalid
      19990231. */
  lemma SetterExample()
    ensures SetM(19991231, 2) == 19990231 && !IsDate(SetM(19991231, 2))
  {
    PackThenGet(1999, 12, 31);
    IsDatePacked(1999, 2, 31);
  }

  // ---------------------------------------------------------------------
  // Shifts

  function Min(a: int, b: int): int { if a <= b then a else b }

  /** The packing of year `y`, month `m` and day `d` clamped to the month's
      last day. */
  function Clamped(y: int, m: int, d: int): (r: int)
    requires IsM(m) && d >= 1
    ensures IsDate(r) <==> IsY(y)
    ensures y >= 0 ==> ToCivil(r) == CDate(y, m, Min(d, DaysInMonth(y, m)))
  {
    PackCalendarDate(CDate(y, m, Min(d, DaysInMonth(y, m))));
    Dt(y, m, Min(d, DaysInMonth(y, m)))
  }

  /** `dt_shifty`: move a valid date by whole years, clamping the day; the
      result is valid exactly when the new year is in 1..9999. */
  function ShiftY(dt: int, offset: int): (r: int)
    requires IsDate(dt)
    ensures IsDate(r) <==> IsY(GetY(dt) + offset)
    ensures IsDate(r) ==> (GetY(r) == GetY(dt) + offset && GetM(r) == GetM(dt)
                           && GetD(r) == Min(GetD(dt), DaysInMonth(GetY(r), GetM(r))))
  {
    Clamped(GetY(dt) + offset, GetM(dt), GetD(dt))
  }

  /** The month a signed month count falls in, counting from January of
      year 0. */
  function MonthsToYear(total: int): int { total / 12 }
  function MonthsToMonth(total: int): (m: int)
    ensures IsM(m)
  {
    total % 12 + 1
  }

  /** `dt_shiftm`: move a valid date by whole months, clamping the day; the
      result is valid exactly when the new year is in 1..9999. */
  function ShiftM(dt: int, offset: int): (r: int)
    requires IsDate(dt)
    ensures var total := 12 * GetY(dt) + GetM(dt) - 1 + offset;
            IsDate(r) <==> IsY(MonthsToYear(total))
    ensures var total := 12 * GetY(dt) + GetM(dt) - 1 + offset;
            IsDate(r) ==> (GetY(r) == MonthsToYear(total) && GetM(r) == MonthsToMonth(total)
                           && GetD(r) == Min(GetD(dt), DaysInMonth(GetY(r), GetM(r))))
  {
    var total := 12 * GetY(dt) + GetM(dt) - 1 + offset;
    Clamped(MonthsToYear(total), MonthsToMonth(total), GetD(dt))
  }

  /** A month shift that stays valid moves the month count (twelve per year
      plus the month) by exactly the offset. */
  lemma ShiftMMonths(dt: int, offset: int)
    requires IsDate(dt) && IsDate(ShiftM(dt, offset))
    ensures var r := ShiftM(dt, offset);
            12 * GetY(r) + GetM(r) == 12 * GetY(dt) + GetM(dt) + offset
  {
  }

  /** `dt_shiftd`: move a valid date by whole days through the day count of
      src/date.c; the result is valid exactly when it lands in 1..9999. */
  function ShiftD(dt: int, offset: int): (r: int)
    requires IsDate(dt)
    ensures IsDate(r) <==> IsY(O2D(D2O(ToCivil(dt)) + offset).year)
    ensures IsDate(r) ==> D2O(ToCivil(r)) == D2O(ToCivil(dt)) + offset
  {
    PackDay(D2O(ToCivil(dt)) + offset)
  }

  /** The packing of the date with day count `n`. */
  function PackDay(n: int): (r: int)
    ensures IsDate(r) <==> IsY(O2D(n).year)
    ensures IsDate(r) ==> D2O(ToCivil(r)) == n
  {
    var c := O2D(n);
    O2DThenD2O(n);
    PackCalendarDate(c);
    Dt(c.year, c.month, c.day)
  }

  /** Shifting by nothing is the identity for every kind of shift. */
  lemma ShiftByZero(dt: int)
    requires IsDate(dt)
    ensures ShiftY(dt, 0) == dt && ShiftM(dt, 0) == dt && ShiftD(dt, 0) == dt
  {
    ValidIsPacked(dt);
    var c := ToCivil(dt);
    var total := 12 * GetY(dt) + GetM(dt) - 1;
    assert MonthsToYear(total) == GetY(dt) && MonthsToMonth(total) == GetM(dt);
    D2OThenO2D(c);
  }

  /** A day shift is undone by the opposite shift whenever it stays valid. */
  lemma ShiftDInverse(dt: int, offset: int)
    requires IsDate(dt) && IsDate(ShiftD(dt, offset))
    ensures ShiftD(ShiftD(dt, offset), -offset) == dt
  {
    var r := ShiftD(dt, offset);
    D2OThenO2D(ToCivil(dt));
    ValidIsPacked(dt);
  }

  /** Day shifts compose by adding offsets while they stay valid. */
  lemma ShiftDCompose(dt: int, a: int, b: int)
    requires IsDate(dt) && IsDate(ShiftD(dt, a))
    ensures ShiftD(ShiftD(dt, a), b) == ShiftD(dt, a + b)
  {
  }

  /** The year shifts of test/tdate.c: the day is clamped to the end of the
      target month, and leaving years 1..9999 gives an invalid date. */
  lemma ShiftYLeapDay()
    ensures ShiftY(20000229, 1) == 20010228
  {
    assert GetY(20000229) == 2000 && GetM(20000229) == 2 && GetD(20000229) == 29;
    assert IsDate(20000229);
    assert DaysInMonth(2001, 2) == 28;
  }

  lemma ShiftYNextYear()
    ensures ShiftY(10101, 1) == 20101
  {
    assert GetY(10101) == 1 && GetM(10101) == 1 && GetD(10101) == 1;
    assert IsDate(10101);
    assert DaysInMonth(2, 1) == 31;
  }

  lemma ShiftYBeforeFirst()
    ensures !IsDate(ShiftY(10101, -1))
  {
    assert GetY(10101) == 1 && GetM(10101) == 1 && GetD(10101) == 1;
    assert IsDate(10101);
  }

  /** The month shifts of test/tdate.c: 25 months after 2000-01-31 is
      2002-02-28, 25 months before it is 1997-12-31, and a month after
      9999-12-31 is invalid. */
  lemma ShiftMForward()
    ensures ShiftM(20000131, 25) == 20020228
  {
    assert GetY(20000131) == 2000 && GetM(20000131) == 1 && GetD(20000131) == 31;
    assert IsDate(20000131);
    assert MonthsToYear(24025) == 2002 && MonthsToMonth(24025) == 2;
    assert DaysInMonth(2002, 2) == 28;
  }

  lemma ShiftMBackward()
    ensures ShiftM(20000131, -25) == 19971231
  {
    assert GetY(20000131) == 2000 && GetM(20000131) == 1 && GetD(20000131) == 31;
    assert IsDate(20000131);
    assert MonthsToYear(23975) == 1997 && MonthsToMonth(23975) == 12;
    assert DaysInMonth(1997, 12) == 31;
  }

  lemma ShiftMPastEnd()
    ensures !IsDate(ShiftM(99991231, 1))
  {
    assert GetY(99991231) == 9999 && GetM(99991231) == 12 && GetD(99991231) == 31;
    assert IsDate(99991231);
    assert MonthsToYear(12 * 9999 + 11 + 1) == 10000;
  }

  /** The day shifts of test/tdate.c: 300 days back from 9999-12-31 is
      9999-03-06, and the day before 0001-01-01 is not a valid date. */
  lemma ShiftDBack300()
    ensures ShiftD(99991231, -300) == 99990306
  {
    assert GetY(99991231) == 9999 && GetM(99991231) == 12 && GetD(99991231) == 31;
    assert IsDate(99991231);
    assert D2O(CDate(9999, 12, 31)) == 3652364;
    assert O2D(3652064) == CDate(9999, 3, 6) by {
      assert D2O(CDate(9999, 3, 6)) == 3652064;
      D2OThenO2D(CDate(9999, 3, 6));
    }
  }

  lemma ShiftDBeforeFirst()
    ensures !IsDate(ShiftD(10101, -1))
  {
    assert GetY(10101) == 1 && GetM(10101) == 1 && GetD(10101) == 1;
    assert IsDate(10101);
    assert D2O(CDate(1, 1, 1)) == 306;
    assert O2D(305) == CDate(0, 12, 31) by {
      assert D2O(CDate(0, 12, 31)) == 305;
      D2OThenO2D(CDate(0, 12, 31));
    }
    assert Dt(0, 12, 31) == 1231;
    assert GetY(1231) == 0;
  }

  // ---------------------------------------------------------------------
  // Text forms

  const ISO_LEN: int := 10

  /** `dt_isiso`: the `yyyy-mm-dd` shape, digits and dashes only, exactly
      ten characters; the values are not checked. */
  predicate IsIso(s: string)
  {
    |s| == ISO_LEN && AllDigits(s[0..4]) && s[4] == '-' && AllDigits(s[5..7])
    && s[7] == '-' && AllDigits(s[8..10])
  }

  /** `dt_fromiso`: the packed value of the three digit groups, possibly
      invalid. */
  function FromIso(s: string): (r: int)
    requires IsIso(s)
    ensures GetY(r) == DigitsToNat(s[0..4]) && GetM(r) == DigitsToNat(s[5..7])
            && GetD(r) == DigitsToNat(s[8..10])
  {
    var y := DigitsToNat(s[0..4]);
    var m := DigitsToNat(s[5..7]);
    var d := DigitsToNat(s[8..10]);
    DigitsBound(s[5..7]);
    DigitsBound(s[8..10]);
    PackThenGet(y, m, d);
    Dt(y, m, d)
  }

  /** The text names a valid date exactly when its groups form a real day of
      a year 1..9999. */
  lemma FromIsoValid(s: string)
    requires IsIso(s)
    ensures var y := DigitsToNat(s[0..4]);
            var m := DigitsToNat(s[5..7]);
            var d := DigitsToNat(s[8..10]);
            IsDate(FromIso(s)) <==> IsY(y) && IsCalendarDate(CDate(y, m, d))
  {
  }

  /** `dt_toiso`: a valid date as zero-padded `yyyy-mm-dd`. */
  function ToIso(dt: int): (r: string)
    requires IsDate(dt)
    ensures |r| == ISO_LEN
  {
    ZeroPadWidth(GetY(dt), 4);
    ZeroPadWidth(GetM(dt), 2);
    ZeroPadWidth(GetD(dt), 2);
    ZeroPad(GetY(dt), 4) + "-" + ZeroPad(GetM(dt), 2) + "-" + ZeroPad(GetD(dt), 2)
  }

  /** What `dt_toiso` writes has the ISO shape and reads back as the date. */
  lemma ToIsoThenFromIso(dt: int)
    requires IsDate(dt)
    ensures IsIso(ToIso(dt))
    ensures FromIso(ToIso(dt)) == dt
  {
    var y := ZeroPad(GetY(dt), 4);
    var m := ZeroPad(GetM(dt), 2);
    var d := ZeroPad(GetD(dt), 2);
    ZeroPadWidth(GetY(dt), 4);
    ZeroPadWidth(GetM(dt), 2);
    ZeroPadWidth(GetD(dt), 2);
    Pieces(y, m, d);
    ZeroPadValue(GetY(dt), 4);
    ZeroPadValue(GetM(dt), 2);
    ZeroPadValue(GetD(dt), 2);
    ValidIsPacked(dt);
  }

  /** Reading a valid ISO date and writing it back reproduces the text. */
  lemma FromIsoThenToIso(s: string)
    requires IsIso(s) && IsDate(FromIso(s))
    ensures ToIso(FromIso(s)) == s
  {
    var dt := FromIso(s);
    var t := ToIso(dt);
    assert t[0..4] == ZeroPad(GetY(dt), 4) && t[5..7] == ZeroPad(GetM(dt), 2)
        && t[8..10] == ZeroPad(GetD(dt), 2) by {
      ZeroPadWidth(GetY(dt), 4);
      ZeroPadWidth(GetM(dt), 2);
      ZeroPadWidth(GetD(dt), 2);
      Pieces(ZeroPad(GetY(dt), 4), ZeroPad(GetM(dt), 2), ZeroPad(GetD(dt), 2));
    }
    ZeroPadOfDigits(s[0..4]);
    ZeroPadOfDigits(s[5..7]);
    ZeroPadOfDigits(s[8..10]);
    assert t == t[0..4] + [t[4]] + t[5..7] + [t[7]] + t[8..10];
    assert s == s[0..4] + [s[4]] + s[5..7] + [s[7]] + s[8..10];
  }

  /** The shape checks of test/tdate.c. */
  lemma IsIsoExamples()
    ensures IsIso("1234-56-78")
    ensures !IsIso("1234-565-78") && !IsIso("1234-56-7")
    ensures !IsIso("a234-56-78") && !IsIso("1234056-78")
  {
    assert "1234-56-78"[0..4] == "1234" && "1234-56-78"[5..7] == "56" && "1234-56-78"[8..10] == "78";
    assert "a234-56-78"[0..4][0] == 'a';
    assert "1234056-78"[4] == '0';
  }

  /** The conversions of test/tdate.c. */
  lemma FromIsoExample()
    ensures FromIso("1234-01-23") == 12340123
  {
    var s := "1234-01-23";
    assert s[0..4] == "1234" && s[5..7] == "01" && s[8..10] == "23";
    assert DigitsToNat("1234") == 1234 by {
      assert "1234"[..3] == "123" && "123"[..2] == "12" && "12"[..1] == "1";
    }
    assert DigitsToNat("01") == 1 by { assert "01"[..1] == "0"; }
    assert DigitsToNat("23") == 23 by { assert "23"[..1] == "2"; }
  }

  lemma FromIsoLeapDay()
    ensures FromIso("2000-02-29") == 20000229
  {
    var s := "2000-02-29";
    assert s[0..4] == "2000" && s[5..7] == "02" && s[8..10] == "29";
    assert DigitsToNat("2000") == 2000 by {
      assert "2000"[..3] == "200" && "200"[..2] == "20" && "20"[..1] == "2";
    }
    assert DigitsToNat("02") == 2 by { assert "02"[..1] == "0"; }
    assert DigitsToNat("29") == 29 by { assert "29"[..1] == "2"; }
  }

  lemma FromIsoNoLeapDay()
    ensures !IsDate(FromIso("2001-02-29"))
  {
    var t := "2001-02-29";
    assert t[0..4] == "2001" && t[5..7] == "02" && t[8..10] == "29";
    assert DigitsToNat("2001") == 2001 by {
      assert "2001"[..3] == "200" && "200"[..2] == "20" && "20"[..1] == "2";
    }
    assert DigitsToNat("02") == 2 by { assert "02"[..1] == "0"; }
    assert DigitsToNat("29") == 29 by { assert "29"[..1] == "2"; }
  }

  /** The zero padding of 0001-01-01 and the day digits the pretty form
      uses. */
  lemma SmallPads()
    ensures ZeroPad(1, 4) == "0001" && ZeroPad(1, 2) == "01"
    ensures NatToDigits(1) == "1" && NatToDigits(10) == "10"
  {
    assert NatToDigits(1) == "1";
    assert seq(3, _ => '0') == "000";
    assert seq(1, _ => '0') == "0";
  }

  lemma ToIsoExample()
    ensures IsDate(10101) && ToIso(10101) == "0001-01-01"
  {
    assert GetY(10101) == 1 && GetM(10101) == 1 && GetD(10101) == 1;
    assert IsDate(10101);
    SmallPads();
  }

  /** `dt_mmm`: the three-letter English month name. */
  function Mmm(m: int): (r: string)
    requires IsM(m)
    ensures |r| == 3
  {
    ["Jan", "Feb", "Mar", "Apr", "May", "Jun", "Jul", "Aug", "Sep", "Oct", "Nov", "Dec"][m - 1]
  }

  /** Different months have different names. */
  lemma MmmInjective(a: int, b: int)
    requires IsM(a) && IsM(b) && a != b
    ensures Mmm(a) != Mmm(b)
  {
  }

  lemma MmmExamples()
    ensures Mmm(1) == "Jan" && Mmm(6) == "Jun" && Mmm(12) == "Dec"
  {
  }

  /** `dt_fmt`: "Mon d, yyyy" with an unpadded day and a four-digit year. */
  function Fmt(dt: int): (r: string)
    requires IsDate(dt)
    ensures 11 <= |r| <= 12
  {
    DigitCountBounds(GetD(dt), 2);
    ZeroPadWidth(GetY(dt), 4);
    Mmm(GetM(dt)) + " " + NatToDigits(GetD(dt)) + ", " + ZeroPad(GetY(dt), 4)
  }

  /** The pretty form starts with the month name, ends with the year as
      `dt_toiso` writes it, and holds the day's digits without padding. */
  lemma FmtParts(dt: int)
    requires IsDate(dt)
    ensures var r := Fmt(dt);
            var day := NatToDigits(GetD(dt));
            && r[..3] == Mmm(GetM(dt))
            && r[3] == ' '
            && r[4..4 + |day|] == day
            && r[4 + |day|..6 + |day|] == ", "
            && r[|r| - 4..] == ToIso(dt)[0..4]
            && DigitsToNat(day) == GetD(dt)
  {
    DigitCountBounds(GetD(dt), 2);
    ZeroPadWidth(GetY(dt), 4);
    ZeroPadWidth(GetM(dt), 2);
    ZeroPadWidth(GetD(dt), 2);
    DigitsToNatOfDigits(GetD(dt));
    var t := ToIso(dt);
    assert t[0..4] == ZeroPad(GetY(dt), 4);
  }

  lemma FmtFirstDay()
    ensures Fmt(10101) == "Jan 1, 0001"
  {
    assert GetY(10101) == 1 && GetM(10101) == 1 && GetD(10101) == 1;
    assert IsDate(10101);
    SmallPads();
  }

  lemma FmtTenthDay()
    ensures Fmt(10110) == "Jan 10, 0001"
  {
    assert GetY(10110) == 1 && GetM(10110) == 1 && GetD(10110) == 10;
    assert IsDate(10110);
    SmallPads();
  }
}

/** Julian day numbers, the proleptic Gregorian calendar, and adding durations. */
module Calendar {

  /** C's `/`: truncation toward zero. */
  function CDiv(a: int, b: int): int
    requires b > 0
  {
    if a >= 0 then a / b else -((-a) / b)
  }

  /** C's `%`: the remainder has the sign of the dividend. */
  function CMod(a: int, b: int): int
    requires b > 0
  {
    a - b * CDiv(a, b)
  }

  predicate FitsInt(x: int) {
    -0x8000_0000 <= x < 0x8000_0000
  }

  datatype Date = Date(year: int, month: int, day: int)

  // ----- the formulas -----

  /** `julian_date`. */
  function JulianDate(d: Date): int {
    var a := CDiv(14 - d.month, 12);
    var y := d.year + 4800 - a;
    var m := d.month + 12 * a - 3;
    d.day + CDiv(153 * m + 2, 5) + y * 365 + CDiv(y, 4) - CDiv(y, 100) + CDiv(y, 400) - 32045
  }

  /** `get_ymd`. */
  function GetYmd(jday: int): Date {
    var a := jday + 32044;
    var b := CDiv(4 * a + 3, 146097);
    var c := a - CDiv(b * 146097, 4);
    var d := CDiv(4 * c + 3, 1461);
    var e := c - CDiv(1461 * d, 4);
    var m := CDiv(5 * e + 2, 153);
    Date(b * 100 + d - 4800 + CDiv(m, 10), m + 3 - 12 * CDiv(m, 10), e - CDiv(153 * m + 2, 5) + 1)
  }

  // ----- the calendar, stated on its own -----

  predicate Leap(year: int) {
    year % 400 == 0 || (year % 100 != 0 && year % 4 == 0)
  }

  /** `max_day_in_month_for`. Months outside 1..12 are reduced by C's remainder first. */
  function MaxDay(year: int, month: int): (n: int)
    ensures 28 <= n <= 31
  {
    var m := CMod(month - 1, 12) + 1;
    var y := year + CDiv(m - 1, 12);
    if m == 1 || m == 3 || m == 5 || m == 7 || m == 8 || m == 10 || m == 12 then 31
    else if m == 4 || m == 6 || m == 9 || m == 11 then 30
    else if m == 2 && (CMod(y, 400) == 0 || (CMod(y, 100) != 0 && CMod(y, 4) == 0)) then 29
    else 28
  }

  function MonthLength(year: int, month: int): int {
    if month == 2 then (if Leap(year) then 29 else 28)
    else if month == 4 || month == 6 || month == 9 || month == 11 then 30
    else 31
  }

  /** A date of the proleptic Gregorian calendar. */
  predicate ValidDate(d: Date) {
    1 <= d.month <= 12 && 1 <= d.day <= MonthLength(d.year, d.month)
  }

  /** The dates the formulas are used on: from March of the year -4800 on. */
  predicate InRange(d: Date) {
    d.year >= -4799 || (d.year == -4800 && d.month >= 3)
  }

  lemma MaxDayIsMonthLength(year: int, month: int)
    requires 1 <= month <= 12
    ensures MaxDay(year, month) == MonthLength(year, month)
  {
    hide Leap;
    assert CMod(month - 1, 12) == month - 1;
    LeapByRemainder(year);
  }

  lemma LeapByRemainder(y: int)
    ensures CMod(y, 400) == 0 || (CMod(y, 100) != 0 && CMod(y, 4) == 0) <==> Leap(y)
  {
    hide CMod;
    RemainderZero400(y);
    RemainderZero100(y);
    RemainderZero4(y);
  }

  lemma RemainderZero400(y: int)
    ensures CMod(y, 400) == 0 <==> y % 400 == 0
  {
  }

  lemma RemainderZero100(y: int)
    ensures CMod(y, 100) == 0 <==> y % 100 == 0
  {
  }

  lemma RemainderZero4(y: int)
    ensures CMod(y, 4) == 0 <==> y % 4 == 0
  {
  }

  // ----- years that begin in March -----

  /** Days before century `b`, before year `r` of a century, and before month `m` of a year. */
  function CenturyStart(b: nat): nat { 146097 * b / 4 }
  function YearStart(r: nat): nat { 1461 * r / 4 }
  function MonthStart(m: nat): nat { (153 * m + 2) / 5 }

  function YearLength(y: nat): nat {
    if Leap(y + 1) then 366 else 365
  }

  /** Days from March 1 of year 0 to March 1 of year `y`. */
  function YearDays(y: nat): int {
    365 * y + y / 4 - y / 100 + y / 400
  }

  lemma YearDaysSplit(b: nat, r: nat)
    requires r < 100
    ensures YearDays(100 * b + r) == CenturyStart(b) + YearStart(r)
  {
    var y := 100 * b + r;
    assert y / 4 == 25 * b + r / 4;
    assert y / 100 == b;
    assert y / 400 == b / 4;
    assert 146097 * b / 4 == 36524 * b + b / 4;
    assert 1461 * r / 4 == 365 * r + r / 4;
  }

  /** A day is inside its year exactly when it is inside both its four-year and its century allotment. */
  lemma YearLengthSplit(b: nat, r: nat, e: nat)
    requires r < 100
    ensures e < YearLength(100 * b + r) <==>
      YearStart(r) + e < YearStart(r + 1) && CenturyStart(b) + YearStart(r) + e < CenturyStart(b + 1)
  {
    hide Leap;
    LeapSplit(b, r);
    assert 146097 * (b + 1) / 4 == 36524 * (b + 1) + (b + 1) / 4;
    assert 146097 * b / 4 == 36524 * b + b / 4;
    assert 1461 * (r + 1) / 4 == 365 * (r + 1) + (r + 1) / 4;
    assert 1461 * r / 4 == 365 * r + r / 4;
  }

  lemma LeapSplit(b: nat, r: nat)
    requires r < 100
    ensures Leap(100 * b + r + 1) <==> if r == 99 then (b + 1) % 4 == 0 else (r + 1) % 4 == 0
  {
    hide Leap;
    if r == 99 {
      CenturyLeap(b + 1);
    } else {
      OrdinaryLeap(b, r + 1);
    }
  }

  lemma CenturyLeap(c: nat)
    ensures Leap(100 * c) <==> c % 4 == 0
  {
    Mod100(100 * c, c, 0);
    Mod400(100 * c, c / 4, 100 * (c % 4));
  }

  lemma Mod400(y: nat, q: nat, r: nat)
    requires y == 400 * q + r && r < 400
    ensures y % 400 == r
  {
  }

  lemma Mod100(y: nat, q: nat, r: nat)
    requires y == 100 * q + r && r < 100
    ensures y % 100 == r
  {
  }

  lemma Mod4(y: nat, q: nat, r: nat)
    requires y == 4 * q + r
    ensures y % 4 == r % 4
  {
  }

  lemma OrdinaryLeap(b: nat, r: nat)
    requires 0 < r < 100
    ensures Leap(100 * b + r) <==> r % 4 == 0
  {
    var y := 100 * b + r;
    Mod100(y, b, r);
    Mod4(y, 25 * b, r);
    if y % 400 == 0 {
      Mod100(y, 4 * (y / 400), 0);
    }
  }

  /** (4a + 3) / 146097 and (4c + 3) / 1461 find the century and the year. */
  lemma FindCentury(a: nat, b: nat)
    ensures (4 * a + 3) / 146097 == b <==> CenturyStart(b) <= a < CenturyStart(b + 1)
  {
  }

  lemma FindYear(c: nat, r: nat)
    ensures (4 * c + 3) / 1461 == r <==> YearStart(r) <= c < YearStart(r + 1)
  {
  }

  lemma FindMonth(e: nat, m: nat)
    ensures (5 * e + 2) / 153 == m <==> MonthStart(m) <= e < MonthStart(m + 1)
  {
  }

  /** The date that is day `e` of the year beginning in March of year `y` after -4800. */
  function MarchDate(y: nat, e: nat): Date {
    var m := (5 * e + 2) / 153;
    Date(y - 4800 + m / 10, m + 3 - 12 * (m / 10), e - MonthStart(m) + 1)
  }

  /** Every day number from -32044 on is a day of some year that begins in March. */
  lemma Locate(a: nat) returns (y: nat, e: nat)
    ensures a == YearDays(y) + e && e < YearLength(y)
  {
    var b := (4 * a + 3) / 146097;
    FindCentury(a, b);
    var c := a - CenturyStart(b);
    var r := (4 * c + 3) / 1461;
    FindYear(c, r);
    CenturyHasHundredYears(b, c, r);
    y, e := 100 * b + r, c - YearStart(r);
    YearDaysSplit(b, r);
    YearLengthSplit(b, r, e);
  }

  lemma CenturyHasHundredYears(b: nat, c: nat, r: nat)
    requires CenturyStart(b) + c < CenturyStart(b + 1) && YearStart(r) <= c
    ensures r < 100
  {
  }

  /** `julian_date` in terms of years that begin in March; it is linear in the day. */
  lemma JulianForm(d: Date, y: nat, m: nat)
    requires 1 <= d.month <= 12
    requires if d.month <= 2 then y == d.year + 4799 && m == d.month + 9 else y == d.year + 4800 && m == d.month - 3
    ensures JulianDate(d) == YearDays(y) + MonthStart(m) + d.day - 32045
  {
    assert CDiv(14 - d.month, 12) == if d.month <= 2 then 1 else 0;
  }

  /** The divisions of `get_ymd`, one by one. */
  lemma GetYmdForm(a: nat, b: nat, c: nat, r: nat, e: nat)
    requires b == (4 * a + 3) / 146097 && a == CenturyStart(b) + c
    requires r == (4 * c + 3) / 1461 && c == YearStart(r) + e
    ensures GetYmd(a - 32044) == MarchDate(100 * b + r, e)
  {
    hide CDiv;
    var m := (5 * e + 2) / 153;
    CDivNat(4 * a + 3, 146097);
    CDivNat(b * 146097, 4);
    CDivNat(4 * c + 3, 1461);
    CDivNat(1461 * r, 4);
    CDivNat(5 * e + 2, 153);
    CDivNat(153 * m + 2, 5);
    CDivNat(m, 10);
  }

  lemma CDivNat(a: nat, b: nat)
    requires b > 0
    ensures CDiv(a, b) == a / b
  {
  }

  /** `get_ymd` decodes it to the date of that day. */
  lemma GetYmdDecodes(y: nat, e: nat)
    requires e < YearLength(y)
    ensures GetYmd(YearDays(y) + e - 32044) == MarchDate(y, e)
  {
    hide Leap, YearDays, GetYmd, MarchDate, CenturyStart, YearStart;
    var b, r := y / 100, y % 100;
    assert y == 100 * b + r;
    YearDaysSplit(b, r);
    YearLengthSplit(b, r, e);
    var c := YearStart(r) + e;
    FindCentury(CenturyStart(b) + c, b);
    FindYear(c, r);
    GetYmdForm(CenturyStart(b) + c, b, c, r, e);
  }

  lemma MonthTable()
    ensures MonthStart(0) == 0 && MonthStart(1) == 31 && MonthStart(2) == 61 && MonthStart(3) == 92
    ensures MonthStart(4) == 122 && MonthStart(5) == 153 && MonthStart(6) == 184 && MonthStart(7) == 214
    ensures MonthStart(8) == 245 && MonthStart(9) == 275 && MonthStart(10) == 306 && MonthStart(11) == 337
    ensures MonthStart(12) == 367
  {
  }

  /** The day's date is a calendar date that encodes back to its number. */
  lemma MarchDateValid(y: nat, e: nat)
    requires e < YearLength(y)
    ensures ValidDate(MarchDate(y, e)) && InRange(MarchDate(y, e))
    ensures JulianDate(MarchDate(y, e)) == YearDays(y) + e - 32044
  {
    hide Leap, JulianDate, YearDays, MonthStart;
    var m := (5 * e + 2) / 153;
    FindMonth(e, m);
    MonthTable();
    assert MonthStart(m) <= e < MonthStart(m + 1) && m <= 11;
    LeapShift(y);
    JulianForm(MarchDate(y, e), y, m);
  }

  lemma LeapShift(y: nat)
    ensures Leap(y + 1) <==> Leap(y - 4800 + 1)
  {
    assert (y + 1) % 400 == (y - 4799) % 400;
  }

  /** Every calendar date in range is a day of such a year. */
  lemma DateIsMarchDate(d: Date) returns (y: nat, e: nat)
    requires ValidDate(d) && InRange(d)
    ensures e < YearLength(y) && d == MarchDate(y, e)
  {
    hide Leap;
    var a := if d.month <= 2 then 1 else 0;
    y := d.year + 4800 - a;
    var m := d.month + 12 * a - 3;
    MonthTable();
    e := MonthStart(m) + d.day - 1;
    LeapShift(y);
    FindMonth(e, m);
  }

  // ----- main results -----

  /** Before the range, truncating division never gives a day of a month. */
  lemma BeforeRange(jday: int)
    requires jday < -32044
    ensures GetYmd(jday).day <= 0
  {
    var a := -(jday + 32044);
    var b := (4 * a - 3) / 146097;
    var c := a - 146097 * b / 4;
    assert c > 0;
    var d := (4 * c - 3) / 1461;
    var e := c - 1461 * d / 4;
    assert e > 0;
    LastMonthBack(e);
  }

  lemma LastMonthBack(e: int)
    requires e > 0
    ensures -e - CDiv(153 * CDiv(-5 * e + 2, 153) + 2, 5) + 1 <= 0
  {
    var k := (5 * e - 2) / 153;
    assert CDiv(-5 * e + 2, 153) == -k;
  }

  lemma InRangeRoundTrip(d: Date)
    requires ValidDate(d) && InRange(d)
    ensures GetYmd(JulianDate(d)) == d && JulianDate(d) >= -32044
  {
    hide JulianDate, GetYmd, ValidDate, MarchDate, YearLength;
    var y, e := DateIsMarchDate(d);
    MarchDateValid(y, e);
    GetYmdDecodes(y, e);
  }

  /** A day number decodes to a calendar date that encodes back to it exactly when it is at least -32044. */
  lemma DayRoundTrip(jday: int)
    ensures jday >= -32044 <==> ValidDate(GetYmd(jday)) && JulianDate(GetYmd(jday)) == jday
    ensures jday >= -32044 ==> InRange(GetYmd(jday))
  {
    hide JulianDate, GetYmd, MarchDate, YearLength, MonthLength;
    if jday >= -32044 {
      var y, e := Locate(jday + 32044);
      MarchDateValid(y, e);
      GetYmdDecodes(y, e);
    } else {
      BeforeRange(jday);
    }
  }

  /** A calendar date survives encoding and decoding exactly when it is March 1 of the year -4800 or later. */
  lemma DateRoundTrip(d: Date)
    requires ValidDate(d)
    ensures GetYmd(JulianDate(d)) == d <==> InRange(d)
    ensures InRange(d) ==> JulianDate(d) >= -32044
  {
    hide JulianDate, GetYmd, MonthLength;
    DayRoundTrip(JulianDate(d));
    if InRange(d) {
      InRangeRoundTrip(d);
    } else if JulianDate(d) < -32044 {
      BeforeRange(JulianDate(d));
    }
  }

  /** The calendar's next day. */
  function NextDay(d: Date): Date {
    if d.day < MaxDay(d.year, d.month) then d.(day := d.day + 1)
    else if d.month < 12 then Date(d.year, d.month + 1, 1)
    else Date(d.year + 1, 1, 1)
  }

  function NextMonth(d: Date): Date {
    if d.month < 12 then Date(d.year, d.month + 1, d.day) else Date(d.year + 1, 1, d.day)
  }

  /** The formula is linear in the day, and consecutive month starts differ by the month's length. */
  lemma MonthAdvance(d: Date, n: int)
    requires 1 <= d.month <= 12 && InRange(d)
    ensures JulianDate(NextMonth(d).(day := n)) == JulianDate(d.(day := n)) + MaxDay(d.year, d.month)
    ensures JulianDate(d.(day := n)) == JulianDate(d) + n - d.day
  {
    hide Leap, JulianDate, YearDays, MonthStart;
    var y, m := if d.month <= 2 then d.year + 4799 else d.year + 4800, (d.month + 9) % 12;
    var next := NextMonth(d);
    JulianForm(d, y, m);
    JulianForm(d.(day := n), y, m);
    JulianForm(next.(day := n), if m == 11 then y + 1 else y, (m + 1) % 12);
    MonthTable();
    MonthLengths(d.year, d.month, y);
    YearStep(y);
  }

  lemma MonthLengths(year: int, month: int, y: nat)
    requires 1 <= month <= 12 && (month == 2 ==> y == year + 4799)
    ensures var m := (month + 9) % 12;
      MaxDay(year, month) == (if m == 11 then YearLength(y) else MonthStart(m + 1)) - MonthStart(m)
  {
    hide Leap, MonthStart, MaxDay;
    MonthTable();
    MaxDayIsMonthLength(year, month);
    LeapShift(y);
    assert (month + 9) % 12 == if month <= 2 then month + 9 else month - 3;
  }

  lemma YearStep(y: nat)
    ensures YearDays(y + 1) == YearDays(y) + YearLength(y)
  {
    hide YearDays, Leap, CenturyStart, YearStart;
    var b, r := y / 100, y % 100;
    YearDaysSplit(b, r);
    LeapSplit(b, r);
    if r < 99 {
      YearDaysSplit(b, r + 1);
      NextYearStart(r);
    } else {
      YearDaysSplit(b + 1, 0);
      NextCenturyStart(b);
    }
  }

  lemma NextYearStart(r: nat)
    ensures YearStart(r + 1) == YearStart(r) + if (r + 1) % 4 == 0 then 366 else 365
  {
  }

  lemma NextCenturyStart(b: nat)
    ensures CenturyStart(b + 1) + YearStart(0)
         == CenturyStart(b) + YearStart(99) + if (b + 1) % 4 == 0 then 366 else 365
  {
  }

  /** Day numbers count days: the next calendar day has the next number, in both directions. */
  lemma NextDayIsNextNumber(d: Date)
    requires ValidDate(d) && InRange(d)
    ensures ValidDate(NextDay(d)) && JulianDate(NextDay(d)) == JulianDate(d) + 1
    ensures GetYmd(JulianDate(d) + 1) == NextDay(d)
  {
    hide JulianDate, GetYmd, Leap, CMod, CDiv;
    MaxDayIsMonthLength(d.year, d.month);
    MonthAdvance(d, 1);
    MonthAdvance(d, d.day + 1);
    DateRoundTrip(NextDay(d));
  }

  /** No intermediate of `get_ymd` leaves 32 bits exactly when 4a + 3 does not. */
  predicate GetYmdFits(jday: int) {
    var a := jday + 32044;
    var b := CDiv(4 * a + 3, 146097);
    var c := a - CDiv(b * 146097, 4);
    var d := CDiv(4 * c + 3, 1461);
    var e := c - CDiv(1461 * d, 4);
    var m := CDiv(5 * e + 2, 153);
    && FitsInt(a) && FitsInt(4 * a) && FitsInt(4 * a + 3) && FitsInt(b * 146097) && FitsInt(c)
    && FitsInt(4 * c + 3) && FitsInt(1461 * d) && FitsInt(e) && FitsInt(5 * e + 2) && FitsInt(153 * m + 2)
    && FitsInt(b * 100) && FitsInt(b * 100 + d) && FitsInt(12 * CDiv(m, 10))
  }

  predicate JulianDateFits(d: Date) {
    var a := CDiv(14 - d.month, 12);
    var y := d.year + 4800 - a;
    var m := d.month + 12 * a - 3;
    var s := d.day + CDiv(153 * m + 2, 5);
    && FitsInt(14 - d.month) && FitsInt(d.year + 4800) && FitsInt(y) && FitsInt(d.month + 12 * a) && FitsInt(153 * m + 2)
    && FitsInt(s) && FitsInt(y * 365) && FitsInt(s + y * 365) && FitsInt(s + y * 365 + CDiv(y, 4))
    && FitsInt(s + y * 365 + CDiv(y, 4) - CDiv(y, 100))
    && FitsInt(s + y * 365 + CDiv(y, 4) - CDiv(y, 100) + CDiv(y, 400))
  }

  lemma GetYmdFitsExactly(jday: int)
    requires jday >= -32044
    ensures GetYmdFits(jday) <==> jday <= 536838867
  {
    var a := jday + 32044;
    var b := (4 * a + 3) / 146097;
    FindCentury(a, b);
    var c := a - CenturyStart(b);
    var r := (4 * c + 3) / 1461;
    FindYear(c, r);
    CenturyHasHundredYears(b, c, r);
  }

  /** The year and month counted from March, and the divisions of the formula on them. */
  lemma JulianParts(d: Date)
    requires ValidDate(d) && InRange(d) && d.year <= 1_000_000
    ensures 0 <= CDiv(14 - d.month, 12) <= 1
    ensures var a := CDiv(14 - d.month, 12);
      var y, m := d.year + 4800 - a, d.month + 12 * a - 3;
      && 0 <= y <= 1_004_800 && 0 <= m <= 11 && 1 <= d.day <= 31
      && 0 <= CDiv(153 * m + 2, 5) <= 337
      && 0 <= CDiv(y, 4) <= 251_200 && 0 <= CDiv(y, 100) <= 10_048 && 0 <= CDiv(y, 400) <= 2_512
  {
    hide Leap;
  }

  lemma JulianBound(d: Date)
    requires ValidDate(d) && InRange(d) && d.year <= 1_000_000
    ensures JulianDateFits(d) && JulianDate(d) <= 536838867
  {
    hide CDiv, Leap, ValidDate, InRange;
    JulianParts(d);
  }

  /** Up to the year one million nothing overflows in either direction. */
  lemma MillionYearsFit(d: Date)
    requires ValidDate(d) && InRange(d) && d.year <= 1_000_000
    ensures JulianDateFits(d) && GetYmdFits(JulianDate(d))
  {
    hide GetYmdFits, GetYmd, JulianDate;
    DateRoundTrip(d);
    JulianBound(d);
    GetYmdFitsExactly(JulianDate(d));
  }

  // ----- times of day -----

  datatype Time = Time(hour: int, minute: int, second: int, millis: int)

  /** `make_hms`. */
  function MakeHms(t: Time): int {
    1000 * (3600 * t.hour + 60 * t.minute + t.second) + t.millis
  }

  /** `get_hms`. */
  function GetHms(time: int): Time {
    var ticks := CDiv(time, 1000);
    Time(CDiv(ticks, 3600), CMod(CDiv(ticks, 60), 60), CMod(ticks, 60), CMod(time, 1000))
  }

  predicate ValidTime(t: Time) {
    0 <= t.hour < 24 && 0 <= t.minute < 60 && 0 <= t.second < 60 && 0 <= t.millis < 1000
  }

  lemma TimeRoundTrip(t: Time)
    requires ValidTime(t)
    ensures GetHms(MakeHms(t)) == t && 0 <= MakeHms(t) < 86400000
  {
    var time := MakeHms(t);
    var ticks := 3600 * t.hour + 60 * t.minute + t.second;
    assert time / 1000 == ticks;
    assert ticks / 60 == 60 * t.hour + t.minute;
  }

  lemma MillisRoundTrip(time: int)
    requires 0 <= time < 86400000
    ensures ValidTime(GetHms(time)) && MakeHms(GetHms(time)) == time
  {
    var ticks := time / 1000;
    assert ticks / 60 / 60 == ticks / 3600;
  }

  // ----- adding seconds and durations -----

  /** The parsed fields of an XML Schema duration. */
  datatype Duration = Duration(years: int, months: int, days: int, hours: int, minutes: int, seconds: int)

  predicate NonNegative(dur: Duration) {
    dur.years >= 0 && dur.months >= 0 && dur.days >= 0 && dur.hours >= 0 && dur.minutes >= 0 && dur.seconds >= 0
  }

  /** The start date moved by the duration's years and months, its day kept within the new month. */
  function ShiftMonths(d: Date, dur: Duration): Date {
    var month0 := d.month + dur.months - 1;
    var year := d.year + dur.years + month0 / 12;
    var month := month0 % 12 + 1;
    Date(year, month, if d.day > MonthLength(year, month) then MonthLength(year, month) else d.day)
  }

  /** Seconds from the start of the day to the start time plus the duration's time fields. */
  function ClockSeconds(time: int, dur: Duration): int {
    time / 1000 + 3600 * dur.hours + 60 * dur.minutes + dur.seconds
  }

  /** Carrying seconds into minutes, minutes into hours and hours into days splits the total the same way. */
  lemma Carries(time: int, dur: Duration)
    requires 0 <= time <= 86400000 && NonNegative(dur)
    ensures var t := GetHms(time);
      var sec := t.second + dur.seconds;
      var min := t.minute + dur.minutes + CDiv(sec, 60);
      var hour := t.hour + dur.hours + CDiv(min, 60);
      && CDiv(hour, 24) == ClockSeconds(time, dur) / 86400
      && MakeHms(Time(CMod(hour, 24), CMod(min, 60), CMod(sec, 60), 0)) == 1000 * (ClockSeconds(time, dur) % 86400)
  {
    if time < 86400000 {
      MillisRoundTrip(time);
    } else {
      assert GetHms(time) == Time(24, 0, 0, 0);
    }
    var t := GetHms(time);
    var sec := t.second + dur.seconds;
    var min := t.minute + dur.minutes + sec / 60;
    var hour := t.hour + dur.hours + min / 60;
    DaySplit(ClockSeconds(time, dur), hour / 24, hour % 24, min % 60, sec % 60);
  }

  lemma DaySplit(total: nat, days: nat, h: nat, m: nat, s: nat)
    requires total == 86400 * days + 3600 * h + 60 * m + s && h < 24 && m < 60 && s < 60
    ensures total / 86400 == days && total % 86400 == 3600 * h + 60 * m + s
  {
  }

  function Total(seconds: seq<int>): int {
    if seconds == [] then 0 else Total(seconds[..|seconds| - 1]) + seconds[|seconds| - 1]
  }

  /** An instant that is not a midnight is one date and one time of day. */
  lemma InstantParts(date: int, time: int)
    requires 0 <= time <= 86400000
    ensures var instant := 86400000 * date + time;
      && (instant % 86400000 != 0 ==> date == instant / 86400000 && time == instant % 86400000)
      && (instant % 86400000 == 0 ==> time == 0 || time == 86400000)
  {
  }

  class DateTime {
    var date: int
    var time: int

    /** A date in range and a time of day; `operator+=` can leave it at hour 24. */
    ghost predicate Valid()
      reads this
    {
      date >= -32044 && 0 <= time <= 86400000
    }

    ghost function Instant(): int
      reads this
    {
      86400000 * date + time
    }

    constructor (date: int, time: int)
      ensures this.date == date && this.time == time
    {
      this.date, this.time := date, time;
    }

    /** `operator+=`. The instant moves by exactly the seconds; the time of day is left out of range
        in one case only, when it lands exactly on midnight. */
    method AddSeconds(seconds: int)
      requires 0 <= time <= 86400000
      modifies this
      ensures Instant() == old(Instant()) + 1000 * seconds
      ensures 0 <= time <= 86400000
      ensures time == 86400000 <==> old(time) + 1000 * CMod(seconds, 86400) == 86400000
    {
      var d, s := CDiv(seconds, 86400), CMod(seconds, 86400);
      date := date + d;
      time := time + s * 1000;
      if time > 86400000 {
        date := date + 1;
        time := CMod(time, 86400000);
      } else if time < 0 {
        date := date - 1;
        time := time + 86400000;
      }
    }

    /** Any run of `+=`: the seconds add up, whether or not midnight was met on the way. */
    method AddAll(seconds: seq<int>)
      requires 0 <= time <= 86400000
      modifies this
      ensures 0 <= time <= 86400000
      ensures Instant() == old(Instant()) + 1000 * Total(seconds)
      ensures Instant() % 86400000 != 0 ==> date == Instant() / 86400000 && time == Instant() % 86400000
      ensures Instant() % 86400000 == 0 ==> time == 0 || time == 86400000
    {
      for i := 0 to |seconds|
        invariant 0 <= time <= 86400000
        invariant Instant() == old(Instant()) + 1000 * Total(seconds[..i])
      {
        assert seconds[..i + 1][..i] == seconds[..i];
        AddSeconds(seconds[i]);
      }
      assert seconds[..|seconds|] == seconds;
      InstantParts(date, time);
    }

    /** The carry loop of `add_duration_date_time`. */
    method NormalizeDays(start: Date) returns (r: Date)
      ensures 1 <= r.day <= MaxDay(r.year, r.month)
      ensures 1 <= start.month <= 12 && InRange(start) && start.day >= 1 ==>
        ValidDate(r) && InRange(r) && JulianDate(r) == JulianDate(start)
    {
      hide JulianDate, MaxDay, Leap;
      var year, month, day := start.year, start.month, start.day;
      ghost var proper := 1 <= start.month <= 12 && InRange(start) && start.day >= 1;
      while true
        invariant proper ==> 1 <= month <= 12 && InRange(Date(year, month, day)) && day >= 1
        invariant proper ==> JulianDate(Date(year, month, day)) == JulianDate(start)
        decreases day < 1, if day < 1 then -day else day
      {
        ghost var before := Date(year, month, day);
        var carry;
        if day < 1 {
          day := day + MaxDay(year, month - 1);
          carry := -1;
        } else if day > MaxDay(year, month) {
          day := day - MaxDay(year, month);
          carry := 1;
        } else {
          break;
        }
        var month' := month + carry;
        month := CMod(month' - 1, 12) + 1;
        year := year + CDiv(month' - 1, 12);
        if proper {
          MonthAdvance(before, day);
        }
      }
      r := Date(year, month, day);
      if proper {
        MaxDayIsMonthLength(year, month);
      }
    }

    /** `add_duration_date_time`. Milliseconds are dropped. */
    method AddDuration(dur: Duration)
      requires Valid()
      modifies this
      ensures NonNegative(dur) ==>
        && date == JulianDate(ShiftMonths(GetYmd(old(date)), dur)) + dur.days + ClockSeconds(old(time), dur) / 86400
        && time == 1000 * (ClockSeconds(old(time), dur) % 86400)
        && Valid() && time < 86400000
    {
      hide JulianDate, GetYmd, MaxDay, Leap, CDiv, CMod, GetHms, MakeHms, ShiftMonths, ClockSeconds;
      DayRoundTrip(date);
      var start, t := GetYmd(date), GetHms(time);
      var tmpMonth := start.month + dur.months;
      var month := CMod(tmpMonth - 1, 12) + 1;
      var year := start.year + dur.years + CDiv(tmpMonth - 1, 12);
      var tmpSec := t.second + dur.seconds;
      var tmpMin := t.minute + dur.minutes + CDiv(tmpSec, 60);
      var tmpHour := t.hour + dur.hours + CDiv(tmpMin, 60);
      var tmpDay := if start.day > MaxDay(year, month) then MaxDay(year, month)
                    else if start.day < 1 then 1 else start.day;
      var day := tmpDay + dur.days + CDiv(tmpHour, 24);
      if NonNegative(dur) {
        MonthShift(start, dur);
        Carries(time, dur);
        ClockSecondsNonNegative(time, dur);
        MonthAdvance(Date(year, month, tmpDay), day);
      }
      var r := NormalizeDays(Date(year, month, day));
      if NonNegative(dur) {
        DateRoundTrip(r);
      }
      date := JulianDate(r);
      time := MakeHms(Time(CMod(tmpHour, 24), CMod(tmpMin, 60), CMod(tmpSec, 60), 0));
    }
  }

  /** The month arithmetic of the code is the shift, for durations that do not go back. */
  lemma MonthShift(start: Date, dur: Duration)
    requires ValidDate(start) && InRange(start) && NonNegative(dur)
    ensures var month0 := start.month + dur.months - 1;
      var year, month := start.year + dur.years + CDiv(month0, 12), CMod(month0, 12) + 1;
      && 1 <= month <= 12
      && InRange(Date(year, month, start.day))
      && ShiftMonths(start, dur)
         == Date(year, month, if start.day > MaxDay(year, month) then MaxDay(year, month) else start.day)
  {
    hide MaxDay, Leap;
    var month0 := start.month + dur.months - 1;
    MaxDayIsMonthLength(start.year + dur.years + month0 / 12, month0 % 12 + 1);
  }

  lemma ClockSecondsNonNegative(time: int, dur: Duration)
    requires 0 <= time && NonNegative(dur)
    ensures ClockSeconds(time, dur) >= 0
  {
  }
}

/** Days since the Unix epoch as a civil date (xtask/src/advisories.rs), against the Gregorian calendar. */
module CivilDate {
  import opened Arith

  datatype Date = Date(year: int, month: int, day: int)

  // The calendar, by its rules

  predicate IsLeap(y: int) {
    y % 4 == 0 && (y % 100 != 0 || y % 400 == 0)
  }

  function DaysInMonth(y: int, m: int): int {
    if m == 2 then (if IsLeap(y) then 29 else 28)
    else if m == 4 || m == 6 || m == 9 || m == 11 then 30 else 31
  }

  predicate IsDate(date: Date) {
    1 <= date.month <= 12 && 1 <= date.day <= DaysInMonth(date.year, date.month)
  }

  /** The day after. */
  function NextDay(date: Date): Date {
    if date.day < DaysInMonth(date.year, date.month) then Date(date.year, date.month, date.day + 1)
    else if date.month < 12 then Date(date.year, date.month + 1, 1)
    else Date(date.year + 1, 1, 1)
  }

  /** The calendar walked day by day from 1 January 1970. */
  function Walk(days: nat): Date {
    if days == 0 then Date(1970, 1, 1) else NextDay(Walk(days - 1))
  }

  // The conversion

  /** The year of an era that a day of the era falls in, years beginning on 1 March. */
  function YearOfEra(doe: int): int {
    (doe - doe / 1460 + doe / 36524 - doe / 146096) / 365
  }

  function YearStart(yoe: int): int {
    365 * yoe + yoe / 4 - yoe / 100
  }

  function MonthStart(mp: int): int {
    (153 * mp + 2) / 5
  }

  /** The date of a day of a year that begins on 1 March. */
  function MarchDate(y: int, doy: int): Date {
    var mp := (5 * doy + 2) / 153;
    var d := doy - MonthStart(mp) + 1;
    var m := if mp < 10 then mp + 3 else mp - 9;
    Date(if m <= 2 then y + 1 else y, m, d)
  }

  /** The date of a day of the 400-year era counted from 1 March. */
  function FromEra(era: int, doe: int): Date {
    var yoe := YearOfEra(doe);
    MarchDate(yoe + era * 400, doe - YearStart(yoe))
  }

  function CivilFromDays(days: nat): Date {
    var z := days + 719468;
    FromEra(z / 146097, z % 146097)
  }

  // The year of the era is the one whose days include this day

  /** The last year of an era is one day longer: 400 divides it. */
  function YearEnd(yoe: int): int {
    if yoe == 399 then 146097 else YearStart(yoe + 1)
  }

  /** A day of the era as century, four-year cycle, year and day; the leap days come last. */
  lemma Decompose(doe: int) returns (c: int, q: int, s: int)
    requires 0 <= doe < 146097
    ensures 0 <= c <= 3 && 0 <= q <= 24 && 0 <= s <= 1460
    ensures doe == 36524 * c + 1461 * q + s
    ensures q == 24 && s == 1460 ==> c == 3
  {
    c := if doe == 146096 then 3 else doe / 36524;
    var r := doe - 36524 * c;
    q, s := r / 1461, r % 1461;
  }

  /** The three corrections take away exactly the leap days before the day, all but the last of its cycle. */
  lemma CorrectionsAreLeapDays(doe: int, c: int, q: int, s: int)
    requires 0 <= c <= 3 && 0 <= q <= 24 && 0 <= s <= 1460 && doe == 36524 * c + 1461 * q + s
    requires q == 24 && s == 1460 ==> c == 3
    ensures YearOfEra(doe) == 100 * c + 4 * q + (if s == 1460 then 3 else s / 365)
  {
    var over := if 24 * c + q + s >= 1460 then 1 else 0;
    DivModUnique(doe, 1460, 25 * c + q + over, 24 * c + q + s - 1460 * over);
    if doe == 146096 {
      assert c == 3 && q == 24 && s == 1460;
    } else {
      DivModUnique(doe, 36524, c, 1461 * q + s);
    }
    var x := doe - doe / 1460 + doe / 36524 - doe / 146096;
    assert x == 365 * (100 * c + 4 * q) + (s - over);
    var t := (s - over) / 365;
    DivModUnique(x, 365, 100 * c + 4 * q + t, (s - over) % 365);
  }

  lemma YearOfEraIsRight(doe: int)
    requires 0 <= doe < 146097
    ensures var yoe := YearOfEra(doe); 0 <= yoe <= 399 && YearStart(yoe) <= doe < YearEnd(yoe)
  {
    var c, q, s := Decompose(doe);
    CorrectionsAreLeapDays(doe, c, q, s);
    var t := if s == 1460 then 3 else s / 365;
    var yoe := 100 * c + 4 * q + t;
    StartOfYear(c, q, t);
    if yoe < 399 {
      if t < 3 { StartOfYear(c, q, t + 1); }
      else if q < 24 { StartOfYear(c, q + 1, 0); }
      else { StartOfYear(c + 1, 0, 0); }
    }
  }

  lemma StartOfYear(c: int, q: int, t: int)
    requires 0 <= c && 0 <= q <= 24 && 0 <= t <= 3
    ensures YearStart(100 * c + 4 * q + t) == 36524 * c + 1461 * q + 365 * t
  {
    var y := 100 * c + 4 * q + t;
    DivModUnique(y, 4, 25 * c + q, t);
    DivModUnique(y, 100, c, 4 * q + t);
  }

  lemma YearsAscend(a: int, b: int)
    requires 0 <= a < b <= 399
    ensures YearEnd(a) <= YearStart(b)
  {
  }

  /** The only year of the era whose days include a day. */
  lemma YearIsUnique(doe: int, yoe: int)
    requires 0 <= yoe <= 399 && YearStart(yoe) <= doe < YearEnd(yoe)
    ensures 0 <= doe < 146097 && YearOfEra(doe) == yoe
  {
    if yoe < 399 { YearsAscend(yoe, 399); }
    YearOfEraIsRight(doe);
    var other := YearOfEra(doe);
    if other < yoe { YearsAscend(other, yoe); } else if yoe < other { YearsAscend(yoe, other); }
  }

  // Days of a year from 1 March

  function MarchLength(y: int): int {
    if IsLeap(y + 1) then 366 else 365
  }

  lemma EraYearLength(era: int, yoe: int)
    requires 0 <= yoe <= 399
    ensures YearEnd(yoe) - YearStart(yoe) == MarchLength(yoe + era * 400)
  {
    var y := yoe + 1;
    DivModUnique(y + era * 400, 4, y / 4 + era * 100, y % 4);
    DivModUnique(y + era * 400, 100, y / 100 + era * 4, y % 100);
    DivModUnique(y + era * 400, 400, y / 400 + era, y % 400);
  }

  function MonthOf(doy: int): int {
    (5 * doy + 2) / 153
  }

  lemma MonthOfDay(doy: int)
    requires 0 <= doy <= 365
    ensures 0 <= MonthOf(doy) <= 11 && MonthStart(MonthOf(doy)) <= doy < MonthStart(MonthOf(doy) + 1)
  {
  }

  /** The only month whose days include a day. */
  lemma MonthIsUnique(doy: int, mp: int)
    requires 0 <= mp <= 11 && MonthStart(mp) <= doy < MonthStart(mp + 1)
    ensures MonthOf(doy) == mp
  {
  }

  /** The last day of a month that begins in March: the arithmetic leaves February open. */
  function MonthEnd(y: int, mp: int): int {
    if mp == 11 then MarchLength(y) else MonthStart(mp + 1)
  }

  function CivilMonth(mp: int): int {
    if mp < 10 then mp + 3 else mp - 9
  }

  /** Every month is as long as the calendar says. */
  lemma MonthLengths(y: int, mp: int)
    requires 0 <= mp <= 11
    ensures 1 <= CivilMonth(mp) <= 12
    ensures MonthEnd(y, mp) - MonthStart(mp) == DaysInMonth(if CivilMonth(mp) <= 2 then y + 1 else y, CivilMonth(mp))
  {
    hide IsLeap;
    assert MonthStart(0) == 0 && MonthStart(1) == 31 && MonthStart(2) == 61 && MonthStart(3) == 92;
    assert MonthStart(4) == 122 && MonthStart(5) == 153 && MonthStart(6) == 184 && MonthStart(7) == 214;
    assert MonthStart(8) == 245 && MonthStart(9) == 275 && MonthStart(10) == 306 && MonthStart(11) == 337;
  }

  lemma MarchDateInMonth(y: int, doy: int, mp: int)
    requires MonthOf(doy) == mp
    ensures var m := CivilMonth(mp);
      MarchDate(y, doy) == Date(if m <= 2 then y + 1 else y, m, doy - MonthStart(mp) + 1)
  {
  }

  lemma FirstOfMarch(y: int)
    ensures MarchDate(y, 0) == Date(y, 3, 1)
  {
  }

  lemma LastMonthOpen(y: int, doy: int)
    requires 0 <= doy < MarchLength(y)
    ensures doy <= 365 && doy < MonthEnd(y, MonthOf(doy)) && MonthEnd(y, MonthOf(doy)) <= MonthStart(MonthOf(doy) + 1)
  {
    hide IsLeap, MonthOf;
    MonthOfDay(doy);
  }

  /** Every day of a March year is a date, and the day after it is the next day's. */
  lemma MarchDatesFollow(y: int, doy: int)
    requires 0 <= doy < MarchLength(y)
    ensures IsDate(MarchDate(y, doy))
    ensures NextDay(MarchDate(y, doy)) == if doy + 1 < MarchLength(y) then MarchDate(y, doy + 1) else MarchDate(y + 1, 0)
  {
    hide MonthOf, MonthStart, MarchDate, DaysInMonth, MarchLength, MonthEnd;
    LastMonthOpen(y, doy);
    MonthOfDay(doy);
    var mp := MonthOf(doy);
    MarchDateInMonth(y, doy, mp);
    MonthLengths(y, mp);
    if doy + 1 < MonthEnd(y, mp) {
      MonthIsUnique(doy + 1, mp);
      MarchDateInMonth(y, doy + 1, mp);
      EndsInYear(y, mp);
    } else if mp < 11 {
      NextMonth(y, mp);
      MonthIsUnique(doy + 1, mp + 1);
      MarchDateInMonth(y, doy + 1, mp + 1);
    } else {
      EndsInYear(y, mp);
      FirstOfMarch(y + 1);
    }
  }

  lemma EndsInYear(y: int, mp: int)
    requires 0 <= mp <= 11
    ensures MonthEnd(y, mp) <= MarchLength(y) && (mp == 11 ==> MonthEnd(y, mp) == MarchLength(y))
  {
    hide IsLeap;
  }

  lemma NextMonth(y: int, mp: int)
    requires 0 <= mp < 11
    ensures MonthEnd(y, mp) == MonthStart(mp + 1) < MonthStart(mp + 2) && MonthStart(mp + 1) < MarchLength(y)
  {
    hide IsLeap;
  }

  // The conversion is the calendar

  lemma ConversionFollows(days: nat)
    ensures IsDate(CivilFromDays(days))
    ensures CivilFromDays(days + 1) == NextDay(CivilFromDays(days))
  {
    hide YearOfEra, YearStart, MarchDate, NextDay, IsLeap;
    var z := days + 719468;
    var era, doe := z / 146097, z % 146097;
    YearOfEraIsRight(doe);
    var yoe := YearOfEra(doe);
    var doy := doe - YearStart(yoe);
    EraYearLength(era, yoe);
    MarchDatesFollow(yoe + era * 400, doy);
    if doe + 1 < 146097 {
      DivModUnique(z + 1, 146097, era, doe + 1);
      if doe + 1 < YearEnd(yoe) {
        YearIsUnique(doe + 1, yoe);
      } else {
        NextYear(yoe);
        YearIsUnique(doe + 1, yoe + 1);
      }
    } else {
      DivModUnique(z + 1, 146097, era + 1, 0);
      LastYear(yoe, doe);
      YearIsUnique(0, 0);
    }
  }

  lemma NextYear(yoe: int)
    requires 0 <= yoe <= 399 && YearEnd(yoe) < 146097
    ensures yoe < 399 && YearStart(yoe + 1) == YearEnd(yoe) < YearEnd(yoe + 1)
  {
  }

  lemma LastYear(yoe: int, doe: int)
    requires 0 <= yoe <= 399 && YearStart(yoe) <= doe < YearEnd(yoe) && doe == 146096
    ensures yoe == 399 && YearStart(0) == 0 < YearEnd(0)
  {
    if yoe < 399 { YearsAscend(yoe, 399); }
  }

  lemma EpochDay()
    ensures CivilFromDays(0) == Date(1970, 1, 1)
  {
    hide YearOfEra;
    YearIsUnique(135080, 369);
    DivModUnique(719468, 146097, 4, 135080);
  }

  /** The arithmetic agrees with walking the calendar day by day, for every day since the epoch. */
  lemma {:induction false} ConversionIsCalendar(days: nat)
    ensures CivilFromDays(days) == Walk(days) && IsDate(CivilFromDays(days))
  {
    hide CivilFromDays, NextDay, IsDate;
    ConversionFollows(days);
    if days == 0 {
      EpochDay();
    } else {
      ConversionIsCalendar(days - 1);
      ConversionFollows(days - 1);
    }
  }

  lemma MarchDateIs(y: int, doy: int, mp: int)
    requires mp == (5 * doy + 2) / 153
    ensures var m := if mp < 10 then mp + 3 else mp - 9;
      MarchDate(y, doy) == Date(if m <= 2 then y + 1 else y, m, doy - (153 * mp + 2) / 5 + 1)
  {
  }

  lemma YearsAre(doe: int, yoe: int)
    ensures YearOfEra(doe) == (doe - doe / 1460 + doe / 36524 - doe / 146096) / 365
    ensures YearStart(yoe) == 365 * yoe + yoe / 4 - yoe / 100
  {
  }

  lemma ConversionIs(days: nat, era: int, doe: int)
    requires era == (days + 719468) / 146097 && doe == (days + 719468) - era * 146097
    ensures CivilFromDays(days) == MarchDate(YearOfEra(doe) + era * 400, doe - YearStart(YearOfEra(doe)))
  {
    hide MarchDate, YearOfEra, YearStart;
  }

  /** The date of a time, by the arithmetic: the day the calendar has walked to. */
  method TodayUtc(secs: nat) returns (today: Date)
    ensures today == Walk(secs / 86400) && IsDate(today)
  {
    hide Walk, IsDate, CivilFromDays, MarchDate, YearOfEra, YearStart, MonthStart;
    var days := secs / 86400;
    var z := days + 719468;
    var era := z / 146097;
    var doe := z - era * 146097;
    var yoe := (doe - doe / 1460 + doe / 36524 - doe / 146096) / 365;
    var y := yoe + era * 400;
    var doy := doe - (365 * yoe + yoe / 4 - yoe / 100);
    var mp := (5 * doy + 2) / 153;
    var d := doy - (153 * mp + 2) / 5 + 1;
    var m := if mp < 10 then mp + 3 else mp - 9;
    today := Date(if m <= 2 then y + 1 else y, m, d);
    YearsAre(doe, yoe);
    MarchDateIs(y, doy, mp);
    ConversionIs(days, era, doe);
    ConversionIsCalendar(days);
  }

  // Order

  /** The order of the tuples the gate compares. */
  predicate Later(a: Date, b: Date) {
    a.year > b.year || (a.year == b.year && (a.month > b.month || (a.month == b.month && a.day > b.day)))
  }

  lemma {:induction false} WalkIsDate(n: nat)
    ensures IsDate(Walk(n))
  {
    if n > 0 { WalkIsDate(n - 1); }
  }

  lemma {:induction false} LaterDaysAreLater(a: nat, b: nat)
    requires a < b
    ensures Later(Walk(b), Walk(a))
  {
    WalkIsDate(b - 1);
    if a < b - 1 { LaterDaysAreLater(a, b - 1); }
  }

  /** Comparing dates is comparing days. */
  lemma ComparisonIsOfDays(today: nat, other: nat)
    ensures Later(Walk(today), Walk(other)) <==> today > other
  {
    hide Walk;
    if today > other { LaterDaysAreLater(other, today); } else if today < other { LaterDaysAreLater(today, other); }
  }

  /** Every date from the epoch on is the date of some day. */
  lemma {:induction false} EveryDateIsReached(date: Date) returns (n: nat)
    requires IsDate(date) && date.year >= 1970
    ensures Walk(n) == date
    decreases date.year, date.month, date.day
  {
    if date == Date(1970, 1, 1) { return 0; }
    var before :=
      if date.day > 1 then date.(day := date.day - 1)
      else if date.month > 1 then Date(date.year, date.month - 1, DaysInMonth(date.year, date.month - 1))
      else Date(date.year - 1, 12, 31);
    var n' := EveryDateIsReached(before);
    n := n' + 1;
  }

  /** A day of 1 to 31 as the gate reads it, at most the last one its month has. */
  function Clipped(expiry: Date): Date {
    if expiry.day > DaysInMonth(expiry.year, expiry.month)
    then expiry.(day := DaysInMonth(expiry.year, expiry.month)) else expiry
  }

  /**
   The gate's verdict is about days for every expiry it reads, one that no calendar has included: an
   exception has expired exactly when today is past the day its date, clipped to its month, falls on;
   one dated before 1970 always has.
   */
  lemma ExpiryIsByDay(today: nat, expiry: Date) returns (n: int)
    requires 1 <= expiry.month <= 12 && 1 <= expiry.day <= 31
    ensures if expiry.year >= 1970 then n >= 0 && Walk(n) == Clipped(expiry) else n == -1
    ensures Later(Walk(today), expiry) <==> today > n
  {
    hide Walk;
    WalkIsDate(today);
    if expiry.year >= 1970 {
      n := EveryDateIsReached(Clipped(expiry));
      ComparisonIsOfDays(today, n);
    } else {
      n := -1;
      assert Walk(0) == Date(1970, 1, 1) by { FirstDay(); }
      if today > 0 { LaterDaysAreLater(0, today); }
    }
  }

  lemma FirstDay()
    ensures Walk(0) == Date(1970, 1, 1)
  {
  }
}

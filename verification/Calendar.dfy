/** The proleptic Gregorian calendar (`src/datetime.rs`): a date and its day,
    counted from 1970-01-01. */
module Calendar {
  import opened Powers

  datatype Date = Date(year: int, month: int, day: int)

  predicate IsLeap(year: int) {
    year % 4 == 0 && (year % 100 != 0 || year % 400 == 0)
  }

  function DaysInMonth(year: int, month: int): (n: int) {
    if month == 1 || month == 3 || month == 5 || month == 7 || month == 8 || month == 10 || month == 12 then 31
    else if month == 4 || month == 6 || month == 9 || month == 11 then 30
    else if month == 2 then (if IsLeap(year) then 29 else 28)
    else 0
  }

  /** A date that exists. */
  predicate Exists(date: Date) {
    1 <= date.day <= DaysInMonth(date.year, date.month)
  }

  /** `days_from_civil`. */
  function DaysFromCivil(date: Date): (days: int) {
    var year := if date.month <= 2 then date.year - 1 else date.year;
    var era, yearOfEra := year / 400, year % 400;
    var monthFromMarch := (date.month + 9) % 12;
    var dayOfYear := (153 * monthFromMarch + 2) / 5 + date.day - 1;
    var dayOfEra := yearOfEra * 365 + yearOfEra / 4 - yearOfEra / 100 + dayOfYear;
    era * 146_097 + dayOfEra - 719_468
  }

  function YearOfEra(dayOfEra: int): (year: int) {
    (dayOfEra - dayOfEra / 1460 + dayOfEra / 36_524 - dayOfEra / 146_096) / 365
  }

  /** `civil_from_days`. */
  function CivilFromDays(day: int): (date: Date) {
    var days := day + 719_468;
    var era, dayOfEra := days / 146_097, days % 146_097;
    var yearOfEra := YearOfEra(dayOfEra);
    var dayOfYear := dayOfEra - (365 * yearOfEra + yearOfEra / 4 - yearOfEra / 100);
    var monthFromMarch := (5 * dayOfYear + 2) / 153;
    var dayOfMonth := dayOfYear - (153 * monthFromMarch + 2) / 5 + 1;
    var month := if monthFromMarch < 10 then monthFromMarch + 3 else monthFromMarch - 9;
    Date(yearOfEra + era * 400 + (if month <= 2 then 1 else 0), month, dayOfMonth)
  }

  /** The days before a year of the era, which begins in March. */
  function Before(yearOfEra: int): (days: int) {
    365 * yearOfEra + yearOfEra / 4 - yearOfEra / 100
  }

  /** A year of the era, March to February, has a leap day at its end if the next
      calendar year is a leap year. */
  function YearLength(yearOfEra: int): (days: int) {
    if IsLeap(yearOfEra + 1) then 366 else 365
  }

  /** The day `r` of year `k` of four, of the `q`th four years, of century `c`. */
  predicate Parts(c: int, q: int, k: int, r: int) {
    && 0 <= c < 4 && 0 <= q < 25 && 0 <= k < 4
    && 0 <= r <= 365 && (r == 365 ==> k == 3 && (q < 24 || c == 3))
  }

  function DayOf(c: int, q: int, k: int, r: int): (d: int) {
    36_524 * c + 1461 * q + 365 * k + r
  }

  /** The centuries of a day: the last day of an era is not one more. */
  lemma Centuries(c: int, q: int, k: int, r: int)
    requires Parts(c, q, k, r)
    ensures var d := DayOf(c, q, k, r); d / 36_524 - d / 146_096 == c
  {
    var d := DayOf(c, q, k, r);
    var rest := 1461 * q + 365 * k + r;
    if rest == 36_524 {
      assert c == 3;
    } else {
      assert rest < 36_524;
      QuotientIs(d, 36_524, c, rest);
      assert d < 146_096;
    }
  }

  /** Where the division by four years less a day is one too many, the day is not
      the first of its year. */
  lemma FourYears(c: int, q: int, k: int, r: int)
    requires Parts(c, q, k, r)
    ensures var e := DayOf(c, q, k, r) / 1460 - 25 * c - q;
            (e == 0 && r < 365) || (e == 1 && r > 0)
  {
    var d := DayOf(c, q, k, r);
    var rest := 24 * c + q + 365 * k + r;
    assert d == 1460 * (25 * c + q) + rest;
    if rest < 1460 {
      QuotientIs(d, 1460, 25 * c + q, rest);
    } else {
      QuotientIs(d, 1460, 25 * c + q + 1, rest - 1460);
    }
  }

  lemma YearByParts(c: int, q: int, k: int, r: int)
    requires Parts(c, q, k, r)
    ensures YearOfEra(DayOf(c, q, k, r)) == 100 * c + 4 * q + k
  {
    var d, y := DayOf(c, q, k, r), 100 * c + 4 * q + k;
    Centuries(c, q, k, r);
    FourYears(c, q, k, r);
    var e := d / 1460 - 25 * c - q;
    assert d - d / 1460 + d / 36_524 - d / 146_096 == 365 * y + (r - e);
    QuotientIs(365 * y + (r - e), 365, y, r - e);
  }

  lemma BeforeByParts(c: int, q: int, k: int)
    requires 0 <= c < 4 && 0 <= q < 25 && 0 <= k < 4
    ensures Before(100 * c + 4 * q + k) == DayOf(c, q, k, 0)
    ensures IsLeap(100 * c + 4 * q + k + 1) <==> k == 3 && (q < 24 || c == 3)
  {
    var y := 100 * c + 4 * q + k;
    QuotientIs(y, 4, 25 * c + q, k);
    QuotientIs(y, 100, c, 4 * q + k);
    hide DayOf;
    assert (y + 1) % 4 == 0 <==> k == 3;
    assert (y + 1) % 100 == 0 <==> 4 * q + k == 99;
    if 4 * q + k == 99 { assert y + 1 == 100 * (c + 1); }
  }

  function Least(a: int, b: int): (m: int) {
    if a <= b then a else b
  }

  lemma PartsOf(d: int) returns (c: int, q: int, k: int, r: int)
    requires 0 <= d < 146_097
    ensures Parts(c, q, k, r) && d == DayOf(c, q, k, r)
  {
    c := Least(d / 36_524, 3);
    var inCentury := d - 36_524 * c;
    q := Least(inCentury / 1461, 24);
    var inFour := inCentury - 1461 * q;
    k := Least(inFour / 365, 3);
    r := inFour - 365 * k;
  }

  /** The year of the era a day is in. */
  lemma YearOfEraIs(d: int)
    requires 0 <= d < 146_097
    ensures var y := YearOfEra(d); 0 <= y < 400 && 0 <= d - Before(y) < YearLength(y)
  {
    var c, q, k, r := PartsOf(d);
    YearByParts(c, q, k, r);
    BeforeByParts(c, q, k);
    hide YearOfEra, Before, IsLeap;
  }

  /** And the only one. */
  lemma YearOfEraIsUnique(y: int, r: int)
    requires 0 <= y < 400 && 0 <= r < YearLength(y)
    ensures 0 <= Before(y) + r < 146_097 && YearOfEra(Before(y) + r) == y
  {
    var c, q, k := y / 100, y % 100 / 4, y % 4;
    assert y == 100 * c + 4 * q + k;
    BeforeByParts(c, q, k);
    YearByParts(c, q, k, r);
    hide YearOfEra, Before, IsLeap;
  }

  // ----------------------------------------------------------------------- months

  /** The days of the year, from March, before a month of it. */
  function MonthStart(m: int): (days: int) {
    (153 * m + 2) / 5
  }

  function MonthOf(dayOfYear: int): (m: int) {
    (5 * dayOfYear + 2) / 153
  }

  lemma MonthOfIs(dayOfYear: int)
    requires 0 <= dayOfYear < 366
    ensures var m := MonthOf(dayOfYear); 0 <= m < 12 && MonthStart(m) <= dayOfYear < MonthStart(m + 1)
  {
  }

  lemma MonthOfIsUnique(m: int, dayOfYear: int)
    requires 0 <= m < 12 && MonthStart(m) <= dayOfYear < MonthStart(m + 1)
    ensures MonthOf(dayOfYear) == m
  {
  }

  function Month(m: int): (month: int) {
    if m < 10 then m + 3 else m - 9
  }

  /** A month is as long as the calendar says; February what is left of the year. */
  lemma MonthLength(year: int, m: int)
    requires 0 <= m < 12
    ensures DaysInMonth(year, Month(m)) == if m == 11 then (if IsLeap(year) then 29 else 28) else MonthStart(m + 1) - MonthStart(m)
    ensures MonthStart(11) == 337 && MonthStart(0) == 0 && (Month(m) + 9) % 12 == m && (Month(m) <= 2 <==> m >= 10)
    ensures MonthStart(12) == 367
  {
    hide IsLeap;
    if m < 4 {
      assert m == 0 || m == 1 || m == 2 || m == 3;
    } else if m < 8 {
      assert m == 4 || m == 5 || m == 6 || m == 7;
    } else {
      assert m == 8 || m == 9 || m == 10 || m == 11;
    }
  }

  lemma LeapByEra(year: int, era: int)
    ensures IsLeap(year + 400 * era) <==> IsLeap(year)
  {
    QuotientIs(year + 400 * era, 4, year / 4 + 100 * era, year % 4);
    QuotientIs(year + 400 * era, 100, year / 100 + 4 * era, year % 100);
    QuotientIs(year + 400 * era, 400, year / 400 + era, year % 400);
  }

  /** A date by its era, its year and month from March, and its day. */
  function DateOf(era: int, y: int, m: int, day: int): (date: Date) {
    Date(y + era * 400 + (if Month(m) <= 2 then 1 else 0), Month(m), day)
  }

  /** It exists exactly if the day is in the month, and the year. */
  lemma DateExists(era: int, y: int, m: int, day: int)
    requires 0 <= y < 400 && 0 <= m < 12
    ensures Exists(DateOf(era, y, m, day)) <==>
              var r := MonthStart(m) + day - 1;
              MonthStart(m) <= r < MonthStart(m + 1) && r < YearLength(y)
  {
    var date := DateOf(era, y, m, day);
    MonthLength(date.year, m);
    LeapByEra(y + 1, era);
    StartsGrow(m);
    hide IsLeap, DaysInMonth;
  }

  lemma StartsGrow(m: int)
    requires 0 <= m < 12
    ensures m < 11 ==> MonthStart(m + 1) <= 337
  {
  }

  lemma DaysByParts(era: int, y: int, m: int, day: int)
    requires 0 <= y < 400 && 0 <= m < 12
    ensures DaysFromCivil(DateOf(era, y, m, day)) == era * 146_097 + Before(y) + MonthStart(m) + day - 1 - 719_468
  {
    MonthLength(0, m);
    var date := DateOf(era, y, m, day);
    var year := if date.month <= 2 then date.year - 1 else date.year;
    assert year == era * 400 + y;
    QuotientIs(year, 400, era, y);
  }

  lemma CivilInEra(day: int, era: int, d: int, y: int)
    requires (day + 719_468) / 146_097 == era && (day + 719_468) % 146_097 == d && YearOfEra(d) == y
    ensures var r := d - Before(y); CivilFromDays(day) == DateOf(era, y, MonthOf(r), r - MonthStart(MonthOf(r)) + 1)
  {
    hide YearOfEra;
  }

  lemma CivilByParts(era: int, y: int, r: int)
    requires 0 <= y < 400 && 0 <= r < YearLength(y)
    ensures var m := MonthOf(r);
            CivilFromDays(era * 146_097 + Before(y) + r - 719_468) == DateOf(era, y, m, r - MonthStart(m) + 1)
  {
    hide YearOfEra, Before, MonthOf, MonthStart, CivilFromDays, YearLength;
    YearOfEraIsUnique(y, r);
    var days := era * 146_097 + Before(y) + r;
    QuotientIs(days, 146_097, era, Before(y) + r);
    CivilInEra(days - 719_468, era, Before(y) + r, y);
  }

  /** Every day is of one date, which exists. */
  lemma DayToDateAndBack(day: int)
    ensures Exists(CivilFromDays(day)) && DaysFromCivil(CivilFromDays(day)) == day
  {
    var days := day + 719_468;
    var era, d := days / 146_097, days % 146_097;
    YearOfEraIs(d);
    var y := YearOfEra(d);
    var r := d - Before(y);
    var m := MonthOf(r);
    MonthOfIs(r);
    CivilByParts(era, y, r);
    hide *;
    DateExists(era, y, m, r - MonthStart(m) + 1);
    DaysByParts(era, y, m, r - MonthStart(m) + 1);
  }

  /** Every date that exists is of one day. */
  lemma DateToDayAndBack(date: Date)
    requires Exists(date)
    ensures CivilFromDays(DaysFromCivil(date)) == date
  {
    var m := (date.month + 9) % 12;
    var year := if date.month <= 2 then date.year - 1 else date.year;
    var era, y := year / 400, year % 400;
    assert era * 400 + y == year;
    hide *;
    MonthsOf(date);
    DateIs(date, era, y, m);
    DateByParts(date, era, y, m);
  }

  lemma DateByParts(date: Date, era: int, y: int, m: int)
    requires 0 <= y < 400 && 0 <= m < 12 && date == DateOf(era, y, m, date.day) && Exists(date)
    ensures CivilFromDays(DaysFromCivil(date)) == date
  {
    hide *;
    DateExists(era, y, m, date.day);
    DaysByParts(era, y, m, date.day);
    var r := MonthStart(m) + date.day - 1;
    MonthOfIsUnique(m, r);
    StartsAtZero(m);
    CivilByParts(era, y, r);
  }

  lemma MonthsOf(date: Date)
    requires Exists(date)
    ensures var m := (date.month + 9) % 12; 1 <= date.month <= 12 && 0 <= m < 12 && Month(m) == date.month
  {
    hide IsLeap;
  }

  lemma DateIs(date: Date, era: int, y: int, m: int)
    requires 1 <= date.month <= 12 && Month(m) == date.month
    requires era * 400 + y == if date.month <= 2 then date.year - 1 else date.year
    ensures date == DateOf(era, y, m, date.day)
  {
    hide Month;
  }

  lemma StartsAtZero(m: int)
    requires m >= 0
    ensures MonthStart(m) >= 0
  {
  }

  // ---------------------------------------------------------------- as the days go

  /** The date after a date: the next day of the month, or the first of the next. */
  function NextDate(date: Date): (next: Date) {
    if date.day < DaysInMonth(date.year, date.month) then date.(day := date.day + 1)
    else if date.month < 12 then Date(date.year, date.month + 1, 1)
    else Date(date.year + 1, 1, 1)
  }

  /** Counted from 1970-01-01, and a day more is the next date: so every day has the
      date the calendar gives it. */
  lemma DaysGoOn(date: Date)
    requires Exists(date)
    ensures Exists(NextDate(date)) && DaysFromCivil(NextDate(date)) == DaysFromCivil(date) + 1
  {
    NextExists(date);
    hide Exists;
    if date.day == DaysInMonth(date.year, date.month) {
      MonthEnds(date.year, date.month);
    } else {
      DayGoesOn(date);
    }
  }

  lemma NextExists(date: Date)
    requires Exists(date)
    ensures Exists(NextDate(date)) && 1 <= date.month <= 12 && date.day <= DaysInMonth(date.year, date.month)
  {
    hide IsLeap;
  }

  lemma DayGoesOn(date: Date)
    ensures DaysFromCivil(date.(day := date.day + 1)) == DaysFromCivil(date) + 1
  {
  }

  /** The last day of a month is before the first of the next. */
  lemma MonthEnds(year: int, month: int)
    requires 1 <= month <= 12
    ensures var next := if month < 12 then Date(year, month + 1, 1) else Date(year + 1, 1, 1);
            DaysFromCivil(next) == DaysFromCivil(Date(year, month, DaysInMonth(year, month))) + 1
  {
    if month == 2 {
      FebruaryEnds(year);
    } else {
      hide IsLeap;
    }
  }

  /** The year before, in its era. */
  lemma YearBefore(year: int)
    ensures year % 400 == 0 ==> (year - 1) / 400 == year / 400 - 1 && (year - 1) % 400 == 399
    ensures year % 400 != 0 ==> (year - 1) / 400 == year / 400 && (year - 1) % 400 == year % 400 - 1
  {
    if year % 400 == 0 {
      QuotientIs(year - 1, 400, year / 400 - 1, 399);
    } else {
      QuotientIs(year - 1, 400, year / 400, year % 400 - 1);
    }
  }

  lemma LeapInEra(year: int)
    ensures IsLeap(year) <==> IsLeap(year % 400)
  {
  }

  lemma LeapDay(y: int)
    requires 0 < y < 400
    ensures y / 4 - (y - 1) / 4 == if y % 4 == 0 then 1 else 0
    ensures y / 100 - (y - 1) / 100 == if y % 100 == 0 then 1 else 0
  {
  }

  /** The last day of February, a leap year's too, is before the first of March. */
  lemma FebruaryEnds(year: int)
    ensures DaysFromCivil(Date(year, 3, 1)) == DaysFromCivil(Date(year, 2, DaysInMonth(year, 2))) + 1
  {
    YearBefore(year);
    LeapInEra(year);
    var (e, y) := (year / 400, year % 400);
    FirstOfMarch(year);
    LastOfFebruary(year);
    if y > 0 { LeapDay(y); }
    hide DaysFromCivil;
  }

  lemma FirstOfMarch(year: int)
    ensures DaysFromCivil(Date(year, 3, 1))
         == year / 400 * 146_097 + year % 400 * 365 + year % 400 / 4 - year % 400 / 100 - 719_468
  {
  }

  lemma LastOfFebruary(year: int)
    ensures var (e, y) := ((year - 1) / 400, (year - 1) % 400);
            DaysFromCivil(Date(year, 2, DaysInMonth(year, 2)))
              == e * 146_097 + y * 365 + y / 4 - y / 100 + (if IsLeap(year) then 365 else 364) - 719_468
  {
    hide IsLeap;
  }

  lemma DayAfter(day: int)
    ensures CivilFromDays(day + 1) == NextDate(CivilFromDays(day)) && CivilFromDays(0) == Date(1970, 1, 1)
  {
    var date := CivilFromDays(day);
    DayToDateAndBack(day);
    DayToDateAndBack(0);
    hide CivilFromDays, NextDate, DaysFromCivil, Exists;
    DaysGoOn(date);
    DateToDayAndBack(NextDate(date));
    FirstDay();
    DateToDayAndBack(Date(1970, 1, 1));
  }

  lemma FirstDay()
    ensures Exists(Date(1970, 1, 1)) && DaysFromCivil(Date(1970, 1, 1)) == 0
  {
  }
}

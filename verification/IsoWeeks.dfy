/** The ISO 8601 week of a date. packages/common/utils/string-util.ts */
module IsoWeeks {
  const DAY_MS := 86_400_000

  // The Gregorian calendar. Days are counted from 1970-01-01, a Thursday.

  predicate IsLeap(year: int) {
    year % 4 == 0 && (year % 100 != 0 || year % 400 == 0)
  }

  /** The day of the first of January. */
  function YearStart(year: int): int {
    365 * (year - 1970) + (year - 1) / 4 - (year - 1) / 100 + (year - 1) / 400 - 477
  }

  lemma YearLength(year: int)
    ensures YearStart(year + 1) - YearStart(year) == if IsLeap(year) then 366 else 365
  {
    hide IsLeap;
    Carries(year);
    LeapDays(year);
  }

  /** Where a multiple is reached. */
  lemma Carries(y: int)
    ensures y / 4 - (y - 1) / 4 == if y % 4 == 0 then 1 else 0
    ensures y / 100 - (y - 1) / 100 == if y % 100 == 0 then 1 else 0
    ensures y / 400 - (y - 1) / 400 == if y % 400 == 0 then 1 else 0
  {
    CarryOf4(y);
    CarryOf100(y);
    CarryOf400(y);
  }

  lemma CarryOf4(y: int)
    ensures y / 4 - (y - 1) / 4 == if y % 4 == 0 then 1 else 0
  {}

  lemma CarryOf100(y: int)
    ensures y / 100 - (y - 1) / 100 == if y % 100 == 0 then 1 else 0
  {}

  lemma CarryOf400(y: int)
    ensures y / 400 - (y - 1) / 400 == if y % 400 == 0 then 1 else 0
  {}

  lemma LeapDays(y: int)
    ensures (if y % 4 == 0 then 1 else 0) - (if y % 100 == 0 then 1 else 0) + (if y % 400 == 0 then 1 else 0) ==
            if IsLeap(y) then 1 else 0
  {
    if y % 100 == 0 {
      FourInHundred(y / 100);
    }
    if y % 400 == 0 {
      HundredInFourHundred(y / 400);
    }
  }

  lemma FourInHundred(q: int)
    ensures (100 * q) % 4 == 0
  {
    assert 100 * q == 4 * (25 * q);
  }

  lemma HundredInFourHundred(q: int)
    ensures (400 * q) % 100 == 0
  {
    assert 400 * q == 100 * (4 * q);
  }

  function YearFrom(year: int, day: int): (y: int)
    ensures YearStart(y) <= day < YearStart(y + 1)
    decreases if day < YearStart(year) then YearStart(year) - day + 366
              else if day >= YearStart(year + 1) then day - YearStart(year) else 0
  {
    hide YearStart, IsLeap;
    YearLength(year);
    YearLength(year - 1);
    if day < YearStart(year) then YearFrom(year - 1, day)
    else if day >= YearStart(year + 1) then YearFrom(year + 1, day)
    else year
  }

  function YearOf(day: int): (y: int)
    ensures YearStart(y) <= day < YearStart(y + 1)
  {
    YearFrom(1970, day)
  }

  lemma {:induction false} YearsAreOrdered(a: int, b: int)
    requires a <= b
    ensures YearStart(a) + 365 * (b - a) <= YearStart(b)
    decreases b - a
  {
    hide YearStart, IsLeap;
    if a < b {
      YearsAreOrdered(a, b - 1);
      YearLength(b - 1);
    }
  }

  lemma YearIsUnique(day: int, y: int)
    requires YearStart(y) <= day < YearStart(y + 1)
    ensures YearOf(day) == y
  {
    hide YearStart;
    if YearOf(day) < y {
      YearsAreOrdered(YearOf(day) + 1, y);
    }
    if y < YearOf(day) {
      YearsAreOrdered(y + 1, YearOf(day));
    }
  }

  // The weeks of ISO 8601, from Monday to Sunday, numbered from the one with the first Thursday of a year

  /** Zero for Sunday, and four for the Thursdays, which are the multiples of seven. */
  function Weekday(day: int): (w: int)
    ensures 0 <= w < 7
  {
    (day + 4) % 7
  }

  /** The first day from the given one on that is a Thursday. */
  function ThursdayFrom(day: int): (thursday: int)
    ensures day <= thursday < day + 7 && thursday % 7 == 0
  {
    day + (-day) % 7
  }

  function FirstThursday(year: int): int {
    ThursdayFrom(YearStart(year))
  }

  function FirstMonday(year: int): int {
    FirstThursday(year) - 3
  }

  /** The day lies in the given week of the given week-numbering year. */
  predicate InWeek(day: int, year: int, week: int) {
    && 1 <= week && FirstMonday(year) + 7 * (week - 1) <= day < FirstMonday(year) + 7 * week
    && day < FirstMonday(year + 1)
  }

  /** A day lies in one week of one year only. */
  lemma WeekIsUnique(day: int, year: int, week: int, year': int, week': int)
    requires InWeek(day, year, week) && InWeek(day, year', week')
    ensures year == year' && week == week'
  {
    hide YearStart;
    if year < year' {
      YearsAreOrdered(year + 1, year');
    }
    if year' < year {
      YearsAreOrdered(year' + 1, year);
    }
  }

  /** Week years have 52 weeks, or 53 when they have 53 Thursdays. */
  predicate IsLong(year: int) {
    Weekday(YearStart(year)) == 4 || (IsLeap(year) && Weekday(YearStart(year)) == 3)
  }

  lemma WeeksInYear(year: int)
    ensures FirstMonday(year + 1) - FirstMonday(year) == 7 * if IsLong(year) then 53 else 52
  {
    hide YearStart, IsLeap, ThursdayFrom, Weekday;
    YearLength(year);
    ThursdayOffset(YearStart(year));
    ThursdayOffset(YearStart(year + 1));
    YearShifts(YearStart(year));
  }

  lemma ThursdayOffset(day: int)
    ensures ThursdayFrom(day) == day + if day % 7 == 0 then 0 else 7 - day % 7
    ensures Weekday(day) == if day % 7 < 3 then day % 7 + 4 else day % 7 - 3
  {
    var q, r := day / 7, day % 7;
    assert -day == 7 * -q - r;
  }

  lemma YearShifts(day: int)
    ensures (day + 365) % 7 == if day % 7 < 6 then day % 7 + 1 else 0
    ensures (day + 366) % 7 == if day % 7 < 5 then day % 7 + 2 else day % 7 - 5
  {
    var q, r := day / 7, day % 7;
    assert day + 365 == 7 * (q + 52) + r + 1;
  }

  // The computation. Date.UTC reads the years 0 to 99 as 1900 to 1999.

  predicate IsTwoDigit(year: int) {
    0 <= year <= 99
  }

  function UtcYearStart(year: int): int {
    YearStart(if IsTwoDigit(year) then 1900 + year else year)
  }

  /** Date.UTC of the year, month and day of a day. The year 0 has the 29th of February that 1900 lacks. */
  function UtcDay(day: int): int {
    var year := YearOf(day);
    day - YearStart(year) + UtcYearStart(year) - if year == 0 && day - YearStart(0) >= 60 then 1 else 0
  }

  function ThursdayOf(day: int): int {
    day + 4 - if Weekday(day) == 0 then 7 else Weekday(day)
  }

  /** The number of the week that holds a day. */
  function IsoNumber(date: int): int {
    (ThursdayOf(date) - YearStart(YearOf(ThursdayOf(date))) + 7) / 7
  }

  function ComputedWeek(date: int): int {
    var day := ThursdayOf(UtcDay(date));
    (day - UtcYearStart(YearOf(day)) + 1 + 6) / 7
  }

  /** The computed week is the one of ISO 8601, away from the years 0 to 99. */
  lemma ComputedWeekIsIso(date: int)
    requires !IsTwoDigit(YearOf(date)) && !IsTwoDigit(YearOf(ThursdayOf(date)))
    ensures 1 <= ComputedWeek(date) <= 53 && InWeek(date, YearOf(ThursdayOf(date)), ComputedWeek(date))
  {
    hide YearStart, ThursdayFrom, Weekday, IsLong;
    InTheWeekOfThursday(date, ThursdayOf(date));
    WeeksInYear(YearOf(ThursdayOf(date)));
  }

  /** The first of January of the year 100 belongs to the last week of the year 99, and gets no week at all. */
  lemma YearsOfTwoDigitsFail()
    ensures YearOf(YearStart(100)) == 100 && YearOf(ThursdayOf(YearStart(100))) == 99
    ensures ComputedWeek(YearStart(100)) < 1
  {
    var day := YearStart(100);
    assert day == -683003 && YearStart(101) == -682638 && YearStart(99) == -683368 && YearStart(1999) == 10592;
    hide YearStart;
    YearIsUnique(day, 100);
    YearIsUnique(day - 1, 99);
    assert Weekday(day) == 5;
  }

  lemma InTheWeekOfThursday(date: int, day: int)
    requires day == date + 4 - if Weekday(date) == 0 then 7 else Weekday(date)
    ensures InWeek(date, YearOf(day), (day - YearStart(YearOf(day)) + 7) / 7)
  {
    hide YearStart, ThursdayFrom, Weekday;
    var year := YearOf(day);
    ThursdayOfWeek(date);
    WeekNumber(YearStart(year), day);
    ThursdaysApart(day, FirstThursday(year + 1));
  }

  lemma ThursdayOfWeek(date: int)
    ensures
      var day := date + 4 - if Weekday(date) == 0 then 7 else Weekday(date);
      day % 7 == 0 && date - 3 <= day <= date + 3
  {}

  lemma WeekNumber(start: int, thursday: int)
    requires start <= thursday && thursday % 7 == 0
    ensures
      var week := (thursday - start + 7) / 7;
      1 <= week && thursday == ThursdayFrom(start) + 7 * (week - 1)
  {
    hide ThursdayFrom;
    var first := ThursdayFrom(start);
    ThursdaysApart(thursday, first);
    var k := thursday / 7 - first / 7;
    assert thursday == first + 7 * k;
    assert thursday - start + 7 == 7 * (k + 1) + (first - start);
  }

  lemma ThursdaysApart(a: int, b: int)
    requires a % 7 == 0 && b % 7 == 0
    ensures a - b == 7 * (a / 7 - b / 7) && (a < b ==> a + 7 <= b)
  {}

  lemma WeekdaysFollow(day: int)
    ensures Weekday(day + 1) == if Weekday(day) == 6 then 0 else Weekday(day) + 1
  {}

  /** The week stays from Monday to Sunday, then goes up by one, or back to one when the next week holds
      the first Thursday of a year. */
  lemma NextDay(day: int, year: int, week: int)
    requires InWeek(day, year, week)
    ensures
      if Weekday(day) != 0 then InWeek(day + 1, year, week)
      else if day + 1 == FirstMonday(year + 1) then InWeek(day + 1, year + 1, 1)
      else InWeek(day + 1, year, week + 1)
  {
    hide YearStart, ThursdayFrom, Weekday;
    ThursdayOfWeek(day);
    ThursdayOfWeek(day + 1);
    ThursdaysApart(FirstThursday(year), FirstThursday(year + 1));
    WeekdaysFollow(day);
    YearsAreOrdered(year + 1, year + 2);
    var first := FirstThursday(year);
    var thursday := day + 4 - if Weekday(day) == 0 then 7 else Weekday(day);
    ThursdaysApart(thursday, first);
  }
}

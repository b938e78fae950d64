/** Exactly when the computed week is the one of ISO 8601, the years 0 to 99 included.
    packages/common/utils/string-util.ts */
module TwoDigitYears {
  import opened IsoWeeks

  ghost predicate IsRight(date: int, week: int) {
    InWeek(date, YearOf(ThursdayOf(date)), week)
  }

  lemma RightIsNumber(date: int, week: int)
    ensures IsRight(date, week) <==> week == IsoNumber(date)
    ensures IsoNumber(date) >= 1
  {
    hide YearStart, YearOf, Weekday;
    InTheWeekOfThursday(date, ThursdayOf(date));
    if IsRight(date, week) {
      WeekIsUnique(date, YearOf(ThursdayOf(date)), week, YearOf(ThursdayOf(date)), IsoNumber(date));
    }
  }

  /** Where a date of these years is taken to. */
  lemma UtcDayIs(date: int)
    requires IsTwoDigit(YearOf(date))
    ensures YearOf(UtcDay(date)) == 1900 + YearOf(date)
    ensures !IsTwoDigit(YearOf(ThursdayOf(UtcDay(date))))
  {
    hide YearStart, Weekday;
    var year := YearOf(date);
    var day := UtcDay(date);
    YearLength(year);
    YearLength(1900 + year);
    LeapAlike(year);
    YearIsUnique(day, 1900 + year);
    NearYear(day, ThursdayOf(day));
  }

  lemma LeapAlike(year: int)
    requires IsTwoDigit(year)
    ensures IsLeap(1900 + year) <==> year != 0 && IsLeap(year)
  {}

  lemma NearYear(day: int, near: int)
    requires day - 3 <= near <= day + 3
    ensures YearOf(day) - 1 <= YearOf(near) <= YearOf(day) + 1
  {
    hide YearStart;
    if YearOf(near) > YearOf(day) + 1 {
      YearsAreOrdered(YearOf(day) + 2, YearOf(near));
      YearsAreOrdered(YearOf(day) + 1, YearOf(day) + 2);
    }
    if YearOf(near) < YearOf(day) - 1 {
      YearsAreOrdered(YearOf(near) + 1, YearOf(day) - 1);
      YearsAreOrdered(YearOf(day) - 1, YearOf(day));
    }
  }

  /** The week is right exactly when neither the date nor its Thursday lies in the years 0 to 99, or the
      date does and the same date of the years 1900 to 1999 has the same week number. */
  lemma ComputedWeekIsRightExactly(date: int)
    ensures IsRight(date, ComputedWeek(date)) <==>
            if IsTwoDigit(YearOf(date)) then IsoNumber(UtcDay(date)) == IsoNumber(date)
            else !IsTwoDigit(YearOf(ThursdayOf(date)))
  {
    hide YearStart, YearOf, InWeek, IsRight, Weekday;
    RightIsNumber(date, ComputedWeek(date));
    if IsTwoDigit(YearOf(date)) {
      UtcDayIs(date);
    } else if IsTwoDigit(YearOf(ThursdayOf(date))) {
      CenturiesAhead(date);
    }
  }

  lemma CenturiesAhead(date: int)
    requires !IsTwoDigit(YearOf(date)) && IsTwoDigit(YearOf(ThursdayOf(date)))
    ensures ComputedWeek(date) < 1
  {
    hide YearStart, Weekday;
    var year := YearOf(ThursdayOf(date));
    YearLength(year);
    YearsAreOrdered(year, 1900 + year);
  }

  lemma YearShift(year: int)
    requires 1 <= year <= 99
    ensures YearStart(1900 + year) == YearStart(year) + 693960
  {
    assert (1899 + year) / 4 == (year - 1) / 4 + 475;
    assert (year - 1) / 100 == 0 && (1899 + year) / 100 == 19;
    assert (year - 1) / 400 == 0 && (1899 + year) / 400 == 4;
  }

  lemma WeekdayLater(day: int)
    ensures Weekday(day + 693960) == if Weekday(day) == 6 then 0 else Weekday(day) + 1
    ensures Weekday(day + 693961) == if Weekday(day) >= 5 then Weekday(day) - 5 else Weekday(day) + 2
  {
    var q, r := (day + 4) / 7, (day + 4) % 7;
    assert day + 4 + 693960 == 7 * (q + 99137) + r + 1;
  }

  /** In the years 1 to 99, away from the weeks at the turn of a year, the week is right exactly on Sundays
      when the year begins on a Thursday, and exactly on the other days when it does not. */
  lemma RightFromYearOne(date: int)
    requires 1 <= YearOf(date) <= 99 && YearOf(ThursdayOf(date)) == YearOf(date)
    requires YearOf(ThursdayOf(UtcDay(date))) == 1900 + YearOf(date)
    ensures IsRight(date, ComputedWeek(date)) <==>
            ((Weekday(date) == 0) <==> Weekday(YearStart(YearOf(date))) == 4)
  {
    hide YearStart, YearOf, InWeek, IsRight, Weekday;
    var start := YearStart(YearOf(date));
    ComputedWeekIsRightExactly(date);
    YearShift(YearOf(date));
    WeekdayLater(date);
    var thursday := ThursdayOf(date) - start;
    assert ThursdayOf(UtcDay(date)) - YearStart(1900 + YearOf(date)) ==
           if Weekday(date) == 0 then thursday + 6 else thursday - 1;
    ThursdayOfWeek(date);
    ThursdayOrdinal(start, ThursdayOf(date));
    SameWeek(thursday);
  }

  lemma SameWeek(thursday: int)
    ensures (thursday + 7) / 7 == (thursday - 1 + 7) / 7 <==> thursday % 7 != 0
    ensures (thursday + 7) / 7 == (thursday + 6 + 7) / 7 <==> thursday % 7 == 0
  {
    var q, r := thursday / 7, thursday % 7;
    assert thursday == 7 * q + r;
  }

  lemma ThursdayOrdinal(start: int, thursday: int)
    requires thursday % 7 == 0
    ensures (thursday - start) % 7 == 0 <==> Weekday(start) == 4
  {
    var q, r := start / 7, start % 7;
    assert start == 7 * q + r;
    var p := thursday / 7;
    assert thursday - start == 7 * (p - q) - r;
  }

  lemma YearZero()
    ensures YearStart(0) == -719528 && YearStart(1900) == -25567 && YearStart(1900) == YearStart(0) + 693961
  {}

  /** In the year 0, which began on a Saturday, the week is right on the days from Monday to Friday, and
      from March on also on Saturdays. */
  lemma RightInYearZero(date: int)
    requires YearOf(date) == 0 && YearOf(ThursdayOf(date)) == 0 && YearOf(ThursdayOf(UtcDay(date))) == 1900
    ensures IsRight(date, ComputedWeek(date)) <==>
            Weekday(date) != 0 && (date - YearStart(0) >= 60 || Weekday(date) != 6)
  {
    hide YearStart, YearOf, InWeek, IsRight, Weekday;
    ComputedWeekIsRightExactly(date);
    YearZero();
    WeekdayLater(date);
    ThursdayOfWeek(date);
    var thursday := ThursdayOf(date) - YearStart(0);
    assert thursday % 7 == 5 by { FifthDay(ThursdayOf(date)); }
    assert ThursdayOf(UtcDay(date)) - YearStart(1900) ==
           if Weekday(date) == 0 || (Weekday(date) == 6 && date - YearStart(0) < 60) then thursday + 5
           else thursday - 2;
    ShiftedWeek(thursday);
  }

  lemma FifthDay(thursday: int)
    requires thursday % 7 == 0
    ensures (thursday + 719528) % 7 == 5
  {
    assert thursday + 719528 == 7 * (thursday / 7 + 102789) + 5;
  }

  lemma ShiftedWeek(thursday: int)
    requires thursday % 7 == 5
    ensures (thursday - 2 + 7) / 7 == (thursday + 7) / 7 && (thursday + 5 + 7) / 7 != (thursday + 7) / 7
  {
    var q := thursday / 7;
    assert thursday == 7 * q + 5;
  }

  /** The week of the year of a date, from its milliseconds since 1970. */
  method IsoWeekOfYear(time: int) returns (week: int)
    ensures
      var date := time / DAY_MS;
      !IsTwoDigit(YearOf(date)) && !IsTwoDigit(YearOf(ThursdayOf(date))) ==> IsRight(date, week) && 1 <= week <= 53
    ensures
      var date := time / DAY_MS;
      IsRight(date, week) <==>
      if IsTwoDigit(YearOf(date)) then IsoNumber(UtcDay(date)) == IsoNumber(date)
      else !IsTwoDigit(YearOf(ThursdayOf(date)))
  {
    hide YearStart, IsRight;
    var day := UtcDay(time / DAY_MS);
    day := day + 4 - if Weekday(day) == 0 then 7 else Weekday(day);
    var yearStart := UtcYearStart(YearOf(day));
    week := (day - yearStart + 1 + 6) / 7;
    ComputedWeekIsRightExactly(time / DAY_MS);
    if !IsTwoDigit(YearOf(time / DAY_MS)) && !IsTwoDigit(YearOf(ThursdayOf(time / DAY_MS))) {
      ComputedWeekIsIso(time / DAY_MS);
    }
  }
}

/** The bound of the schedule search loses nothing: whatever ever occurs again occurs within eight leap-sized years. */
module CronHorizon {

  import opened Encoding
  import opened CronSchedule

  // ---------------------------------------------------------------- days and years

  /** The first day of March-based year `year`, counted from the epoch. */
  function FirstDay(year: int): int {
    146_097 * (year / 400) + YearStart(year % 400) - 719_468
  }

  lemma PartsOfYear(year: int) returns (era: int, c: int, k: int, j: int)
    ensures 0 <= c <= 3 && 0 <= k <= 24 && 0 <= j <= 3 && year == 100 * c + 4 * k + j + era * 400
    ensures FirstDay(year) == 146_097 * era + 36_524 * c + 1_461 * k + 365 * j - 719_468
    ensures YearLength(year) == if j == 3 && (k == 24 ==> c == 3) then 366 else 365
  {
    era := year / 400;
    var inEra := year - 400 * era;
    c := inEra / 100;
    k := (inEra - 100 * c) / 4;
    j := inEra - 100 * c - 4 * k;
    assert inEra == year % 400;
    StartOfYear(c, k, j);
    LeapInEra(inEra, era);
  }

  lemma CivilOfYear(year: int, d: int)
    requires 0 <= d < YearLength(year)
    ensures CivilFromDays(FirstDay(year) + d) == DateInYear(year, d)
  {
    var era, c, k, j := PartsOfYear(year);
    CivilOfParts(FirstDay(year) + d, era, c, k, j, d);
  }

  lemma YearOfDays(days: int) returns (year: int, d: int)
    ensures 0 <= d < YearLength(year) && days == FirstDay(year) + d
  {
    var era, c, k, j, part := HasParts(days);
    year, d := 100 * c + 4 * k + j + era * 400, part;
    FirstDayOfParts(era, c, k, j);
  }

  lemma FirstDayOfParts(era: int, c: int, k: int, j: int)
    requires 0 <= c <= 3 && 0 <= k <= 24 && 0 <= j <= 3
    ensures var year := 100 * c + 4 * k + j + era * 400;
      && FirstDay(year) == 146_097 * era + 36_524 * c + 1_461 * k + 365 * j - 719_468
      && YearLength(year) == if j == 3 && (k == 24 ==> c == 3) then 366 else 365
  {
    var inEra := 100 * c + 4 * k + j;
    assert 0 <= inEra < 400;
    assert (inEra + era * 400) / 400 == era && (inEra + era * 400) % 400 == inEra;
    StartOfYear(c, k, j);
    LeapInEra(inEra, era);
  }

  lemma FirstDays(year: int)
    ensures FirstDay(year + 1) == FirstDay(year) + YearLength(year)
  {
    var era, c, k, j := PartsOfYear(year);
    if j < 3 {
      FirstDayOfParts(era, c, k, j + 1);
    } else if k < 24 {
      FirstDayOfParts(era, c, k + 1, 0);
    } else if c < 3 {
      FirstDayOfParts(era, c + 1, 0, 0);
    } else {
      FirstDayOfParts(era + 1, 0, 0, 0);
    }
  }

  /** Two consecutive years are not both leap. */
  lemma NotBothLeap(year: int)
    ensures 730 <= YearLength(year) + YearLength(year + 1) <= 731
  {
    assert (year + 1) % 4 == 0 ==> (year + 2) % 4 == 1;
  }

  lemma TwoYears(year: int)
    ensures FirstDay(year) + 730 <= FirstDay(year + 2) <= FirstDay(year) + 731
  {
    var second := FirstDay(year + 1);
    assert second == FirstDay(year) + YearLength(year) by {
      FirstDays(year);
    }
    assert FirstDay(year + 2) == second + YearLength(year + 1) by {
      FirstDays(year + 1);
    }
    NotBothLeap(year);
  }

  lemma {:induction false} Years(year: int, n: nat)
    ensures FirstDay(year) <= FirstDay(year + n) <= FirstDay(year) + 731 * (n / 2) + 366 * (n % 2)
  {
    if n == 1 {
      FirstDays(year);
    } else if n >= 2 {
      Years(year, n - 2);
      TwoYears(year + n - 2);
    }
  }

  // ---------------------------------------------------------------- the same date again

  lemma LeapWithin(year: int) returns (n: nat)
    ensures n <= 7 && YearLength(year + n) == 366
  {
    n := 3 - year % 4;
    assert (year + n + 1) % 4 == 0;
    if !Leap(year + n + 1) {
      assert (year + n + 1) % 100 == 0;
      assert (year + n + 5) % 4 == 0 && (year + n + 5) % 100 != 0;
      n := n + 4;
    }
  }

  predicate Within(days: int, later: int) {
    days < later <= days + 2_927
  }

  /** Day `d` of some year falls on or soon after day `e` of year `next`. */
  lemma YearFor(next: int, e: int, d: int) returns (n: nat)
    requires 0 <= e < YearLength(next) && 0 <= d < 366
    ensures d < YearLength(next + n) && FirstDay(next) + e <= FirstDay(next + n) + d <= FirstDay(next) + e + 2_926
  {
    n := 0;
    if d == 365 {
      n := LeapWithin(next);
      Years(next, n);
      FirstDayOfLeap(next, n);
    } else if d < e {
      n := 1;
      FirstDays(next);
    }
  }

  lemma FirstDayOfLeap(next: int, n: nat)
    requires n <= 7
    ensures n == 0 || FirstDay(next) + YearLength(next) <= FirstDay(next + n)
  {
    if n > 0 {
      FirstDays(next);
      Years(next + 1, n - 1);
    }
  }

  predicate SameMonthDay(a: Date, b: Date) {
    a.month == b.month && a.day == b.day
  }

  lemma SameInYears(year: int, other: int, d: int)
    ensures SameMonthDay(DateInYear(year, d), DateInYear(other, d))
  {
  }

  lemma SameDate(year: int, other: int, d: int)
    requires 0 <= d < YearLength(year) && d < YearLength(other)
    ensures SameMonthDay(CivilFromDays(FirstDay(other) + d), CivilFromDays(FirstDay(year) + d))
  {
    SameInYears(other, year, d);
    CivilOfYear(year, d);
    CivilOfYear(other, d);
  }

  /** Day `d` of a year, soon after day `days`. */
  lemma DayAgain(days: int, d: int) returns (year: int)
    requires 0 <= d < 366
    ensures d < YearLength(year) && Within(days, FirstDay(year) + d)
  {
    var next, e := YearOfDays(days + 1);
    var n := YearFor(next, e, d);
    year := next + n;
  }

  /** The month and day of any date come again. */
  lemma SameDateAgain(days: int, date: int) returns (later: int)
    ensures Within(days, later) && SameMonthDay(CivilFromDays(later), CivilFromDays(date))
  {
    var year, d := YearOfDays(date);
    var other := DayAgain(days, d);
    SameDate(year, other, d);
    later := FirstDay(other) + d;
  }

  lemma FirstWeekOfMonth(year: int, d: int, other: int, first: int, e: nat)
    requires 0 <= d < 366 && e < 7 && first == (153 * ((5 * d + 2) / 153) + 2) / 5
    ensures 0 <= first && first + e < 365 && DateInYear(other, first + e).month == DateInYear(year, d).month
  {
  }

  lemma SameMonth(year: int, d: int, other: int, first: int, e: nat)
    requires 0 <= d < YearLength(year) && e < 7 && first == (153 * ((5 * d + 2) / 153) + 2) / 5
    ensures CivilFromDays(FirstDay(other) + (first + e)).month == CivilFromDays(FirstDay(year) + d).month
  {
    FirstWeekOfMonth(year, d, other, first, e);
    CivilOfYear(year, d);
    CivilOfYear(other, first + e);
  }

  lemma Weekday(start: int, date: int) returns (e: nat)
    ensures e < 7 && (start + e + 4) % 7 == (date + 4) % 7
  {
    e := (date - start) % 7;
    assert date - start == 7 * ((date - start) / 7) + e;
  }

  lemma NextYearBegins(days: int, next: int, e: int, offset: int)
    requires 0 <= e < YearLength(next) && days + 1 == FirstDay(next) + e && 0 <= offset < 365
    ensures Within(days, FirstDay(next + 1) + offset)
  {
    FirstDays(next);
  }

  /** A day of the first week of the same month, on the weekday of a date. */
  lemma MonthAgain(year: int, d: int, other: int, date: int) returns (offset: int)
    requires 0 <= d < YearLength(year)
    ensures 0 <= offset < 365 && (FirstDay(other) + offset + 4) % 7 == (date + 4) % 7
    ensures CivilFromDays(FirstDay(other) + offset).month == CivilFromDays(FirstDay(year) + d).month
  {
    var first := (153 * ((5 * d + 2) / 153) + 2) / 5;
    var w := Weekday(FirstDay(other) + first, date);
    FirstWeekOfMonth(year, d, other, first, w);
    SameMonth(year, d, other, first, w);
    offset := first + w;
  }

  /** The month and weekday of any date come again. */
  lemma SameWeekdayAgain(days: int, date: int) returns (later: int)
    ensures Within(days, later)
    ensures CivilFromDays(later).month == CivilFromDays(date).month && (later + 4) % 7 == (date + 4) % 7
  {
    var year, d := YearOfDays(date);
    var next, e := YearOfDays(days + 1);
    var offset := MonthAgain(year, d, next + 1, date);
    NextYearBegins(days, next, e, offset);
    later := FirstDay(next + 1) + offset;
  }

  /** A day that matches comes again within the bound, whichever fields are restricted. */
  lemma MatchingDayAgain(s: CronSchedule, days: int, date: int) returns (later: int)
    ensures MatchesDay(s, date) ==> Within(days, later) && MatchesDay(s, later)
  {
    if !Wildcard(s.dayOfWeek, 0, 6) && (date + 4) % 7 in s.dayOfWeek {
      later := SameWeekdayAgain(days, date);
    } else {
      later := SameDateAgain(days, date);
    }
  }

  lemma MatchingMinuteAgain(s: CronSchedule, minute: int, found: int) returns (later: int)
    ensures MatchesMinute(s, found) ==> minute < later <= minute + MAX_SEARCH_MINUTES && MatchesMinute(s, later)
  {
    var day := MatchingDayAgain(s, minute / MINUTES_PER_DAY, found / MINUTES_PER_DAY);
    later := day * MINUTES_PER_DAY + found % MINUTES_PER_DAY;
    assert later / MINUTES_PER_DAY == day && later % MINUTES_PER_DAY == found % MINUTES_PER_DAY;
  }

  /** When `later` matches too, its tick or `u` itself lies before the horizon. */
  lemma EarlierTick(matches: int -> bool, time: I64, later: int, u: int)
    requires time / MICROS_PER_MINUTE < later <= time / MICROS_PER_MINUTE + MAX_SEARCH_MINUTES && matches(later)
    requires time < u < 0x8000_0000_0000_0000 && OccursBy(matches, u)
    ensures exists x :: time < x <= Horizon(time) && OccursBy(matches, x)
  {
    var tick := later * MICROS_PER_MINUTE;
    if tick < 0x8000_0000_0000_0000 {
      assert tick % MICROS_PER_MINUTE == 0 && tick / MICROS_PER_MINUTE == later;
      assert OccursBy(matches, tick);
    } else {
      assert u <= Horizon(time);
    }
  }

  /** Whatever matches once matches again within the search range of every minute. */
  ghost predicate Recurs(matches: int -> bool) {
    forall minute, found {:trigger Soon(matches, minute), matches(found)} :: matches(found) ==> Soon(matches, minute)
  }

  ghost predicate Soon(matches: int -> bool, minute: int) {
    exists later :: minute < later <= minute + MAX_SEARCH_MINUTES && matches(later)
  }

  lemma MinutesRecur(s: CronSchedule)
    ensures Recurs(Minutes(s))
  {
    forall minute, found | Minutes(s)(found) ensures Soon(Minutes(s), minute) {
      var later := MatchingMinuteAgain(s, minute, found);
      assert Minutes(s)(later);
    }
  }

  /** No later time that a timestamp can hold occurs. */
  ghost predicate NeverAfter(matches: int -> bool, time: int) {
    forall u :: time < u < 0x8000_0000_0000_0000 ==> !OccursBy(matches, u)
  }

  lemma CompleteBy(matches: int -> bool, time: I64)
    requires Recurs(matches)
    ensures NextBy(matches, time).None? <==> NeverAfter(matches, time)
  {
    NextByIsLeast(matches, time);
    if NextBy(matches, time).None? {
      forall u | time < u < 0x8000_0000_0000_0000 ensures !OccursBy(matches, u) {
        if OccursBy(matches, u) {
          assert Soon(matches, time / MICROS_PER_MINUTE);
          var later :| time / MICROS_PER_MINUTE < later <= time / MICROS_PER_MINUTE + MAX_SEARCH_MINUTES
            && matches(later);
          EarlierTick(matches, time, later, u);
        }
      }
    }
  }

  /**
   The search gives up exactly when the schedule has no later time that a timestamp can hold: its
   bound of eight leap-sized years never hides an occurrence.
   */
  lemma SearchIsComplete(s: CronSchedule, time: I64)
    ensures NextAfter(s, time).None? <==> NeverAfter(Minutes(s), time)
  {
    MinutesRecur(s);
    CompleteBy(Minutes(s), time);
  }
}

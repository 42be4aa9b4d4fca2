/**
 What a schedule means on a wall calendar: days counted one by one from Thursday, 1 January 1970,
 in both directions, instead of the closed forms.
 */
module CronMeaning {

  import opened CronSchedule

  /** Days of the week from Sunday on, as schedules number them. */
  datatype Weekday = Sunday | Monday | Tuesday | Wednesday | Thursday | Friday | Saturday

  function Tomorrow(w: Weekday): Weekday {
    match w
    case Sunday => Monday
    case Monday => Tuesday
    case Tuesday => Wednesday
    case Wednesday => Thursday
    case Thursday => Friday
    case Friday => Saturday
    case Saturday => Sunday
  }

  function Number(w: Weekday): int {
    match w
    case Sunday => 0
    case Monday => 1
    case Tuesday => 2
    case Wednesday => 3
    case Thursday => 4
    case Friday => 5
    case Saturday => 6
  }

  datatype Day = Day(date: Date, weekday: Weekday)

  /** A calendar counts days from the epoch; each is a date of the calendar and the day after the one before. */
  ghost predicate IsCalendar(calendar: int -> Day) {
    && calendar(0) == Day(Date(1970, 1, 1), Thursday)
    && (forall n :: ValidDate(calendar(n).date))
    && (forall n :: calendar(n + 1) == Day(NextDate(calendar(n).date), Tomorrow(calendar(n).weekday)))
  }

  lemma NextDateInjective(a: Date, b: Date)
    requires ValidDate(a) && ValidDate(b) && NextDate(a) == NextDate(b)
    ensures a == b
  {
  }

  /** The closed forms give the date and the weekday of every day of the calendar. */
  lemma {:induction false} CalendarIsClosedForm(calendar: int -> Day, n: int)
    requires IsCalendar(calendar)
    ensures calendar(n).date == CivilFromDays(n) && Number(calendar(n).weekday) == (n + 4) % 7
    decreases if n < 0 then -n else n
  {
    if n == 0 {
      EpochDate();
    } else if n > 0 {
      CalendarIsClosedForm(calendar, n - 1);
      CalendarAdvances(n - 1);
      assert calendar(n - 1 + 1) == Day(NextDate(calendar(n - 1).date), Tomorrow(calendar(n - 1).weekday));
      WeekdayAfter(calendar(n - 1).weekday, n - 1);
    } else {
      CalendarIsClosedForm(calendar, n + 1);
      CalendarAdvances(n);
      CivilDatesAreValid(n);
      assert calendar(n + 1) == Day(NextDate(calendar(n).date), Tomorrow(calendar(n).weekday));
      NextDateInjective(calendar(n).date, CivilFromDays(n));
      WeekdayBefore(calendar(n).weekday, n);
    }
  }

  function Numbered(n: int): (w: Weekday)
    requires 0 <= n <= 6
    ensures Number(w) == n
  {
    if n == 0 then Sunday else if n == 1 then Monday else if n == 2 then Tuesday else if n == 3 then Wednesday
    else if n == 4 then Thursday else if n == 5 then Friday else Saturday
  }

  function ClosedForm(n: int): Day {
    Day(CivilFromDays(n), Numbered((n + 4) % 7))
  }

  /** So there is exactly one calendar. */
  lemma ClosedFormIsCalendar()
    ensures IsCalendar(ClosedForm)
  {
    EpochDate();
    forall n ensures ValidDate(ClosedForm(n).date) {
      CivilDatesAreValid(n);
    }
    forall n ensures ClosedForm(n + 1) == Day(NextDate(ClosedForm(n).date), Tomorrow(ClosedForm(n).weekday)) {
      CalendarAdvances(n);
      WeekdayAfter(ClosedForm(n).weekday, n);
    }
  }

  lemma WeekdayAfter(w: Weekday, n: int)
    requires Number(w) == (n + 4) % 7
    ensures Number(Tomorrow(w)) == (n + 5) % 7
  {
  }

  lemma WeekdayBefore(w: Weekday, n: int)
    requires Number(Tomorrow(w)) == (n + 5) % 7
    ensures Number(w) == (n + 4) % 7
  {
  }

  // ---------------------------------------------------------------- the times of a schedule

  /** The instant of a minute of a day. */
  function Instant(day: int, hour: int, minute: int): int {
    (day * 1_440 + (hour * 60 + minute)) * 60_000_000
  }

  predicate OnClock(hour: int, minute: int) {
    0 <= hour < 24 && 0 <= minute < 60
  }

  /** The fields admit the day; restricting both day fields admits either. */
  predicate Admits(s: CronSchedule, day: Day) {
    && day.date.month in s.month
    && (if (forall d :: 1 <= d <= 31 ==> d in s.dayOfMonth) then
          (forall w :: 0 <= w <= 6 ==> w in s.dayOfWeek) || Number(day.weekday) in s.dayOfWeek
        else if (forall w :: 0 <= w <= 6 ==> w in s.dayOfWeek) then day.date.day in s.dayOfMonth
        else day.date.day in s.dayOfMonth || Number(day.weekday) in s.dayOfWeek)
  }

  /** A schedule occurs exactly at the minutes and hours it lists of the days that it admits. */
  lemma OccursOnCalendar(s: CronSchedule, calendar: int -> Day, day: int, hour: int, minute: int)
    requires IsCalendar(calendar) && OnClock(hour, minute)
    ensures Occurs(s, Instant(day, hour, minute)) <==> minute in s.minute && hour in s.hour && Admits(s, calendar(day))
  {
    CalendarIsClosedForm(calendar, day);
    InstantParts(day, hour, minute);
  }

  lemma MinuteOf(m: int)
    ensures m * 60_000_000 / 60_000_000 == m && m * 60_000_000 % 60_000_000 == 0
  {
  }

  lemma DayOf(day: int, rest: int)
    requires 0 <= rest < 1_440
    ensures (day * 1_440 + rest) / 1_440 == day && (day * 1_440 + rest) % 1_440 == rest
  {
  }

  lemma HourOf(hour: int, minute: int)
    requires 0 <= minute < 60
    ensures (hour * 60 + minute) / 60 == hour && (hour * 60 + minute) % 60 == minute
  {
  }

  lemma InstantParts(day: int, hour: int, minute: int)
    requires OnClock(hour, minute)
    ensures var m := Instant(day, hour, minute) / MICROS_PER_MINUTE;
      && Instant(day, hour, minute) % MICROS_PER_MINUTE == 0
      && m / MINUTES_PER_DAY == day && m % MINUTES_PER_DAY / 60 == hour && m % MINUTES_PER_DAY % 60 == minute
  {
    MinuteOf(day * 1_440 + (hour * 60 + minute));
    DayOf(day, hour * 60 + minute);
    HourOf(hour, minute);
  }

  /** It never occurs between minutes. */
  lemma OccursOnMinutes(s: CronSchedule, time: int) returns (day: int, hour: int, minute: int)
    requires Occurs(s, time)
    ensures OnClock(hour, minute) && time == Instant(day, hour, minute)
  {
    var m := time / 60_000_000;
    day, hour, minute := m / 1_440, m % 1_440 / 60, m % 1_440 % 60;
    assert m == day * 1_440 + hour * 60 + minute;
    assert time == m * 60_000_000;
  }

  predicate All(field: set<int>, low: int, high: int) {
    forall x :: low <= x <= high ==> x in field
  }

  /** Restricted to one weekday, a schedule occurs on the days of that weekday only. */
  lemma OneWeekday(s: CronSchedule, calendar: int -> Day, w: Weekday, day: int, hour: int, minute: int)
    requires IsCalendar(calendar) && OnClock(hour, minute)
    requires All(s.minute, 0, 59) && All(s.hour, 0, 23) && All(s.dayOfMonth, 1, 31) && All(s.month, 1, 12)
    requires s.dayOfWeek == {Number(w)}
    ensures Occurs(s, Instant(day, hour, minute)) <==> calendar(day).weekday == w
  {
    OccursOnCalendar(s, calendar, day, hour, minute);
    assert ValidDate(calendar(day).date);
    var other := if w == Sunday then 1 else 0;
    assert other !in s.dayOfWeek;
  }

  /** With one minute, hour, day and month, a schedule occurs once on each such date. */
  lemma OneDate(s: CronSchedule, calendar: int -> Day, date: Date, at: int, past: int, day: int, hour: int, minute: int)
    requires IsCalendar(calendar) && OnClock(hour, minute) && All(s.dayOfWeek, 0, 6)
    requires s.minute == {past} && s.hour == {at} && s.dayOfMonth == {date.day} && s.month == {date.month}
    ensures Occurs(s, Instant(day, hour, minute)) <==>
            && minute == past && hour == at
            && calendar(day).date.month == date.month && calendar(day).date.day == date.day
  {
    OccursOnCalendar(s, calendar, day, hour, minute);
    var other := if date.day == 1 then 2 else 1;
    assert other !in s.dayOfMonth;
  }

  /** Restricting both day fields admits the union of what each admits alone. */
  lemma BothDayFields(s: CronSchedule, anyDay: set<int>, anyWeekday: set<int>, time: int)
    requires All(anyDay, 1, 31) && All(anyWeekday, 0, 6)
    requires !All(s.dayOfMonth, 1, 31) && !All(s.dayOfWeek, 0, 6)
    ensures Occurs(s, time) <==> Occurs(s.(dayOfWeek := anyWeekday), time) || Occurs(s.(dayOfMonth := anyDay), time)
  {
    assert !Wildcard(s.dayOfMonth, 1, 31) && !Wildcard(s.dayOfWeek, 0, 6);
    assert Wildcard(anyDay, 1, 31) && Wildcard(anyWeekday, 0, 6);
  }
}

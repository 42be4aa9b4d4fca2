/** Five-field UTC schedules, the calendar behind them, and the search for the next tick. */
module CronSchedule {

  import opened Values
  import opened Encoding

  const MICROS_PER_MINUTE: int := 60_000_000
  const MINUTES_PER_DAY: int := 1_440
  const MAX_SEARCH_MINUTES: nat := 8 * 366 * 24 * 60

  // ---------------------------------------------------------------- calendar

  datatype Date = Date(year: int, month: int, day: int)

  predicate Leap(year: int) {
    year % 4 == 0 && (year % 100 != 0 || year % 400 == 0)
  }

  function MonthLength(year: int, month: int): int {
    if month == 2 then (if Leap(year) then 29 else 28)
    else if month == 4 || month == 6 || month == 9 || month == 11 then 30
    else 31
  }

  predicate ValidDate(d: Date) {
    1 <= d.month <= 12 && 1 <= d.day <= MonthLength(d.year, d.month)
  }

  /** The proleptic Gregorian calendar, one day at a time. */
  function NextDate(d: Date): Date {
    if d.day < MonthLength(d.year, d.month) then Date(d.year, d.month, d.day + 1)
    else if d.month < 12 then Date(d.year, d.month + 1, 1)
    else Date(d.year + 1, 1, 1)
  }

  /** The year of a 400-year era, counted from March. */
  function YearOfEra(day: int): int {
    (day - day / 1_460 + day / 36_524 - day / 146_096) / 365
  }

  /** The first day of a year of the era. */
  function YearStart(year: int): int {
    365 * year + year / 4 - year / 100
  }

  function DateInYear(year: int, dayOfYear: int): Date {
    var monthPrime := (5 * dayOfYear + 2) / 153;
    var day := dayOfYear - (153 * monthPrime + 2) / 5 + 1;
    var month := monthPrime + (if monthPrime < 10 then 3 else -9);
    Date(year + (if month <= 2 then 1 else 0), month, day)
  }

  function DateInEra(era: int, day: int): Date {
    DateInYear(YearOfEra(day) + era * 400, day - YearStart(YearOfEra(day)))
  }

  function CivilFromDays(days: int): Date {
    var shifted := days + 719_468;
    var era := shifted / 146_097;
    DateInEra(era, shifted - era * 146_097)
  }

  /** A year of the era ends after its leap day exactly when the calendar year it ends in is leap. */
  function YearLength(year: int): int {
    if Leap(year + 1) then 366 else 365
  }

  /** Century `c`, four-year cycle `k`, year `j` of the cycle. */
  predicate Decomposed(c: int, k: int, j: int, d: int) {
    && 0 <= c <= 3 && 0 <= k <= 24 && 0 <= j <= 3 && 0 <= d <= 365
    && (d == 365 ==> j == 3 && (k == 24 ==> c == 3))
  }

  lemma Decompose(day: int) returns (c: int, k: int, j: int, d: int)
    requires 0 <= day < 146_097
    ensures Decomposed(c, k, j, d) && day == 36_524 * c + 1_461 * k + 365 * j + d
  {
    c := if day == 146_096 then 3 else day / 36_524;
    var inCentury := day - 36_524 * c;
    k := inCentury / 1_461;
    var inCycle := inCentury - 1_461 * k;
    j := if inCycle == 1_460 then 3 else inCycle / 365;
    d := inCycle - 365 * j;
  }

  lemma StartOfYear(c: int, k: int, j: int)
    requires 0 <= c <= 3 && 0 <= k <= 24 && 0 <= j <= 3
    ensures YearStart(100 * c + 4 * k + j) == 36_524 * c + 1_461 * k + 365 * j
    ensures YearLength(100 * c + 4 * k + j) == if j == 3 && (k == 24 ==> c == 3) then 366 else 365
  {
    var year := 100 * c + 4 * k + j;
    assert year / 4 == 25 * c + k && year / 100 == c;
    assert (year + 1) % 4 == (j + 1) % 4;
    assert (year + 1) % 100 == (4 * k + j + 1) % 100;
  }

  lemma YearOfDay(c: int, k: int, j: int, d: int)
    requires Decomposed(c, k, j, d)
    ensures YearOfEra(36_524 * c + 1_461 * k + 365 * j + d) == 100 * c + 4 * k + j
  {
    var day := 36_524 * c + 1_461 * k + 365 * j + d;
    var late := (24 * c + k + 365 * j + d) / 1_460;
    assert day == 1_460 * (25 * c + k) + (24 * c + k + 365 * j + d);
    assert day / 1_460 == 25 * c + k + late;
    assert 0 <= d - late < 365;
    if day == 146_096 {
    } else {
      assert day / 36_524 == c && day / 146_096 == 0;
      assert day - day / 1_460 + c == 365 * (100 * c + 4 * k + j) + (d - late);
    }
  }

  lemma ValidInYear(year: int, dayOfYear: int)
    requires 0 <= dayOfYear < YearLength(year)
    ensures ValidDate(DateInYear(year, dayOfYear))
  {
  }

  lemma NextInYear(year: int, dayOfYear: int)
    requires 0 <= dayOfYear && dayOfYear + 1 < YearLength(year)
    ensures NextDate(DateInYear(year, dayOfYear)) == DateInYear(year, dayOfYear + 1)
  {
  }

  lemma NextAfterYear(year: int)
    ensures NextDate(DateInYear(year, YearLength(year) - 1)) == DateInYear(year + 1, 0)
  {
  }

  /** Day `days` from the epoch is day `d` of year `j` of cycle `k` of century `c` of the era. */
  predicate Parts(days: int, era: int, c: int, k: int, j: int, d: int) {
    Decomposed(c, k, j, d) && days + 719_468 == 146_097 * era + 36_524 * c + 1_461 * k + 365 * j + d
  }

  lemma CivilOfEra(days: int, era: int, day: int)
    requires 0 <= day < 146_097 && days + 719_468 == 146_097 * era + day
    ensures CivilFromDays(days) == DateInEra(era, day)
  {
    assert (days + 719_468) / 146_097 == era;
  }

  lemma EraOfParts(era: int, c: int, k: int, j: int, d: int)
    requires Decomposed(c, k, j, d)
    ensures DateInEra(era, 36_524 * c + 1_461 * k + 365 * j + d) == DateInYear(100 * c + 4 * k + j + era * 400, d)
  {
    YearOfDay(c, k, j, d);
    StartOfYear(c, k, j);
  }

  lemma CivilOfParts(days: int, era: int, c: int, k: int, j: int, d: int)
    requires Parts(days, era, c, k, j, d)
    ensures CivilFromDays(days) == DateInYear(100 * c + 4 * k + j + era * 400, d)
  {
    CivilOfEra(days, era, 36_524 * c + 1_461 * k + 365 * j + d);
    EraOfParts(era, c, k, j, d);
  }

  lemma HasParts(days: int) returns (era: int, c: int, k: int, j: int, d: int)
    ensures Parts(days, era, c, k, j, d)
  {
    era := (days + 719_468) / 146_097;
    c, k, j, d := Decompose(days + 719_468 - 146_097 * era);
  }

  /** Within a year the day advances; at its end the next year begins. */
  lemma PartsAdvance(era: int, c: int, k: int, j: int, d: int)
    requires Decomposed(c, k, j, d)
    ensures var year := 100 * c + 4 * k + j + era * 400;
      && ValidDate(DateInYear(year, d))
      && NextDate(DateInYear(year, d)) == if Decomposed(c, k, j, d + 1) then DateInYear(year, d + 1)
        else DateInYear(year + 1, 0)
  {
    StartOfYear(c, k, j);
    LeapInEra(100 * c + 4 * k + j, era);
    var year := 100 * c + 4 * k + j + era * 400;
    ValidInYear(year, d);
    if Decomposed(c, k, j, d + 1) {
      NextInYear(year, d);
    } else {
      NextAfterYear(year);
    }
  }

  /** The first day of the year after the last day of a year of the era. */
  lemma NextYear(c: int, k: int, j: int, d: int) returns (c': int, k': int, j': int)
    requires Decomposed(c, k, j, d) && !Decomposed(c, k, j, d + 1) && 100 * c + 4 * k + j < 399
    ensures Decomposed(c', k', j', 0) && 100 * c' + 4 * k' + j' == 100 * c + 4 * k + j + 1
    ensures 36_524 * c' + 1_461 * k' + 365 * j' == 36_524 * c + 1_461 * k + 365 * j + d + 1
  {
    if j < 3 {
      c', k', j' := c, k, j + 1;
    } else if k < 24 {
      c', k', j' := c, k + 1, 0;
    } else {
      c', k', j' := c + 1, 0, 0;
    }
  }

  /**
   The parts of the next day, given how dates advance within years; `civil`, `inYear` and `next`
   stand for the calendar functions.
   */
  lemma PartsFollow(civil: int -> Date, inYear: (int, int) -> Date, next: Date -> Date, days: int)
    requires forall n, era, c, k, j, d :: Parts(n, era, c, k, j, d) ==>
      civil(n) == inYear(100 * c + 4 * k + j + era * 400, d)
    requires forall n, era, c, k, j, d :: Parts(n, era, c, k, j, d) ==>
      next(inYear(100 * c + 4 * k + j + era * 400, d))
        == if Decomposed(c, k, j, d + 1) then inYear(100 * c + 4 * k + j + era * 400, d + 1)
          else inYear(100 * c + 4 * k + j + era * 400 + 1, 0)
    ensures civil(days + 1) == next(civil(days))
  {
    var era, c, k, j, d := HasParts(days);
    if Decomposed(c, k, j, d + 1) {
      assert Parts(days + 1, era, c, k, j, d + 1);
    } else if 100 * c + 4 * k + j == 399 {
      assert Parts(days + 1, era + 1, 0, 0, 0, 0);
    } else {
      var c', k', j' := NextYear(c, k, j, d);
      assert Parts(days + 1, era, c', k', j', 0);
    }
  }

  lemma LeapInEra(year: int, era: int)
    ensures YearLength(year + era * 400) == YearLength(year)
  {
    Remainder4(year + 1, 100 * era);
    Remainder100(year + 1, 4 * era);
    Remainder400(year + 1, era);
  }

  lemma Remainder4(x: int, k: int)
    ensures (x + 4 * k) % 4 == x % 4
  {
    assert x + 4 * k == 4 * (x / 4 + k) + x % 4;
  }

  lemma Remainder100(x: int, k: int)
    ensures (x + 100 * k) % 100 == x % 100
  {
    assert x + 100 * k == 100 * (x / 100 + k) + x % 100;
  }

  lemma Remainder400(x: int, k: int)
    ensures (x + 400 * k) % 400 == x % 400
  {
    assert x + 400 * k == 400 * (x / 400 + k) + x % 400;
  }

  /** The closed form steps through the calendar day by day, for every day before and after the epoch. */
  lemma CalendarAdvances(days: int)
    ensures CivilFromDays(days + 1) == NextDate(CivilFromDays(days))
  {
    forall n, era, c, k, j, d | Parts(n, era, c, k, j, d)
      ensures CivilFromDays(n) == DateInYear(100 * c + 4 * k + j + era * 400, d)
    {
      CivilOfParts(n, era, c, k, j, d);
    }
    forall n, era, c, k, j, d | Parts(n, era, c, k, j, d)
      ensures NextDate(DateInYear(100 * c + 4 * k + j + era * 400, d))
        == if Decomposed(c, k, j, d + 1) then DateInYear(100 * c + 4 * k + j + era * 400, d + 1)
           else DateInYear(100 * c + 4 * k + j + era * 400 + 1, 0)
    {
      PartsAdvance(era, c, k, j, d);
    }
    PartsFollow(CivilFromDays, DateInYear, NextDate, days);
  }

  lemma CivilDatesAreValid(days: int)
    ensures ValidDate(CivilFromDays(days))
  {
    var era, c, k, j, d := HasParts(days);
    CivilOfParts(days, era, c, k, j, d);
    PartsAdvance(era, c, k, j, d);
  }

  lemma EpochDate()
    ensures CivilFromDays(0) == Date(1970, 1, 1)
  {
    CivilOfParts(0, 4, 3, 17, 1, 306);
  }

  // ---------------------------------------------------------------- schedules

  /** The values each field admits. */
  datatype CronSchedule = CronSchedule(minute: set<int>, hour: set<int>, dayOfMonth: set<int>, month: set<int>,
      dayOfWeek: set<int>)

  predicate Wildcard(field: set<int>, minimum: int, maximum: int) {
    forall value :: minimum <= value <= maximum ==> value in field
  }

  /** Restricting both the day of the month and the day of the week admits either. */
  predicate MatchesDay(s: CronSchedule, days: int) {
    var date := CivilFromDays(days);
    var anyDay, anyWeekday := Wildcard(s.dayOfMonth, 1, 31), Wildcard(s.dayOfWeek, 0, 6);
    var inMonth, inWeek := date.day in s.dayOfMonth, (days + 4) % 7 in s.dayOfWeek;
    && date.month in s.month
    && (if anyDay then anyWeekday || inWeek else if anyWeekday then inMonth else inMonth || inWeek)
  }

  predicate MatchesMinute(s: CronSchedule, minute: int) {
    var minuteOfDay := minute % MINUTES_PER_DAY;
    minuteOfDay % 60 in s.minute && minuteOfDay / 60 in s.hour && MatchesDay(s, minute / MINUTES_PER_DAY)
  }

  function Minutes(s: CronSchedule): int -> bool {
    minute => MatchesMinute(s, minute)
  }

  predicate OccursBy(matches: int -> bool, time: int) {
    time % MICROS_PER_MINUTE == 0 && matches(time / MICROS_PER_MINUTE)
  }

  /** A time of the schedule: a whole minute that matches. */
  predicate Occurs(s: CronSchedule, time: int) {
    OccursBy(Minutes(s), time)
  }

  // ---------------------------------------------------------------- the next tick

  /** The first match among `budget` minutes. */
  function Search(matches: int -> bool, minute: int, budget: nat): Option<int>
    decreases budget
  {
    if budget == 0 then None
    else if matches(minute) then Some(minute)
    else Search(matches, minute + 1, budget - 1)
  }

  function Tick(minute: int): Option<I64> {
    var tick := minute * MICROS_PER_MINUTE;
    if -0x8000_0000_0000_0000 <= tick < 0x8000_0000_0000_0000 then Some(tick) else None
  }

  function NextBy(matches: int -> bool, time: I64): Option<I64> {
    var found := Search(matches, time / MICROS_PER_MINUTE + 1, MAX_SEARCH_MINUTES);
    if found.Some? then Tick(found.value) else None
  }

  /** The next tick of a schedule, or none on overflow or when the bounded search finds nothing. */
  function NextAfter(s: CronSchedule, time: I64): Option<I64> {
    NextBy(Minutes(s), time)
  }

  /** The last time the search considers. */
  function Horizon(time: int): int {
    var last := (time / MICROS_PER_MINUTE + MAX_SEARCH_MINUTES) * MICROS_PER_MINUTE;
    if last < 0x8000_0000_0000_0000 then last else 0x7fff_ffff_ffff_ffff
  }

  lemma {:induction false} SearchFindsFirst(matches: int -> bool, minute: int, budget: nat)
    ensures var found := Search(matches, minute, budget);
      && (found.Some? ==> minute <= found.value < minute + budget && matches(found.value))
      && (forall m :: minute <= m < (if found.Some? then found.value else minute + budget) ==> !matches(m))
    decreases budget
  {
    if budget > 0 && !matches(minute) {
      SearchFindsFirst(matches, minute + 1, budget - 1);
    }
  }

  lemma NextByIsLeast(matches: int -> bool, time: I64)
    ensures var next := NextBy(matches, time);
      if next.Some? then
        && time < next.value <= Horizon(time) && OccursBy(matches, next.value)
        && forall u :: time < u < next.value ==> !OccursBy(matches, u)
      else forall u :: time < u <= Horizon(time) ==> !OccursBy(matches, u)
  {
    var first := time / MICROS_PER_MINUTE + 1;
    SearchFindsFirst(matches, first, MAX_SEARCH_MINUTES);
    var found := Search(matches, first, MAX_SEARCH_MINUTES);
    var end := if found.Some? then found.value else first + MAX_SEARCH_MINUTES;
    forall u | time < u < end * MICROS_PER_MINUTE ensures !OccursBy(matches, u) {
      if u % MICROS_PER_MINUTE == 0 {
        assert first <= u / MICROS_PER_MINUTE < end;
      }
    }
  }

  /**
   The next tick is the least schedule time strictly after `time`; there is none exactly when no time
   up to the horizon occurs.
   */
  lemma NextAfterIsLeast(s: CronSchedule, time: I64)
    ensures var next := NextAfter(s, time);
      if next.Some? then
        && time < next.value <= Horizon(time) && Occurs(s, next.value)
        && forall u :: time < u < next.value ==> !Occurs(s, u)
      else forall u :: time < u <= Horizon(time) ==> !Occurs(s, u)
  {
    NextByIsLeast(Minutes(s), time);
  }

  // ---------------------------------------------------------------- what a schedule means

  /** The times of a schedule and its search for the next one. */
  datatype Times = Times(occurs: int -> bool, next: I64 -> Option<I64>)

  function TimesOf(s: CronSchedule): Times {
    Times(time => Occurs(s, time), time => NextAfter(s, time))
  }

  /** `next` is the least time of the schedule strictly after `time`. */
  ghost predicate IsNext(times: Times, time: int, next: int) {
    time < next && times.occurs(next) && forall u :: time < u < next ==> !times.occurs(u)
  }

  ghost predicate ValidTimes(times: Times) {
    forall time: I64 :: times.next(time).Some? ==> IsNext(times, time, times.next(time).value)
  }

  lemma TimesAreValid(s: CronSchedule)
    ensures ValidTimes(TimesOf(s))
  {
    forall time: I64 | NextAfter(s, time).Some? ensures IsNext(TimesOf(s), time, NextAfter(s, time).value) {
      NextAfterIsLeast(s, time);
    }
  }

  /** The bounded search as it runs. */
  method SearchMinutes(matches: int -> bool, current: int, budget: nat) returns (found: Option<int>)
    ensures found == Search(matches, current + 1, budget)
  {
    for offset := 1 to budget + 1
      invariant Search(matches, current + 1, budget) == Search(matches, current + offset, budget + 1 - offset)
    {
      if matches(current + offset) {
        return Some(current + offset);
      }
    }
    found := None;
  }

  method ComputeNextAfter(s: CronSchedule, time: I64) returns (next: Option<I64>)
    ensures next == NextAfter(s, time)
  {
    var found := SearchMinutes(Minutes(s), time / MICROS_PER_MINUTE, MAX_SEARCH_MINUTES);
    next := if found.Some? then Tick(found.value) else None;
  }
}

/** Schedules that match on 29 February only: from which starts the capped search finds one. */
module CronLeapDay {
  import opened Calendar
  import opened Cron
  import opened CronCap

  predicate IsLeapDay(d: Date) { d.month == 2 && d.day == 29 }

  // ---------------------------------------------------------------- where the next 29 February lies

  /** A date's place in its year, against that of the end of February. */
  lemma PlaceInYear(d: Date)
    requires IsDate(d)
    ensures var place := DayNumber(d) - DaysBeforeYear(d.year);
            && 0 <= place < YearLength(d.year)
            && (place < 58 <==> d.month == 1 || (d.month == 2 && d.day < 28))
            && (place == 58 <==> d.month == 2 && d.day == 28)
            && (IsLeapDay(d) ==> place == 59 && IsLeap(d.year))
            && (IsLeap(d.year) ==> (place == 59 <==> IsLeapDay(d)))
  {
    hide IsLeap;
    LeapShift(d.year, d.month);
    CommonSums();
  }

  /** From a day to a 29 February at most 366 days ahead: it is that of this year or the next, and which
    dates it is in reach of. */
  lemma LeapDayAhead(today: nat, day: nat)
    requires today <= day <= today + 366 && IsLeapDay(DateOf(day))
    ensures var d, year := DateOf(today), DateOf(day).year;
            || (year == d.year && IsLeap(d.year) && d.month <= 2 && day < today + 60 && (day == today <==> IsLeapDay(d)))
            || (year == d.year + 1 && IsLeap(d.year + 1) && (d.month >= 3 || (d.month == 2 && d.day == 28))
                && (day == today + 366 <==> d.month == 2))
  {
    hide IsLeap, DateOf, DayNumber;
    var d, e := DateOf(today), DateOf(day);
    DayNumberOfDate(today);
    DayNumberOfDate(day);
    PlaceInYear(d);
    PlaceInYear(e);
    if e.year < d.year {
      YearsGrow(e.year + 1, d.year);
    } else if e.year > d.year + 1 {
      YearsGrow(d.year + 2, e.year);
    }
    LeapAlternates(d.year);
  }

  lemma LeapAlternates(year: nat)
    ensures IsLeap(year) ==> !IsLeap(year + 1)
  {
  }

  /** And from the dates in reach there is one. */
  lemma LeapDayIsThere(today: nat, year: nat) returns (day: nat)
    requires var d := DateOf(today);
             || (year == d.year && IsLeap(year) && d.month <= 2)
             || (year == d.year + 1 && IsLeap(year) && (d.month >= 3 || (d.month == 2 && d.day == 28)))
    ensures today <= day <= today + 366 && DateOf(day) == Date(year, 2, 29)
  {
    hide IsLeap, DateOf, DayNumber;
    var d := DateOf(today);
    DayNumberOfDate(today);
    PlaceInYear(d);
    LeapAlternates(d.year);
    day := DayNumber(Date(year, 2, 29));
    PlaceInYear(Date(year, 2, 29));
    DateOfDayNumber(Date(year, 2, 29));
  }

  // ---------------------------------------------------------------- times of the day

  /** The schedule has a time of day after t, in minutes from midnight. */
  ghost predicate HasTimeAfter(s: CronSchedule, t: nat) {
    exists h, m :: h in s.hour && m in s.minute && h * 60 + m > t
  }

  ghost predicate HasTimeUpTo(s: CronSchedule, t: nat) {
    exists h, m :: h in s.hour && m in s.minute && h * 60 + m <= t
  }

  /** The start lies before a 29 February of its year, or on it with a time still to come; or after that
    of a year before a leap year, or on 28 February of such a year with a time already past. */
  ghost predicate LeapDayInReach(s: CronSchedule, d: Date, t: nat) {
    || (IsLeap(d.year) && (d.month == 1 || (d.month == 2 && (d.day < 29 || HasTimeAfter(s, t)))))
    || (IsLeap(d.year + 1) && (d.month >= 3 || (d.month == 2 && d.day == 28 && HasTimeUpTo(s, t))))
  }

  /** A minute in its day. */
  lemma MinuteInDay(c: nat)
    ensures c == At(c / 1440, c / 60 % 24, c % 60) && c % 1440 == c / 60 % 24 * 60 + c % 60
  {
  }

  /** A time h:m on a matching day is found exactly when it lies in the window. */
  lemma FoundAt(s: CronSchedule, dt: nat, day: nat, h: int, m: int)
    requires Sound(s) && DayMatches(s, day) && h in s.hour && m in s.minute
    requires var now := dt / MINUTE; now < day * 1440 + h * 60 + m <= now + CAP_MINUTES
    ensures !Raises(s, dt)
  {
    hide DayMatches;
    AtParts(day, h, m);
    WindowInMinutes(dt, At(day, h, m));
    assert Matches(s, At(day, h, m));
  }

  /** In reach, the search succeeds. */
  lemma InReachIsFound(s: CronSchedule, dt: nat)
    requires Sound(s) && s.domRestricted && AllowsLeapDay(s)
    requires LeapDayInReach(s, DateOf(dt / MINUTE / 1440), dt / MINUTE % 1440)
    ensures !Raises(s, dt)
  {
    hide IsLeap, DateOf, DayMatches, Raises, DayNumber;
    var now := dt / MINUTE;
    var today, t := now / 1440, now % 1440;
    var d := DateOf(today);
    var year := if IsLeap(d.year) && d.month <= 2 then d.year else d.year + 1;
    var day := LeapDayIsThere(today, year);
    LeapDayMatches(s, day);
    LeapDayAhead(today, day);
    if day == today {
      var h, m :| h in s.hour && m in s.minute && h * 60 + m > t;
      FoundAt(s, dt, day, h, m);
    } else if day == today + 366 {
      var h, m :| h in s.hour && m in s.minute && h * 60 + m <= t;
      FoundAt(s, dt, day, h, m);
    } else {
      FoundOnDay(s, dt, day);
    }
  }

  lemma LeapDayMatches(s: CronSchedule, day: nat)
    requires Sound(s) && s.domRestricted && AllowsLeapDay(s) && IsLeapDay(DateOf(day))
    ensures DayMatches(s, day)
  {
    DayNumberOfDate(day);
    MatchesOnDate(s, DateOf(day));
  }

  /** A success means it was in reach. */
  lemma FoundIsInReach(s: CronSchedule, dt: nat, c: nat)
    requires Sound(s) && !MatchesEveryYear(s) && InWindow(dt, c) && Matches(s, c)
    ensures LeapDayInReach(s, DateOf(dt / MINUTE / 1440), dt / MINUTE % 1440)
  {
    hide IsLeap, DateOf, DayMatches, DayNumber, Sound, MatchesEveryYear;
    var now := dt / MINUTE;
    var day, h, m := c / 1440, c / 60 % 24, c % 60;
    WindowInMinutes(dt, c);
    MinuteInDay(c);
    OnlyLeapDays(s, day);
    LeapDayAhead(now / 1440, day);
    if day == now / 1440 { assert h * 60 + m > now % 1440; }
    if day == now / 1440 + 366 { assert h * 60 + m <= now % 1440; }
  }

  /** Exactly the starts from which a schedule that matches on 29 February only raises, by the year and
    the date of the start and the leap rule. */
  lemma LeapDayStarts(s: CronSchedule, dt: nat)
    requires Sound(s) && !MatchesEveryYear(s) && AllowsLeapDay(s)
    ensures Raises(s, dt) <==> !LeapDayInReach(s, DateOf(dt / MINUTE / 1440), dt / MINUTE % 1440)
  {
    hide LeapDayInReach, Matches, DateOf, Sound;
    if LeapDayInReach(s, DateOf(dt / MINUTE / 1440), dt / MINUTE % 1440) {
      InReachIsFound(s, dt);
    } else if !Raises(s, dt) {
      var c: nat :| InWindow(dt, c) && Matches(s, c);
      FoundIsInReach(s, dt, c);
    }
  }
}

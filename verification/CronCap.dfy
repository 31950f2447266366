/** How far ahead the capped search has to look: 366 days are enough for every schedule that can
  match in every year, and not one minute of them can be spared. */
module CronCap {
  import opened Calendar
  import opened Cron

  /** Some (month, day) the schedule allows exists in every Gregorian year. */
  ghost predicate HasYearlyDate(s: CronSchedule) {
    exists m, d :: m in s.mon && d in s.dom && 1 <= d <= CommonLength(m)
  }

  /** The schedule can match by weekday, or on a date of every year. */
  ghost predicate MatchesEveryYear(s: CronSchedule) {
    !s.domRestricted || s.dowRestricted || HasYearlyDate(s)
  }

  /** The schedule allows 29 February. */
  predicate AllowsLeapDay(s: CronSchedule) {
    2 in s.mon && 29 in s.dom
  }

  // ---------------------------------------------------------------- windows in days

  lemma WindowInMinutes(dt: nat, c: nat)
    ensures InWindow(dt, c) <==> dt / 60_000_000 < c <= dt / 60_000_000 + 366 * 1440
  {
  }

  /** A matching day strictly inside the window stops the search. */
  lemma FoundOnDay(s: CronSchedule, dt: nat, day: nat)
    requires Sound(s) && DayMatches(s, day)
    requires var today := dt / MINUTE / 1440; today < day <= today + 365
    ensures !Raises(s, dt)
  {
    hide DayMatches;
    var h :| h in s.hour;
    var m :| m in s.minute;
    AtParts(day, h, m);
    WindowInMinutes(dt, At(day, h, m));
    assert Matches(s, At(day, h, m));
  }

  /** A day that matches again 366 days later stops the search on one of the two days. */
  lemma FoundTodayOrLater(s: CronSchedule, dt: nat)
    requires Sound(s)
    requires var today := dt / MINUTE / 1440; DayMatches(s, today) && DayMatches(s, today + 366)
    ensures !Raises(s, dt)
  {
    hide DayMatches;
    var today := dt / MINUTE / 1440;
    var h :| h in s.hour;
    var m :| m in s.minute;
    var day := if dt / MINUTE < At(today, h, m) then today else today + 366;
    AtParts(day, h, m);
    WindowInMinutes(dt, At(day, h, m));
    assert Matches(s, At(day, h, m));
  }

  // ---------------------------------------------------------------- sufficiency

  lemma MatchesOnDate(s: CronSchedule, date: Date)
    requires Sound(s) && IsDate(date) && date.month in s.mon && date.day in s.dom
    requires s.domRestricted
    ensures DayMatches(s, DayNumber(date))
  {
    DateOfDayNumber(date);
  }

  lemma YearlyDateSuffices(s: CronSchedule, dt: nat, month: int, day: int)
    requires Sound(s) && s.domRestricted
    requires month in s.mon && day in s.dom && 1 <= day <= CommonLength(month)
    ensures !Raises(s, dt)
  {
    hide DayMatches, Raises, IsLeap;
    var today := dt / MINUTE / 1440;
    var year := DateOf(today).year;
    var d, e := Date(year, month, day), Date(year + 1, month, day);
    Anniversary(year, month, day);
    MatchesOnDate(s, d);
    MatchesOnDate(s, e);
    DayNumberOfDate(today);
    DateWithinYear(DateOf(today));
    DateWithinYear(d);
    if DayNumber(d) > today {
      FoundOnDay(s, dt, DayNumber(d));
    } else if DayNumber(e) <= today + 365 {
      FoundOnDay(s, dt, DayNumber(e));
    } else {
      assert DayNumber(d) == today && DayNumber(e) == today + 366;
      FoundTodayOrLater(s, dt);
    }
  }

  /** The first 28 days of a month, as day numbers. */
  lemma {:induction false} MonthRun(year: nat, month: nat, k: nat)
    requires 1 <= year && 1 <= month <= 12 && k < 28
    ensures IsDate(Date(year, month, 1))
    ensures DateOf(DayNumber(Date(year, month, 1)) + k) == Date(year, month, 1 + k)
  {
    var date := Date(year, month, 1 + k);
    assert IsDate(date) && DayNumber(date) == DayNumber(Date(year, month, 1)) + k;
    DateOfDayNumber(date);
  }

  /** Every seven days in a row hold every weekday. */
  lemma WeekHoldsWeekday(first: nat, w: nat) returns (day: nat)
    requires w < 7
    ensures first <= day < first + 7 && Weekday(day) == w
  {
    day := first + (w + 6 - first % 7) % 7;
  }

  lemma MatchesOnWeekday(s: CronSchedule, day: nat)
    requires Sound(s) && (!s.domRestricted || s.dowRestricted)
    requires DateOf(day).month in s.mon && Weekday(day) in s.dow
    ensures DayMatches(s, day)
  {
  }

  lemma WeekInMonthSuffices(s: CronSchedule, dt: nat, year: nat, month: nat, offset: nat)
    requires Sound(s) && (!s.domRestricted || s.dowRestricted)
    requires 1 <= year && month in s.mon && 1 <= month <= 12 && offset + 7 <= 28
    requires IsDate(Date(year, month, 1))
    requires var today, first := dt / MINUTE / 1440, DayNumber(Date(year, month, 1)) + offset;
             today < first && first + 6 <= today + 365
    ensures !Raises(s, dt)
  {
    hide Raises, DayNumber, IsLeap, DayMatches, DateOf, Weekday;
    var first := DayNumber(Date(year, month, 1)) + offset;
    var w :| w in s.dow;
    var day := WeekHoldsWeekday(first, w);
    MonthRun(year, month, day - first + offset);
    MatchesOnWeekday(s, day);
    FoundOnDay(s, dt, day);
  }

  lemma WeekdaySuffices(s: CronSchedule, dt: nat)
    requires Sound(s) && (!s.domRestricted || s.dowRestricted)
    ensures !Raises(s, dt)
  {
    hide DayMatches, Raises, IsLeap;
    var today := dt / MINUTE / 1440;
    var year := DateOf(today).year;
    var month :| month in s.mon;
    var first := DayNumber(Date(year, month, 1));
    Anniversary(year, month, 1);
    DayNumberOfDate(today);
    DateWithinYear(DateOf(today));
    DateWithinYear(Date(year, month, 1));
    LateInYear(year, month);
    if first > today {
      WeekInMonthSuffices(s, dt, year, month, 0);
    } else if today <= first + 20 {
      WeekInMonthSuffices(s, dt, year, month, today + 1 - first);
    } else {
      WeekInMonthSuffices(s, dt, year + 1, month, 0);
    }
  }

  lemma LateInYear(year: nat, month: nat)
    requires 1 <= year && 1 <= month <= 12
    ensures DayNumber(Date(year, month, 1)) <= DaysBeforeYear(year) + 335
  {
    LeapShift(year, month);
    CommonSums();
  }

  /** The cap is enough: a sound schedule that can match by weekday or on a yearly date never raises. */
  lemma CapSuffices(s: CronSchedule, dt: nat)
    requires Sound(s) && MatchesEveryYear(s)
    ensures !Raises(s, dt)
  {
    if !s.domRestricted || s.dowRestricted {
      WeekdaySuffices(s, dt);
    } else {
      var m, d :| m in s.mon && d in s.dom && 1 <= d <= CommonLength(m);
      YearlyDateSuffices(s, dt, m, d);
    }
  }

  // ---------------------------------------------------------------- necessity

  /** Without a yearly date, a matching day is a 29 February. */
  lemma OnlyLeapDays(s: CronSchedule, day: nat)
    requires Sound(s) && !MatchesEveryYear(s) && DayMatches(s, day)
    ensures DateOf(day).month == 2 && DateOf(day).day == 29 && AllowsLeapDay(s)
  {
  }

  lemma {:induction false} FirstYears(day: nat)
    requires day <= 366
    ensures DateOf(day).year <= 2
  {
    DayNumberOfDate(day);
    var date := DateOf(day);
    if date.year > 2 {
      assert DaysBeforeYear(3) == 730;
      YearsGrow(3, date.year);
    }
  }

  lemma {:induction false} YearsGrow(y: nat, z: nat)
    requires 1 <= y <= z
    ensures DaysBeforeYear(y) <= DaysBeforeYear(z)
    decreases z - y
  {
    if y < z { YearsGrow(y, z - 1); }
  }

  /** Started at the very first minute, a schedule without a yearly date finds nothing. */
  lemma StartThatRaises(s: CronSchedule)
    requires Sound(s) && !MatchesEveryYear(s)
    ensures Raises(s, 0)
  {
    forall c: nat | InWindow(0, c)
      ensures !Matches(s, c)
    {
      WindowInMinutes(0, c);
      if DayMatches(s, c / 1440) {
        OnlyLeapDays(s, c / 1440);
        FirstYears(c / 1440);
      }
    }
  }

  /** The search never raises, whatever the start, if and only if the schedule can match by weekday
    or on a date of every year. */
  lemma CapTheorem(s: CronSchedule)
    requires Sound(s)
    ensures (forall dt: nat :: !Raises(s, dt)) <==> MatchesEveryYear(s)
  {
    if MatchesEveryYear(s) {
      forall dt: nat ensures !Raises(s, dt) { CapSuffices(s, dt); }
    } else {
      StartThatRaises(s);
    }
  }

  /** The same for an expression the parser accepts. */
  lemma CapTheoremParsed(expr: string)
    ensures Parse(expr).Success? ==>
              ((forall dt: nat :: !Raises(Parse(expr).value, dt)) <==> MatchesEveryYear(Parse(expr).value))
  {
    hide Parse, Sound, Raises, MatchesEveryYear;
    ParsedIsSound(expr);
    if Parse(expr).Success? { CapTheorem(Parse(expr).value); }
  }

  /** The schedules outside the theorem split in two: those that allow 29 February raise from some
    starts and not from others, and the rest raise from every start. */
  lemma OutsideTheCap(s: CronSchedule)
    requires Sound(s) && !MatchesEveryYear(s)
    ensures AllowsLeapDay(s) <==> exists dt: nat :: !Raises(s, dt)
    ensures exists dt: nat :: Raises(s, dt)
  {
    StartThatRaises(s);
    if AllowsLeapDay(s) {
      var leapDay := Date(4, 2, 29);
      MatchesOnDate(s, leapDay);
      var dt := (DayNumber(leapDay) - 1) * 1440 * MINUTE;
      FoundOnDay(s, dt, DayNumber(leapDay));
    } else {
      forall dt: nat ensures Raises(s, dt) {
        forall c: nat | InWindow(dt, c) ensures !Matches(s, c) {
          if DayMatches(s, c / 1440) { OnlyLeapDays(s, c / 1440); }
        }
      }
    }
  }

  // ---------------------------------------------------------------- tightness

  /** Midnight on one date of the year. */
  predicate IsMidnightOn(s: CronSchedule, month: nat, day: nat) {
    s.minute == {0} && s.hour == {0} && s.dom == {day} && s.mon == {month} && s.domRestricted && !s.dowRestricted
  }

  lemma MarchGap(year: nat)
    requires 1 <= year
    ensures IsDate(Date(year, 3, 1)) && IsDate(Date(year + 1, 3, 1))
    ensures DayNumber(Date(year + 1, 3, 1)) - DayNumber(Date(year, 3, 1)) == if IsLeap(year + 1) then 366 else 365
  {
    LeapShift(year, 3);
    LeapShift(year + 1, 3);
  }

  lemma {:induction false} MarchesGrow(y: nat, z: nat)
    requires 1 <= y <= z
    ensures DayNumber(Date(y, 3, 1)) <= DayNumber(Date(z, 3, 1))
    decreases z - y
  {
    if y < z {
      MarchGap(z - 1);
      MarchesGrow(y, z - 1);
    }
  }

  /** Between 1 March and 1 March of the next year no day is a 1 March. */
  lemma NoMarchFirstBetween(year: nat, day: nat)
    requires 1 <= year
    requires DayNumber(Date(year, 3, 1)) < day < DayNumber(Date(year + 1, 3, 1))
    ensures !(DateOf(day).month == 3 && DateOf(day).day == 1)
  {
    hide DayNumber, IsLeap;
    var date := DateOf(day);
    DayNumberOfDate(day);
    if date.month == 3 && date.day == 1 {
      assert date == Date(date.year, 3, 1);
      if date.year <= year { MarchesGrow(date.year, year); } else { MarchesGrow(year + 1, date.year); }
    }
  }

  /** No minute strictly between midnight of 1 March and midnight of the next 1 March matches. */
  lemma NoMatchBetween(s: CronSchedule, year: nat, b: nat)
    requires IsMidnightOn(s, 3, 1) && 1 <= year
    requires DayNumber(Date(year, 3, 1)) * 1440 < b < DayNumber(Date(year + 1, 3, 1)) * 1440
    ensures !Matches(s, b)
  {
    hide DayNumber, IsLeap;
    var day := b / 1440;
    if day > DayNumber(Date(year, 3, 1)) { NoMarchFirstBetween(year, day); }
    assert b == At(day, b / 60 % 24, b % 60);
  }

  /** For every leap year, a search started on midnight of the 1 March before it finds its match
    exactly 366 days later, on the last minute of the window: a smaller cap would raise. */
  lemma CapIsTight(s: CronSchedule, year: nat)
    requires Sound(s) && IsMidnightOn(s, 3, 1) && 1 <= year && IsLeap(year + 1)
    ensures var dt := DayNumber(Date(year, 3, 1)) * 1440 * MINUTE;
            IsNext(s, dt, dt / 60_000_000 + 366 * 1440)
  {
    hide DayNumber, IsLeap, DayMatches, Sound;
    var day := DayNumber(Date(year, 3, 1));
    var dt := day * 1440 * MINUTE;
    var last := dt / MINUTE + CAP_MINUTES;
    MarchGap(year);
    assert last == At(day + 366, 0, 0);
    MatchesOnDate(s, Date(year + 1, 3, 1));
    AtParts(day + 366, 0, 0);
    WindowInMinutes(dt, last);
    forall b: nat | InWindow(dt, b) && b < last
      ensures !Matches(s, b)
    {
      WindowInMinutes(dt, b);
      NoMatchBetween(s, year, b);
    }
  }
}

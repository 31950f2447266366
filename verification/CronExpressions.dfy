/** Expressions on both sides of the cap theorem, from their text to what the search does with them. */
module CronExpressions {
  import opened Text
  import opened Calendar
  import opened CronField
  import opened CronPrinter
  import opened Cron
  import opened CronCap
  import opened CronLeapDay

  lemma NumberField(n: nat, lo: int, hi: int)
    requires lo <= n <= hi
    ensures Field(ShowNat(n), lo, hi) == Success({n})
    ensures forall i :: 0 <= i < |ShowNat(n)| ==> !IsSpace(ShowNat(n)[i])
  {
    hide Field;
    ListRoundTrip([n], lo, hi);
    assert ShowField(Singles([n])) == ShowNat(n);
    FieldCharacters(Singles([n]));
    var values := Field(ShowNat(n), lo, hi).value;
    forall v: int
      ensures v in values <==> v == n
    {
      assert v in values <==> v in [n as int];
    }
    assert values == {n};
  }

  function MidnightFields(month: nat, day: nat): seq<string> {
    [ShowNat(0), ShowNat(0), ShowNat(day), ShowNat(month), "*"]
  }

  /** Every expression for midnight of one date of the year parses to that schedule. */
  lemma MidnightParses(month: nat, day: nat)
    requires 1 <= month <= 12 && 1 <= day <= 31
    ensures var p := Parse(Join(MidnightFields(month, day), ' '));
            p.Success? && Sound(p.value) && IsMidnightOn(p.value, month, day)
  {
    hide Field, Words, IsSpace, ShowNat, Join, Sound;
    NumberField(0, 0, 59);
    NumberField(0, 0, 23);
    NumberField(day, 1, 31);
    NumberField(month, 1, 12);
    StarIsFull(0, 7);
    StarHasNoSpace();
    WordsJoin(MidnightFields(month, day));
    StripNothing(ShowNat(day));
    StripNothing("*");
    assert !IsDigit('*');
    ParsedIsSound(Join(MidnightFields(month, day), ' '));
  }

  lemma StarHasNoSpace()
    ensures !IsSpace('*')
  {
  }

  lemma JoinFive(a: string, b: string, c: string, d: string, e: string)
    ensures Join([a, b, c, d, e], ' ') == a + " " + b + " " + c + " " + d + " " + e
  {
    var words := [a, b, c, d, e];
    assert words[1..] == [b, c, d, e] && words[1..][1..] == [c, d, e];
    assert words[1..][1..][1..] == [d, e] && words[1..][1..][1..][1..] == [e];
    assert Join([d, e], ' ') == d + " " + e;
    assert Join([c, d, e], ' ') == c + " " + Join([d, e], ' ');
    assert Join([b, c, d, e], ' ') == b + " " + Join([c, d, e], ' ');
  }

  lemma Numerals()
    ensures ShowNat(0) == "0" && ShowNat(1) == "1" && ShowNat(2) == "2" && ShowNat(3) == "3"
    ensures ShowNat(29) == "29" && ShowNat(30) == "30"
  {
  }

  /** `0 0 1 3 *` is the schedule that shows the cap to be tight. */
  lemma MarchFirstParses()
    ensures Parse("0 0 1 3 *").Success? && IsMidnightOn(Parse("0 0 1 3 *").value, 3, 1)
  {
    hide Parse, Sound, ShowNat, Join;
    MidnightParses(3, 1);
    JoinFive("0", "0", "1", "3", "*");
    Numerals();
    assert Join(MidnightFields(3, 1), ' ') == "0 0 1 3 *";
  }

  /** `0 0 29 2 *` parses, allows 29 February and no date of every year. Searched from midnight of
    1 January it raises in exactly the years that are not leap: in 2025, say, and not in 2024. */
  lemma LeapDayExpression(year: nat)
    requires year >= 1
    ensures var p := Parse("0 0 29 2 *");
            && p.Success? && AllowsLeapDay(p.value) && !MatchesEveryYear(p.value)
            && (Raises(p.value, DayNumber(Date(year, 1, 1)) * 1440 * MINUTE) <==> !IsLeap(year))
    ensures !IsLeap(2025) && IsLeap(2024)
  {
    hide Parse, Sound, Raises, DayNumber, DateOf, ShowNat, Join;
    MidnightParses(2, 29);
    JoinFive("0", "0", "29", "2", "*");
    Numerals();
    assert Join(MidnightFields(2, 29), ' ') == "0 0 29 2 *";
    var dt := DayNumber(Date(year, 1, 1)) * 1440 * MINUTE;
    DateOfDayNumber(Date(year, 1, 1));
    assert dt / MINUTE / 1440 == DayNumber(Date(year, 1, 1)) && dt / MINUTE % 1440 == 0;
    LeapDayStarts(Parse("0 0 29 2 *").value, dt);
  }

  /** `0 0 30 2 *` parses and raises from every start. */
  lemma NeverExpression(dt: nat)
    ensures var p := Parse("0 0 30 2 *");
            p.Success? && !AllowsLeapDay(p.value) && !MatchesEveryYear(p.value) && Raises(p.value, dt)
  {
    hide Parse, Sound, Raises, ShowNat, Join;
    MidnightParses(2, 30);
    JoinFive("0", "0", "30", "2", "*");
    Numerals();
    assert Join(MidnightFields(2, 30), ' ') == "0 0 30 2 *";
    OutsideTheCap(Parse("0 0 30 2 *").value);
  }
}

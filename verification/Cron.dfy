/** Cron schedules: parsing five fields, matching a minute, and the capped search for the next match. */
module Cron {
  import opened Text
  import opened Calendar
  import opened CronField
  import opened CronPrinter

  datatype CronSchedule = CronSchedule(
    minute: set<int>, hour: set<int>, dom: set<int>, mon: set<int>, dow: set<int>,
    domRestricted: bool, dowRestricted: bool)

  datatype CronError = WrongFieldCount | BadField(error: FieldError)

  /** `expr.split()`: the maximal runs of characters that are not white space. */
  function Words(s: string): (words: seq<string>)
    ensures s != "" && !IsSpace(s[0]) ==> |words| >= 1
  {
    if s == "" then []
    else if IsSpace(s[0]) then Words(s[1..])
    else if |s| == 1 || IsSpace(s[1]) then [[s[0]]] + Words(s[1..])
    else
      var rest := Words(s[1..]);
      [[s[0]] + rest[0]] + rest[1..]
  }

  /** 7 is another name for Sunday. */
  function FoldSunday(raw: set<int>): set<int> {
    set v | v in raw :: if v == 7 then 0 else v
  }

  function Parse(expr: string): Result<CronSchedule, CronError> {
    var f := Words(expr);
    if |f| != 5 then Failure(WrongFieldCount)
    else
      var minute, hour, dom := Field(f[0], 0, 59), Field(f[1], 0, 23), Field(f[2], 1, 31);
      var mon, dow := Field(f[3], 1, 12), Field(f[4], 0, 7);
      if minute.Failure? then Failure(BadField(minute.error))
      else if hour.Failure? then Failure(BadField(hour.error))
      else if dom.Failure? then Failure(BadField(dom.error))
      else if mon.Failure? then Failure(BadField(mon.error))
      else if dow.Failure? then Failure(BadField(dow.error))
      else Success(CronSchedule(minute.value, hour.value, dom.value, mon.value, FoldSunday(dow.value),
                                Strip(f[2]) != "*", Strip(f[4]) != "*"))
  }

  // ---------------------------------------------------------------- matching

  predicate DayMatches(s: CronSchedule, day: nat) {
    var date := DateOf(day);
    var domMatch := date.day in s.dom;
    var dowMatch := Weekday(day) in s.dow;
    date.month in s.mon && if s.domRestricted && s.dowRestricted then domMatch || dowMatch else domMatch && dowMatch
  }

  /** Minutes are counted from 1 January of year 1, 00:00. */
  predicate Matches(s: CronSchedule, t: nat) {
    t % 60 in s.minute && t / 60 % 24 in s.hour && DayMatches(s, t / 1440)
  }

  /** The minute at hour h and minute m of a day. */
  function At(day: nat, h: nat, m: nat): nat {
    day * 1440 + h * 60 + m
  }

  lemma AtParts(day: nat, h: nat, m: nat)
    requires h < 24 && m < 60
    ensures At(day, h, m) / 1440 == day && At(day, h, m) / 60 % 24 == h && At(day, h, m) % 60 == m
  {
    assert At(day, h, m) / 60 == day * 24 + h;
  }

  /** What every parsed schedule satisfies. */
  ghost predicate Sound(s: CronSchedule) {
    && Within(s.minute, 0, 59) && Within(s.hour, 0, 23) && Within(s.dom, 1, 31)
    && Within(s.mon, 1, 12) && Within(s.dow, 0, 6)
    && (!s.domRestricted ==> forall v :: 1 <= v <= 31 ==> v in s.dom)
    && (!s.dowRestricted ==> forall v :: 0 <= v <= 6 ==> v in s.dow)
  }

  lemma FoldSundayMembers(raw: set<int>, v: int)
    requires 0 <= v <= 6
    ensures v in FoldSunday(raw) <==> v in raw || (v == 0 && 7 in raw)
  {
    if v in raw || (v == 0 && 7 in raw) {
      var w := if v in raw then v else 7;
      assert w in raw && v == if w == 7 then 0 else w;
    }
  }

  lemma {:induction false} WordsHoldNoSpace(s: string)
    ensures forall i, j :: 0 <= i < |Words(s)| && 0 <= j < |Words(s)[i]| ==> !IsSpace(Words(s)[i][j])
  {
    if s != "" { WordsHoldNoSpace(s[1..]); }
  }

  /** A field's values are some, and in range. */
  ghost predicate Within(values: set<int>, lo: int, hi: int) {
    (exists v :: v in values) && forall v :: v in values ==> lo <= v <= hi
  }

  lemma FieldWithin(expr: string, lo: int, hi: int)
    requires Field(expr, lo, hi).Success?
    ensures Within(Field(expr, lo, hi).value, lo, hi)
    ensures expr == "*" && lo <= hi ==> forall v :: lo <= v <= hi ==> v in Field(expr, lo, hi).value
  {
    hide Field;
    FieldMeaning(expr, lo, hi);
    if expr == "*" && lo <= hi { StarIsFull(lo, hi); }
  }

  lemma FoldSundayWithin(raw: set<int>)
    requires Within(raw, 0, 7)
    ensures Within(FoldSunday(raw), 0, 6)
  {
    var any :| any in raw;
    assert (if any == 7 then 0 else any) in FoldSunday(raw);
  }

  lemma ParsedIsSound(expr: string)
    ensures Parse(expr).Success? ==> Sound(Parse(expr).value)
  {
    hide Field, IsSpace, Words, FoldSunday;
    if Parse(expr).Success? {
      var f, s := Words(expr), Parse(expr).value;
      FieldWithin(f[0], 0, 59);
      FieldWithin(f[1], 0, 23);
      FieldWithin(f[2], 1, 31);
      FieldWithin(f[3], 1, 12);
      FieldWithin(f[4], 0, 7);
      FoldSundayWithin(Field(f[4], 0, 7).value);
      StripField(expr, 2);
      StripField(expr, 4);
      forall v | 0 <= v <= 6
        ensures v in Field(f[4], 0, 7).value ==> v in s.dow
      {
        FoldSundayMembers(Field(f[4], 0, 7).value, v);
      }
      assert !s.domRestricted ==> f[2] == "*";
      assert !s.dowRestricted ==> f[4] == "*";
    }
  }

  lemma StripField(expr: string, i: nat)
    requires i < |Words(expr)|
    ensures Strip(Words(expr)[i]) == Words(expr)[i]
  {
    hide IsSpace, Words, Strip;
    WordsHoldNoSpace(expr);
    StripNothing(Words(expr)[i]);
  }

  /** The day rule, in terms of the field texts: every day of the months if both day fields are `*`, the
    restricted one if one is, and either if both are. 7 is Sunday, like 0. */
  ghost predicate DayAllowed(f: seq<string>, day: nat)
    requires |f| == 5 && Field(f[2], 1, 31).Success? && Field(f[3], 1, 12).Success? && Field(f[4], 0, 7).Success?
  {
    var date := DateOf(day);
    var inDom := date.day in Field(f[2], 1, 31).value;
    var inDow := Weekday(day) in Field(f[4], 0, 7).value || (Weekday(day) == 0 && 7 in Field(f[4], 0, 7).value);
    && date.month in Field(f[3], 1, 12).value
    && (if f[2] == "*" && f[4] == "*" then true
        else if f[2] == "*" then inDow
        else if f[4] == "*" then inDom
        else inDom || inDow)
  }

  lemma DayRule(expr: string, day: nat)
    ensures Parse(expr).Success? ==> (DayMatches(Parse(expr).value, day) <==> DayAllowed(Words(expr), day))
  {
    hide Field, IsSpace, Words;
    if Parse(expr).Success? {
      var f := Words(expr);
      ParsedIsSound(expr);
      StripField(expr, 2);
      StripField(expr, 4);
      FoldSundayMembers(Field(f[4], 0, 7).value, Weekday(day));
    }
  }

  /** When an accepted expression matches, in terms of its five field texts: the minute is one of the first
    field's, the hour one of the second's, and the day is allowed by the other three. */
  lemma MatchRule(expr: string, day: nat, h: nat, m: nat)
    requires h < 24 && m < 60
    ensures var f := Words(expr);
            Parse(expr).Success? ==>
              (Matches(Parse(expr).value, At(day, h, m)) <==>
                 m in Field(f[0], 0, 59).value && h in Field(f[1], 0, 23).value && DayAllowed(f, day))
  {
    hide Field, IsSpace, Words, DayMatches, DayAllowed;
    AtParts(day, h, m);
    DayRule(expr, day);
  }

  /** Whether a text is accepted, and with which error it is refused: that of the first field that is. */
  lemma ParseOutcome(expr: string)
    ensures var f := Words(expr);
            if |f| != 5 then Parse(expr) == Failure(WrongFieldCount)
            else
              var rs := [Field(f[0], 0, 59), Field(f[1], 0, 23), Field(f[2], 1, 31), Field(f[3], 1, 12), Field(f[4], 0, 7)];
              && (Parse(expr).Success? <==> forall i :: 0 <= i < 5 ==> rs[i].Success?)
              && (forall i :: 0 <= i < 5 && rs[i].Failure? && (forall j :: 0 <= j < i ==> rs[j].Success?) ==>
                    Parse(expr) == Failure(BadField(rs[i].error)))
  {
    hide Field, Words, FoldSunday, Strip;
    var f := Words(expr);
    if |f| == 5 {
      var rs := [Field(f[0], 0, 59), Field(f[1], 0, 23), Field(f[2], 1, 31), Field(f[3], 1, 12), Field(f[4], 0, 7)];
      assert rs[0] == Field(f[0], 0, 59) && rs[1] == Field(f[1], 0, 23) && rs[2] == Field(f[2], 1, 31);
      assert rs[3] == Field(f[3], 1, 12) && rs[4] == Field(f[4], 0, 7);
    }
  }

  // ---------------------------------------------------------------- printing expressions

  function FieldRange(i: nat): (int, int)
    requires i < 5
  {
    [(0, 59), (0, 23), (1, 31), (1, 12), (0, 7)][i]
  }

  function ShowFields(fields: seq<seq<Item>>): (shown: seq<string>)
    ensures |shown| == |fields| && forall i :: 0 <= i < |fields| ==> shown[i] == ShowField(fields[i])
  {
    seq(|fields|, i requires 0 <= i < |fields| => ShowField(fields[i]))
  }

  /** Splitting on white space, for every text: white space before a word is skipped, and a word goes up to
    the next white space, of any kind. */
  lemma {:induction false} WordsFirst(word: string, sep: char, rest: string)
    requires |word| >= 1 && (forall i :: 0 <= i < |word| ==> !IsSpace(word[i])) && IsSpace(sep)
    ensures Words(word + [sep] + rest) == [word] + Words(rest)
    ensures Words(word) == [word]
  {
    hide IsSpace;
    var s := word + [sep] + rest;
    assert word == [word[0]] + word[1..];
    if |word| == 1 {
      assert [s[0]] == word && s[1] == sep && s[1..] == [sep] + rest && ([sep] + rest)[1..] == rest;
      assert word[1..] == "" && [word[0]] == word;
    } else {
      assert s[1..] == word[1..] + [sep] + rest && s[1] == word[1];
      WordsFirst(word[1..], sep, rest);
    }
  }

  lemma WordsSkip(sep: char, rest: string)
    requires IsSpace(sep)
    ensures Words([sep] + rest) == Words(rest) && Words("") == []
  {
    assert ([sep] + rest)[1..] == rest;
  }

  lemma SpaceIsSpace()
    ensures IsSpace(' ')
  {
  }

  lemma {:induction false} WordsJoin(words: seq<string>)
    requires forall i :: 0 <= i < |words| ==> |words[i]| >= 1
    requires forall i, j :: 0 <= i < |words| && 0 <= j < |words[i]| ==> !IsSpace(words[i][j])
    ensures Words(Join(words, ' ')) == words
  {
    hide IsSpace;
    if |words| >= 1 {
      SpaceIsSpace();
      WordsFirst(words[0], ' ', Join(words[1..], ' '));
      WordsJoin(words[1..]);
      assert words == [words[0]] + words[1..];
    }
  }

  /** A printed field is nonempty and holds no white space. */
  lemma {:induction false} FieldCharacters(items: seq<Item>)
    requires |items| >= 1
    ensures var s := ShowField(items); |s| >= 1 && forall i :: 0 <= i < |s| ==> !IsSpace(s[i])
  {
    var shown := seq(|items|, i requires 0 <= i < |items| => ShowItem(items[i]));
    ItemCharacters(items[0]);
    if |items| > 1 {
      FieldCharacters(items[1..]);
      assert shown[1..] == seq(|items| - 1, i requires 0 <= i < |items| - 1 => ShowItem(items[1..][i]));
      assert ShowField(items) == ShowItem(items[0]) + "," + ShowField(items[1..]);
    }
  }

  ghost predicate AllProper(items: seq<Item>, range: (int, int)) {
    forall i :: 0 <= i < |items| ==> Proper(items[i], range.0, range.1)
  }

  /** Some item of the list stands for v. */
  ghost predicate SomeCovers(items: seq<Item>, lo: int, hi: int, v: int) {
    exists i :: 0 <= i < |items| && Proper(items[i], lo, hi) && Covers(items[i], lo, hi, v)
  }

  /** Printing five field lists and parsing the expression back: accepted exactly when every item is
    proper for its field, and then each of the five sets holds exactly what the items of its own field
    stand for, with 7 read as Sunday in the last. */
  lemma ExpressionRoundTrip(fields: seq<seq<Item>>)
    requires |fields| == 5 && forall i :: 0 <= i < 5 ==> |fields[i]| >= 1
    ensures var expr := Join(ShowFields(fields), ' ');
            && Words(expr) == ShowFields(fields)
            && (Parse(expr).Success? <==> forall i :: 0 <= i < 5 ==> AllProper(fields[i], FieldRange(i)))
            && (Parse(expr).Success? ==>
                  var s := Parse(expr).value;
                  && (forall v :: v in s.minute <==> SomeCovers(fields[0], 0, 59, v))
                  && (forall v :: v in s.hour <==> SomeCovers(fields[1], 0, 23, v))
                  && (forall v :: v in s.dom <==> SomeCovers(fields[2], 1, 31, v))
                  && (forall v :: v in s.mon <==> SomeCovers(fields[3], 1, 12, v))
                  && (forall v :: 0 <= v <= 6 ==>
                        (v in s.dow <==> SomeCovers(fields[4], 0, 7, v) || (v == 0 && SomeCovers(fields[4], 0, 7, 7)))))
  {
    hide ShowField, Field, IsSpace, Proper, Words, SomeCovers, FoldSunday;
    var shown := ShowFields(fields);
    forall i | 0 <= i < 5
      ensures |shown[i]| >= 1 && forall j :: 0 <= j < |shown[i]| ==> !IsSpace(shown[i][j])
    {
      FieldCharacters(fields[i]);
    }
    WordsJoin(shown);
    FieldValues(fields[0], 0, 59);
    FieldValues(fields[1], 0, 23);
    FieldValues(fields[2], 1, 31);
    FieldValues(fields[3], 1, 12);
    FieldValues(fields[4], 0, 7);
    assert FieldRange(0) == (0, 59) && FieldRange(1) == (0, 23) && FieldRange(2) == (1, 31);
    assert FieldRange(3) == (1, 12) && FieldRange(4) == (0, 7);
    if Parse(Join(shown, ' ')).Success? {
      forall v | 0 <= v <= 6
        ensures v in FoldSunday(Field(shown[4], 0, 7).value) <==> SomeCovers(fields[4], 0, 7, v) || (v == 0 && SomeCovers(fields[4], 0, 7, 7))
      {
        FoldSundayMembers(Field(shown[4], 0, 7).value, v);
      }
    }
  }

  lemma FieldValues(items: seq<Item>, lo: int, hi: int)
    requires |items| >= 1
    ensures var r := Field(ShowField(items), lo, hi);
            && (r.Success? <==> AllProper(items, (lo, hi)))
            && (r.Success? ==> forall v :: v in r.value <==> SomeCovers(items, lo, hi, v))
  {
    hide ShowField, Field, Proper, Covers;
    FieldRoundTrip(items, lo, hi);
  }

  /** So a printed expression matches exactly at the minutes, hours and days its own items stand for. */
  lemma PrintedMatches(fields: seq<seq<Item>>, day: nat, h: nat, m: nat)
    requires |fields| == 5 && forall i :: 0 <= i < 5 ==> |fields[i]| >= 1 && AllProper(fields[i], FieldRange(i))
    requires h < 24 && m < 60
    ensures var expr, date, w := Join(ShowFields(fields), ' '), DateOf(day), Weekday(day);
            var inDom := SomeCovers(fields[2], 1, 31, date.day);
            var inDow := SomeCovers(fields[4], 0, 7, w) || (w == 0 && SomeCovers(fields[4], 0, 7, 7));
            var domStar, dowStar := ShowField(fields[2]) == "*", ShowField(fields[4]) == "*";
            && Parse(expr).Success?
            && (Matches(Parse(expr).value, At(day, h, m)) <==>
                  && SomeCovers(fields[0], 0, 59, m) && SomeCovers(fields[1], 0, 23, h) && SomeCovers(fields[3], 1, 12, date.month)
                  && (if domStar && dowStar then true else if domStar then inDow else if dowStar then inDom else inDom || inDow))
  {
    hide ShowField, Field, Proper, SomeCovers, AllProper, Words, Matches, IsSpace, DateOf;
    var expr := Join(ShowFields(fields), ' ');
    ExpressionRoundTrip(fields);
    MatchRule(expr, day, h, m);
    FieldValues(fields[0], 0, 59);
    FieldValues(fields[1], 0, 23);
    FieldValues(fields[2], 1, 31);
    FieldValues(fields[3], 1, 12);
    FieldValues(fields[4], 0, 7);
  }

  // ---------------------------------------------------------------- the search

  /** One minute in microseconds, the resolution of `datetime`. */
  const MINUTE := 60_000_000
  const CAP_MINUTES := 366 * 1440

  /** c is a whole minute strictly after dt and at most 366 days after it. */
  predicate InWindow(dt: nat, c: nat) {
    dt < c * MINUTE <= dt + CAP_MINUTES * MINUTE
  }

  ghost predicate IsNext(s: CronSchedule, dt: nat, c: nat) {
    InWindow(dt, c) && Matches(s, c) && forall b: nat :: InWindow(dt, b) && b < c ==> !Matches(s, b)
  }

  /** No minute of the window matches, which is when the search raises. */
  ghost predicate Raises(s: CronSchedule, dt: nat) {
    forall c: nat :: InWindow(dt, c) ==> !Matches(s, c)
  }

  /** `next_after`; None stands for the ValueError. */
  method NextAfter(s: CronSchedule, dt: nat) returns (r: Option<nat>)
    ensures r.Some? ==> IsNext(s, dt, r.value)
    ensures r.None? <==> Raises(s, dt)
  {
    hide Matches;
    var candidate := dt / MINUTE + 1;
    var limit := dt + CAP_MINUTES * MINUTE;
    while candidate * MINUTE <= limit
      invariant dt < candidate * MINUTE
      invariant forall b: nat :: InWindow(dt, b) && b < candidate ==> !Matches(s, b)
      decreases limit - candidate * MINUTE
    {
      if Matches(s, candidate) {
        return Some(candidate);
      }
      candidate := candidate + 1;
    }
    return None;
  }
}

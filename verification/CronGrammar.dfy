/** The texts that the field parser accepts, as a grammar that does not mention the parser.

  It is wider than the documented syntax: numbers are those of Python's `int`. */
module CronGrammar {
  import opened Text
  import opened CronField
  import opened CronPrinter

  // ---------------------------------------------------------------- numbers

  predicate Spaces(s: string) {
    forall i :: 0 <= i < |s| ==> IsSpace(s[i])
  }

  /** Digits with single underscores between them. */
  predicate Digits(s: string) {
    && |s| >= 1 && IsDigit(s[0]) && IsDigit(s[|s| - 1])
    && (forall i :: 0 <= i < |s| ==> IsDigit(s[i]) || s[i] == '_')
    && (forall i :: 0 <= i < |s| - 1 ==> IsDigit(s[i]) || IsDigit(s[i + 1]))
  }

  function DigitsValue(s: string): int {
    if s == "" then 0
    else
      var c, rest := s[|s| - 1], DigitsValue(s[..|s| - 1]);
      if c == '_' then rest else 10 * rest + (c as int - '0' as int)
  }

  datatype Number = Number(before: string, sign: string, digits: string, after: string)

  predicate IsNumber(n: Number) {
    Spaces(n.before) && n.sign in ["", "+", "-"] && Digits(n.digits) && Spaces(n.after)
  }

  function NumberText(n: Number): string { n.before + (n.sign + n.digits) + n.after }

  function NumberValue(n: Number): int {
    if n.sign == "-" then -DigitsValue(n.digits) else DigitsValue(n.digits)
  }

  lemma {:induction false} NumeralIsDigits(s: string)
    ensures IsNumeral(s) <==> Digits(s)
    ensures IsNumeral(s) ==> NumeralValue(s) == DigitsValue(s)
  {
    if |s| >= 2 {
      var init := s[..|s| - 1];
      NumeralIsDigits(init);
      if |s| >= 3 {
        NumeralIsDigits(s[..|s| - 2]);
        assert init[..|init| - 1] == s[..|s| - 2];
      }
      DigitsCases(s);
    } else if |s| == 1 {
      assert s[..0] == "";
    }
  }

  lemma DigitsCases(s: string)
    requires |s| >= 2
    ensures Digits(s) <==> IsDigit(s[|s| - 1]) && (Digits(s[..|s| - 1]) || (|s| >= 3 && s[|s| - 2] == '_' && Digits(s[..|s| - 2])))
  {
    var n := |s|;
    if Digits(s) {
      if s[n - 2] == '_' {
        assert n >= 3 && IsDigit(s[n - 3]);
        assert Digits(s[..n - 2]);
      } else {
        assert Digits(s[..n - 1]);
      }
    }
    if IsDigit(s[n - 1]) && Digits(s[..n - 1]) {
      assert forall i :: 0 <= i < n - 1 ==> s[i] == s[..n - 1][i];
      assert Digits(s);
    }
    if n >= 3 && IsDigit(s[n - 1]) && s[n - 2] == '_' && Digits(s[..n - 2]) {
      assert forall i :: 0 <= i < n - 2 ==> s[i] == s[..n - 2][i];
      assert Digits(s);
    }
  }

  // ---------------------------------------------------------------- white space around a text

  /** A text that starts and ends with something other than white space. */
  predicate Trim(s: string) {
    s != "" && !IsSpace(s[0]) && !IsSpace(s[|s| - 1])
  }

  lemma {:induction false} StripLeftPadded(before: string, s: string)
    requires Spaces(before) && s != "" && !IsSpace(s[0])
    ensures StripLeft(before + s) == s
  {
    hide IsSpace;
    var t := before + s;
    if before == "" {
      assert t == s;
    } else {
      assert t[0] == before[0] && t[1..] == before[1..] + s;
      StripLeftPadded(before[1..], s);
    }
  }

  lemma {:induction false} StripRightPadded(s: string, after: string)
    requires Spaces(after) && s != "" && !IsSpace(s[|s| - 1])
    ensures StripRight(s + after) == s
  {
    hide IsSpace;
    var t, n := s + after, |after| - 1;
    if after == "" {
      assert t == s;
    } else {
      assert t[|t| - 1] == after[n] && t[..|t| - 1] == s + after[..n];
      StripRightPadded(s, after[..n]);
    }
  }

  lemma StripPadded(before: string, s: string, after: string)
    requires Spaces(before) && Trim(s) && Spaces(after)
    ensures Strip(before + s + after) == s
  {
    hide IsSpace;
    assert before + s + after == before + (s + after);
    StripLeftPadded(before, s + after);
    StripRightPadded(s, after);
  }

  lemma {:induction false} StripLeftCut(s: string) returns (before: string)
    ensures s == before + StripLeft(s) && Spaces(before)
    ensures StripLeft(s) != "" ==> !IsSpace(StripLeft(s)[0])
  {
    hide IsSpace;
    if s != "" && IsSpace(s[0]) {
      var rest := StripLeftCut(s[1..]);
      before := [s[0]] + rest;
    } else {
      before := "";
    }
  }

  lemma {:induction false} StripRightCut(s: string) returns (after: string)
    ensures s == StripRight(s) + after && Spaces(after)
    ensures StripRight(s) != "" ==> !IsSpace(StripRight(s)[|StripRight(s)| - 1])
  {
    hide IsSpace;
    if s != "" && IsSpace(s[|s| - 1]) {
      var rest := StripRightCut(s[..|s| - 1]);
      after := rest + [s[|s| - 1]];
    } else {
      after := "";
    }
  }

  lemma StripCut(s: string) returns (before: string, after: string)
    ensures s == before + Strip(s) + after && Spaces(before) && Spaces(after)
    ensures Strip(s) != "" ==> Trim(Strip(s))
  {
    hide IsSpace;
    before := StripLeftCut(s);
    after := StripRightCut(StripLeft(s));
    if Strip(s) != "" { assert Strip(s)[0] == StripLeft(s)[0]; }
  }

  // ---------------------------------------------------------------- numbers are read, and only numbers

  lemma CoreIsTrim(n: Number)
    requires IsNumber(n)
    ensures Trim(n.sign + n.digits)
  {
    assert (n.sign + n.digits)[|n.sign + n.digits| - 1] == n.digits[|n.digits| - 1];
  }

  lemma NumberIsRead(n: Number)
    requires IsNumber(n)
    ensures ParseInt(NumberText(n)) == Some(NumberValue(n))
  {
    hide Strip, IsNumeral, NumeralValue, DigitsValue;
    var core := n.sign + n.digits;
    CoreIsTrim(n);
    StripPadded(n.before, core, n.after);
    NumeralIsDigits(core);
    NumeralIsDigits(n.digits);
    if n.sign == "" {
      assert core == n.digits;
    } else {
      assert core[0] == n.sign[0] && core[1..] == n.digits;
    }
  }

  lemma ReadIsNumber(s: string) returns (n: Number)
    requires ParseInt(s).Some?
    ensures IsNumber(n) && NumberText(n) == s
    ensures s != "" && !IsSpace(s[0]) ==> n.before == ""
    ensures s != "" && !IsSpace(s[|s| - 1]) ==> n.after == ""
  {
    hide Strip, IsNumeral, NumeralValue, IsSpace;
    var before, after := StripCut(s);
    var t := Strip(s);
    NumeralIsDigits(t);
    if IsNumeral(t) {
      n := Number(before, "", t, after);
      assert "" + t == t;
    } else {
      NumeralIsDigits(t[1..]);
      n := Number(before, [t[0]], t[1..], after);
      assert [t[0]] + t[1..] == t && [t[0]] in ["", "+", "-"];
    }
    if before != "" { assert s[0] == before[0]; }
    if after != "" { assert s[|s| - 1] == after[|after| - 1]; }
  }

  // ---------------------------------------------------------------- parts

  datatype BaseText = Every | Single(n: Number) | Between(first: Number, last: Number)

  /** White space, a base, a step if there is one, white space. */
  datatype PartText = PartText(before: string, base: BaseText, step: Option<Number>, after: string)

  /** A minus sign is possible only where it does not read as that of a range. */
  predicate IsBaseText(b: BaseText) {
    match b
    case Every => true
    case Single(n) => IsNumber(n) && n.sign != "-" && n.before == ""
    case Between(m, n) => IsNumber(m) && m.sign != "-" && m.before == "" && IsNumber(n)
  }

  predicate EndsTrim(b: BaseText) {
    match b
    case Every => true
    case Single(n) => n.after == ""
    case Between(_, n) => n.after == ""
  }

  predicate IsPartText(t: PartText) {
    && Spaces(t.before) && IsBaseText(t.base) && Spaces(t.after)
    && (t.step.None? ==> EndsTrim(t.base))
    && (t.step.Some? ==> IsNumber(t.step.value) && t.step.value.after == "")
  }

  function BaseString(b: BaseText): string {
    match b
    case Every => "*"
    case Single(n) => NumberText(n)
    case Between(m, n) => NumberText(m) + "-" + NumberText(n)
  }

  function Core(t: PartText): string {
    match t.step
    case None => BaseString(t.base)
    case Some(n) => BaseString(t.base) + "/" + NumberText(n)
  }

  function PartString(t: PartText): string { t.before + Core(t) + t.after }

  /** What a part stands for. */
  function Meaning(t: PartText, lo: int, hi: int): (int, int, int) {
    var step := if t.step.Some? then NumberValue(t.step.value) else 1;
    match t.base
    case Every => (lo, hi, step)
    case Single(n) => (NumberValue(n), NumberValue(n), step)
    case Between(m, n) => (NumberValue(m), NumberValue(n), step)
  }

  predicate InBounds(m: (int, int, int), lo: int, hi: int) {
    lo <= m.0 <= m.1 <= hi && m.2 >= 1
  }

  lemma NumberCharacters(n: Number)
    requires IsNumber(n)
    ensures '/' !in NumberText(n) && '*' !in NumberText(n) && (n.sign != "-" ==> '-' !in NumberText(n))
    ensures NumberText(n) != ""
  {
    hide IsSpace;
    NotSpaces();
    assert forall c :: c in NumberText(n) ==> c in n.before || c in n.sign || c in n.digits || c in n.after;
    assert n.sign + n.digits != "";
  }

  lemma NotSpaces()
    ensures !IsSpace('/') && !IsSpace('*') && !IsSpace('-')
  {
  }

  lemma NumberEnds(n: Number)
    requires IsNumber(n)
    ensures NumberText(n) != ""
    ensures n.before == "" ==> !IsSpace(NumberText(n)[0])
    ensures n.after == "" ==> !IsSpace(NumberText(n)[|NumberText(n)| - 1])
  {
    hide IsSpace;
    CoreIsTrim(n);
    var core, s := n.sign + n.digits, NumberText(n);
    if n.before == "" { assert s[0] == core[0]; }
    if n.after == "" { assert s[|s| - 1] == core[|core| - 1]; }
  }

  lemma BaseEnds(b: BaseText)
    requires IsBaseText(b)
    ensures var s := BaseString(b); '/' !in s && s != "" && !IsSpace(s[0]) && (EndsTrim(b) ==> !IsSpace(s[|s| - 1]))
  {
    hide IsSpace, IsNumber, NumberText;
    NotSpaces();
    match b
    case Every =>
    case Single(n) => NumberEnds(n); NumberCharacters(n);
    case Between(m, n) =>
      NumberEnds(m);
      NumberEnds(n);
      NumberCharacters(m);
      NumberCharacters(n);
  }

  lemma CoreEnds(t: PartText)
    requires IsPartText(t)
    ensures Trim(Core(t)) && ('/' in Core(t) <==> t.step.Some?)
  {
    hide IsSpace, IsNumber, NumberText, IsBaseText, BaseString, EndsTrim;
    BaseEnds(t.base);
    if t.step.Some? { NumberEnds(t.step.value); }
  }

  lemma BaseIsRead(b: BaseText, lo: int, hi: int)
    requires IsBaseText(b)
    ensures var m := Meaning(PartText("", b, None, ""), lo, hi);
            ParseBase(BaseString(b), lo, hi) == Success((m.0, m.1))
  {
    hide IsNumber, NumberText, ParseInt, NumberValue;
    match b
    case Every =>
    case Single(n) =>
      NumberCharacters(n);
      NumberIsRead(n);
    case Between(m, n) =>
      NumberCharacters(m);
      NumberIsRead(m);
      NumberIsRead(n);
      CutAt(NumberText(m), NumberText(n), '-');
      assert '-' in BaseString(b);
  }

  /** Every text of the grammar is read as what it stands for, and refused exactly when that is out of
    bounds or its step is not positive. */
  lemma PartIsRead(t: PartText, lo: int, hi: int)
    requires IsPartText(t)
    ensures var m := Meaning(t, lo, hi);
            if InBounds(m, lo, hi) then ParsePart(PartString(t), lo, hi) == Success(Progression(m.0, m.1, m.2))
            else ParsePart(PartString(t), lo, hi).Failure?
  {
    hide IsNumber, NumberText, ParseInt, ParseBase, NumberValue, Strip, IsBaseText, BaseString;
    CoreEnds(t);
    StripPadded(t.before, Core(t), t.after);
    BaseEnds(t.base);
    BaseIsRead(t.base, lo, hi);
    if t.step.Some? {
      CutAt(BaseString(t.base), NumberText(t.step.value), '/');
      NumberIsRead(t.step.value);
    }
  }

  lemma ReadIsBase(s: string, lo: int, hi: int) returns (b: BaseText)
    requires ParseBase(s, lo, hi).Success? && s != "" && !IsSpace(s[0])
    ensures IsBaseText(b) && BaseString(b) == s
    ensures !IsSpace(s[|s| - 1]) ==> EndsTrim(b)
  {
    hide IsSpace, ParseInt, NumberText, IsNumber;
    if s == "*" {
      b := Every;
    } else if '-' in s {
      var ends := Cut(s, '-');
      var m := ReadIsNumber(ends.0);
      var n := ReadIsNumber(ends.1);
      NumberCharacters(m);
      NumberCharacters(n);
      assert s[0] == ends.0[0] && s[|s| - 1] == ends.1[|ends.1| - 1];
      SignOf(m);
      b := Between(m, n);
    } else {
      var n := ReadIsNumber(s);
      SignOf(n);
      b := Single(n);
    }
  }

  lemma SignOf(n: Number)
    ensures '-' !in NumberText(n) ==> n.sign != "-"
  {
    if n.sign == "-" { assert NumberText(n)[|n.before|] == '-'; }
  }

  /** And every accepted text is one of the grammar. */
  lemma ReadIsPart(raw: string, lo: int, hi: int) returns (t: PartText)
    requires ParsePart(raw, lo, hi).Success?
    ensures IsPartText(t) && PartString(t) == raw
  {
    hide IsSpace, ParseInt, ParseBase, NumberText, IsNumber, Strip, BaseString, IsBaseText, EndsTrim;
    var before, after := StripCut(raw);
    var part := Strip(raw);
    if '/' in part {
      var pieces := Cut(part, '/');
      var n := ReadIsNumber(pieces.1);
      NumberCharacters(n);
      assert part[|part| - 1] == pieces.1[|pieces.1| - 1];
      BaseIsNotEmpty(pieces.0, lo, hi);
      assert part[0] == pieces.0[0];
      var b := ReadIsBase(pieces.0, lo, hi);
      t := PartText(before, b, Some(n), after);
    } else {
      var b := ReadIsBase(part, lo, hi);
      t := PartText(before, b, None, after);
    }
  }

  lemma BaseIsNotEmpty(s: string, lo: int, hi: int)
    ensures ParseBase(s, lo, hi).Success? ==> s != ""
  {
    assert Strip("") == "" && !IsNumeral("");
  }

  ghost predicate Spells(t: PartText, raw: string, m: (int, int, int), lo: int, hi: int) {
    IsPartText(t) && PartString(t) == raw && Meaning(t, lo, hi) == m
  }

  /** The grammar of parts: a text is accepted as a progression if and only if it is in bounds with a
    positive step and some text of the grammar that stands for it spells the part. */
  lemma PartGrammar(raw: string, lo: int, hi: int, p: Progression)
    ensures ParsePart(raw, lo, hi) == Success(p) <==>
      InBounds((p.first, p.last, p.step), lo, hi) && exists t :: Spells(t, raw, (p.first, p.last, p.step), lo, hi)
  {
    hide IsPartText, PartString, Meaning, ParsePart;
    if ParsePart(raw, lo, hi) == Success(p) {
      var t := ReadIsPart(raw, lo, hi);
      PartIsRead(t, lo, hi);
      assert Spells(t, raw, Meaning(t, lo, hi), lo, hi);
    }
    forall t | Spells(t, raw, (p.first, p.last, p.step), lo, hi) && InBounds((p.first, p.last, p.step), lo, hi)
      ensures ParsePart(raw, lo, hi) == Success(p)
    {
      PartIsRead(t, lo, hi);
    }
  }

  function Plain(sign: string, digits: string): Number { Number("", sign, digits, "") }

  /** Texts outside the documented syntax that are accepted: a step after a single value, a plus sign, an
    underscore, and a minus sign before a zero that ends a range. */
  lemma BeyondTheDocumentation()
    ensures ParsePart("5/2", 0, 59) == Success(Progression(5, 5, 2))
    ensures ParsePart("+5", 0, 59) == Success(Progression(5, 5, 1))
    ensures ParsePart("1_0", 0, 59) == Success(Progression(10, 10, 1))
    ensures ParsePart("0--0", 0, 59) == Success(Progression(0, 0, 1))
  {
    hide ParsePart;
    StepAfterValue();
    PlusSign();
    Underscore();
    MinusZero();
  }

  lemma StepAfterValue()
    ensures ParsePart("5/2", 0, 59) == Success(Progression(5, 5, 2))
  {
    hide ParsePart, NumberText, DigitsValue, Digits;
    SmallNumbers();
    PlainText("", "5");
    PlainText("", "2");
    BarePart(Single(Plain("", "5")), Some(Plain("", "2")), "5/2");
  }

  lemma PlusSign()
    ensures ParsePart("+5", 0, 59) == Success(Progression(5, 5, 1))
  {
    hide ParsePart, NumberText, DigitsValue, Digits;
    SmallNumbers();
    PlainText("+", "5");
    BarePart(Single(Plain("+", "5")), None, "+5");
  }

  lemma Underscore()
    ensures ParsePart("1_0", 0, 59) == Success(Progression(10, 10, 1))
  {
    hide ParsePart, NumberText, DigitsValue, Digits;
    SmallNumbers();
    PlainText("", "1_0");
    BarePart(Single(Plain("", "1_0")), None, "1_0");
  }

  lemma MinusZero()
    ensures ParsePart("0--0", 0, 59) == Success(Progression(0, 0, 1))
  {
    hide ParsePart, NumberText, DigitsValue, Digits;
    SmallNumbers();
    PlainText("", "0");
    PlainText("-", "0");
    BarePart(Between(Plain("", "0"), Plain("-", "0")), None, "0--0");
  }

  lemma PlainText(sign: string, digits: string)
    ensures NumberText(Plain(sign, digits)) == sign + digits
  {
  }

  /** A part without white space around it. */
  lemma BarePart(base: BaseText, step: Option<Number>, text: string)
    requires var t := PartText("", base, step, ""); IsPartText(t) && Core(t) == text && InBounds(Meaning(t, 0, 59), 0, 59)
    ensures var m := Meaning(PartText("", base, step, ""), 0, 59);
            ParsePart(text, 0, 59) == Success(Progression(m.0, m.1, m.2))
  {
    hide ParsePart, IsPartText, Core;
    var t := PartText("", base, step, "");
    assert PartString(t) == text;
    PartIsRead(t, 0, 59);
  }

  lemma SmallNumbers()
    ensures DigitsValue("0") == 0 && DigitsValue("2") == 2 && DigitsValue("5") == 5 && DigitsValue("1_0") == 10
    ensures Digits("0") && Digits("2") && Digits("5") && Digits("1_0")
  {
    assert "1_0"[..2] == "1_" && "1_"[..1] == "1";
  }
}

/** One field of a cron expression: the parser of `_parse_field` and what it denotes. */
module CronField {
  import opened Arithmetic
  import opened Text

  // ---------------------------------------------------------------- Python string helpers

  function StripLeft(s: string): string {
    if s != "" && IsSpace(s[0]) then StripLeft(s[1..]) else s
  }

  function StripRight(s: string): string {
    if s != "" && IsSpace(s[|s| - 1]) then StripRight(s[..|s| - 1]) else s
  }

  function Strip(s: string): string {
    StripRight(StripLeft(s))
  }

  /** `s.split(sep, 1)` for a text that holds sep: the parts before and after its first occurrence. */
  function Cut(s: string, sep: char): (r: (string, string))
    requires sep in s
    ensures s == r.0 + [sep] + r.1 && sep !in r.0
  {
    if s[0] == sep then ("", s[1..])
    else
      var r := Cut(s[1..], sep);
      assert s == [s[0]] + s[1..];
      ([s[0]] + r.0, r.1)
  }

  predicate IsDigit(c: char) { '0' <= c <= '9' }

  /** Decimal digits with single underscores allowed between them, as `int` reads them. */
  predicate IsNumeral(s: string) {
    |s| >= 1 && IsDigit(s[|s| - 1]) &&
    (|s| == 1
     || (|s| >= 3 && s[|s| - 2] == '_' && IsNumeral(s[..|s| - 2]))
     || IsNumeral(s[..|s| - 1]))
  }

  function NumeralValue(s: string): int
    requires IsNumeral(s)
  {
    var d := s[|s| - 1] as int - '0' as int;
    if |s| == 1 then d
    else if IsNumeral(s[..|s| - 1]) then 10 * NumeralValue(s[..|s| - 1]) + d
    else 10 * NumeralValue(s[..|s| - 2]) + d
  }

  /** `int(s)`; None where it raises ValueError. */
  function ParseInt(s: string): Option<int> {
    var t := Strip(s);
    if IsNumeral(t) then Some(NumeralValue(t))
    else if |t| >= 1 && t[0] == '+' && IsNumeral(t[1..]) then Some(NumeralValue(t[1..]))
    else if |t| >= 1 && t[0] == '-' && IsNumeral(t[1..]) then Some(-NumeralValue(t[1..]))
    else None
  }

  // ---------------------------------------------------------------- the field parser

  datatype FieldError = EmptyPart | BadStep | BadRange | BadValue | OutOfRange | NoValues

  /** The values first, first + step, ... up to last. */
  datatype Progression = Progression(first: int, last: int, step: nat)

  predicate Reaches(p: Progression, v: int) {
    p.step > 0 && p.first <= v <= p.last && (v - p.first) % p.step == 0
  }

  function Members(p: Progression): set<int> {
    set v | p.first <= v <= p.last && Reaches(p, v)
  }

  function ParseBase(base: string, lo: int, hi: int): Result<(int, int), FieldError> {
    if base == "*" then Success((lo, hi))
    else if '-' in base then
      var ends := Cut(base, '-');
      match (ParseInt(ends.0), ParseInt(ends.1))
      case (Some(a), Some(b)) => Success((a, b))
      case _ => Failure(BadRange)
    else
      match ParseInt(base)
      case Some(a) => Success((a, a))
      case None => Failure(BadValue)
  }

  /** One comma-separated part, up to and including its bounds test. */
  function ParsePart(raw: string, lo: int, hi: int): (r: Result<Progression, FieldError>)
    ensures r.Success? ==> lo <= r.value.first <= r.value.last <= hi && r.value.step > 0
    ensures r != Failure(NoValues)
  {
    var part := Strip(raw);
    if part == "" then Failure(EmptyPart)
    else
      var (base, step) := if '/' in part
                          then (Cut(part, '/').0, ParseInt(Cut(part, '/').1))
                          else (part, Some(1));
      if step == None || step.value <= 0 then Failure(BadStep)
      else
        match ParseBase(base, lo, hi)
        case Failure(e) => Failure(e)
        case Success((a, b)) =>
          if a > b || a < lo || b > hi then Failure(OutOfRange) else Success(Progression(a, b, step.value))
  }

  type Parsed = Result<Progression, FieldError>

  function ParseParts(parts: seq<string>, lo: int, hi: int): (rs: seq<Parsed>)
    ensures |rs| == |parts| && forall i :: 0 <= i < |parts| ==> rs[i] == ParsePart(parts[i], lo, hi)
  {
    seq(|parts|, i requires 0 <= i < |parts| => ParsePart(parts[i], lo, hi))
  }

  /** The meaning of a list of parsed parts: the first error, or the union of the progressions. */
  function Combine(rs: seq<Parsed>): Result<set<int>, FieldError> {
    if rs == [] then Success({})
    else
      var init := Combine(rs[..|rs| - 1]);
      if init.Failure? then init
      else
        match rs[|rs| - 1]
        case Failure(e) => Failure(e)
        case Success(p) => Success(init.value + Members(p))
  }

  function Field(expr: string, lo: int, hi: int): Result<set<int>, FieldError> {
    Combine(ParseParts(Split(expr, ','), lo, hi))
  }

  /** The inner loop `for value in range(first, last + 1, step): values.add(value)`. */
  method AddProgression(before: set<int>, p: Progression) returns (values: set<int>)
    requires p.step > 0
    ensures values == before + Members(p)
  {
    values := before;
    var value := p.first;
    while value <= p.last
      invariant p.first <= value && (value - p.first) % p.step == 0
      invariant values == before + set v | p.first <= v < value && v <= p.last && Reaches(p, v)
      decreases p.last + p.step - value
    {
      NoneBetween(p, value);
      values := values + {value};
      value := value + p.step;
    }
  }

  /** `_parse_field`: the loop over parts filling `values`. The final emptiness test never fires. */
  method ParseField(expr: string, lo: int, hi: int) returns (r: Result<set<int>, FieldError>)
    ensures r == Field(expr, lo, hi)
    ensures r != Failure(NoValues)
  {
    hide ParsePart;
    var values: set<int> := {};
    var parts := Split(expr, ',');
    ghost var rs := ParseParts(parts, lo, hi);
    for i := 0 to |parts|
      invariant Combine(rs[..i]) == Success(values)
      invariant i > 0 ==> values != {}
    {
      assert rs[..i + 1][..i] == rs[..i];
      var part := ParsePart(parts[i], lo, hi);
      if part.Failure? {
        PrefixFailure(rs, i + 1);
        return Failure(part.error);
      }
      values := AddProgression(values, part.value);
      assert part.value.first in Members(part.value);
    }
    assert rs[..|rs|] == rs;
    if values == {} {
      return Failure(NoValues);
    }
    return Success(values);
  }

  lemma NoneBetween(p: Progression, value: int)
    requires p.step > 0 && p.first <= value && (value - p.first) % p.step == 0
    ensures forall v :: value < v < value + p.step ==> !Reaches(p, v)
    ensures (value + p.step - p.first) % p.step == 0
  {
    var q := (value - p.first) / p.step;
    assert value - p.first == q * p.step;
    forall v | value < v < value + p.step ensures !Reaches(p, v) {
      QuotientRemainder(q, p.step, v - value);
    }
    assert q * p.step + p.step == (q + 1) * p.step;
    QuotientRemainder(q + 1, p.step, 0);
  }

  lemma {:induction false} PrefixFailure(rs: seq<Parsed>, k: nat)
    requires k <= |rs| && Combine(rs[..k]).Failure?
    ensures Combine(rs) == Combine(rs[..k])
    decreases |rs|
  {
    if k < |rs| {
      var init := rs[..|rs| - 1];
      assert init[..k] == rs[..k];
      PrefixFailure(init, k);
    } else {
      assert rs[..k] == rs;
    }
  }
}

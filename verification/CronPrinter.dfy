/** What an accepted field means, and a printer for the documented field syntax that the parser
  inverts on every input, in range or not. */
module CronPrinter {
  import opened Text
  import opened CronField

  predicate AllParse(rs: seq<Parsed>) {
    forall i :: 0 <= i < |rs| ==> rs[i].Success?
  }

  predicate SomeReaches(rs: seq<Parsed>, v: int) {
    exists i :: 0 <= i < |rs| && rs[i].Success? && Reaches(rs[i].value, v)
  }

  lemma {:induction false} AcceptedIffAllParse(rs: seq<Parsed>)
    ensures Combine(rs).Success? <==> AllParse(rs)
  {
    if rs != [] {
      var k := |rs| - 1;
      AcceptedIffAllParse(rs[..k]);
      assert AllParse(rs) <==> AllParse(rs[..k]) && rs[k].Success?;
    }
  }

  lemma {:induction false} AcceptedIsUnion(rs: seq<Parsed>, v: int)
    requires Combine(rs).Success?
    ensures v in Combine(rs).value <==> SomeReaches(rs, v)
  {
    if rs != [] {
      var k := |rs| - 1;
      AcceptedIsUnion(rs[..k], v);
      assert rs[..k] + [rs[k]] == rs;
      assert SomeReaches(rs, v) <==> SomeReaches(rs[..k], v) || (rs[k].Success? && Reaches(rs[k].value, v));
    }
  }

  /** A field is accepted exactly when each comma part is, and then holds exactly the values its
    parts' progressions reach: never none, and all between lo and hi. */
  lemma FieldMeaning(expr: string, lo: int, hi: int)
    ensures var rs, r := ParseParts(Split(expr, ','), lo, hi), Field(expr, lo, hi);
            && (r.Success? <==> AllParse(rs))
            && (r.Success? ==>
                  && (forall v :: v in r.value <==> SomeReaches(rs, v))
                  && (forall v :: v in r.value ==> lo <= v <= hi)
                  && (exists v :: v in r.value))
  {
    var rs := ParseParts(Split(expr, ','), lo, hi);
    AcceptedIffAllParse(rs);
    if AllParse(rs) {
      forall v
        ensures v in Combine(rs).value <==> SomeReaches(rs, v)
      {
        AcceptedIsUnion(rs, v);
      }
      assert rs[0].Success? && Reaches(rs[0].value, rs[0].value.first);
      assert rs[0].value.first in Combine(rs).value;
    }
  }

  /** `*` stands for the whole range. */
  lemma StarIsFull(lo: int, hi: int)
    requires lo <= hi
    ensures Field("*", lo, hi).Success?
    ensures forall v :: v in Field("*", lo, hi).value <==> lo <= v <= hi
  {
    SplitWithout("*", ',');
    FieldMeaning("*", lo, hi);
    StripNothing("*");
    var rs := ParseParts(["*"], lo, hi);
    assert rs[0] == Success(Progression(lo, hi, 1));
    forall v | lo <= v <= hi
      ensures v in Field("*", lo, hi).value
    {
      assert Reaches(rs[0].value, v);
    }
  }

  // ---------------------------------------------------------------- the printer

  datatype Base = Star | One(n: nat) | Span(from: nat, to: nat)

  datatype Item = Item(base: Base, step: Option<nat>)

  function ShowNat(n: nat): (s: string)
    ensures |s| >= 1 && forall i :: 0 <= i < |s| ==> IsDigit(s[i])
  {
    var digit := ['0' + (n % 10) as char];
    if n < 10 then digit else ShowNat(n / 10) + digit
  }

  function ShowBase(b: Base): string {
    match b
    case Star => "*"
    case One(n) => ShowNat(n)
    case Span(from, to) => ShowNat(from) + "-" + ShowNat(to)
  }

  function ShowItem(it: Item): string {
    match it.step
    case None => ShowBase(it.base)
    case Some(step) => ShowBase(it.base) + "/" + ShowNat(step)
  }

  function ShowField(items: seq<Item>): string {
    Join(seq(|items|, i requires 0 <= i < |items| => ShowItem(items[i])), ',')
  }

  function Bounds(b: Base, lo: int, hi: int): (int, int) {
    match b
    case Star => (lo, hi)
    case One(n) => (n, n)
    case Span(from, to) => (from, to)
  }

  /** The item is one the parser should accept. */
  predicate Proper(it: Item, lo: int, hi: int) {
    var (first, last) := Bounds(it.base, lo, hi);
    it.step != Some(0) && lo <= first <= last <= hi
  }

  /** The values a documented item stands for, stated without the parser. */
  predicate Covers(it: Item, lo: int, hi: int, v: int)
    requires Proper(it, lo, hi)
  {
    var (first, last) := Bounds(it.base, lo, hi);
    first <= v <= last && (it.step.Some? ==> (v - first) % it.step.value == 0)
  }

  lemma {:induction false} ShowNatParses(n: nat)
    ensures IsNumeral(ShowNat(n)) && NumeralValue(ShowNat(n)) == n
  {
    var s := ShowNat(n);
    if n >= 10 {
      ShowNatParses(n / 10);
      assert s[..|s| - 1] == ShowNat(n / 10);
    }
  }

  lemma {:induction false} StripLeftNothing(s: string)
    requires forall i :: 0 <= i < |s| ==> !IsSpace(s[i])
    ensures StripLeft(s) == s && StripRight(s) == s
  {
  }

  lemma StripNothing(s: string)
    requires forall i :: 0 <= i < |s| ==> !IsSpace(s[i])
    ensures Strip(s) == s
  {
    StripLeftNothing(s);
  }

  lemma ParseShownNat(n: nat)
    ensures ParseInt(ShowNat(n)) == Some(n)
  {
    StripNothing(ShowNat(n));
    ShowNatParses(n);
  }

  lemma {:induction false} CutAt(before: string, after: string, sep: char)
    requires sep !in before
    ensures Cut(before + [sep] + after, sep) == (before, after)
  {
    var s := before + [sep] + after;
    if before == "" {
      assert s[1..] == after;
    } else {
      assert s[1..] == before[1..] + [sep] + after;
      CutAt(before[1..], after, sep);
      assert [s[0]] + before[1..] == before;
    }
  }

  lemma ParseShownBase(b: Base, lo: int, hi: int)
    ensures ParseBase(ShowBase(b), lo, hi) == Success(Bounds(b, lo, hi))
  {
    match b
    case Star =>
    case One(n) =>
      ParseShownNat(n);
      assert IsDigit(ShowNat(n)[0]);
    case Span(from, to) =>
      ParseShownNat(from);
      ParseShownNat(to);
      CutAt(ShowNat(from), ShowNat(to), '-');
      assert IsDigit(ShowBase(b)[0]);
  }

  lemma ItemCharacters(it: Item)
    ensures var s := ShowItem(it); |s| >= 1 && forall i :: 0 <= i < |s| ==> IsDigit(s[i]) || s[i] in "*-/"
    ensures '/' !in ShowBase(it.base)
  {
  }

  lemma ParseShownItem(it: Item, lo: int, hi: int)
    ensures var (first, last) := Bounds(it.base, lo, hi);
            ParsePart(ShowItem(it), lo, hi) ==
            if it.step == Some(0) then Failure(BadStep)
            else if first > last || first < lo || last > hi then Failure(OutOfRange)
            else Success(Progression(first, last, if it.step.Some? then it.step.value else 1))
  {
    hide ParseInt, ParseBase, Cut, Strip, ShowBase;
    ItemCharacters(it);
    StripNothing(ShowItem(it));
    ParseShownBase(it.base, lo, hi);
    if it.step.Some? {
      CutAt(ShowBase(it.base), ShowNat(it.step.value), '/');
      ParseShownNat(it.step.value);
    }
  }

  /** The parser reads a printed item as what the item stands for, and refuses exactly the improper ones. */
  lemma ItemRoundTrip(it: Item, lo: int, hi: int)
    ensures var r := ParsePart(ShowItem(it), lo, hi);
            && (r.Success? <==> Proper(it, lo, hi))
            && (r.Success? ==> forall v :: Reaches(r.value, v) <==> Covers(it, lo, hi, v))
  {
    hide ParsePart, ShowItem;
    ParseShownItem(it, lo, hi);
  }

  /** Printing any nonempty list of items and parsing it back gives the union of what the items
    stand for; it is refused exactly when some item is improper. */
  lemma FieldRoundTrip(items: seq<Item>, lo: int, hi: int)
    requires |items| >= 1
    ensures var r := Field(ShowField(items), lo, hi);
            && (r.Success? <==> forall i :: 0 <= i < |items| ==> Proper(items[i], lo, hi))
            && (r.Success? ==> forall v :: v in r.value <==>
                  exists i :: 0 <= i < |items| && Covers(items[i], lo, hi, v))
  {
    hide ParsePart, ShowItem, Combine, Covers, Reaches, Proper;
    var shown := seq(|items|, i requires 0 <= i < |items| => ShowItem(items[i]));
    forall i | 0 <= i < |items|
      ensures ',' !in shown[i]
    {
      ItemCharacters(items[i]);
    }
    SplitJoin(shown, ',');
    FieldMeaning(ShowField(items), lo, hi);
    var rs := ParseParts(shown, lo, hi);
    forall i | 0 <= i < |items|
      ensures rs[i].Success? <==> Proper(items[i], lo, hi)
      ensures rs[i].Success? ==> forall v :: Reaches(rs[i].value, v) <==> Covers(items[i], lo, hi, v)
    {
      ItemRoundTrip(items[i], lo, hi);
    }
    PairsUp(rs, items, lo, hi);
  }

  lemma PairsUp(rs: seq<Parsed>, items: seq<Item>, lo: int, hi: int)
    requires |rs| == |items|
    requires forall i :: 0 <= i < |items| ==> (rs[i].Success? <==> Proper(items[i], lo, hi))
    requires forall i :: 0 <= i < |items| && rs[i].Success? ==>
      forall v :: Reaches(rs[i].value, v) <==> Covers(items[i], lo, hi, v)
    ensures AllParse(rs) <==> forall i :: 0 <= i < |items| ==> Proper(items[i], lo, hi)
    ensures AllParse(rs) ==> forall v :: SomeReaches(rs, v) <==>
      exists i :: 0 <= i < |items| && Covers(items[i], lo, hi, v)
  {
    if AllParse(rs) {
      forall v
        ensures SomeReaches(rs, v) <==> exists i :: 0 <= i < |items| && Covers(items[i], lo, hi, v)
      {
      }
    }
  }

  function Singles(values: seq<nat>): (items: seq<Item>)
    ensures |items| == |values| && forall i :: 0 <= i < |values| ==> items[i] == Item(One(values[i]), None)
  {
    seq(|values|, i requires 0 <= i < |values| => Item(One(values[i]), None))
  }

  /** Any nonempty set of in-range values, written as a comma list in any order, parses back to itself. */
  lemma ListRoundTrip(values: seq<nat>, lo: int, hi: int)
    requires |values| >= 1 && forall i :: 0 <= i < |values| ==> lo <= values[i] <= hi
    ensures var r := Field(ShowField(Singles(values)), lo, hi);
            r.Success? && forall v: int :: v in r.value <==> v in values
  {
    var items := Singles(values);
    FieldRoundTrip(items, lo, hi);
    forall i, v | 0 <= i < |values|
      ensures Proper(items[i], lo, hi) && (Covers(items[i], lo, hi, v) <==> v == values[i])
    {
    }
  }
}

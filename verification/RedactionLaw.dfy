/** Exactly which tables of bracket-free patterns redact to a normal form.

  A bracket-free match never crosses a bracket. So after every pass the text is made of stretches of
  the original in which no pattern that ran matches, and of markers as the passes after theirs left
  them, and a match lies within one of these. */
module RedactionLaw {
  import opened Redaction

  /** The pattern matches no bracket, and what follows a bracket has no part in its choice of a match. */
  ghost predicate BracketFree(p: Pattern) {
    && (forall w :: p.accepts(w) ==> Bracketless(w))
    && (forall s: string, k :: 0 <= k < |s| && IsBracket(s[k]) ==> p.prefers(s) == p.prefers(s[..k]))
  }

  ghost predicate AllBracketFree(ps: seq<Pattern>) {
    forall i :: 0 <= i < |ps| ==> BracketFree(ps[i])
  }

  // ---------------------------------------------------------------- brackets separate

  lemma OccursAcross(p: Pattern, a: string, c: char, b: string)
    requires BracketFree(p) && IsBracket(c)
    ensures Occurs(p, a + [c] + b) <==> Occurs(p, a) || Occurs(p, b)
  {
    var o, n := a + [c] + b, |a|;
    forall i, j | 0 <= i < j <= |o|
      ensures p.accepts(o[i..j]) ==> Occurs(p, a) || Occurs(p, b)
    {
      var w := o[i..j];
      if i <= n < j {
        assert w[n - i] == o[n] == c;
      } else if j <= n {
        assert w == a[i..j];
      } else {
        assert w == b[i - n - 1..j - n - 1];
      }
    }
    if Occurs(p, a) {
      OccursInLonger(p, a, [c] + b);
      assert a + ([c] + b) == o;
    }
    if Occurs(p, b) {
      assert o[n + 1..] == b;
      OccursInSuffix(p, o, n + 1);
    }
  }

  lemma NoneAcross(p: Pattern, a: string, c: char, b: string)
    requires BracketFree(p) && IsBracket(c)
    ensures var o := a + [c] + b; forall j :: |a| < j <= |o| ==> !p.accepts(o[..j])
  {
    var o := a + [c] + b;
    forall j | |a| < j <= |o| ensures !p.accepts(o[..j]) { assert o[..j][|a|] == c; }
  }

  /** The match taken at the start of a text does not depend on what comes after a bracket. */
  lemma SameMatch(p: Pattern, a: string, c: char, b: string)
    requires BracketFree(p) && IsBracket(c)
    ensures MatchEnd(p, a + [c] + b) == MatchEnd(p, a)
  {
    hide LongestMatch;
    var o := a + [c] + b;
    NoneAcross(p, a, c, b);
    assert o[|a|] == c && o[..|a|] == a;
    assert p.prefers(o) == p.prefers(a);
    var e, f := LongestMatch(p, a, |a|), LongestMatch(p, o, |o|);
    assert forall j :: 0 <= j <= |a| ==> o[..j] == a[..j];
    assert e == f;
  }

  lemma ReplaceStep(p: Pattern, s: string)
    requires s != ""
    ensures var e := MatchEnd(p, s);
            ReplaceAll(p, s) == if e > 0 then Marker(p.name) + ReplaceAll(p, s[e..]) else [s[0]] + ReplaceAll(p, s[1..])
  {
  }

  lemma ReplaceNothing(p: Pattern)
    ensures ReplaceAll(p, "") == ""
    ensures MatchEnd(p, "") == 0
  {
  }

  lemma TailAcross(a: string, c: char, b: string, k: nat)
    requires 0 < k <= |a|
    ensures (a + [c] + b)[k..] == a[k..] + [c] + b && (a + [c] + b)[0] == a[0]
  {
  }

  lemma Reassociate(put: string, x: string, c: char, y: string)
    ensures put + (x + [c] + y) == (put + x) + [c] + y
  {
  }

  lemma {:induction false} ReplaceAcross(p: Pattern, a: string, c: char, b: string)
    requires BracketFree(p) && IsBracket(c)
    ensures ReplaceAll(p, a + [c] + b) == ReplaceAll(p, a) + [c] + ReplaceAll(p, b)
    decreases |a|
  {
    hide BracketFree, Marker, MatchEnd, ReplaceAll;
    var o := a + [c] + b;
    SameMatch(p, a, c, b);
    ReplaceStep(p, o);
    if a == "" {
      assert o[1..] == b && o[0] == c;
      ReplaceNothing(p);
    } else {
      ReplaceStep(p, a);
      var e := MatchEnd(p, a);
      var k := if e > 0 then e else 1;
      TailAcross(a, c, b, k);
      ReplaceAcross(p, a[k..], c, b);
      Reassociate(if e > 0 then Marker(p.name) else [a[0]], ReplaceAll(p, a[k..]), c, ReplaceAll(p, b));
    }
  }

  lemma {:induction false} RedactAcross(ps: seq<Pattern>, a: string, c: char, b: string)
    requires AllBracketFree(ps) && IsBracket(c)
    ensures RedactAll(ps, a + [c] + b) == RedactAll(ps, a) + [c] + RedactAll(ps, b)
  {
    if ps != [] {
      var n := |ps| - 1;
      RedactAcross(ps[..n], a, c, b);
      ReplaceAcross(ps[n], RedactAll(ps[..n], a), c, RedactAll(ps[..n], b));
    }
  }

  function Framed(x: string): string { "[" + x + "]" }

  lemma OccursFramed(p: Pattern, a: string, x: string, b: string)
    requires BracketFree(p)
    ensures Occurs(p, a + Framed(x) + b) <==> Occurs(p, a) || Occurs(p, x) || Occurs(p, b)
  {
    hide Occurs, BracketFree;
    OccursAcross(p, a, '[', x + "]" + b);
    OccursAcross(p, x, ']', b);
    assert a + Framed(x) + b == a + ['['] + (x + "]" + b);
  }

  /** A table works on the text before, inside and after a pair of brackets separately. */
  lemma RedactFramed(ps: seq<Pattern>, a: string, x: string, b: string)
    requires AllBracketFree(ps)
    ensures RedactAll(ps, a + Framed(x) + b) == RedactAll(ps, a) + Framed(RedactAll(ps, x)) + RedactAll(ps, b)
  {
    hide RedactAll, AllBracketFree;
    RedactAcross(ps, a, '[', x + "]" + b);
    RedactAcross(ps, x, ']', b);
    assert a + Framed(x) + b == a + ['['] + (x + "]" + b);
  }

  lemma ReplaceFramed(p: Pattern, a: string, x: string, b: string)
    requires BracketFree(p)
    ensures ReplaceAll(p, a + Framed(x) + b) == ReplaceAll(p, a) + Framed(ReplaceAll(p, x)) + ReplaceAll(p, b)
  {
    hide ReplaceAll, BracketFree;
    ReplaceAcross(p, a, '[', x + "]" + b);
    ReplaceAcross(p, x, ']', b);
    assert a + Framed(x) + b == a + ['['] + (x + "]" + b);
  }

  lemma {:induction false} RedactInTwo(ps: seq<Pattern>, qs: seq<Pattern>, s: string)
    ensures RedactAll(ps + qs, s) == RedactAll(qs, RedactAll(ps, s))
  {
    if qs == [] {
      assert ps + qs == ps;
    } else {
      var n := |qs| - 1;
      assert (ps + qs)[..|ps| + n] == ps + qs[..n];
      RedactInTwo(ps, qs[..n], s);
    }
  }

  // ---------------------------------------------------------------- what a text is made of

  /** Some text makes pattern j replace something. */
  ghost predicate CanFire(ps: seq<Pattern>, j: nat)
    requires j < |ps|
  {
    exists s :: Occurs(ps[j], RedactAll(ps[..j], s))
  }

  /** The inside of pattern i's marker, as the passes after it and before pass k leave it. */
  function Inside(ps: seq<Pattern>, i: nat, k: nat): string
    requires i < k <= |ps|
  {
    RedactAll(ps[i + 1..k], Inner(ps[i].name))
  }

  /** A text after k passes: stretches of the original in turn with markers, each given by its pattern. */
  datatype Layout = End(gap: string) | Then(gap: string, mark: nat, rest: Layout)

  ghost predicate Proper(ps: seq<Pattern>, k: nat, l: Layout)
    requires k <= |ps|
  {
    && Normal(ps[..k], l.gap)
    && (l.Then? ==> l.mark < k && CanFire(ps, l.mark) && Proper(ps, k, l.rest))
  }

  ghost function Render(ps: seq<Pattern>, k: nat, l: Layout): string
    requires k <= |ps| && Proper(ps, k, l)
  {
    match l
    case End(gap) => gap
    case Then(gap, i, rest) => gap + Framed(Inside(ps, i, k)) + Render(ps, k, rest)
  }

  lemma InsideStep(ps: seq<Pattern>, i: nat, k: nat)
    requires i < k < |ps|
    ensures Inside(ps, i, k + 1) == ReplaceAll(ps[k], Inside(ps, i, k))
  {
    var qs := ps[i + 1..k + 1];
    assert qs[..|qs| - 1] == ps[i + 1..k] && qs[|qs| - 1] == ps[k];
  }

  lemma InsideStart(ps: seq<Pattern>, k: nat)
    requires k < |ps|
    ensures Framed(Inside(ps, k, k + 1)) == Marker(ps[k].name)
  {
    assert ps[k + 1..k + 1] == [];
  }

  /** l, then the marker of pattern i, then more. */
  function Glue(l: Layout, i: nat, more: Layout): Layout {
    match l
    case End(gap) => Then(gap, i, more)
    case Then(gap, j, rest) => Then(gap, j, Glue(rest, i, more))
  }

  lemma {:induction false} RenderGlue(ps: seq<Pattern>, k: nat, l: Layout, i: nat, more: Layout)
    requires k <= |ps| && Proper(ps, k, l) && Proper(ps, k, more) && i < k && CanFire(ps, i)
    ensures Proper(ps, k, Glue(l, i, more))
    ensures Render(ps, k, Glue(l, i, more)) == Render(ps, k, l) + Framed(Inside(ps, i, k)) + Render(ps, k, more)
  {
    hide CanFire, Inside, Normal, Framed;
    if l.Then? {
      RenderGlue(ps, k, l.rest, i, more);
      var frame, m := Framed(Inside(ps, l.mark, k)), Framed(Inside(ps, i, k));
      assert l.gap + frame + (Render(ps, k, l.rest) + m + Render(ps, k, more))
          == (l.gap + frame + Render(ps, k, l.rest)) + m + Render(ps, k, more);
    }
  }

  /** What occurs in a gap occurs in the text woven from it. */
  lemma {:induction false} OccursInWeave(p: Pattern, gaps: seq<string>, words: seq<string>, i: nat)
    requires |gaps| == |words| + 1 && i < |gaps| && Occurs(p, gaps[i])
    ensures Occurs(p, Weave(gaps, words))
  {
    hide Occurs;
    if words != [] {
      var s := Weave(gaps, words);
      if i == 0 {
        OccursInLonger(p, gaps[0], words[0] + Weave(gaps[1..], words[1..]));
        assert gaps[0] + (words[0] + Weave(gaps[1..], words[1..])) == s;
      } else {
        OccursInWeave(p, gaps[1..], words[1..], i - 1);
        assert s[|gaps[0] + words[0]|..] == Weave(gaps[1..], words[1..]);
        OccursInSuffix(p, s, |gaps[0] + words[0]|);
      }
    }
  }

  function FromGaps(gaps: seq<string>, k: nat): Layout
    requires gaps != []
  {
    if |gaps| == 1 then End(gaps[0]) else Then(gaps[0], k, FromGaps(gaps[1..], k))
  }

  lemma {:induction false} RenderGaps(ps: seq<Pattern>, k: nat, gaps: seq<string>)
    requires k < |ps| && CanFire(ps, k) && gaps != []
    requires forall i :: 0 <= i < |gaps| ==> Normal(ps[..k + 1], gaps[i])
    ensures Proper(ps, k + 1, FromGaps(gaps, k))
    ensures Render(ps, k + 1, FromGaps(gaps, k)) == Weave(gaps, Repeat(Marker(ps[k].name), |gaps| - 1))
  {
    hide Normal, CanFire, Inside, Framed, Marker;
    if |gaps| > 1 {
      var m := Marker(ps[k].name);
      RenderGaps(ps, k, gaps[1..]);
      InsideStart(ps, k);
      assert Repeat(m, |gaps| - 1)[1..] == Repeat(m, |gaps| - 2);
    }
  }

  /** A pass over one stretch of the original. */
  lemma LayGap(ps: seq<Pattern>, k: nat, gap: string) returns (l: Layout)
    requires k < |ps| && Normal(ps[..k], gap) && (Occurs(ps[k], gap) ==> CanFire(ps, k))
    ensures Proper(ps, k + 1, l) && Render(ps, k + 1, l) == ReplaceAll(ps[k], gap)
  {
    hide Occurs, CanFire, ReplaceAll;
    var p, qs := ps[k], ps[..k + 1];
    assert qs == ps[..k] + [p];
    if Occurs(p, gap) {
      var gaps, words := ReplacementIsExact(p, gap);
      forall i | 0 <= i < |gaps|
        ensures Normal(qs, gaps[i])
      {
        forall a | 0 <= a < |qs|
          ensures !Occurs(qs[a], gaps[i])
        {
          if a < k && Occurs(qs[a], gaps[i]) {
            assert ps[..k][a] == qs[a];
            OccursInWeave(qs[a], gaps, words, i);
          }
        }
      }
      l := FromGaps(gaps, k);
      RenderGaps(ps, k, gaps);
    } else {
      NothingToReplace(p, gap);
      l := End(gap);
      forall a | 0 <= a < |qs|
        ensures !Occurs(qs[a], gap)
      {
        if a < k { assert ps[..k][a] == qs[a]; }
      }
    }
  }

  /** A pass over the whole text. */
  lemma {:induction false} LayPass(ps: seq<Pattern>, k: nat, l: Layout) returns (l': Layout)
    requires k < |ps| && AllBracketFree(ps) && Proper(ps, k, l)
    requires Occurs(ps[k], Render(ps, k, l)) ==> CanFire(ps, k)
    ensures Proper(ps, k + 1, l') && Render(ps, k + 1, l') == ReplaceAll(ps[k], Render(ps, k, l))
    decreases l
  {
    hide Occurs, CanFire, Normal, Inside, Framed;
    var p := ps[k];
    match l
    case End(gap) =>
      l' := LayGap(ps, k, gap);
    case Then(gap, i, rest) =>
      OccursFramed(p, gap, Inside(ps, i, k), Render(ps, k, rest));
      ReplaceFramed(p, gap, Inside(ps, i, k), Render(ps, k, rest));
      InsideStep(ps, i, k);
      var first := LayGap(ps, k, gap);
      var more := LayPass(ps, k, rest);
      RenderGlue(ps, k + 1, first, i, more);
      l' := Glue(first, i, more);
  }

  /** Every redacted text has such a layout. */
  lemma {:induction false} LayText(ps: seq<Pattern>, k: nat, s: string) returns (l: Layout)
    requires k <= |ps| && AllBracketFree(ps)
    ensures Proper(ps, k, l) && Render(ps, k, l) == RedactAll(ps[..k], s)
  {
    hide Occurs, ReplaceAll, AllBracketFree;
    if k == 0 {
      l := End(s);
    } else {
      var before := LayText(ps, k - 1, s);
      l := LayPass(ps, k - 1, before);
      assert ps[..k][..k - 1] == ps[..k - 1];
    }
  }

  /** A match in a laid out text lies in a stretch of the original or inside a marker. */
  lemma {:induction false} MatchInLayout(ps: seq<Pattern>, k: nat, l: Layout, q: Pattern) returns (inGap: bool, gap: string, i: nat)
    requires k <= |ps| && Proper(ps, k, l) && BracketFree(q) && Occurs(q, Render(ps, k, l))
    ensures if inGap then Normal(ps[..k], gap) && Occurs(q, gap) else i < k && CanFire(ps, i) && Occurs(q, Inside(ps, i, k))
    decreases l
  {
    hide Occurs, CanFire, Normal, Inside, Framed, BracketFree;
    inGap, gap, i := true, l.gap, 0;
    if l.Then? {
      OccursFramed(q, l.gap, Inside(ps, l.mark, k), Render(ps, k, l.rest));
      if Occurs(q, Inside(ps, l.mark, k)) {
        inGap, i := false, l.mark;
      } else if !Occurs(q, l.gap) {
        inGap, gap, i := MatchInLayout(ps, k, l.rest, q);
      }
    }
  }

  // ---------------------------------------------------------------- the law

  /** Where pattern j fires, its marker is in the text, and at the end what later passes made of it. */
  lemma MarkerStays(ps: seq<Pattern>, j: nat, s: string, q: Pattern)
    requires AllBracketFree(ps) && j < |ps| && BracketFree(q) && Occurs(ps[j], RedactAll(ps[..j], s))
    requires Occurs(q, Inside(ps, j, |ps|))
    ensures Occurs(q, RedactAll(ps, s))
  {
    hide Occurs, RedactAll, ReplaceAll, BracketFree;
    var p, t, later := ps[j], RedactAll(ps[..j], s), ps[j + 1..];
    var gaps, words := ReplacementIsExact(p, t);
    var marks := Repeat(Marker(p.name), |words|);
    assert words != [];
    var more := Weave(gaps[1..], marks[1..]);
    assert ReplaceAll(p, t) == gaps[0] + Framed(Inner(p.name)) + more;
    RedactFramed(later, gaps[0], Inner(p.name), more);
    OccursFramed(q, RedactAll(later, gaps[0]), RedactAll(later, Inner(p.name)), RedactAll(later, more));
    assert ps[j + 1..|ps|] == later;
    assert ps == ps[..j + 1] + later;
    RedactInTwo(ps[..j + 1], later, s);
    OnePassMore(ps, j, s);
  }

  /** Redaction reaches a normal form on every text if and only if, for each pattern that can fire at all,
    no pattern of the table matches in its marker as the passes after it leave it. */
  lemma TableLaw(ps: seq<Pattern>)
    requires AllBracketFree(ps)
    ensures (forall s :: Normal(ps, RedactAll(ps, s))) <==>
      (forall j :: 0 <= j < |ps| && CanFire(ps, j) ==> Normal(ps, Inside(ps, j, |ps|)))
  {
    hide Occurs, RedactAll, Inside, CanFire, BracketFree;
    if forall j :: 0 <= j < |ps| && CanFire(ps, j) ==> Normal(ps, Inside(ps, j, |ps|)) {
      forall s, a | 0 <= a < |ps|
        ensures !Occurs(ps[a], RedactAll(ps, s))
      {
        CleanText(ps, s, a);
      }
    } else {
      var j :| 0 <= j < |ps| && CanFire(ps, j) && !Normal(ps, Inside(ps, j, |ps|));
      var a :| 0 <= a < |ps| && Occurs(ps[a], Inside(ps, j, |ps|));
      var s := FiringText(ps, j);
      MarkerStays(ps, j, s, ps[a]);
      assert !Normal(ps, RedactAll(ps, s));
    }
  }

  lemma FiringText(ps: seq<Pattern>, j: nat) returns (s: string)
    requires j < |ps| && CanFire(ps, j)
    ensures Occurs(ps[j], RedactAll(ps[..j], s))
  {
    s :| Occurs(ps[j], RedactAll(ps[..j], s));
  }

  lemma CleanText(ps: seq<Pattern>, s: string, a: nat)
    requires AllBracketFree(ps) && a < |ps|
    requires forall j :: 0 <= j < |ps| && CanFire(ps, j) ==> Normal(ps, Inside(ps, j, |ps|))
    ensures !Occurs(ps[a], RedactAll(ps, s))
  {
    hide Occurs, RedactAll, Inside, CanFire, BracketFree;
    var n := |ps|;
    var l := LayText(ps, n, s);
    assert ps[..n] == ps;
    if Occurs(ps[a], RedactAll(ps, s)) {
      var inGap, gap, i := MatchInLayout(ps, n, l, ps[a]);
      assert false;
    }
  }

  /** Whether a pattern can fire is settled by its words and the markers before it: it can if it has a word
    that the patterns before it leave alone, or if it matches in the marker of an earlier pattern that can
    fire, as the passes between them leave it; and in no other way. */
  lemma FiresIff(ps: seq<Pattern>, j: nat)
    requires AllBracketFree(ps) && j < |ps|
    ensures CanFire(ps, j) <==>
      || (exists w :: w != "" && ps[j].accepts(w) && Normal(ps[..j], w))
      || (exists i: nat :: i < j && CanFire(ps, i) && Occurs(ps[j], Inside(ps, i, j)))
  {
    hide Occurs, RedactAll, Inside, BracketFree, Normal;
    var p := ps[j];
    if CanFire(ps, j) {
      var s := FiringText(ps, j);
      var l := LayText(ps, j, s);
      var inGap, gap, i := MatchInLayout(ps, j, l, p);
      if inGap {
        var w := MatchedWord(ps[..j], p, gap);
        assert w != "" && ps[j].accepts(w) && Normal(ps[..j], w);
      }
    }
    forall w | w != "" && p.accepts(w) && Normal(ps[..j], w)
      ensures CanFire(ps, j)
    {
      NormalIsFixed(ps[..j], w);
      WordOccurs(p, w);
    }
    forall i: nat | i < j && CanFire(ps, i) && Occurs(p, Inside(ps, i, j))
      ensures CanFire(ps, j)
    {
      var s := FiringText(ps, i);
      var qs := ps[..j];
      assert qs[..i] == ps[..i] && qs[i + 1..j] == ps[i + 1..j];
      assert Inside(qs, i, j) == Inside(ps, i, j) by { InsideOfPrefix(ps, i, j); }
      MarkerStays(qs, i, s, p);
    }
  }

  lemma InsideOfPrefix(ps: seq<Pattern>, i: nat, j: nat)
    requires i < j <= |ps|
    ensures Inside(ps[..j], i, j) == Inside(ps, i, j)
  {
    assert ps[..j][i + 1..j] == ps[i + 1..j];
  }

  lemma WordOccurs(p: Pattern, w: string)
    requires w != "" && p.accepts(w)
    ensures Occurs(p, w)
  {
    assert w[0..|w|] == w;
  }

  lemma MatchedWord(ps: seq<Pattern>, p: Pattern, s: string) returns (w: string)
    requires Normal(ps, s) && Occurs(p, s)
    ensures w != "" && p.accepts(w) && Normal(ps, w)
  {
    var i, j :| 0 <= i < j <= |s| && p.accepts(s[i..j]);
    w := s[i..j];
    forall a | 0 <= a < |ps|
      ensures !Occurs(ps[a], w)
    {
      if Occurs(ps[a], w) {
        assert s[i..][..j - i] == w && s[i..] == w + s[j..];
        OccursInLonger(ps[a], w, s[j..]);
        OccursInSuffix(ps[a], s, i);
      }
    }
  }
}

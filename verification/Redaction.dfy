/** Redaction: every pattern in turn replaces its leftmost matches by a marker naming it.

  A pattern that does not look outside the word it matches is the set of words it matches, together
  with its choice among several matches with the same start, greedy or not. */
module Redaction {
  import opened Text

  /** prefers gives the end of the match the expression takes at the start of a text, where it is not the
    longest one; 0 stands for the longest. */
  datatype Pattern = Pattern(name: string, accepts: string -> bool, prefers: string -> nat)

  const LONGEST: string -> nat := s => 0

  function Inner(name: string): string { "REDACTED:" + name }

  function Marker(name: string): string { "[" + Inner(name) + "]" }

  /** End of the longest match of p that starts s and ends at most at hi; 0 if there is none. */
  function LongestMatch(p: Pattern, s: string, hi: nat): (e: nat)
    requires hi <= |s|
    ensures e <= hi
    ensures e > 0 ==> p.accepts(s[..e])
    ensures forall j :: e < j <= hi ==> !p.accepts(s[..j])
  {
    if hi == 0 then 0 else if p.accepts(s[..hi]) then hi else LongestMatch(p, s, hi - 1)
  }

  /** End of the match taken at the start of s; 0 exactly if there is none. */
  function MatchEnd(p: Pattern, s: string): (e: nat)
    ensures e <= |s|
    ensures e > 0 ==> p.accepts(s[..e])
    ensures e == 0 ==> forall j :: 0 < j <= |s| ==> !p.accepts(s[..j])
  {
    var e := p.prefers(s);
    if 0 < e <= |s| && p.accepts(s[..e]) then e else LongestMatch(p, s, |s|)
  }

  /** Replacement of all matches, scanning from the left (`ReplaceAllString`, `pattern.sub`). */
  function ReplaceAll(p: Pattern, s: string): string {
    if s == "" then ""
    else
      var e := MatchEnd(p, s);
      if e > 0 then Marker(p.name) + ReplaceAll(p, s[e..]) else [s[0]] + ReplaceAll(p, s[1..])
  }

  function RedactAll(ps: seq<Pattern>, s: string): string {
    if ps == [] then s else ReplaceAll(ps[|ps| - 1], RedactAll(ps[..|ps| - 1], s))
  }

  lemma OnePassMore(ps: seq<Pattern>, j: nat, s: string)
    requires j < |ps|
    ensures RedactAll(ps[..j + 1], s) == ReplaceAll(ps[j], RedactAll(ps[..j], s))
  {
    assert ps[..j + 1][..j] == ps[..j];
  }

  /** `redact`: the loop over the pattern table. */
  method Redact(ps: seq<Pattern>, text: string) returns (redacted: string)
    ensures redacted == RedactAll(ps, text)
  {
    redacted := text;
    for i := 0 to |ps|
      invariant redacted == RedactAll(ps[..i], text)
    {
      assert ps[..i + 1][..i] == ps[..i];
      redacted := ReplaceAll(ps[i], redacted);
    }
    assert ps[..|ps|] == ps;
  }

  /** Some match of p lies in s. */
  ghost predicate Occurs(p: Pattern, s: string) {
    exists i, j :: 0 <= i < j <= |s| && p.accepts(s[i..j])
  }

  /** No pattern matches anywhere. */
  ghost predicate Normal(ps: seq<Pattern>, s: string) {
    forall i :: 0 <= i < |ps| ==> !Occurs(ps[i], s)
  }

  function Search(p: Pattern, s: string): bool {
    s != "" && (MatchEnd(p, s) > 0 || Search(p, s[1..]))
  }

  lemma TailSlice(s: string, i: nat, j: nat)
    requires 1 <= i <= j <= |s|
    ensures s[1..][i - 1..j - 1] == s[i..j]
  {
    var t := s[1..];
    assert |t[i - 1..j - 1]| == |s[i..j]|;
    assert forall k :: 0 <= k < j - i ==> t[i - 1..j - 1][k] == t[i - 1 + k] == s[i + k] == s[i..j][k];
  }

  /** A match in a nonempty text starts it or lies in its tail. */
  lemma OccursCases(p: Pattern, s: string)
    requires s != ""
    ensures Occurs(p, s) <==> Occurs(p, s[1..]) || exists j :: 0 < j <= |s| && p.accepts(s[..j])
  {
    forall i, j | 0 <= i < j <= |s| && p.accepts(s[i..j])
      ensures Occurs(p, s[1..]) || exists j :: 0 < j <= |s| && p.accepts(s[..j])
    {
      if i == 0 { assert s[i..j] == s[..j]; } else { TailSlice(s, i, j); }
    }
    forall j | 0 < j <= |s| && p.accepts(s[..j])
      ensures Occurs(p, s)
    {
      assert s[..j] == s[0..j];
    }
    if Occurs(p, s[1..]) { OccursInSuffix(p, s, 1); }
  }

  lemma {:induction false} SearchFinds(p: Pattern, s: string)
    ensures Search(p, s) <==> Occurs(p, s)
  {
    if s != "" {
      SearchFinds(p, s[1..]);
      OccursCases(p, s);
    }
  }

  function Findings(ps: seq<Pattern>, text: string): seq<string> {
    if ps == [] then []
    else Findings(ps[..|ps| - 1], text) + (if Search(ps[|ps| - 1], text) then [ps[|ps| - 1].name] else [])
  }

  /** `find`: the names of the patterns that match somewhere, in table order. */
  method Find(ps: seq<Pattern>, text: string) returns (findings: seq<string>)
    ensures findings == Findings(ps, text)
  {
    findings := [];
    for i := 0 to |ps|
      invariant findings == Findings(ps[..i], text)
    {
      assert ps[..i + 1][..i] == ps[..i];
      if Search(ps[i], text) {
        findings := findings + [ps[i].name];
      }
    }
    assert ps[..|ps|] == ps;
  }

  /** Nothing is found exactly in texts in normal form. */
  lemma {:induction false} NothingFound(ps: seq<Pattern>, text: string)
    ensures Findings(ps, text) == [] <==> Normal(ps, text)
  {
    hide Occurs, Search;
    if ps != [] {
      var n := |ps| - 1;
      NothingFound(ps[..n], text);
      SearchFinds(ps[n], text);
      assert Normal(ps, text) <==> Normal(ps[..n], text) && !Occurs(ps[n], text);
    }
  }

  /** The names are those of the patterns with the given positions, which ascend and are exactly those of
    the patterns that match somewhere in the text. */
  ghost predicate Lists(ps: seq<Pattern>, text: string, names: seq<string>, found: seq<nat>) {
    && |found| == |names|
    && (forall k :: 0 <= k < |found| ==> found[k] < |ps| && names[k] == ps[found[k]].name)
    && (forall k, l :: 0 <= k < l < |found| ==> found[k] < found[l])
    && (forall i :: 0 <= i < |ps| && Occurs(ps[i], text) ==> i in found)
    && (forall k :: 0 <= k < |found| ==> Occurs(ps[found[k]], text))
  }

  lemma ListsMore(ps: seq<Pattern>, text: string, names: seq<string>, found: seq<nat>)
    requires ps != [] && Lists(ps[..|ps| - 1], text, names, found)
    ensures var n := |ps| - 1;
            if Occurs(ps[n], text) then Lists(ps, text, names + [ps[n].name], found + [n]) else Lists(ps, text, names, found)
  {
    hide Occurs;
    var n := |ps| - 1;
    assert forall i :: 0 <= i < n ==> ps[..n][i] == ps[i];
  }

  /** `find` reports the patterns that match somewhere in the text, all of them, once each and in table
    order. */
  lemma {:induction false} FindingsMeaning(ps: seq<Pattern>, text: string) returns (found: seq<nat>)
    ensures Lists(ps, text, Findings(ps, text), found)
  {
    hide Occurs, Search;
    found := [];
    if ps != [] {
      hide Lists;
      var n := |ps| - 1;
      found := FindingsMeaning(ps[..n], text);
      SearchFinds(ps[n], text);
      ListsMore(ps, text, Findings(ps[..n], text), found);
      if Occurs(ps[n], text) { found := found + [n]; }
    }
  }

  // ---------------------------------------------------------------- the normal form

  predicate IsBracket(c: char) { c == '[' || c == ']' }

  predicate Bracketless(s: string) { '[' !in s && ']' !in s }

  /** p never matches a bracket, nor anything inside the marker of q. */
  ghost predicate Blind(p: Pattern, q: Pattern) {
    (forall w :: p.accepts(w) ==> Bracketless(w)) && !Occurs(p, Inner(q.name))
  }

  /** Every pattern is blind to its own marker and to the markers put in after it ran. */
  ghost predicate Sealed(ps: seq<Pattern>) {
    forall i, j :: 0 <= i <= j < |ps| ==> Blind(ps[i], ps[j])
  }

  lemma OccursInSuffix(p: Pattern, s: string, k: nat)
    requires k <= |s| && Occurs(p, s[k..])
    ensures Occurs(p, s)
  {
    var t := s[k..];
    var i, j :| 0 <= i < j <= |t| && p.accepts(t[i..j]);
    assert s[k + i..k + j] == t[i..j];
  }

  lemma OccursInLonger(p: Pattern, s: string, more: string)
    requires Occurs(p, s)
    ensures Occurs(p, s + more)
  {
    var i, j :| 0 <= i < j <= |s| && p.accepts(s[i..j]);
    assert (s + more)[i..j] == s[i..j];
  }

  /** Up to its first bracket the output repeats the input. */
  lemma {:induction false} SamePrefix(p: Pattern, s: string, j: nat)
    requires j <= |ReplaceAll(p, s)| && Bracketless(ReplaceAll(p, s)[..j])
    ensures j <= |s| && ReplaceAll(p, s)[..j] == s[..j]
  {
    var o := ReplaceAll(p, s);
    if j > 0 {
      assert o[..j][0] == o[0];
      assert Marker(p.name)[0] == '[';
      if MatchEnd(p, s) == 0 {
        var t := ReplaceAll(p, s[1..]);
        assert o[1..] == t && t[..j - 1] == o[..j][1..];
        SamePrefix(p, s[1..], j - 1);
        assert o[..j] == [o[0]] + t[..j - 1] && s[..j] == [s[0]] + s[1..][..j - 1];
      }
    }
  }

  /** A blind match in marker + rest lies in the rest. */
  lemma PastMarker(p: Pattern, q: Pattern, rest: string)
    requires Blind(p, q) && !Occurs(p, rest)
    ensures !Occurs(p, Marker(q.name) + rest)
  {
    var m := Marker(q.name);
    var o, last := m + rest, |m| - 1;
    assert m[0] == '[' && m[last] == ']' && m[1..last] == Inner(q.name);
    forall i, j | 0 <= i < j <= |o|
      ensures !p.accepts(o[i..j])
    {
      var w := o[i..j];
      if i == 0 {
        assert w[0] == o[0] == '[';
      } else if i <= last && last < j {
        assert w[last - i] == o[last] == ']';
      } else if i > last {
        assert w == rest[i - |m|..j - |m|];
      } else {
        assert w == m[1..last][i - 1..j - 1];
      }
    }
  }

  /** Replacing the matches of q leaves no match of p, if p is q or had none before. */
  lemma {:induction false} ReplaceClears(p: Pattern, q: Pattern, s: string)
    requires Blind(p, q) && (p == q || !Occurs(p, s))
    ensures !Occurs(p, ReplaceAll(q, s))
    decreases |s|
  {
    var o := ReplaceAll(q, s);
    if s != "" {
      var e := MatchEnd(q, s);
      var k := if e > 0 then e else 1;
      if Occurs(p, s[k..]) { OccursInSuffix(p, s, k); }
      ReplaceClears(p, q, s[k..]);
      if e > 0 {
        PastMarker(p, q, ReplaceAll(q, s[e..]));
      } else {
        OccursCases(p, s);
        forall j | 0 < j <= |o|
          ensures !p.accepts(o[..j])
        {
          if Bracketless(o[..j]) { SamePrefix(q, s, j); }
        }
        assert o[1..] == ReplaceAll(q, s[1..]);
        OccursCases(p, o);
      }
    }
  }

  /** Redaction reaches a normal form: no pattern matches anywhere in the output, inside and across
    the inserted markers included. */
  lemma {:induction false} NormalForm(ps: seq<Pattern>, s: string)
    requires Sealed(ps)
    ensures Normal(ps, RedactAll(ps, s))
  {
    if ps != [] {
      var n := |ps| - 1;
      NormalForm(ps[..n], s);
      forall i | 0 <= i < |ps|
        ensures !Occurs(ps[i], RedactAll(ps, s))
      {
        if i < n { assert ps[..n][i] == ps[i]; }
        ReplaceClears(ps[i], ps[n], RedactAll(ps[..n], s));
      }
    }
  }

  lemma {:induction false} NothingToReplace(p: Pattern, s: string)
    requires !Occurs(p, s)
    ensures ReplaceAll(p, s) == s
  {
    if s != "" {
      OccursCases(p, s);
      NothingToReplace(p, s[1..]);
    }
  }

  lemma {:induction false} NormalIsFixed(ps: seq<Pattern>, s: string)
    requires Normal(ps, s)
    ensures RedactAll(ps, s) == s
  {
    if ps != [] {
      var n := |ps| - 1;
      NormalIsFixed(ps[..n], s);
      NothingToReplace(ps[n], s);
    }
  }

  /** Redacting twice is redacting once, `find` finds nothing afterwards, and exactly the texts in which it
    finds nothing are left as they are. */
  lemma RedactionIsNormalisation(ps: seq<Pattern>, s: string)
    requires Sealed(ps)
    ensures RedactAll(ps, RedactAll(ps, s)) == RedactAll(ps, s)
    ensures RedactAll(ps, s) == s <==> Findings(ps, s) == []
    ensures Findings(ps, RedactAll(ps, s)) == []
  {
    hide Findings, RedactAll;
    NothingFound(ps, s);
    NothingFound(ps, RedactAll(ps, s));
    NormalForm(ps, s);
    NormalIsFixed(ps, RedactAll(ps, s));
    if Normal(ps, s) { NormalIsFixed(ps, s); }
  }

  // ---------------------------------------------------------------- nothing else is changed

  function Weave(gaps: seq<string>, words: seq<string>): string
    requires |gaps| == |words| + 1
  {
    if words == [] then gaps[0] else gaps[0] + words[0] + Weave(gaps[1..], words[1..])
  }

  function Repeat(marker: string, n: nat): (r: seq<string>)
    ensures |r| == n && forall i :: 0 <= i < n ==> r[i] == marker
  {
    seq(n, i => marker)
  }

  /** The match of e characters at the start of t is the one the pattern takes: the one it prefers, or,
    where it has no valid preference, one that no match of the same start exceeds. */
  ghost predicate IsTaken(p: Pattern, t: string, e: nat) {
    && 0 < e <= |t| && p.accepts(t[..e])
    && (var f := p.prefers(t); if 0 < f <= |t| && p.accepts(t[..f]) then e == f else forall j :: e < j <= |t| ==> !p.accepts(t[..j]))
  }

  /** No match starts in the first n characters of s, not even one that ends after them. */
  ghost predicate NoneStarts(p: Pattern, s: string, n: nat) {
    forall i, j :: 0 <= i < n && i < j <= |s| ==> !p.accepts(s[i..j])
  }

  /** s is gaps and words in turn. No match starts in a gap, and each word is the match taken where it
    stands. */
  ghost predicate Scanned(p: Pattern, s: string, gaps: seq<string>, words: seq<string>)
    decreases |words|
  {
    && |gaps| == |words| + 1 && gaps[0] <= s && NoneStarts(p, s, |gaps[0]|)
    && var t := s[|gaps[0]|..];
       if words == [] then t == ""
       else words[0] <= t && IsTaken(p, t, |words[0]|) && Scanned(p, t[|words[0]|..], gaps[1..], words[1..])
  }

  /** The text is gaps and matched words in turn, taken from the left, and the output is the same gaps with
    a marker for each word; no match starts in a gap. */
  ghost predicate Replaces(p: Pattern, s: string, o: string, gaps: seq<string>, words: seq<string>) {
    && |gaps| == |words| + 1
    && s == Weave(gaps, words) && o == Weave(gaps, Repeat(Marker(p.name), |words|))
    && Scanned(p, s, gaps, words)
    && (forall i :: 0 <= i < |words| ==> words[i] != "" && p.accepts(words[i]))
    && (forall i :: 0 <= i < |gaps| ==> !Occurs(p, gaps[i]))
  }

  lemma WeaveFirstWord(w: string, gaps: seq<string>, words: seq<string>)
    requires |gaps| == |words| + 1
    ensures Weave([""] + gaps, [w] + words) == w + Weave(gaps, words)
  {
    var g, v := [""] + gaps, [w] + words;
    assert g[1..] == gaps && v[1..] == words && g[0] + v[0] == w;
  }

  lemma WeaveFirstChar(c: char, gaps: seq<string>, words: seq<string>)
    requires |gaps| == |words| + 1
    ensures Weave([[c] + gaps[0]] + gaps[1..], words) == [c] + Weave(gaps, words)
  {
    assert ([[c] + gaps[0]] + gaps[1..])[1..] == gaps[1..];
  }

  lemma WeaveStarts(gaps: seq<string>, words: seq<string>)
    requires |gaps| == |words| + 1
    ensures gaps[0] <= Weave(gaps, words)
  {
  }

  lemma EndIsTaken(p: Pattern, s: string)
    requires MatchEnd(p, s) > 0
    ensures IsTaken(p, s, MatchEnd(p, s))
  {
  }

  /** A gap grows by a character at which no match starts. */
  lemma ScannedLonger(p: Pattern, s: string, gaps: seq<string>, words: seq<string>)
    requires s != "" && MatchEnd(p, s) == 0 && Scanned(p, s[1..], gaps, words)
    ensures Scanned(p, s, [[s[0]] + gaps[0]] + gaps[1..], words)
  {
    hide IsTaken;
    var g := [[s[0]] + gaps[0]] + gaps[1..];
    var n := |gaps[0]|;
    assert g[0] == s[..n + 1] && s[n + 1..] == s[1..][n..] && g[1..] == gaps[1..];
    forall i, j | 0 <= i < n + 1 && i < j <= |s|
      ensures !p.accepts(s[i..j])
    {
      if i == 0 { assert s[i..j] == s[..j]; } else { TailSlice(s, i, j); }
    }
  }

  lemma ScannedWord(p: Pattern, s: string, gaps: seq<string>, words: seq<string>)
    requires s != "" && MatchEnd(p, s) > 0 && Scanned(p, s[MatchEnd(p, s)..], gaps, words)
    ensures Scanned(p, s, [""] + gaps, [s[..MatchEnd(p, s)]] + words)
  {
    hide IsTaken;
    EndIsTaken(p, s);
    var g, w := [""] + gaps, [s[..MatchEnd(p, s)]] + words;
    assert g[1..] == gaps && w[1..] == words && s[0..] == s;
  }

  lemma EmptyScanned(p: Pattern)
    ensures Scanned(p, "", [""], [])
  {
  }

  /** Replacement is exact: only matched words are replaced, each by one marker and each the match taken
    from its start, and the text between them, where no match starts, is kept as it was. */
  lemma {:induction false} ReplacementIsExact(p: Pattern, s: string) returns (gaps: seq<string>, words: seq<string>)
    ensures Replaces(p, s, ReplaceAll(p, s), gaps, words)
  {
    hide Occurs, Weave, Scanned;
    if s == "" {
      gaps, words := [""], [];
      EmptyReplaces(p);
    } else {
      var e := MatchEnd(p, s);
      if e > 0 {
        var g, w := ReplacementIsExact(p, s[e..]);
        gaps, words := [""] + g, [s[..e]] + w;
        WeaveFirstWord(s[..e], g, w);
        WeaveFirstWord(Marker(p.name), g, Repeat(Marker(p.name), |w|));
        assert s == s[..e] + s[e..];
        assert Repeat(Marker(p.name), |words|) == [Marker(p.name)] + Repeat(Marker(p.name), |w|);
        NoneInEmpty(p);
        ScannedWord(p, s, g, w);
      } else {
        var g, w := ReplacementIsExact(p, s[1..]);
        gaps, words := [[s[0]] + g[0]] + g[1..], w;
        WeaveFirstChar(s[0], g, w);
        WeaveFirstChar(s[0], g, Repeat(Marker(p.name), |w|));
        assert s == [s[0]] + s[1..];
        WeaveStarts(gaps, words);
        NoneInLongerGap(p, s, gaps[0]);
        assert gaps[0][1..] == g[0];
        ScannedLonger(p, s, g, w);
      }
    }
  }

  /** There is only one way to scan a text so. */
  lemma {:induction false} ScanIsUnique(p: Pattern, s: string, gaps: seq<string>, words: seq<string>, gaps': seq<string>, words': seq<string>)
    requires Scanned(p, s, gaps, words) && Scanned(p, s, gaps', words')
    ensures gaps == gaps' && words == words'
    decreases |words|
  {
    hide IsTaken, NoneStarts;
    GapIsUnique(p, s, gaps, words, gaps', words');
    var t := s[|gaps[0]|..];
    if words != [] && words' != [] {
      TakenIsUnique(p, t, |words[0]|, |words'[0]|);
      assert words[0] == t[..|words[0]|] == words'[0];
      ScanIsUnique(p, t[|words[0]|..], gaps[1..], words[1..], gaps'[1..], words'[1..]);
      assert gaps == [gaps[0]] + gaps[1..] && gaps' == [gaps'[0]] + gaps'[1..];
      assert words == [words[0]] + words[1..] && words' == [words'[0]] + words'[1..];
    } else {
      NothingTaken(p, t, words, words');
      assert gaps == [gaps[0]] && gaps' == [gaps'[0]];
    }
  }

  lemma TakenIsUnique(p: Pattern, t: string, e: nat, f: nat)
    requires IsTaken(p, t, e) && IsTaken(p, t, f)
    ensures e == f
  {
  }

  lemma NothingTaken(p: Pattern, t: string, words: seq<string>, words': seq<string>)
    requires (words == [] ==> t == "") && (words' == [] ==> t == "") && (words == [] || words' == [])
    requires (words != [] ==> IsTaken(p, t, |words[0]|)) && (words' != [] ==> IsTaken(p, t, |words'[0]|))
    ensures words == [] && words' == []
  {
  }

  lemma GapIsUnique(p: Pattern, s: string, gaps: seq<string>, words: seq<string>, gaps': seq<string>, words': seq<string>)
    requires Scanned(p, s, gaps, words) && Scanned(p, s, gaps', words')
    ensures gaps[0] == gaps'[0]
  {
    GapNoLonger(p, s, gaps, words, gaps', words');
    GapNoLonger(p, s, gaps', words', gaps, words);
  }

  lemma GapNoLonger(p: Pattern, s: string, gaps: seq<string>, words: seq<string>, gaps': seq<string>, words': seq<string>)
    requires Scanned(p, s, gaps, words) && Scanned(p, s, gaps', words')
    ensures |gaps[0]| <= |gaps'[0]|
  {
    var n := |gaps'[0]|;
    if words' != [] {
      var e := |words'[0]|;
      assert s[n..][..e] == s[n..n + e];
    }
  }

  /** So the contract leaves one output only: whatever replaces so is what `ReplaceAll` gives. */
  lemma OnlyReplacement(p: Pattern, s: string, o: string, gaps: seq<string>, words: seq<string>)
    requires Replaces(p, s, o, gaps, words)
    ensures o == ReplaceAll(p, s)
  {
    hide Scanned, Weave, Occurs;
    var g, w := ReplacementIsExact(p, s);
    ScanIsUnique(p, s, gaps, words, g, w);
  }

  lemma NoneInEmpty(p: Pattern)
    ensures !Occurs(p, "")
  {
  }

  lemma EmptyReplaces(p: Pattern)
    ensures Replaces(p, "", "", [""], [])
  {
  }

  /** A gap grows by a character at which no match starts. */
  lemma NoneInLongerGap(p: Pattern, s: string, gap: string)
    requires gap != "" && gap <= s && MatchEnd(p, s) == 0
    ensures !Occurs(p, gap[1..]) ==> !Occurs(p, gap)
  {
    OccursCases(p, gap);
    forall j | 0 < j <= |gap| ensures !p.accepts(gap[..j]) { assert gap[..j] == s[..j]; }
  }

  // ---------------------------------------------------------------- redact_obj

  /** JSON-like values; Other is anything that is no string, list or dictionary. */
  datatype Value = Str(s: string) | List(items: seq<Value>) | Dict(keys: seq<string>, values: seq<Value>) | Other(id: nat)

  function RedactValue(ps: seq<Pattern>, v: Value): Value
    decreases v, 0
  {
    match v
    case Str(s) => Str(RedactAll(ps, s))
    case List(items) => List(RedactValues(ps, items))
    case Dict(keys, values) => Dict(keys, RedactValues(ps, values))
    case Other(_) => v
  }

  function RedactValues(ps: seq<Pattern>, vs: seq<Value>): (rs: seq<Value>)
    ensures |rs| == |vs|
    decreases vs
  {
    if vs == [] then [] else [RedactValue(ps, vs[0])] + RedactValues(ps, vs[1..])
  }

  ghost predicate NormalValue(ps: seq<Pattern>, v: Value)
    decreases v, 0
  {
    match v
    case Str(s) => Normal(ps, s)
    case List(items) => NormalValues(ps, items)
    case Dict(_, values) => NormalValues(ps, values)
    case Other(_) => true
  }

  ghost predicate NormalValues(ps: seq<Pattern>, vs: seq<Value>)
    decreases vs
  {
    vs == [] || (NormalValue(ps, vs[0]) && NormalValues(ps, vs[1..]))
  }

  /** Same shape and keys, with strings only where strings were. */
  predicate SameShape(v: Value, r: Value)
    decreases v, 0
  {
    match v
    case Str(_) => r.Str?
    case List(items) => r.List? && SameShapes(items, r.items)
    case Dict(keys, values) => r.Dict? && r.keys == keys && SameShapes(values, r.values)
    case Other(_) => r == v
  }

  predicate SameShapes(vs: seq<Value>, rs: seq<Value>)
    decreases vs
  {
    |vs| == |rs| && (vs == [] || (SameShape(vs[0], rs[0]) && SameShapes(vs[1..], rs[1..])))
  }

  /** The value at a path of positions in lists and dictionaries, if there is one. */
  function At(v: Value, path: seq<nat>): Option<Value>
    decreases path
  {
    if path == [] then Some(v)
    else
      match v
      case List(items) => if path[0] < |items| then At(items[path[0]], path[1..]) else None
      case Dict(_, values) => if path[0] < |values| then At(values[path[0]], path[1..]) else None
      case _ => None
  }

  lemma {:induction false} RedactValuesAt(ps: seq<Pattern>, vs: seq<Value>, i: nat)
    requires i < |vs|
    ensures RedactValues(ps, vs)[i] == RedactValue(ps, vs[i])
  {
    if i > 0 { RedactValuesAt(ps, vs[1..], i - 1); }
  }

  /** Wherever there is a string below a value, its redaction stands there in the redacted value; anything
    that is no string, list or dictionary is as it was; and there are no places more or less. */
  lemma {:induction false} RedactedBelow(ps: seq<Pattern>, v: Value, path: seq<nat>)
    ensures At(v, path).None? <==> At(RedactValue(ps, v), path).None?
    ensures At(v, path).Some? && At(v, path).value.Str? ==>
              At(RedactValue(ps, v), path) == Some(Str(RedactAll(ps, At(v, path).value.s)))
    ensures At(v, path).Some? && At(v, path).value.Other? ==> At(RedactValue(ps, v), path) == At(v, path)
    decreases path
  {
    if path != [] && (v.List? || v.Dict?) {
      var below := if v.List? then v.items else v.values;
      if path[0] < |below| {
        RedactValuesAt(ps, below, path[0]);
        RedactedBelow(ps, below[path[0]], path[1..]);
      }
    }
  }

  /** A redacted value keeps its shape and keys, every string below it is in normal form, and exactly the
    values that were so already are left as they are. */
  lemma {:induction false} ValueNormalForm(ps: seq<Pattern>, v: Value)
    requires Sealed(ps)
    ensures SameShape(v, RedactValue(ps, v))
    ensures NormalValue(ps, RedactValue(ps, v))
    ensures RedactValue(ps, v) == v <==> NormalValue(ps, v)
    decreases v, 0
  {
    match v
    case Str(s) =>
      NormalForm(ps, s);
      RedactionIsNormalisation(ps, s);
      NothingFound(ps, s);
    case List(items) => ValuesNormalForm(ps, items);
    case Dict(_, values) => ValuesNormalForm(ps, values);
    case Other(_) =>
  }

  lemma {:induction false} ValuesNormalForm(ps: seq<Pattern>, vs: seq<Value>)
    requires Sealed(ps)
    ensures SameShapes(vs, RedactValues(ps, vs))
    ensures NormalValues(ps, RedactValues(ps, vs))
    ensures RedactValues(ps, vs) == vs <==> NormalValues(ps, vs)
    decreases vs
  {
    if vs != [] {
      ValueNormalForm(ps, vs[0]);
      ValuesNormalForm(ps, vs[1..]);
      var rs := RedactValues(ps, vs);
      assert rs[1..] == RedactValues(ps, vs[1..]);
      assert vs == [vs[0]] + vs[1..];
    }
  }
}

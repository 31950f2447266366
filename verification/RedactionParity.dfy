/** When the Go and the Python redactor, which share the shipped table, give the same text.

  Go's word sets are Python's restricted to words without a character that only Python takes for white
  space or for an i. Go therefore keeps every such character, and Python drops those inside the words
  it replaces: that is the one way in which their outputs come apart. */
module RedactionParity {
  import opened Text
  import opened Redaction
  import opened RedactionTable

  /** The two engines treat the character alike. */
  predicate Alike(c: char) {
    (IsSpace(c) ==> GoSpace(c)) && c != '\U{130}' && c != '\U{131}'
  }

  // ---------------------------------------------------------------- words

  /** A pattern and its port: same name, same choice, and the words of Python's that are alike. */
  ghost predicate Ports(go: Pattern, py: Pattern) {
    && go.name == py.name && go.prefers == py.prefers == LONGEST
    && All(Alike, Marker(go.name))
    && forall w :: go.accepts(w) <==> py.accepts(w) && All(Alike, w)
  }

  ghost predicate PortsTable(gos: seq<Pattern>, pys: seq<Pattern>) {
    |gos| == |pys| && forall k :: 0 <= k < |gos| ==> Ports(gos[k], pys[k])
  }

  predicate IsKeywordChar(c: char) { 'a' <= c <= 'z' || c == '_' || c == '-' }

  lemma KeywordChars(fold: char -> char, s: string)
    requires IsKeyword(fold, s)
    ensures All(IsKeywordChar, FoldAll(fold, s))
  {
  }

  lemma KeywordParity(s: string)
    ensures IsKeyword(GoFold, s) <==> IsKeyword(PythonFold, s) && All(Alike, s)
  {
    if IsKeyword(GoFold, s) {
      KeywordChars(GoFold, s);
      forall i | 0 <= i < |s|
        ensures Alike(s[i])
      {
        assert IsKeywordChar(FoldAll(GoFold, s)[i]);
      }
    }
    if All(Alike, s) { assert FoldAll(GoFold, s) == FoldAll(PythonFold, s); }
  }

  lemma SpaceParity(s: string)
    ensures All(GoSpace, s) <==> All(IsSpace, s) && All(Alike, s)
  {
    forall i | 0 <= i < |s|
      ensures GoSpace(s[i]) <==> IsSpace(s[i]) && Alike(s[i])
    {
    }
  }

  lemma AllSplits(member: Class, s: string, k: nat)
    requires k <= |s|
    ensures All(member, s) <==> All(member, s[..k]) && All(member, s[k..])
  {
    if All(member, s[..k]) && All(member, s[k..]) {
      forall i | 0 <= i < |s|
        ensures member(s[i])
      {
        if i < k { assert s[i] == s[..k][i]; } else { assert s[i] == s[k..][i - k]; }
      }
    }
  }

  lemma EnvParity(w: string)
    ensures EnvAssignment(GO, w) <==> EnvAssignment(PYTHON, w) && All(Alike, w)
  {
    hide IsKeyword, IsSpace, GoSpace, All;
    forall k | 0 <= k < |w| && w[|w| - 1] == '='
      ensures IsKeyword(GoFold, w[..k]) && All(GoSpace, w[k..|w| - 1]) <==>
        IsKeyword(PythonFold, w[..k]) && All(IsSpace, w[k..|w| - 1]) && All(Alike, w)
    {
      KeywordParity(w[..k]);
      SpaceParity(w[k..|w| - 1]);
      AllSplits(Alike, w, |w| - 1);
      AllSplits(Alike, w[..|w| - 1], k);
      assert w[..|w| - 1][..k] == w[..k] && w[..|w| - 1][k..] == w[k..|w| - 1];
      assert w[|w| - 1..] == "=";
      EqualsIsAlike();
    }
  }

  lemma EqualsIsAlike()
    ensures All(Alike, "=") && All(Alike, "Bearer")
  {
  }

  lemma TailIsAlike(s: string, b: nat)
    requires b <= |s| && All(IsBearerChar, s[..b]) && All(IsEquals, s[b..])
    ensures All(Alike, s)
  {
    forall i | 0 <= i < |s|
      ensures Alike(s[i])
    {
      if i < b { assert s[i] == s[..b][i]; } else { assert s[i] == s[b..][i - b]; }
    }
  }

  lemma BearerParity(w: string)
    ensures BearerToken(GO, w) <==> BearerToken(PYTHON, w) && All(Alike, w)
  {
    hide IsSpace, GoSpace, All, IsBearerChar, IsEquals, Alike;
    forall a, b | 6 < a < b <= |w| && w[..6] == "Bearer" && All(IsBearerChar, w[a..b]) && All(IsEquals, w[b..])
      ensures All(GoSpace, w[6..a]) <==> All(IsSpace, w[6..a]) && All(Alike, w)
    {
      SpaceParity(w[6..a]);
      EqualsIsAlike();
      assert w[a..][..b - a] == w[a..b] && w[a..][b - a..] == w[b..];
      TailIsAlike(w[a..], b - a);
      AllSplits(Alike, w, 6);
      AllSplits(Alike, w[6..], a - 6);
      assert w[6..][..a - 6] == w[6..a] && w[6..][a - 6..] == w[a..];
    }
  }

  lemma PrivateKeyIsAlike(w: string)
    requires PrivateKey(w)
    ensures All(Alike, w)
  {
    var a, b := |BEGIN|, |w| - |PRIVATE_KEY|;
    KeyFrameIsAlike();
    forall i | 0 <= i < |w|
      ensures Alike(w[i])
    {
      if i < a {
        assert w[i] == BEGIN[i];
      } else if i < b {
        assert IsCapital(w[a..b][i - a]);
      } else {
        assert w[i] == w[b..][i - b] == PRIVATE_KEY[i - b];
      }
    }
  }

  lemma KeyFrameIsAlike()
    ensures All(Alike, BEGIN) && All(Alike, PRIVATE_KEY)
  {
  }

  lemma PrefixesAreAlike()
    ensures All(Alike, "sk-ant-") && All(Alike, "cp_sess_")
  {
  }

  lemma PrefixedIsAlike(prefix: string, w: string)
    requires PrefixedKey(prefix, w) && All(Alike, prefix)
    ensures All(Alike, w)
  {
    forall i | 0 <= i < |w|
      ensures Alike(w[i])
    {
      if i < |prefix| { assert w[i] == prefix[i]; } else { assert IsKeyChar(w[|prefix|..][i - |prefix|]); }
    }
  }

  lemma MarkerIsAlike(name: string)
    requires name in [ENV, PRIVATE, BEARER, ANTHROPIC, SESSION]
    ensures All(Alike, Marker(name))
  {
    hide Inner;
    MarkersArePlain(name);
    var m := Marker(name);
    forall i | 0 <= i < |m|
      ensures Alike(m[i])
    {
      if 0 < i < |m| - 1 { assert m[i] == Inner(name)[i - 1] && IsPlain(m[i]); }
    }
  }

  /** The exact law of every word and pattern: Go's accepts it if and only if Python's does and it holds
    only characters that the engines treat alike. */
  lemma WordParity(k: nat, w: string)
    requires k < 5
    ensures DefaultPatterns(GO)[k].accepts(w) <==> DefaultPatterns(PYTHON)[k].accepts(w) && All(Alike, w)
  {
    hide All, EnvAssignment, BearerToken, PrivateKey, PrefixedKey;
    PrefixesAreAlike();
    if k == 0 {
      EnvParity(w);
    } else if k == 1 {
      if PrivateKey(w) { PrivateKeyIsAlike(w); }
    } else if k == 2 {
      BearerParity(w);
    } else if k == 3 {
      if PrefixedKey("sk-ant-", w) { PrefixedIsAlike("sk-ant-", w); }
    } else {
      if PrefixedKey("cp_sess_", w) { PrefixedIsAlike("cp_sess_", w); }
    }
  }

  lemma DefaultPorts()
    ensures PortsTable(DefaultPatterns(GO), DefaultPatterns(PYTHON))
  {
    hide All;
    var gos, pys := DefaultPatterns(GO), DefaultPatterns(PYTHON);
    forall k | 0 <= k < 5
      ensures Ports(gos[k], pys[k])
    {
      MarkerIsAlike(gos[k].name);
      forall w ensures gos[k].accepts(w) <==> pys[k].accepts(w) && All(Alike, w) { WordParity(k, w); }
    }
  }

  // ---------------------------------------------------------------- texts

  /** The number of characters that the engines do not treat alike. */
  function Foreign(s: string): nat {
    if s == "" then 0 else (if Alike(s[0]) then 0 else 1) + Foreign(s[1..])
  }

  lemma {:induction false} ForeignAppend(a: string, b: string)
    ensures Foreign(a + b) == Foreign(a) + Foreign(b)
  {
    if a == "" {
      assert a + b == b;
    } else {
      assert (a + b)[1..] == a[1..] + b;
      ForeignAppend(a[1..], b);
    }
  }

  lemma {:induction false} ForeignNone(s: string)
    ensures Foreign(s) == 0 <==> All(Alike, s)
  {
    if s != "" {
      ForeignNone(s[1..]);
      assert s == [s[0]] + s[1..];
    }
  }

  /** Scanning s from the left, p replaces some word with a character not treated alike. */
  predicate Takes(p: Pattern, s: string) {
    s != "" &&
    var e := MatchEnd(p, s);
    if e > 0 then !All(Alike, s[..e]) || Takes(p, s[e..]) else Takes(p, s[1..])
  }

  /** A pass drops the foreign characters of the words it replaces and no others. */
  lemma {:induction false} PassDropsTaken(p: Pattern, s: string)
    requires All(Alike, Marker(p.name))
    ensures Foreign(ReplaceAll(p, s)) <= Foreign(s)
    ensures Foreign(ReplaceAll(p, s)) == Foreign(s) <==> !Takes(p, s)
  {
    hide Alike, All, MatchEnd, Marker, Foreign;
    if s != "" {
      var e := MatchEnd(p, s);
      var k := if e > 0 then e else 1;
      var put := if e > 0 then Marker(p.name) else [s[0]];
      PassDropsTaken(p, s[k..]);
      assert s == s[..k] + s[k..] && ReplaceAll(p, s) == put + ReplaceAll(p, s[k..]);
      ForeignAppend(s[..k], s[k..]);
      ForeignAppend(put, ReplaceAll(p, s[k..]));
      ForeignNone(Marker(p.name));
      ForeignNone(s[..k]);
      if e == 0 { assert s[..k] == put; }
    }
  }

  /** As long as Python takes nothing foreign, Go does the same. */
  lemma {:induction false} SameUnlessTaken(go: Pattern, py: Pattern, s: string)
    requires Ports(go, py) && !Takes(py, s)
    ensures ReplaceAll(go, s) == ReplaceAll(py, s)
  {
    hide Alike, All, Marker;
    if s != "" {
      var e := MatchEnd(py, s);
      assert MatchEnd(go, s) == e by { SameMatchUnlessTaken(go, py, s); }
      SameUnlessTaken(go, py, s[if e > 0 then e else 1..]);
    }
  }

  lemma SameMatchUnlessTaken(go: Pattern, py: Pattern, s: string)
    requires Ports(go, py) && s != "" && (MatchEnd(py, s) > 0 ==> All(Alike, s[..MatchEnd(py, s)]))
    ensures MatchEnd(go, s) == MatchEnd(py, s)
  {
    hide Alike, All, Marker, LongestMatch;
    var e, f := LongestMatch(go, s, |s|), LongestMatch(py, s, |s|);
    assert MatchEnd(go, s) == e && MatchEnd(py, s) == f;
    assert f > 0 ==> go.accepts(s[..f]);
    assert e > 0 ==> py.accepts(s[..e]);
  }

  lemma {:induction false} AlikeTakesNone(p: Pattern, s: string)
    requires forall w :: p.accepts(w) ==> All(Alike, w)
    ensures !Takes(p, s)
  {
    hide Alike, All;
    if s != "" {
      var e := MatchEnd(p, s);
      AlikeTakesNone(p, s[if e > 0 then e else 1..]);
    }
  }

  /** For every table and its port, every text and any number n of passes: the outputs are equal if and
    only if no pass of Python's, on what Go's passes before it leave, replaces a word with a foreign
    character; which is the case if and only if Python's output still has all the foreign characters. */
  lemma {:induction false} TableParity(gos: seq<Pattern>, pys: seq<Pattern>, n: nat, s: string)
    requires PortsTable(gos, pys) && n <= |gos|
    ensures Foreign(RedactAll(gos[..n], s)) == Foreign(s) && Foreign(RedactAll(pys[..n], s)) <= Foreign(s)
    ensures RedactAll(gos[..n], s) == RedactAll(pys[..n], s) <==> Foreign(RedactAll(pys[..n], s)) == Foreign(s)
    ensures RedactAll(gos[..n], s) == RedactAll(pys[..n], s) <==> forall k :: 0 <= k < n ==> !Takes(pys[k], RedactAll(gos[..k], s))
  {
    hide Foreign, Takes, ReplaceAll, RedactAll, Alike, All, Marker;
    if n == 0 {
      NothingRedacted(s);
    } else {
      var go, py := gos[n - 1], pys[n - 1];
      var t, u := RedactAll(gos[..n - 1], s), RedactAll(pys[..n - 1], s);
      TableParity(gos, pys, n - 1, s);
      OnePassMore(gos, n - 1, s);
      OnePassMore(pys, n - 1, s);
      PassParity(go, py, t, u);
    }
  }

  /** One pass of each on texts that are equal or differ in the number of foreign characters. */
  lemma PassParity(go: Pattern, py: Pattern, t: string, u: string)
    requires Ports(go, py) && Foreign(u) <= Foreign(t) && (t == u <==> Foreign(u) == Foreign(t))
    ensures Foreign(ReplaceAll(go, t)) == Foreign(t) && Foreign(ReplaceAll(py, u)) <= Foreign(t)
    ensures ReplaceAll(go, t) == ReplaceAll(py, u) <==> Foreign(ReplaceAll(py, u)) == Foreign(t)
    ensures ReplaceAll(go, t) == ReplaceAll(py, u) <==> t == u && !Takes(py, t)
  {
    hide Foreign, Takes, ReplaceAll, Alike, All, Marker;
    AlikeTakesNone(go, t);
    PassDropsTaken(go, t);
    PassDropsTaken(py, u);
    if t == u && !Takes(py, t) { SameUnlessTaken(go, py, t); }
  }

  lemma NothingRedacted(s: string)
    ensures RedactAll([], s) == s
  {
  }

  // ---------------------------------------------------------------- the shipped table

  /** The words of pattern k that Python's engine accepts and Go's does not. */
  function OnlyPython(k: nat): Pattern
    requires k < 5
  {
    var go, py := DefaultPatterns(GO)[k], DefaultPatterns(PYTHON)[k];
    Pattern(py.name, w => py.accepts(w) && !go.accepts(w), LONGEST)
  }

  lemma {:induction false} TakenOccurs(k: nat, s: string)
    requires k < 5 && Takes(DefaultPatterns(PYTHON)[k], s)
    ensures Occurs(OnlyPython(k), s)
  {
    hide All, Alike, EnvAssignment, BearerToken, PrivateKey, PrefixedKey, Occurs;
    var py := DefaultPatterns(PYTHON)[k];
    var e := MatchEnd(py, s);
    var rest := if e > 0 then e else 1;
    if e > 0 && !All(Alike, s[..e]) {
      WordParity(k, s[..e]);
      PrefixOccurs(OnlyPython(k), s, e);
    } else {
      TakenOccurs(k, s[rest..]);
      OccursInSuffix(OnlyPython(k), s, rest);
    }
  }

  lemma PrefixOccurs(p: Pattern, s: string, e: nat)
    requires 0 < e <= |s| && p.accepts(s[..e])
    ensures Occurs(p, s)
  {
    assert s[0..e] == s[..e];
  }

  /** An assignment word has its one equals sign at its end. */
  lemma OneEquals(s: string, i: nat, j: nat)
    requires i < j <= |s| && EnvAssignment(PYTHON, s[i..j])
    ensures s[j - 1] == '=' && forall x :: i <= x < j - 1 ==> s[x] != '='
  {
    hide IsKeyword;
    var w := s[i..j];
    var k :| 0 <= k < |w| && IsKeyword(PythonFold, w[..k]) && All(IsSpace, w[k..|w| - 1]);
    KeywordChars(PythonFold, w[..k]);
    assert s[j - 1] == w[|w| - 1];
    forall x | i <= x < j - 1
      ensures s[x] != '='
    {
      if x - i < k {
        assert IsKeywordChar(FoldAll(PythonFold, w[..k])[x - i]);
      } else {
        assert IsSpace(w[k..|w| - 1][x - i - k]);
      }
    }
  }

  /** So two that overlap end together, and the longer one has the foreign characters of the other. */
  lemma OverlapIsForeign(s: string, i: nat, j: nat, e: nat)
    requires i < j <= |s| && i < e <= |s| && EnvAssignment(PYTHON, s[i..j]) && EnvAssignment(PYTHON, s[..e])
    requires !All(Alike, s[i..j])
    ensures !All(Alike, s[..e])
  {
    hide EnvAssignment, All;
    assert s[0..e] == s[..e];
    OneEquals(s, i, j);
    OneEquals(s, 0, e);
    assert j == e && s[..e][i..] == s[i..j];
    AllSplits(Alike, s[..e], i);
  }

  /** Whatever comes before it, an assignment word that only Python accepts is replaced by Python. */
  lemma {:induction false} EnvIsTaken(s: string, i: nat, j: nat)
    requires i < j <= |s| && EnvAssignment(PYTHON, s[i..j]) && !All(Alike, s[i..j])
    ensures Takes(DefaultPatterns(PYTHON)[0], s)
    decreases |s|
  {
    hide Alike, EnvAssignment, All;
    var p := DefaultPatterns(PYTHON)[0];
    var e := MatchEnd(p, s);
    if e == 0 {
      assert s[0..j] == s[..j];
      TailSlice(s, i, j);
      EnvIsTaken(s[1..], i - 1, j - 1);
    } else if i < e {
      OverlapIsForeign(s, i, j, e);
    } else {
      assert s[e..][i - e..j - e] == s[i..j];
      EnvIsTaken(s[e..], i - e, j - e);
    }
  }

  lemma EnvTakenIffOccurs(s: string)
    ensures Takes(DefaultPatterns(PYTHON)[0], s) <==> Occurs(OnlyPython(0), s)
  {
    hide All, Alike, EnvAssignment, Takes;
    if Takes(DefaultPatterns(PYTHON)[0], s) { TakenOccurs(0, s); }
    if Occurs(OnlyPython(0), s) {
      var i, j :| 0 <= i < j <= |s| && OnlyPython(0).accepts(s[i..j]);
      WordParity(0, s[i..j]);
      EnvIsTaken(s, i, j);
    }
  }

  /** For every text the two redactors give the same output if and only if no assignment word that only
    Python accepts stands in it, and Python's Bearer pattern, on what the first two passes of Go leave,
    replaces no word with a foreign character. */
  lemma EnginesAgreeIff(s: string)
    ensures var go, py := DefaultPatterns(GO), DefaultPatterns(PYTHON);
            RedactAll(go, s) == RedactAll(py, s) <==> !Occurs(OnlyPython(0), s) && !Takes(py[2], RedactAll(go[..2], s))
  {
    hide All, Alike, Occurs, Takes, RedactAll, EnvAssignment, BearerToken, PrivateKey, PrefixedKey;
    var go, py := DefaultPatterns(GO), DefaultPatterns(PYTHON);
    DefaultPorts();
    TableParity(go, py, 5, s);
    assert go[..5] == go && py[..5] == py;
    EnvTakenIffOccurs(s);
    assert go[..0] == [] && RedactAll(go[..0], s) == s by { NothingRedacted(s); }
    forall k | k == 1 || k == 3 || k == 4
      ensures !Takes(py[k], RedactAll(go[..k], s))
    {
      assert py[k].accepts == go[k].accepts;
      forall w | py[k].accepts(w) ensures All(Alike, w) { WordParity(k, w); }
      AlikeTakesNone(py[k], RedactAll(go[..k], s));
    }
  }

  /** The first two passes bring no new Bearer words: those of Python's alone stand in the text already. */
  lemma BearerWordsWereThere(s: string)
    requires !Occurs(OnlyPython(2), s)
    ensures !Occurs(OnlyPython(2), RedactAll(DefaultPatterns(GO)[..2], s))
  {
    hide Occurs, ReplaceAll, RedactAll, EnvAssignment, BearerToken, PrivateKey;
    var go, py, p := DefaultPatterns(GO), DefaultPatterns(PYTHON), OnlyPython(2);
    OnlyPythonIsBlind(go[0]);
    OnlyPythonIsBlind(go[1]);
    ReplaceClears(p, go[0], s);
    ReplaceClears(p, go[1], ReplaceAll(go[0], s));
    OnePassMore(go, 0, s);
    OnePassMore(go, 1, s);
    NothingRedacted(s);
    assert go[..0] == [];
  }

  lemma OnlyPythonIsBlind(q: Pattern)
    requires q.name in [ENV, PRIVATE]
    ensures Blind(OnlyPython(2), q)
  {
    hide BearerToken;
    EnginesAreFair();
    var p := OnlyPython(2);
    forall w | p.accepts(w)
      ensures Bracketless(w) && (!All(IsPlain, w) || !NoCp(w))
    {
      BearerWords(PYTHON, w);
    }
    BlindByWords(p, q);
  }

  /** A text without words that only Python accepts comes out the same. */
  lemma WordFreeAgree(s: string)
    requires !Occurs(OnlyPython(0), s) && !Occurs(OnlyPython(2), s)
    ensures RedactAll(DefaultPatterns(GO), s) == RedactAll(DefaultPatterns(PYTHON), s)
  {
    hide Occurs, Takes, RedactAll, EnvAssignment, BearerToken;
    var t := RedactAll(DefaultPatterns(GO)[..2], s);
    BearerWordsWereThere(s);
    if Takes(DefaultPatterns(PYTHON)[2], t) { TakenOccurs(2, t); }
    EnginesAgreeIff(s);
  }

  /** In particular a text of characters that the engines treat alike. */
  lemma AlikeAgree(s: string)
    requires All(Alike, s)
    ensures RedactAll(DefaultPatterns(GO), s) == RedactAll(DefaultPatterns(PYTHON), s)
  {
    hide RedactAll, EnvAssignment, BearerToken, Alike, DefaultPatterns;
    forall k, i, j | 0 <= k < 5 && 0 <= i < j <= |s|
      ensures !OnlyPython(k).accepts(s[i..j])
    {
      assert forall x :: 0 <= x < j - i ==> s[i..j][x] == s[i + x];
      WordParity(k, s[i..j]);
    }
    WordFreeAgree(s);
  }

  /** A Bearer word that only Python accepts, on its own, comes out different, unless an earlier pass
    has something to replace in it. */
  lemma BearerWordDiffers(w: string)
    requires OnlyPython(2).accepts(w) && Normal(DefaultPatterns(GO)[..2], w)
    ensures RedactAll(DefaultPatterns(GO), w) != RedactAll(DefaultPatterns(PYTHON), w)
  {
    hide RedactAll, EnvAssignment, Occurs;
    var py := DefaultPatterns(PYTHON);
    NormalIsFixed(DefaultPatterns(GO)[..2], w);
    WordParity(2, w);
    assert w[..|w|] == w;
    assert MatchEnd(py[2], w) == |w|;
    EnginesAgreeIff(w);
  }

  /** Words on which the engines differ: by the letter i, and by white space in two patterns. */
  lemma EnginesDiffer()
    ensures OnlyPython(0).accepts("ap\U{131}_key=") && OnlyPython(0).accepts("token\U{A0}=")
    ensures OnlyPython(2).accepts("Bearer\U{A0}x")
  {
    hide EnvAssignment, BearerToken, IsKeyword;
    PythonKeywords();
    assert !Alike(("ap\U{131}_key" + "")[2]) && !Alike(("token" + "\U{A0}")[5]);
    OnlyPythonEnv("ap\U{131}_key", "");
    OnlyPythonEnv("token", "\U{A0}");
    OnlyPythonBearer("x", "");
    assert "ap\U{131}_key" + "" + "=" == "ap\U{131}_key=" && "token" + "\U{A0}" + "=" == "token\U{A0}=";
    assert "Bearer" + "\U{A0}" + "x" + "" == "Bearer\U{A0}x";
  }

  lemma PythonKeywords()
    ensures IsKeyword(PythonFold, "ap\U{131}_key") && IsKeyword(PythonFold, "token")
  {
    assert FoldAll(PythonFold, "ap\U{131}_key") == "api_key";
    assert FoldAll(PythonFold, "token") == "token";
  }

  lemma OnlyPythonEnv(keyword: string, gap: string)
    requires IsKeyword(PythonFold, keyword) && All(IsSpace, gap) && !All(Alike, keyword + gap)
    ensures OnlyPython(0).accepts(keyword + gap + "=")
  {
    hide EnvAssignment, IsKeyword, IsSpace, Alike;
    var w := keyword + gap + "=";
    SpelledWordsMatch(PYTHON, keyword, gap, "", "x", "x", "");
    WordParity(0, w);
    assert w[..|keyword + gap|] == keyword + gap;
    AllSplits(Alike, w, |keyword + gap|);
  }

  lemma OnlyPythonBearer(body: string, pad: string)
    requires body != "" && All(IsBearerChar, body) && All(IsEquals, pad)
    ensures OnlyPython(2).accepts("Bearer" + "\U{A0}" + body + pad)
  {
    hide BearerToken, IsKeyword;
    var w := "Bearer" + "\U{A0}" + body + pad;
    PythonKeywords();
    SpelledWordsMatch(PYTHON, "token", "\U{A0}", "", "x", body, pad);
    WordParity(2, w);
    assert !Alike(w[6]);
  }
}

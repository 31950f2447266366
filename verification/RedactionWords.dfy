/** What the shipped table matches, spelled out, and that it replaces whole secrets. */
module RedactionWords {
  import opened Redaction
  import opened RedactionTable

  // ---------------------------------------------------------------- the word sets, both ways

  predicate IsLetterCode(n: int) { 65 <= n <= 90 || 97 <= n <= 122 }

  /** The character classes of the expressions, by code point: letters, digits and `.`, `_`, `-`, to which
    Bearer words add `~`, `+` and `/`; capitals and the space. */
  lemma ClassesSpelledOut(c: char)
    ensures var n := c as int;
            && (IsKeyChar(c) <==> IsLetterCode(n) || 48 <= n <= 57 || n == 46 || n == 95 || n == 45)
            && (IsBearerChar(c) <==> IsKeyChar(c) || n == 126 || n == 43 || n == 47)
            && (IsCapital(c) <==> 65 <= n <= 90 || n == 32)
            && (IsEquals(c) <==> n == 61)
  {
    assert c in "._-" <==> c == '.' || c == '_' || c == '-';
    assert c in "._~+/-" <==> c == '.' || c == '_' || c == '~' || c == '+' || c == '/' || c == '-';
  }

  /** The engines, by code point: what each takes for white space, and which characters beyond the two cases of
    a letter each takes for one: the Kelvin sign for k, long s for s, and, Python's alone, dotted capital and
    dotless small i for i. */
  lemma EnginesSpelledOut(c: char)
    ensures var n := c as int;
            && (GO.space(c) <==> n == 9 || n == 10 || n == 12 || n == 13 || n == 32)
            && (PYTHON.space(c) <==> 9 <= n <= 13 || 28 <= n <= 32 || n == 0x85 || n == 0xA0 || n == 0x1680 || 0x2000 <= n <= 0x200A
                                     || n == 0x2028 || n == 0x2029 || n == 0x202F || n == 0x205F || n == 0x3000)
            && (GO.fold(c) == 'k' <==> n == 107 || n == 75 || n == 0x212A) && (PYTHON.fold(c) == 'k' <==> GO.fold(c) == 'k')
            && (GO.fold(c) == 's' <==> n == 115 || n == 83 || n == 0x17F) && (PYTHON.fold(c) == 's' <==> GO.fold(c) == 's')
            && (GO.fold(c) == 'i' <==> n == 105 || n == 73) && (PYTHON.fold(c) == 'i' <==> n == 105 || n == 73 || n == 0x130 || n == 0x131)
            && (forall a :: 'a' <= a <= 'z' && a !in "kis" ==> (GO.fold(c) == a <==> n == a as int || n == a as int - 32))
            && (forall a :: 'a' <= a <= 'z' && a !in "kis" ==> (PYTHON.fold(c) == a <==> n == a as int || n == a as int - 32))
            && (n == 95 || n == 45 <==> GO.fold(c) == '_' || GO.fold(c) == '-')
  {
  }

  /** Each word set holds only words its expression spells. */
  lemma EnvIsSpelled(e: Engine, w: string) returns (keyword: string, gap: string)
    requires EnvAssignment(e, w)
    ensures IsKeyword(e.fold, keyword) && All(e.space, gap) && w == keyword + gap + "="
  {
    hide IsKeyword, All;
    var k :| 0 <= k < |w| && IsKeyword(e.fold, w[..k]) && All(e.space, w[k..|w| - 1]);
    keyword, gap := w[..k], w[k..|w| - 1];
  }

  lemma PrivateKeyIsSpelled(w: string) returns (capitals: string)
    requires PrivateKey(w)
    ensures All(IsCapital, capitals) && w == "-----BEGIN " + capitals + "PRIVATE KEY-----"
  {
    hide All;
    capitals := w[|BEGIN|..|w| - |PRIVATE_KEY|];
    assert w == w[..|BEGIN|] + capitals + w[|w| - |PRIVATE_KEY|..];
  }

  lemma BearerIsSpelled(e: Engine, w: string) returns (gap: string, body: string, pad: string)
    requires BearerToken(e, w)
    ensures All(e.space, gap) && gap != "" && All(IsBearerChar, body) && body != "" && All(IsEquals, pad)
    ensures w == "Bearer" + gap + body + pad
  {
    hide All;
    var a, b :| 6 < a < b <= |w| && All(e.space, w[6..a]) && All(IsBearerChar, w[a..b]) && All(IsEquals, w[b..]);
    gap, body, pad := w[6..a], w[a..b], w[b..];
    assert w == w[..6] + gap + body + pad;
  }

  lemma PrefixedIsSpelled(prefix: string, w: string) returns (body: string)
    requires PrefixedKey(prefix, w)
    ensures All(IsKeyChar, body) && body != "" && w == prefix + body
  {
    body := w[|prefix|..];
  }

  /** And the keywords are these, in any case that the engine folds onto them. */
  lemma KeywordsSpelledOut(fold: char -> char, s: string)
    ensures IsKeyword(fold, s) <==> FoldAll(fold, s) in {"apikey", "api_key", "api-key", "secret", "token", "password"}
  {
  }

  // ---------------------------------------------------------------- whole words go

  /** A text that is one word of pattern k, in which no earlier pattern has anything to replace, becomes that
    pattern's marker and nothing else, provided no later pattern matches in the marker. */
  lemma {:induction false} WholeWord(ps: seq<Pattern>, k: nat, n: nat, w: string)
    requires k < n <= |ps| && w != "" && ps[k].accepts(w) && ps[k].prefers == LONGEST && Normal(ps[..k], w)
    requires forall j :: k < j < |ps| ==> !Occurs(ps[j], Marker(ps[k].name))
    ensures RedactAll(ps[..n], w) == Marker(ps[k].name)
  {
    hide Occurs, RedactAll, ReplaceAll, Marker, Normal;
    OnePassMore(ps, n - 1, w);
    if n == k + 1 {
      NormalIsFixed(ps[..k], w);
      WordIsReplaced(ps[k], w);
    } else {
      WholeWord(ps, k, n - 1, w);
      NothingToReplace(ps[n - 1], Marker(ps[k].name));
    }
  }

  lemma WordIsReplaced(p: Pattern, w: string)
    requires w != "" && p.accepts(w) && p.prefers == LONGEST
    ensures ReplaceAll(p, w) == Marker(p.name)
  {
    hide Occurs, Weave, Marker;
    var gaps, words := ReplacementIsExact(p, w);
    assert w[0..|w|] == w;
    assert gaps[0] == "";
    var t := w[|gaps[0]|..];
    assert t == w && words != [] && w[..|w|] == w;
    assert |words[0]| == |w| && words[0] == w;
    assert t[|words[0]|..] == "";
    EmptyScanned(p);
    ScanIsUnique(p, "", gaps[1..], words[1..], [""], []);
    assert gaps == [""] + [""] && words == [w];
    OneMarker(Marker(p.name), gaps);
  }

  lemma OneMarker(m: string, gaps: seq<string>)
    requires gaps == [""] + [""]
    ensures Weave(gaps, Repeat(m, 1)) == m
  {
    var r := Repeat(m, 1);
    assert r[1..] == [] && gaps[1..] == [""];
  }

  lemma MarkersAreClean(e: Engine, i: nat, k: nat)
    requires Fair(e) && i < 5 && k < 5
    ensures var ps := DefaultPatterns(e); !Occurs(ps[i], Marker(ps[k].name))
  {
    hide Occurs, Blind, EnvAssignment, PrivateKey, BearerToken, PrefixedKey;
    var ps := DefaultPatterns(e);
    DefaultTableIsBlind(e);
    NoneInEmpty(ps[i]);
    PastMarker(ps[i], ps[k], "");
    assert Marker(ps[k].name) + "" == Marker(ps[k].name);
  }

  lemma ShippedWholeWord(e: Engine, k: nat, w: string)
    requires e == GO || e == PYTHON
    requires var ps := DefaultPatterns(e); k < 5 && w != "" && ps[k].accepts(w) && Normal(ps[..k], w)
    ensures RedactAll(DefaultPatterns(e), w) == Marker(DefaultPatterns(e)[k].name)
  {
    hide Occurs, RedactAll, EnvAssignment, PrivateKey, BearerToken, PrefixedKey, Normal;
    var ps := DefaultPatterns(e);
    EnginesAreFair();
    forall j | k < j < |ps| ensures !Occurs(ps[j], Marker(ps[k].name)) { MarkersAreClean(e, j, k); }
    WholeWord(ps, k, 5, w);
    assert ps[..5] == ps;
  }

  /** Nothing that the first three patterns match lies in a run of key characters. */
  lemma KeysAreNormal(e: Engine, w: string)
    requires Fair(e) && All(IsKeyChar, w) && forall c :: IsKeyChar(c) ==> !e.space(c)
    ensures Normal(DefaultPatterns(e)[..3], w)
  {
    hide EnvAssignment, PrivateKey, BearerToken, IsKeyChar;
    var ps := DefaultPatterns(e);
    forall k, i, j | 0 <= k < 3 && 0 <= i < j <= |w|
      ensures !ps[k].accepts(w[i..j])
    {
      assert forall x :: 0 <= x < j - i ==> IsKeyChar(w[i..j][x]) by {
        assert forall x :: 0 <= x < j - i ==> w[i..j][x] == w[i + x];
      }
      if ps[k].accepts(w[i..j]) { NotAllKeyChars(e, k, w[i..j]); }
    }
    assert forall k :: 0 <= k < 3 ==> ps[..3][k] == ps[k];
  }

  lemma NotAllKeyChars(e: Engine, k: nat, w: string)
    requires k < 3 && DefaultPatterns(e)[k].accepts(w) && forall c :: IsKeyChar(c) ==> !e.space(c)
    ensures !All(IsKeyChar, w)
  {
    if k == 0 {
      assert !IsKeyChar(w[|w| - 1]);
    } else if k == 1 {
      assert w[10] == w[..|BEGIN|][10];
      assert !IsKeyChar(w[10]);
    } else {
      var a, b :| 6 < a < b <= |w| && All(e.space, w[6..a]) && All(IsBearerChar, w[a..b]) && All(IsEquals, w[b..]);
      assert w[6] == w[6..a][0];
      assert !IsKeyChar(w[6]);
    }
  }

  lemma KeyCharsAreNoSpace(e: Engine, c: char)
    requires e == GO || e == PYTHON
    ensures IsKeyChar(c) ==> !e.space(c)
  {
  }

  lemma PrefixIsOfKeyChars()
    ensures All(IsKeyChar, "sk-ant-") && All(IsKeyChar, "cp_sess_")
  {
  }

  /** Secrets go as a whole. A key "sk-ant-..." of any length becomes its marker and nothing of it is left. A
    session token does so too, unless it holds such a key, and a Bearer token unless an earlier pattern has
    something to replace in it. */
  lemma SecretsGoWhole(e: Engine, gap: string, body: string, bearerBody: string, pad: string)
    requires e == GO || e == PYTHON
    requires All(e.space, gap) && gap != "" && All(IsKeyChar, body) && body != ""
    requires All(IsBearerChar, bearerBody) && bearerBody != "" && All(IsEquals, pad)
    ensures var ps := DefaultPatterns(e);
            && RedactAll(ps, "sk-ant-" + body) == "[REDACTED:" + "anthropic_key" + "]"
            && (!Occurs(ps[3], "cp_sess_" + body) ==> RedactAll(ps, "cp_sess_" + body) == "[REDACTED:" + "claude_proxy_session_token" + "]")
            && (Normal(ps[..2], "Bearer" + gap + bearerBody + pad) ==>
                  RedactAll(ps, "Bearer" + gap + bearerBody + pad) == "[REDACTED:" + "bearer_token" + "]")
  {
    hide RedactAll, Occurs, EnvAssignment, PrivateKey, BearerToken, PrefixedKey, IsKeyword, IsKeyChar, All, Marker;
    var ps := DefaultPatterns(e);
    var anthropic, session, bearer := "sk-ant-" + body, "cp_sess_" + body, "Bearer" + gap + bearerBody + pad;
    EnginesAreFair();
    SomeKeyword(e);
    NoCapitals();
    SpelledWordsMatch(e, "token", gap, "", body, bearerBody, pad);
    forall c ensures IsKeyChar(c) ==> !e.space(c) { KeyCharsAreNoSpace(e, c); }
    PrefixIsOfKeyChars();
    AllAppend(IsKeyChar, "sk-ant-", body);
    AllAppend(IsKeyChar, "cp_sess_", body);
    KeysAreNormal(e, anthropic);
    KeysAreNormal(e, session);
    ShippedWholeWord(e, 3, anthropic);
    if !Occurs(ps[3], session) {
      assert ps[..4] == ps[..3] + [ps[3]];
      ShippedWholeWord(e, 4, session);
    }
    if Normal(ps[..2], bearer) { ShippedWholeWord(e, 2, bearer); }
    MarkerText(ANTHROPIC);
    MarkerText(SESSION);
    MarkerText(BEARER);
  }

  lemma SomeKeyword(e: Engine)
    requires e == GO || e == PYTHON
    ensures IsKeyword(e.fold, "token")
  {
    assert FoldAll(e.fold, "token") == "token";
  }

  lemma NoCapitals()
    ensures All(IsCapital, "")
  {
  }

  lemma AllAppend(member: Class, s: string, t: string)
    requires All(member, s) && All(member, t)
    ensures All(member, s + t)
  {
  }

  lemma MarkerText(name: string)
    ensures Marker(name) == "[REDACTED:" + name + "]"
  {
  }
}

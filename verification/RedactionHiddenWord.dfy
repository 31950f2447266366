/** A text with a word that only Python's engine accepts, on which the two redactors agree all the same:
  an earlier pass breaks the word up. */
module RedactionHiddenWord {
  import opened Text
  import opened Redaction
  import opened RedactionLaw
  import opened RedactionTable
  import opened RedactionParity

  /** No keyword starts at i. */
  predicate NoKeywordAt(t: string, i: nat) {
    i + 1 < |t| && GoFold(t[i]) !in "stp" && (GoFold(t[i]) == 'a' ==> GoFold(t[i + 1]) != 'p')
  }

  lemma KeywordStart(s: string)
    ensures IsKeyword(GoFold, s) ==> |s| >= 2 && (GoFold(s[0]) in "stp" || (GoFold(s[0]) == 'a' && GoFold(s[1]) == 'p'))
  {
    if IsKeyword(GoFold, s) {
      var t := FoldAll(GoFold, s);
      assert t[0] == GoFold(s[0]) && t[1] == GoFold(s[1]);
    }
  }

  lemma NoEnvStart(t: string)
    requires NoKeywordAt(t, 0)
    ensures MatchEnd(DefaultPatterns(GO)[0], t) == 0
  {
    hide IsKeyword, GoFold;
    var p := DefaultPatterns(GO)[0];
    forall j | 0 < j <= |t|
      ensures !p.accepts(t[..j])
    {
      var w := t[..j];
      forall k | 0 <= k < |w|
        ensures !IsKeyword(GoFold, w[..k])
      {
        KeywordStart(w[..k]);
        assert k >= 2 ==> w[..k][0] == t[0] && w[..k][1] == t[1];
      }
    }
  }

  lemma {:induction false} SkipNoMatch(p: Pattern, s: string, n: nat)
    requires n <= |s| && forall i :: 0 <= i < n ==> MatchEnd(p, s[i..]) == 0
    ensures ReplaceAll(p, s) == s[..n] + ReplaceAll(p, s[n..])
  {
    hide ReplaceAll, MatchEnd;
    if n == 0 {
      assert s[0..] == s;
    } else {
      SkipNoMatch(p, s, n - 1);
      var t := s[n - 1..];
      ReplaceStep(p, t);
      assert t[1..] == s[n..] && s[..n] == s[..n - 1] + [t[0]];
    }
  }

  const HIDDEN := "Bearer\U{A0}token="

  lemma TokenIsReplaced()
    ensures ReplaceAll(DefaultPatterns(GO)[0], "token=") == Marker(ENV)
  {
    hide ReplaceAll, EnvAssignment, Marker;
    var p, w := DefaultPatterns(GO)[0], "token=";
    assert FoldAll(GoFold, "token") == "token";
    SpelledWordsMatch(GO, "token", "", "", "x", "x", "");
    assert "token" + "" + "=" == w && w[..|w|] == w && w[|w|..] == "";
    ReplaceStep(p, w);
    ReplaceNothing(p);
    assert MatchEnd(p, w) == |w|;
  }

  lemma HiddenAfterEnv()
    ensures ReplaceAll(DefaultPatterns(GO)[0], HIDDEN) == "Bearer\U{A0}" + Marker(ENV)
  {
    hide ReplaceAll, EnvAssignment, Marker;
    forall i | 0 <= i < 7
      ensures MatchEnd(DefaultPatterns(GO)[0], HIDDEN[i..]) == 0
    {
      var t: string := HIDDEN[i..];
      assert t[0] == HIDDEN[i] && t[1] == HIDDEN[i + 1];
      NoEnvStart(t);
    }
    SkipNoMatch(DefaultPatterns(GO)[0], HIDDEN, 7);
    assert HIDDEN[..7] == "Bearer\U{A0}" && HIDDEN[7..] == "token=";
    TokenIsReplaced();
  }

  lemma HiddenAfterTwo()
    ensures RedactAll(DefaultPatterns(GO)[..2], HIDDEN) == "Bearer\U{A0}" + Marker(ENV)
  {
    hide RedactAll, ReplaceAll, EnvAssignment, PrivateKey, Occurs;
    var go, t := DefaultPatterns(GO), "Bearer\U{A0}" + Marker(ENV);
    HiddenAfterEnv();
    NothingRedacted(HIDDEN);
    assert go[..0] == [];
    OnePassMore(go, 0, HIDDEN);
    OnePassMore(go, 1, HIDDEN);
    NoKeyWithoutDash(t);
    NothingToReplace(go[1], t);
  }

  /** Not every word that only Python accepts makes a difference: here an earlier pass breaks it up, in the
    same way in both engines. */
  lemma HiddenWordAgrees()
    ensures OnlyPython(2).accepts(HIDDEN)
    ensures RedactAll(DefaultPatterns(GO), HIDDEN) == RedactAll(DefaultPatterns(PYTHON), HIDDEN)
  {
    hide RedactAll, EnvAssignment, BearerToken, Occurs, Takes, Marker;
    OnlyPythonBearer("token", "=");
    assert "Bearer" + "\U{A0}" + "token" + "=" == HIDDEN;
    var t := "Bearer\U{A0}" + Marker(ENV);
    HiddenAfterTwo();
    HiddenEnvIsShared();
    HiddenIsCut();
    if Takes(DefaultPatterns(PYTHON)[2], t) { TakenOccurs(2, t); }
    EnginesAgreeIff(HIDDEN);
  }

  lemma NoKeyWithoutDash(t: string)
    requires '-' !in t
    ensures !Occurs(DefaultPatterns(GO)[1], t)
  {
    forall i, j | 0 <= i < j <= |t|
      ensures !PrivateKey(t[i..j])
    {
      if |t[i..j]| >= 11 { assert t[i..j][..11][0] == t[i]; }
    }
  }

  lemma HiddenEnvIsShared()
    ensures !Occurs(OnlyPython(0), HIDDEN)
  {
    hide EnvAssignment;
    forall i, j | 0 <= i < j <= |HIDDEN|
      ensures !OnlyPython(0).accepts(HIDDEN[i..j])
    {
      WordParity(0, HIDDEN[i..j]);
      if EnvAssignment(PYTHON, HIDDEN[i..j]) {
        HiddenEnvIsAlike(i, j);
      }
    }
  }

  /** An assignment word without white space before its equals sign is a keyword up to there. */
  lemma KeywordBeforeEquals(s: string, i: nat, j: nat)
    requires i < j - 1 && j <= |s| && EnvAssignment(PYTHON, s[i..j]) && !IsSpace(s[j - 2])
    ensures forall x :: i <= x < j - 1 ==> IsKeywordChar(PythonFold(s[x]))
  {
    hide IsKeyword, IsSpace;
    var w := s[i..j];
    var k :| 0 <= k < |w| && IsKeyword(PythonFold, w[..k]) && All(IsSpace, w[k..|w| - 1]);
    forall x | k <= x < |w| - 1 ensures IsSpace(w[x]) { assert w[k..|w| - 1][x - k] == w[x]; }
    assert w[|w| - 2] == s[j - 2];
    assert k == |w| - 1;
    KeywordChars(PythonFold, w[..k]);
    forall x | i <= x < j - 1
      ensures IsKeywordChar(PythonFold(s[x]))
    {
      assert IsKeywordChar(FoldAll(PythonFold, w[..k])[x - i]);
    }
  }

  lemma HiddenText()
    ensures |HIDDEN| == 13 && HIDDEN[11] == 'n' && forall x :: 0 <= x < 12 ==> HIDDEN[x] != '='
    ensures HIDDEN[6] == '\U{A0}' && forall x :: 7 <= x < 13 ==> Alike(HIDDEN[x])
  {
  }

  lemma HiddenEnvIsAlike(i: nat, j: nat)
    requires i < j <= |HIDDEN| && EnvAssignment(PYTHON, HIDDEN[i..j])
    ensures All(Alike, HIDDEN[i..j])
  {
    hide EnvAssignment, Alike;
    HiddenText();
    var s: string := HIDDEN;
    OneEquals(s, i, j);
    assert j == 13;
    if i < 12 {
      KeywordBeforeEquals(s, i, j);
      assert !IsKeywordChar(PythonFold(s[6]));
    }
    assert forall x :: 0 <= x < j - i ==> s[i..j][x] == s[i + x];
  }

  lemma ShortIsNoBearer(w: string)
    requires |w| <= 7
    ensures !OnlyPython(2).accepts(w)
  {
  }

  lemma HiddenIsCut()
    ensures !Occurs(OnlyPython(2), "Bearer\U{A0}" + Marker(ENV))
  {
    hide BearerToken;
    var p, a := OnlyPython(2), "Bearer\U{A0}";
    OnlyPythonIsBlind(DefaultPatterns(GO)[0]);
    OccursFramed(p, a, Inner(ENV), "");
    assert a + Framed(Inner(ENV)) + "" == a + Marker(ENV);
    forall i, j | 0 <= i < j <= |a| ensures !p.accepts(a[i..j]) { ShortIsNoBearer(a[i..j]); }
    NoneInEmpty(p);
  }
}

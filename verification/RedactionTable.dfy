/** The five redaction patterns the services ship, as sets of words.

  The two regular-expression engines differ in what `\s` matches and in what `(?i)` takes for a letter,
  so both are parameters. */
module RedactionTable {
  import opened Redaction
  import opened Text

  type Class = char -> bool

  predicate All(member: Class, s: string) {
    forall i :: 0 <= i < |s| ==> member(s[i])
  }

  predicate EndsWith(s: string, suffix: string) {
    |suffix| <= |s| && s[|s| - |suffix|..] == suffix
  }

  /** A regular-expression engine: its white space, and its case folding, which gives for a character the
    lower-case ASCII letter it is taken for. */
  datatype Engine = Engine(space: Class, fold: char -> char)

  function FoldAll(fold: char -> char, s: string): (t: string)
    ensures |t| == |s| && forall i :: 0 <= i < |s| ==> t[i] == fold(s[i])
  {
    seq(|s|, i requires 0 <= i < |s| => fold(s[i]))
  }

  predicate IsKeyword(fold: char -> char, s: string) {
    FoldAll(fold, s) in ["secret", "token", "password", "apikey", "api_key", "api-key"]
  }

  predicate IsAlnum(c: char) { 'a' <= c <= 'z' || 'A' <= c <= 'Z' || '0' <= c <= '9' }

  predicate IsKeyChar(c: char) { IsAlnum(c) || c in "._-" }

  predicate IsBearerChar(c: char) { IsAlnum(c) || c in "._~+/-" }

  predicate IsCapital(c: char) { 'A' <= c <= 'Z' || c == ' ' }

  predicate IsEquals(c: char) { c == '=' }

  /** `(?i)(api[_-]?key|secret|token|password)\s*=` */
  predicate EnvAssignment(e: Engine, w: string) {
    |w| >= 1 && w[|w| - 1] == '=' &&
    exists k :: 0 <= k < |w| && IsKeyword(e.fold, w[..k]) && All(e.space, w[k..|w| - 1])
  }

  const BEGIN := "-----BEGIN "
  const PRIVATE_KEY := "PRIVATE KEY-----"

  /** `-----BEGIN [A-Z ]*PRIVATE KEY-----` */
  predicate PrivateKey(w: string) {
    |BEGIN| + |PRIVATE_KEY| <= |w| && StartsWith(w, BEGIN) && EndsWith(w, PRIVATE_KEY) &&
    All(IsCapital, w[|BEGIN|..|w| - |PRIVATE_KEY|])
  }

  /** `Bearer\s+[A-Za-z0-9._~+/-]+=*` */
  predicate BearerToken(e: Engine, w: string) {
    StartsWith(w, "Bearer") &&
    exists a, b :: 6 < a < b <= |w| && All(e.space, w[6..a]) && All(IsBearerChar, w[a..b]) && All(IsEquals, w[b..])
  }

  /** A fixed prefix followed by one or more key characters. */
  predicate PrefixedKey(prefix: string, w: string) {
    StartsWith(w, prefix) && |w| > |prefix| && All(IsKeyChar, w[|prefix|..])
  }

  const ENV := "env_assignment"
  const PRIVATE := "private_key"
  const BEARER := "bearer_token"
  const ANTHROPIC := "anthropic_key"
  const SESSION := "claude_proxy_session_token"

  /** All five expressions are greedy and take the longest match. */
  function DefaultPatterns(e: Engine): seq<Pattern> {
    [Pattern(ENV, w => EnvAssignment(e, w), LONGEST),
     Pattern(PRIVATE, PrivateKey, LONGEST),
     Pattern(BEARER, w => BearerToken(e, w), LONGEST),
     Pattern(ANTHROPIC, w => PrefixedKey("sk-ant-", w), LONGEST),
     Pattern(SESSION, w => PrefixedKey("cp_sess_", w), LONGEST)]
  }

  // ---------------------------------------------------------------- the table is sealed

  /** The characters of marker texts. */
  predicate IsPlain(c: char) { 'a' <= c <= 'z' || 'A' <= c <= 'Z' || c == '_' || c == ':' }

  /** White space is no bracket and no character of a marker, and no bracket is taken for a letter. */
  ghost predicate Fair(e: Engine) {
    && (forall c :: e.space(c) ==> !IsBracket(c) && !IsPlain(c))
    && (forall c :: IsBracket(c) ==> IsBracket(e.fold(c)))
  }

  lemma KeywordHoldsNoBracket(e: Engine, word: string)
    requires Fair(e) && IsKeyword(e.fold, word)
    ensures forall i :: 0 <= i < |word| ==> !IsBracket(word[i])
  {
    assert Bracketless(FoldAll(e.fold, word));
    forall i | 0 <= i < |word|
      ensures !IsBracket(word[i])
    {
      assert FoldAll(e.fold, word)[i] == e.fold(word[i]);
    }
  }

  lemma EnvWords(e: Engine, w: string)
    requires Fair(e) && EnvAssignment(e, w)
    ensures Bracketless(w) && !All(IsPlain, w)
  {
    hide IsKeyword;
    var k :| 0 <= k < |w| && IsKeyword(e.fold, w[..k]) && All(e.space, w[k..|w| - 1]);
    KeywordHoldsNoBracket(e, w[..k]);
    forall i | 0 <= i < |w|
      ensures !IsBracket(w[i])
    {
      if i < k {
        assert w[i] == w[..k][i];
      } else if i < |w| - 1 {
        assert w[i] == w[k..|w| - 1][i - k];
      }
    }
    assert !IsPlain(w[|w| - 1]);
  }

  lemma KeyFrameHoldsNoBracket()
    ensures forall i :: 0 <= i < |BEGIN| ==> !IsBracket(BEGIN[i])
    ensures forall i :: 0 <= i < |PRIVATE_KEY| ==> !IsBracket(PRIVATE_KEY[i])
  {
  }

  lemma PrivateKeyWords(w: string)
    requires PrivateKey(w)
    ensures Bracketless(w) && !All(IsPlain, w)
  {
    var a, b := |BEGIN|, |w| - |PRIVATE_KEY|;
    KeyFrameHoldsNoBracket();
    forall i | 0 <= i < |w|
      ensures !IsBracket(w[i])
    {
      if i < a {
        assert w[i] == BEGIN[i];
      } else if i < b {
        assert w[i] == w[a..b][i - a];
      } else {
        assert w[i] == w[b..][i - b] == PRIVATE_KEY[i - b];
      }
    }
    assert w[0] == w[..a][0] == '-';
  }

  lemma BearerWords(e: Engine, w: string)
    requires Fair(e) && BearerToken(e, w)
    ensures Bracketless(w) && !All(IsPlain, w)
  {
    var a, b :| 6 < a < b <= |w| && All(e.space, w[6..a]) && All(IsBearerChar, w[a..b]) && All(IsEquals, w[b..]);
    forall i | 0 <= i < |w|
      ensures !IsBracket(w[i])
    {
      if i < 6 {
        assert w[i] == w[..6][i];
      } else if i < a {
        assert w[i] == w[6..a][i - 6];
      } else if i < b {
        assert w[i] == w[a..b][i - a];
      } else {
        assert w[i] == w[b..][i - b];
      }
    }
    assert w[6] == w[6..a][0];
  }

  lemma PrefixedWords(prefix: string, w: string)
    requires Bracketless(prefix) && PrefixedKey(prefix, w)
    ensures Bracketless(w)
  {
    forall i | 0 <= i < |w|
      ensures !IsBracket(w[i])
    {
      if i < |prefix| {
        assert w[i] == prefix[i];
      } else {
        assert w[i] == w[|prefix|..][i - |prefix|];
      }
    }
  }

  /** A word of marker characters never has c directly before p in one of the five markers. */
  predicate NoCp(s: string) {
    forall i :: 0 <= i < |s| - 1 ==> !(s[i] == 'c' && s[i + 1] == 'p')
  }

  lemma MarkersArePlain(name: string)
    requires name in [ENV, PRIVATE, BEARER, ANTHROPIC, SESSION]
    ensures All(IsPlain, Inner(name))
  {
    assert All(IsPlain, "REDACTED:") && All(IsPlain, name);
  }

  lemma MarkersHaveNoCp(name: string)
    requires name in [ENV, PRIVATE, BEARER, ANTHROPIC, SESSION]
    ensures NoCp(Inner(name))
  {
    assert NoCp(name);
    var t := Inner(name);
    forall i | 0 <= i < |t| - 1
      ensures !(t[i] == 'c' && t[i + 1] == 'p')
    {
      if i >= 9 { assert t[i] == name[i - 9] && t[i + 1] == name[i - 9 + 1]; }
    }
  }

  /** What makes a pattern blind: its words hold no bracket, and hold either a character no marker
    has or the pair c, p. */
  lemma BlindByWords(p: Pattern, q: Pattern)
    requires q.name in [ENV, PRIVATE, BEARER, ANTHROPIC, SESSION]
    requires forall w :: p.accepts(w) ==> Bracketless(w) && (!All(IsPlain, w) || !NoCp(w))
    ensures Blind(p, q)
  {
    var t := Inner(q.name);
    MarkersArePlain(q.name);
    MarkersHaveNoCp(q.name);
    forall i, j | 0 <= i < j <= |t|
      ensures !p.accepts(t[i..j])
    {
      var w := t[i..j];
      assert forall k :: 0 <= k < |w| ==> w[k] == t[i + k];
      assert All(IsPlain, w) && NoCp(w);
    }
  }

  lemma TableWords(e: Engine, p: Pattern, w: string)
    requires Fair(e) && p in DefaultPatterns(e) && p.accepts(w)
    ensures Bracketless(w) && (!All(IsPlain, w) || !NoCp(w))
  {
    var ps := DefaultPatterns(e);
    if p == ps[0] {
      EnvWords(e, w);
    } else if p == ps[1] {
      PrivateKeyWords(w);
    } else if p == ps[2] {
      BearerWords(e, w);
    } else if p == ps[3] {
      PrefixedWords("sk-ant-", w);
      assert w[2] == w[..7][2] == '-' && !IsPlain(w[2]);
    } else {
      PrefixedWords("cp_sess_", w);
      assert w[0] == w[..8][0] == 'c' && w[0 + 1] == w[..8][1] == 'p';
    }
  }

  /** None of the shipped patterns matches in any of their markers, or a bracket. */
  lemma DefaultTableIsBlind(e: Engine)
    requires Fair(e)
    ensures var ps := DefaultPatterns(e); forall i, j :: 0 <= i < |ps| && 0 <= j < |ps| ==> Blind(ps[i], ps[j])
  {
    hide IsPlain, NoCp;
    var ps := DefaultPatterns(e);
    forall i, j | 0 <= i < |ps| && 0 <= j < |ps|
      ensures Blind(ps[i], ps[j])
    {
      forall w | ps[i].accepts(w)
        ensures Bracketless(w) && (!All(IsPlain, w) || !NoCp(w))
      {
        TableWords(e, ps[i], w);
      }
      BlindByWords(ps[i], ps[j]);
    }
  }

  /** The shipped table is sealed, so its redaction reaches a normal form. */
  lemma DefaultTableIsSealed(e: Engine)
    requires Fair(e)
    ensures Sealed(DefaultPatterns(e))
  {
    hide Blind;
    DefaultTableIsBlind(e);
  }

  /** `\s` of Go's regular expressions. */
  predicate GoSpace(c: char) { c in "\t\n\r " || c as int == 12 }

  /** `(?i)` of Go's: K also from the Kelvin sign, S also from long s. */
  function GoFold(c: char): char {
    if 'A' <= c <= 'Z' then (c as int + 32) as char
    else if c == '\U{212A}' then 'k'
    else if c == '\U{17F}' then 's'
    else c
  }

  /** `(?i)` of Python's: I also from its dotted capital and its dotless small form. */
  function PythonFold(c: char): char {
    if c == '\U{130}' || c == '\U{131}' then 'i' else GoFold(c)
  }

  const GO := Engine(GoSpace, GoFold)

  /** Python's `\s` is the white space of `str.split`. */
  const PYTHON := Engine(IsSpace, PythonFold)

  lemma EnginesAreFair()
    ensures Fair(GO) && Fair(PYTHON)
  {
  }

  /** Redacting any text with the shipped table, in either engine, leaves nothing any of the five
    patterns matches; redacting twice is redacting once. */
  lemma ShippedRedaction(e: Engine, s: string)
    requires e == GO || e == PYTHON
    ensures var ps := DefaultPatterns(e);
            Normal(ps, RedactAll(ps, s)) && RedactAll(ps, RedactAll(ps, s)) == RedactAll(ps, s)
  {
    hide RedactAll, Normal, Sealed, DefaultPatterns, Fair;
    EnginesAreFair();
    DefaultTableIsSealed(e);
    NormalForm(DefaultPatterns(e), s);
    RedactionIsNormalisation(DefaultPatterns(e), s);
  }

  /** Each word set holds every word its expression spells: the parts put together match. */
  lemma SpelledWordsMatch(e: Engine, keyword: string, gap: string, capitals: string, body: string, bearerBody: string, pad: string)
    requires IsKeyword(e.fold, keyword) && All(e.space, gap) && All(IsCapital, capitals) && All(IsEquals, pad)
    requires body != "" && All(IsKeyChar, body) && bearerBody != "" && All(IsBearerChar, bearerBody)
    ensures EnvAssignment(e, keyword + gap + "=")
    ensures PrivateKey(BEGIN + capitals + PRIVATE_KEY)
    ensures gap != "" ==> BearerToken(e, "Bearer" + gap + bearerBody + pad)
    ensures PrefixedKey("sk-ant-", "sk-ant-" + body) && PrefixedKey("cp_sess_", "cp_sess_" + body)
  {
    hide IsKeyword, IsCapital, IsKeyChar, IsBearerChar;
    var env := keyword + gap + "=";
    assert env[..|keyword|] == keyword && env[|keyword|..|env| - 1] == gap;
    var key := BEGIN + capitals + PRIVATE_KEY;
    assert key[..|BEGIN|] == BEGIN && key[|key| - |PRIVATE_KEY|..] == PRIVATE_KEY;
    assert key[|BEGIN|..|key| - |PRIVATE_KEY|] == capitals;
    var bearer, a := "Bearer" + gap + bearerBody + pad, 6 + |gap|;
    var b := a + |bearerBody|;
    assert bearer[..6] == "Bearer" && bearer[6..a] == gap && bearer[a..b] == bearerBody && bearer[b..] == pad;
    assert ("sk-ant-" + body)[7..] == body && ("cp_sess_" + body)[8..] == body;
    assert ("sk-ant-" + body)[..7] == "sk-ant-" && ("cp_sess_" + body)[..8] == "cp_sess_";
  }
}

/** Token caches: check under the lock, mint without it, store under the lock, for any number of
  concurrent callers. One protocol serves both sources: the GitHub one takes the expiry from the
  server, the J-Quants one assumes a fixed lifetime from the moment of storing. */
module TokenCache {
  import opened Text

  datatype Cached = Cached(token: string, expiresAt: int)

  /** lifetime is None where the server states the expiry. Times are in milliseconds. */
  datatype Source = Source(margin: int, lifetime: Option<int>)

  const MINUTE_MS := 60_000
  const HOUR_MS := 60 * MINUTE_MS

  const GITHUB := Source(5 * MINUTE_MS, None)
  const JQUANTS := Source(30 * MINUTE_MS, Some(23 * HOUR_MS))

  predicate Fresh(src: Source, c: Option<Cached>, now: int) {
    c.Some? && c.value.expiresAt - now > src.margin
  }

  function Expiry(src: Source, stated: int, now: int): int {
    match src.lifetime
    case None => stated
    case Some(l) => now + l
  }

  /** The two critical sections of `Token` and `IDToken`. An empty cachedToken means no entry. */
  class TokenSource {
    const source: Source
    var cachedToken: string
    var expiresAt: int

    function Cache(): Option<Cached>
      reads this
    {
      if cachedToken == "" then None else Some(Cached(cachedToken, expiresAt))
    }

    constructor (source: Source)
      ensures this.source == source && Cache() == None
    {
      this.source := source;
      cachedToken, expiresAt := "", 0;
    }

    method CheckSection(now: int) returns (token: Option<string>)
      ensures token == if Fresh(source, Cache(), now) then Some(Cache().value.token) else None
    {
      if cachedToken != "" && expiresAt - now > source.margin {
        return Some(cachedToken);
      }
      return None;
    }

    method StoreSection(token: string, stated: int, now: int)
      requires token != ""
      modifies this
      ensures Cache() == Some(Cached(token, Expiry(source, stated, now)))
    {
      cachedToken := token;
      expiresAt := if source.lifetime.Some? then now + source.lifetime.value else stated;
    }

    /** One step of the callers described by w, with the cache kept by this object. */
    method Perform(w: World, s: Step) returns (w': World)
      requires TokensHeld(w) && Enabled(w, s) && Cache() == w.cache
      modifies this
      ensures w' == Take(source, w, s) && Cache() == w'.cache
    {
      match s
      case Tick(now) => w' := w.(now := now);
      case Begin(id) => w' := w.(callers := w.callers[id := Waiting]);
      case Check(id) =>
        var token := CheckSection(w.now);
        w' := w.(callers := w.callers[id := if token.Some? then FromCache(token.value) else Minting]);
      case MintAnswers(id, token, stated) => w' := w.(callers := w.callers[id := Holding(token, stated)]);
      case MintFails(id) => w' := w.(callers := w.callers[id := GaveUp]);
      case StoreToken(id) =>
        var c := w.callers[id];
        StoreSection(c.token, c.stated, w.now);
        w' := World(Cache(), w.now, w.callers[id := FromMint(c.token)]);
    }
  }

  // ---------------------------------------------------------------- callers

  datatype Caller =
    | Waiting
    | Minting
    | Holding(token: string, stated: int)
    | FromCache(token: string)
    | FromMint(token: string)
    | GaveUp

  datatype World = World(cache: Option<Cached>, now: int, callers: map<nat, Caller>)

  datatype Step =
    | Tick(now: int)
    | Begin(id: nat)
    | Check(id: nat)
    | MintAnswers(id: nat, token: string, stated: int)
    | MintFails(id: nat)
    | StoreToken(id: nat)

  /** An answer without a token is an error, so minted tokens are not empty. */
  predicate Enabled(w: World, s: Step) {
    match s
    case Tick(now) => w.now <= now
    case Begin(id) => id !in w.callers
    case Check(id) => id in w.callers && w.callers[id].Waiting?
    case MintAnswers(id, token, _) => id in w.callers && w.callers[id].Minting? && token != ""
    case MintFails(id) => id in w.callers && w.callers[id].Minting?
    case StoreToken(id) => id in w.callers && w.callers[id].Holding?
  }

  function Take(src: Source, w: World, s: Step): World
    requires Enabled(w, s)
  {
    match s
    case Tick(now) => w.(now := now)
    case Begin(id) => w.(callers := w.callers[id := Waiting])
    case Check(id) =>
      if Fresh(src, w.cache, w.now)
      then w.(callers := w.callers[id := FromCache(w.cache.value.token)])
      else w.(callers := w.callers[id := Minting])
    case MintAnswers(id, token, stated) => w.(callers := w.callers[id := Holding(token, stated)])
    case MintFails(id) => w.(callers := w.callers[id := GaveUp])
    case StoreToken(id) =>
      var c := w.callers[id];
      World(Some(Cached(c.token, Expiry(src, c.stated, w.now))), w.now, w.callers[id := FromMint(c.token)])
  }

  function Start(now: int): World { World(None, now, map[]) }

  ghost predicate CanRun(src: Source, now: int, steps: seq<Step>)
    decreases |steps|, 0
  {
    steps == [] || (
      var n := |steps| - 1;
      CanRun(src, now, steps[..n]) && Enabled(After(src, now, steps[..n]), steps[n]))
  }

  ghost function After(src: Source, now: int, steps: seq<Step>): World
    requires CanRun(src, now, steps)
    decreases |steps|, 1
  {
    if steps == [] then Start(now) else Take(src, After(src, now, steps[..|steps| - 1]), steps[|steps| - 1])
  }

  /** A caller that holds a token holds a real one, which the class needs, as "" means no entry to it. */
  ghost predicate TokensHeld(w: World) {
    forall id :: id in w.callers && w.callers[id].Holding? ==> w.callers[id].token != ""
  }

  lemma {:induction false} RunHoldsTokens(src: Source, now: int, steps: seq<Step>)
    requires CanRun(src, now, steps)
    ensures TokensHeld(After(src, now, steps))
  {
    if steps != [] { RunHoldsTokens(src, now, steps[..|steps| - 1]); }
  }

  // ---------------------------------------------------------------- mints, stores and checks of a run

  /** What a holding caller has is the answer of its mint. */
  lemma {:induction false} HeldFromMint(src: Source, now: int, steps: seq<Step>, id: nat) returns (i: nat)
    requires CanRun(src, now, steps)
    requires var w := After(src, now, steps); id in w.callers && w.callers[id].Holding?
    ensures i < |steps| && steps[i] == MintAnswers(id, After(src, now, steps).callers[id].token, After(src, now, steps).callers[id].stated)
  {
    var n := |steps| - 1;
    if steps[n].MintAnswers? && steps[n].id == id {
      i := n;
    } else {
      i := HeldFromMint(src, now, steps[..n], id);
    }
  }

  /** The clock before step k. */
  ghost function TimeAt(src: Source, now: int, steps: seq<Step>, k: nat): int
    requires k <= |steps| && CanRun(src, now, steps[..k])
  {
    After(src, now, steps[..k]).now
  }

  /** Step i is the answer of a mint, step k its storing, and no other token was stored before step m. */
  ghost predicate MintedAndStored(src: Source, now: int, steps: seq<Step>, i: nat, k: nat, m: nat) {
    && i < k < m <= |steps| && steps[i].MintAnswers? && steps[k] == StoreToken(steps[i].id)
    && CanRun(src, now, steps[..k])
    && forall j :: k < j < m ==> !steps[j].StoreToken?
  }

  /** Token and expiry in the cache come from one mint, the one stored last: the token is the one that
    mint answered with, and the expiry is what it stated, or the assumed lifetime from its storing. The
    cache is empty exactly as long as nothing was stored. */
  lemma {:induction false} CacheIsLastStore(src: Source, now: int, steps: seq<Step>) returns (i: nat, k: nat)
    requires CanRun(src, now, steps)
    ensures match After(src, now, steps).cache
            case None => forall j :: 0 <= j < |steps| ==> !steps[j].StoreToken?
            case Some(c) =>
              && MintedAndStored(src, now, steps, i, k, |steps|)
              && c == Cached(steps[i].token, Expiry(src, steps[i].stated, TimeAt(src, now, steps, k)))
  {
    i, k := 0, 0;
    if steps != [] {
      var n := |steps| - 1;
      var init := steps[..n];
      if steps[n].StoreToken? {
        k := n;
        i := HeldFromMint(src, now, init, steps[n].id);
      } else {
        i, k := CacheIsLastStore(src, now, init);
        if After(src, now, steps).cache.Some? { assert init[..k] == steps[..k]; }
      }
    }
  }

  /** Step m is the check of caller id that was served the token of mint i, which step k stored. */
  ghost predicate ServedAt(src: Source, now: int, steps: seq<Step>, id: nat, i: nat, k: nat, m: nat) {
    && MintedAndStored(src, now, steps, i, k, m) && m < |steps| && steps[m] == Check(id)
    && CanRun(src, now, steps[..m]) && CanRun(src, now, steps)
    && id in After(src, now, steps).callers && After(src, now, steps).callers[id].FromCache?
    && After(src, now, steps).callers[id].token == steps[i].token
  }

  /** A token served from the cache is the one the mint stored last before the check answered with, and
    its expiry, stated by that mint or assumed from its storing, was more than the margin away at the check. */
  lemma {:induction false} ServedIsFresh(src: Source, now: int, steps: seq<Step>, id: nat) returns (i: nat, k: nat, m: nat)
    requires CanRun(src, now, steps)
    requires var w := After(src, now, steps); id in w.callers && w.callers[id].FromCache?
    ensures ServedAt(src, now, steps, id, i, k, m)
    ensures Expiry(src, steps[i].stated, TimeAt(src, now, steps, k)) - TimeAt(src, now, steps, m) > src.margin
  {
    var n := |steps| - 1;
    var init := steps[..n];
    if steps[n] == Check(id) {
      m := n;
      i, k := CacheIsLastStore(src, now, init);
    } else {
      i, k, m := ServedIsFresh(src, now, init, id);
      assert init[..m] == steps[..m];
    }
    assert init[..k] == steps[..k];
  }

  /** With the shipped constants, a GitHub token from the cache had over five minutes left until the time
    the server stated for it. */
  lemma GitHubMargin(now: int, steps: seq<Step>, id: nat) returns (i: nat, k: nat, m: nat)
    requires CanRun(GITHUB, now, steps)
    requires var w := After(GITHUB, now, steps); id in w.callers && w.callers[id].FromCache?
    ensures ServedAt(GITHUB, now, steps, id, i, k, m)
    ensures steps[i].stated - TimeAt(GITHUB, now, steps, m) > 5 * MINUTE_MS
  {
    hide CanRun;
    i, k, m := ServedIsFresh(GITHUB, now, steps, id);
  }

  /** A J-Quants token from the cache had been stored less than twenty-two and a half hours before. */
  lemma JQuantsMargin(now: int, steps: seq<Step>, id: nat) returns (i: nat, k: nat, m: nat)
    requires CanRun(JQUANTS, now, steps)
    requires var w := After(JQUANTS, now, steps); id in w.callers && w.callers[id].FromCache?
    ensures ServedAt(JQUANTS, now, steps, id, i, k, m)
    ensures TimeAt(JQUANTS, now, steps, m) - TimeAt(JQUANTS, now, steps, k) < 22 * HOUR_MS + 30 * MINUTE_MS
  {
    hide CanRun;
    i, k, m := ServedIsFresh(JQUANTS, now, steps, id);
  }

  lemma {:induction false} PrefixRuns(src: Source, now: int, steps: seq<Step>, k: nat)
    requires CanRun(src, now, steps) && k <= |steps|
    ensures CanRun(src, now, steps[..k]) && TimeAt(src, now, steps, k) <= After(src, now, steps).now
    decreases |steps|
  {
    if k < |steps| {
      PrefixRuns(src, now, steps[..|steps| - 1], k);
      assert steps[..|steps| - 1][..k] == steps[..k];
    } else {
      assert steps[..k] == steps;
    }
  }

  lemma TimesIncrease(src: Source, now: int, steps: seq<Step>, l: nat, k: nat)
    requires CanRun(src, now, steps) && l <= k <= |steps|
    ensures CanRun(src, now, steps[..l]) && CanRun(src, now, steps[..k])
    ensures TimeAt(src, now, steps, l) <= TimeAt(src, now, steps, k)
  {
    hide CanRun, After;
    PrefixRuns(src, now, steps, k);
    PrefixRuns(src, now, steps[..k], l);
    assert steps[..k][..l] == steps[..l];
  }

  /** After its mint has answered, a caller never mints again. */
  lemma {:induction false} PastMinting(src: Source, now: int, steps: seq<Step>, i: nat)
    requires CanRun(src, now, steps) && i < |steps| && steps[i].MintAnswers?
    ensures var w, id := After(src, now, steps), steps[i].id; id in w.callers && (w.callers[id].Holding? || w.callers[id].FromMint?)
    ensures forall j :: i < j < |steps| && steps[j].MintAnswers? ==> steps[j].id != steps[i].id
  {
    var n := |steps| - 1;
    if i < n {
      PastMinting(src, now, steps[..n], i);
      assert forall j :: 0 <= j < n ==> steps[..n][j] == steps[j];
    }
  }

  /** So the mint behind the last store, and the store, are one pair of steps only. */
  lemma OneOrigin(src: Source, now: int, steps: seq<Step>, m: nat, i: nat, k: nat, i': nat, k': nat)
    requires CanRun(src, now, steps) && MintedAndStored(src, now, steps, i, k, m) && MintedAndStored(src, now, steps, i', k', m)
    ensures i == i' && k == k'
  {
    hide CanRun;
    PastMinting(src, now, steps, i);
    PastMinting(src, now, steps, i');
  }

  /** The expiry of the token stored last before step m is more than the margin away at step m. */
  ghost predicate FreshAt(src: Source, now: int, steps: seq<Step>, i: nat, k: nat, m: nat) {
    && MintedAndStored(src, now, steps, i, k, m) && CanRun(src, now, steps[..m])
    && Expiry(src, steps[i].stated, TimeAt(src, now, steps, k)) - TimeAt(src, now, steps, m) > src.margin
  }

  /** For either kind of source a check is answered from the cache if and only if the mint stored last
    before it stated, or is assumed to have, an expiry more than the margin after the check. Otherwise the
    caller goes on to mint. */
  lemma ServedIffFresh(src: Source, now: int, steps: seq<Step>, m: nat, id: nat)
    requires CanRun(src, now, steps) && |steps| == m + 1 && steps[m] == Check(id)
    ensures id in After(src, now, steps).callers
    ensures After(src, now, steps).callers[id].FromCache? <==> exists i: nat, k: nat :: FreshAt(src, now, steps, i, k, m)
    ensures !After(src, now, steps).callers[id].FromCache? ==> After(src, now, steps).callers[id] == Minting
  {
    var init := steps[..m];
    var i, k := CacheIsLastStore(src, now, init);
    var w := After(src, now, init);
    if w.cache.Some? {
      assert init[..k] == steps[..k];
      assert MintedAndStored(src, now, steps, i, k, m);
      assert Fresh(src, w.cache, w.now) <==> FreshAt(src, now, steps, i, k, m);
      forall i': nat, k': nat | FreshAt(src, now, steps, i', k', m)
        ensures i' == i && k' == k
      {
        hide CanRun, After;
        OneOrigin(src, now, steps, m, i, k, i', k');
      }
    } else {
      forall i': nat, k': nat
        ensures !MintedAndStored(src, now, steps, i', k', m)
      {
        if k' < m { assert init[k'] == steps[k']; }
      }
    }
  }

  /** Every mint stated an expiry at least life after its storing. */
  ghost predicate Lasts(src: Source, now: int, steps: seq<Step>, life: int) {
    forall i: nat, k: nat :: i < k < |steps| && steps[i].MintAnswers? && steps[k] == StoreToken(steps[i].id) && CanRun(src, now, steps[..k])
      ==> Expiry(src, steps[i].stated, TimeAt(src, now, steps, k)) >= TimeAt(src, now, steps, k) + life
  }

  /** No needless mints: if stored tokens last at least life from their storing, a check that goes on to
    mint comes no sooner than life minus margin after every store before it. */
  lemma NoNeedlessMint(src: Source, now: int, steps: seq<Step>, m: nat, id: nat, l: nat, life: int)
    requires CanRun(src, now, steps) && |steps| == m + 1 && steps[m] == Check(id)
    requires Lasts(src, now, steps, life) && l < m && steps[l].StoreToken? && CanRun(src, now, steps[..l]) && CanRun(src, now, steps[..m])
    requires id in After(src, now, steps).callers && After(src, now, steps).callers[id] == Minting
    ensures TimeAt(src, now, steps, m) >= TimeAt(src, now, steps, l) + life - src.margin
  {
    ServedIffFresh(src, now, steps, m, id);
    var init := steps[..m];
    var i, k := CacheIsLastStore(src, now, init);
    assert init[l] == steps[l] && init[..k] == steps[..k];
    hide CanRun, After;
    assert MintedAndStored(src, now, steps, i, k, m);
    assert !FreshAt(src, now, steps, i, k, m);
    TimesIncrease(src, now, steps, l, k);
  }

  /** Step k stored a token, less than lifetime minus margin before step m. */
  ghost predicate StoredShortlyBefore(src: Source, now: int, steps: seq<Step>, k: nat, m: nat)
    requires src.lifetime.Some?
  {
    && k < m <= |steps| && steps[k].StoreToken? && CanRun(src, now, steps[..k]) && CanRun(src, now, steps[..m])
    && TimeAt(src, now, steps, m) - TimeAt(src, now, steps, k) < src.lifetime.value - src.margin
  }

  /** Under an assumed lifetime a check is answered from the cache if and only if some token was stored
    less than lifetime minus margin before it, whoever stored it: no caller mints while one is fresh. */
  lemma NoMintWhileFresh(src: Source, now: int, steps: seq<Step>, m: nat, id: nat)
    requires CanRun(src, now, steps) && |steps| == m + 1 && steps[m] == Check(id) && src.lifetime.Some?
    ensures id in After(src, now, steps).callers
    ensures After(src, now, steps).callers[id].FromCache? <==> exists k: nat :: StoredShortlyBefore(src, now, steps, k, m)
  {
    var init := steps[..m];
    var i, k := CacheIsLastStore(src, now, init);
    var w := After(src, now, init);
    if Fresh(src, w.cache, w.now) {
      assert init[..k] == steps[..k];
      assert StoredShortlyBefore(src, now, steps, k, m);
    } else if w.cache.Some? {
      assert init[..k] == steps[..k];
      forall l: nat
        ensures !StoredShortlyBefore(src, now, steps, l, m)
      {
        if l < m && steps[l].StoreToken? {
          assert init[l] == steps[l];
          TimesIncrease(src, now, steps, l, k);
        }
      }
    } else {
      forall l: nat
        ensures !StoredShortlyBefore(src, now, steps, l, m)
      {
        if l < m { assert init[l] == steps[l]; }
      }
    }
  }

  /** The mint stored last before step m stated a time more than five minutes after it. */
  ghost predicate FiveMinutesLeft(now: int, steps: seq<Step>, i: nat, k: nat, m: nat) {
    && MintedAndStored(GITHUB, now, steps, i, k, m) && CanRun(GITHUB, now, steps[..m])
    && steps[i].stated - TimeAt(GITHUB, now, steps, m) > 300_000
  }

  /** A GitHub token is served from the cache exactly if over five minutes are left of the last one stored. */
  lemma GitHubServed(now: int, steps: seq<Step>, m: nat, id: nat)
    requires CanRun(GITHUB, now, steps) && |steps| == m + 1 && steps[m] == Check(id)
    ensures id in After(GITHUB, now, steps).callers
    ensures After(GITHUB, now, steps).callers[id].FromCache? <==> exists i: nat, k: nat :: FiveMinutesLeft(now, steps, i, k, m)
  {
    hide CanRun, After, MintedAndStored;
    ServedIffFresh(GITHUB, now, steps, m, id);
    assert forall i: nat, k: nat :: FiveMinutesLeft(now, steps, i, k, m) <==> FreshAt(GITHUB, now, steps, i, k, m);
  }

  /** Step k stored a token less than twenty-two and a half hours before step m. */
  ghost predicate StoredToday(now: int, steps: seq<Step>, k: nat, m: nat) {
    && k < m <= |steps| && steps[k].StoreToken? && CanRun(JQUANTS, now, steps[..k]) && CanRun(JQUANTS, now, steps[..m])
    && TimeAt(JQUANTS, now, steps, m) - TimeAt(JQUANTS, now, steps, k) < 81_000_000
  }

  /** A J-Quants token is served from the cache exactly if one was stored within that time. */
  lemma JQuantsServed(now: int, steps: seq<Step>, m: nat, id: nat)
    requires CanRun(JQUANTS, now, steps) && |steps| == m + 1 && steps[m] == Check(id)
    ensures id in After(JQUANTS, now, steps).callers
    ensures After(JQUANTS, now, steps).callers[id].FromCache? <==> exists k: nat :: StoredToday(now, steps, k, m)
  {
    hide CanRun, After;
    NoMintWhileFresh(JQUANTS, now, steps, m, id);
    assert forall k: nat :: StoredToday(now, steps, k, m) <==> StoredShortlyBefore(JQUANTS, now, steps, k, m);
  }
}
